/**
  What getblk, bread and the writing of a block come to, stated on the buffers
  alone: when an activity is given which buffer, when it waits, and what a whole
  read or write leaves.
 */
module CacheLaws {
  import opened BufferLists
  import opened CacheModel
  import opened CacheSteps
  import RequestQueue

  // ---------- getblk ----------

  predicate Free(st: State, b: nat) {
    b < |st.bufs| && st.bufs[b].count == 0
  }

  // A buffer that getblk may take at once.
  predicate Ripe(st: State, b: nat) {
    Free(st, b) && !st.bufs[b].lock && !st.bufs[b].dirt
  }

  /** Activity `i` now holds buffer `b` for block `n`, unread, and nothing else changed. */
  predicate Gets(st: State, t: State, i: nat, b: nat, n: Name) {
    && i < |st.pc| && b < |st.bufs| && b < |st.names|
    && t == st.(pc := st.pc[i := Holding(b)], names := st.names[b := n],
                bufs := st.bufs[b := Buf(1, false, false, false, st.bufs[b].data)])
  }

  /** Activity `i` moved to `p`, and nothing else changed. */
  predicate Only(st: State, t: State, i: nat, p: Pc) {
    i < |st.pc| && t == st.(pc := st.pc[i := p])
  }

  /** A cached block: its buffer, held once more, at once if it is unlocked. */
  lemma GetsCached(st: State, t: State, i: nat, n: Name, b: nat)
    requires Follows(st, t, Continue(i)) && i < |st.pc| && st.pc[i] == Lookup(n) && b < |st.bufs|
    requires Sized(st) && st.names[b] == n
    ensures t == st.(pc := st.pc[i := if st.bufs[b].lock then HashWait(n, b) else Holding(b)],
                     bufs := st.bufs[b := st.bufs[b].(count := st.bufs[b].count + 1)])
  {
    assert PcOk(st, st.pc[i], i) && Unique(st.names);
    forall c: nat | c < |st.bufs| && st.names[c] == n ensures c == b {}
    assert st.owner[b := st.owner[b]] == st.owner;
  }

  /** A block that is not cached: a buffer that nobody holds, unlocked and clean, is taken if there is one; FreeWait is
      for when all are held; otherwise the activity waits for one that is being read or has to be written. */
  lemma GetsFree(st: State, t: State, i: nat, n: Name)
    requires Follows(st, t, Continue(i)) && i < |st.pc| && st.pc[i] == Lookup(n)
    requires forall b: nat :: b < |st.names| ==> st.names[b] != n
    ensures (exists b: nat :: Ripe(st, b)) <==> (exists b: nat :: Ripe(st, b) && Gets(st, t, i, b, n))
    ensures (forall b: nat :: !Free(st, b)) <==> Only(st, t, i, FreeWait(n))
    ensures (exists b: nat :: Free(st, b)) && (forall b: nat :: !Ripe(st, b)) ==>
              exists b: nat :: Free(st, b) && Only(st, t, i, VictimWait(n, b))
                && (st.bufs[b].dirt ==> forall c: nat :: Free(st, c) ==> st.bufs[c].dirt)
                && (st.bufs[b].dirt && st.bufs[b].lock ==> forall c: nat :: Free(st, c) ==> st.bufs[c].lock)
  {
    hide Follows, Inv, Victimized, Badness;
    AtTop(st, t, i, n);
    if v: nat :| Best(st, v) {
      var w: nat :| Best(st, w) && t == Victimized(st, i, n, w);
      VictimIs(st, t, i, n, w);
      assert Free(st, w);
      BestIs(st, w);
    } else {
      forall b: nat ensures !Free(st, b) {
        if Free(st, b) { var w := LeastBad(st, b); }
      }
    }
  }

  lemma AtTop(st: State, t: State, i: nat, n: Name)
    requires Follows(st, t, Continue(i)) && i < |st.pc| && st.pc[i] == Lookup(n)
    ensures Sized(st) && LooksUp(st, t, i, n)
  {
    assert PcOk(st, st.pc[i], i);
    hide Inv, LooksUp;
  }

  lemma VictimIs(st: State, t: State, i: nat, n: Name, b: nat)
    requires Sized(st) && i < |st.pc| && Free(st, b) && t == Victimized(st, i, n, b)
    requires forall c: nat :: c < |st.names| ==> st.names[c] != n
    ensures t.pc[i] == (if Ripe(st, b) then Holding(b) else VictimWait(n, b))
    ensures if Ripe(st, b) then Gets(st, t, i, b, n) else Only(st, t, i, VictimWait(n, b))
  {
    assert !Cached(st, n);
    assert st.owner[b := st.owner[b]] == st.owner;
  }

  lemma BestIs(st: State, b: nat)
    requires Best(st, b)
    ensures st.bufs[b].dirt ==> forall c: nat :: Free(st, c) ==> st.bufs[c].dirt
    ensures st.bufs[b].dirt && st.bufs[b].lock ==> forall c: nat :: Free(st, c) ==> st.bufs[c].lock
    ensures !Ripe(st, b) ==> forall c: nat :: !Ripe(st, c)
  {
    forall c: nat | Free(st, c) ensures Badness(st.bufs[b]) <= Badness(st.bufs[c]) {}
  }

  lemma {:induction false} LeastBad(st: State, b: nat) returns (w: nat)
    requires Free(st, b)
    ensures Best(st, w)
    decreases Badness(st.bufs[b])
  {
    if c: nat :| Free(st, c) && Badness(st.bufs[c]) < Badness(st.bufs[b]) {
      w := LeastBad(st, c);
    } else {
      w := b;
    }
  }

  /** The chosen buffer once its lock is free: taken if still clean, unheld and wanted; otherwise written first, or
      the search begins again. */
  lemma GetsChosen(st: State, t: State, i: nat, n: Name, b: nat)
    requires Follows(st, t, Continue(i)) && i < |st.pc| && st.pc[i] == VictimWait(n, b)
    ensures Ripe(st, b) && (forall c: nat :: c < |st.names| ==> st.names[c] != n) <==> Gets(st, t, i, b, n)
    ensures b < |st.bufs| && (st.bufs[b].lock || (Free(st, b) && st.bufs[b].dirt)) <==> t == st
    ensures Ripe(st, b) && (exists c: nat :: c < |st.names| && st.names[c] == n) ==> Only(st, t, i, Lookup(n))
    ensures b < |st.bufs| && !st.bufs[b].lock && !Free(st, b) ==> Only(st, t, i, Lookup(n))
  {
    assert PcOk(st, st.pc[i], i) && Sized(st);
    hide Inv;
    assert Only(st, t, i, Lookup(n)) ==> t.pc[i] == Lookup(n);
    assert Gets(st, t, i, b, n) ==> t.pc[i] == Holding(b);
    if Ripe(st, b) && !Cached(st, n) { assert Gets(st, t, i, b, n); }
  }

  ghost predicate NotCached(st: State, n: Name) {
    forall b: nat :: b < |st.names| ==> st.names[b] != n
  }

  /** What getblk does for activity `i` with its block `n`, when it is let run. */
  ghost predicate Served(st: State, t: State, i: nat) {
    i < |st.pc| && i < |t.pc| && |st.names| == |st.bufs| ==>
      && (st.pc[i].Lookup? ==> var n := st.pc[i].name;
            && (forall b: nat :: b < |st.bufs| && st.names[b] == n ==> t.pc[i] == if st.bufs[b].lock then HashWait(n, b) else Holding(b))
            && (NotCached(st, n) && (exists b: nat :: Ripe(st, b)) ==> exists b: nat :: Ripe(st, b) && Gets(st, t, i, b, n))
            && (NotCached(st, n) ==> (t.pc[i] == FreeWait(n) <==> forall b: nat :: !Free(st, b))))
      && (st.pc[i].VictimWait? ==> var n, b := st.pc[i].name, st.pc[i].b;
            (Ripe(st, b) && NotCached(st, n) <==> Gets(st, t, i, b, n)))
      && (st.pc[i].FreeWait? ==> Only(st, t, i, Lookup(st.pc[i].name)))
  }

  lemma AlwaysServed(st: State, t: State, i: nat)
    requires Follows(st, t, Continue(i))
    ensures Served(st, t, i)
  {
    if i < |st.pc| {
      assert PcOk(st, st.pc[i], i) && Sized(st);
      match st.pc[i]
      case Lookup(n) => {
        forall b: nat | b < |st.bufs| && st.names[b] == n
          ensures t.pc[i] == if st.bufs[b].lock then HashWait(n, b) else Holding(b)
        {
          GetsCached(st, t, i, n, b);
        }
        if NotCached(st, n) { GetsFree(st, t, i, n); }
      }
      case VictimWait(n, b) => {
        GetsChosen(st, t, i, n, b);
      }
      case _ =>
    }
  }

  // ---------- reading and writing ----------

  /** An activity that waits for a buffer's lock stays exactly while the buffer is locked. */
  lemma StaysForLock(st: State, t: State, i: nat, b: nat)
    requires Follows(st, t, Continue(i)) && i < |st.pc|
    requires (st.pc[i].HashWait? && st.pc[i].b == b) || st.pc[i] == ReadLock(b) || st.pc[i] == ReadWait(b) || st.pc[i] == WriteLock(b)
    ensures b < |st.bufs| && (t == st <==> st.bufs[b].lock)
    ensures t != st && st.pc[i].HashWait? ==> Only(st, t, i, Holding(b)) && st.names[b] == st.pc[i].name
    ensures t != st && st.pc[i].ReadWait? ==> Only(st, t, i, Reading(b)) && st.bufs[b].uptodate
    ensures t != st && st.pc[i].ReadLock? && st.bufs[b].uptodate ==> Only(st, t, i, ReadWait(b))
    ensures t != st && st.pc[i].WriteLock? && !st.bufs[b].dirt ==> Only(st, t, i, Idle)
    ensures t != st && ((st.pc[i].ReadLock? && !st.bufs[b].uptodate) || (st.pc[i].WriteLock? && st.bufs[b].dirt)) ==>
              && t.pc == st.pc[i := if st.pc[i].ReadLock? then ReadSlot(b) else WriteSlot(b)]
              && t.bufs == st.bufs[b := st.bufs[b].(lock := true)] && t.names == st.names && t.queue == st.queue && t.disk == st.disk
  {
    assert PcOk(st, st.pc[i], i) && BufOk(st, b);
    hide Inv;
    if !st.bufs[b].lock { assert t.pc[i] != st.pc[i]; }
  }

  lemma AtSlot(st: State, t: State, i: nat, b: nat, write: bool)
    requires Follows(st, t, Continue(i)) && i < |st.pc| && st.pc[i] == if write then WriteSlot(b) else ReadSlot(b)
    ensures b < |st.bufs| && b < |st.names| && Sized(st)
    ensures t == st ==> |st.queue| >= if write then 21 else 32
    ensures t != st ==> t == Upd(st, i, if write then Idle else ReadWait(b), b, st.bufs[b].(dirt := false), Queued(write))
                               .(queue := InsertReq(st.queue, Req(b, write, st.names[b])))
  {
    assert PcOk(st, st.pc[i], i) && Sized(st);
    hide Inv, InsertReq, LooksUp, Victimized, Locks;
    assert InsertReq(st.queue, Req(b, write, st.names[b])) != st.queue by {
      var p := InsertReqAt(st.queue, Req(b, write, st.names[b]));
    }
  }

  /** A transfer that found a slot is in the queue with its buffer's block, and a written buffer is clean from then on. */
  lemma StaysForSlot(st: State, t: State, i: nat, b: nat, write: bool)
    requires Follows(st, t, Continue(i)) && i < |st.pc| && st.pc[i] == if write then WriteSlot(b) else ReadSlot(b)
    ensures b < |st.bufs| && b < |st.names| && (t == st ==> |st.queue| >= if write then 21 else 32)
    ensures t != st ==>
              && multiset(t.queue) == multiset(st.queue) + multiset{Req(b, write, st.names[b])}
              && t.pc == st.pc[i := if write then Idle else ReadWait(b)]
              && t.bufs == st.bufs[b := st.bufs[b].(dirt := false)] && t.names == st.names && t.disk == st.disk
  {
    hide Follows, Inv, InsertReq, PcOk;
    AtSlot(st, t, i, b, write);
    if t != st {
      var r := Req(b, write, st.names[b]);
      var p := InsertReqAt(st.queue, r);
      assert st.queue == st.queue[..p] + st.queue[p..];
    }
  }

  // ---------- what a caller does ----------

  /** getblk and the writing of a buffer begin with an idle activity, bread with one that holds its buffer. */
  lemma BeginsActs(st: State, t: State, i: nat, n: Name, b: nat)
    requires Inv(st) && i < |st.pc| && n.dev != 0
    ensures Follows(st, t, Begin(i, n)) ==> Only(st, t, i, if st.pc[i] == Idle then Lookup(n) else st.pc[i])
    ensures Follows(st, t, Sync(i, b)) && b < |st.bufs| ==>
              Only(st, t, i, if st.pc[i] == Idle && st.bufs[b].dirt then WriteLock(b) else st.pc[i])
    ensures Follows(st, t, StartRead(i)) && st.pc[i] == Holding(b) ==>
              b < |st.bufs| && Only(st, t, i, if st.bufs[b].uptodate then Reading(b) else ReadLock(b))
  {
    assert PcOk(st, st.pc[i], i) && Sized(st);
    assert st.pc[i := st.pc[i]] == st.pc;
    hide Inv;
  }

  /** A holder stores into its buffer, gives back one hold of it, or drops it, once it is unlocked. */
  lemma HolderActs(st: State, t: State, i: nat, b: nat, v: Data)
    requires Inv(st) && i < |st.pc| && (st.pc[i] == Holding(b) || st.pc[i] == Reading(b))
    ensures b < |st.bufs| && st.bufs[b].count >= 1
    ensures Follows(st, t, Store(i, v)) && st.pc[i].Reading? ==>
              t == st.(bufs := st.bufs[b := Buf(st.bufs[b].count, st.bufs[b].lock, true, true, v)])
    ensures Follows(st, t, Overwrite(i, v)) && st.pc[i].Holding? && st.bufs[b].count == 1 && !st.bufs[b].lock ==>
              t == st.(pc := st.pc[i := Reading(b)], bufs := st.bufs[b := Buf(1, false, true, true, v)])
    ensures Follows(st, t, Release(i)) ==>
              if st.bufs[b].lock then t == st
              else t == st.(pc := st.pc[i := Idle], bufs := st.bufs[b := st.bufs[b].(count := st.bufs[b].count - 1)])
    ensures Follows(st, t, FreeBlock(i)) ==>
              if st.bufs[b].lock || st.bufs[b].count != 1 then t == st
              else t == st.(pc := st.pc[i := Idle], bufs := st.bufs[b := Buf(0, false, false, false, st.bufs[b].data)])
  {
    assert PcOk(st, st.pc[i], i) && Sized(st);
    HolderCounts(st, i, b);
    assert st.owner[b := st.owner[b]] == st.owner && st.pc[i := st.pc[i]] == st.pc;
    hide Inv;
  }

  // ---------- a whole read, a whole write ----------

  lemma RanOn(states: seq<State>, choices: seq<Choice>)
    requires IsRun(states, choices)
    ensures |states| == |choices| + 1
    ensures forall k: nat :: k < |choices| ==> Follows(states[k], states[k + 1], choices[k]) && Sized(states[k])
  {
    forall k: nat | k < |choices| ensures Follows(states[k], states[k + 1], choices[k]) && Sized(states[k]) {
      RunKeeps(states, choices, k);
      assert StepAt(states, choices, k);
    }
  }

  /** With a clean buffer to spare and nothing else going on, reading a block ends with its data from the disk. */
  lemma BreadReads(states: seq<State>, i: nat, n: Name, v: Data)
    requires IsRun(states, [Begin(i, n), Continue(i), StartRead(i), Continue(i), Continue(i), DiskDone(v), Continue(i)])
    requires i < |states[0].pc| && states[0].pc[i] == Idle && states[0].queue == [] && n.dev != 0 && NotCached(states[0], n)
    requires exists b: nat :: Ripe(states[0], b)
    ensures exists b: nat :: Ripe(states[0], b) && i < |states[7].pc| && states[7].pc[i] == Reading(b)
                             && b < |states[7].names| && states[7].names[b] == n
                             && b < |states[7].bufs| && states[7].bufs[b] == Buf(1, false, false, true, Disk(states[0], n))
  {
    var choices := [Begin(i, n), Continue(i), StartRead(i), Continue(i), Continue(i), DiskDone(v), Continue(i)];
    hide Follows, Inv, IsRun, Disk, Ripe, NotCached, Gets;
    RanOn(states, choices);
    var b := BreadGets(states[0], states[1], states[2], i, n);
    BreadRest(states[0], states[2], states[3], states[4], states[5], states[6], states[7], i, b, n, v);
  }

  lemma BreadRest(s0: State, s2: State, s3: State, s4: State, s5: State, s6: State, s7: State, i: nat, b: nat, n: Name, v: Data)
    requires Follows(s2, s3, StartRead(i)) && Follows(s3, s4, Continue(i)) && Follows(s4, s5, Continue(i))
    requires Follows(s5, s6, DiskDone(v)) && Follows(s6, s7, Continue(i)) && Sized(s2) && Sized(s5)
    requires i < |s0.pc| && Gets(s0, s2, i, b, n) && s0.queue == [] && b < |s0.bufs| && !s0.bufs[b].lock
    ensures i < |s7.pc| && s7.pc[i] == Reading(b)
    ensures b < |s7.names| && s7.names[b] == n
    ensures b < |s7.bufs| && s7.bufs[b] == Buf(1, false, false, true, Disk(s0, n))
  {
    hide Follows, Inv;
    BreadAsks(s2, s3, s4, s5, i, b);
    BreadEnds(s5, s6, s7, i, b, v);
  }

  lemma BreadGets(s0: State, s1: State, s2: State, i: nat, n: Name) returns (b: nat)
    requires Follows(s0, s1, Begin(i, n)) && Follows(s1, s2, Continue(i))
    requires i < |s0.pc| && s0.pc[i] == Idle && n.dev != 0 && NotCached(s0, n) && exists b: nat :: Ripe(s0, b)
    ensures Ripe(s0, b) && Gets(s0, s2, i, b, n)
  {
    assert s1 == s0.(pc := s0.pc[i := Lookup(n)]);
    var c: nat :| Ripe(s0, c);
    assert Ripe(s1, c);
    GetsFree(s1, s2, i, n);
    b :| Ripe(s1, b) && Gets(s1, s2, i, b, n);
  }

  lemma BreadAsks(s2: State, s3: State, s4: State, s5: State, i: nat, b: nat)
    requires Follows(s2, s3, StartRead(i)) && Follows(s3, s4, Continue(i)) && Follows(s4, s5, Continue(i))
    requires i < |s2.pc| && s2.pc[i] == Holding(b) && s2.queue == [] && Sized(s2) && b < |s2.bufs|
    requires !s2.bufs[b].lock && !s2.bufs[b].uptodate && !s2.bufs[b].dirt
    ensures s5.pc == s2.pc[i := ReadWait(b)] && s5.names == s2.names && s5.disk == s2.disk
    ensures s5.bufs == s2.bufs[b := s2.bufs[b].(lock := true)] && s5.queue == [Req(b, false, s2.names[b])]
  {
    assert s3.pc == s2.pc[i := ReadLock(b)] && s3.bufs == s2.bufs && s3.names == s2.names && s3.queue == [] && s3.disk == s2.disk;
    StaysForLock(s3, s4, i, b);
    StaysForSlot(s4, s5, i, b, false);
    assert s5.queue == [Req(b, false, s2.names[b])] by {
      assert multiset(s5.queue) == multiset{Req(b, false, s2.names[b])};
      assert |multiset(s5.queue)| == 1;
      assert s5.queue[0] in multiset(s5.queue);
    }
  }

  lemma BreadEnds(s5: State, s6: State, s7: State, i: nat, b: nat, v: Data)
    requires Follows(s5, s6, DiskDone(v)) && Follows(s6, s7, Continue(i)) && Sized(s5)
    requires i < |s5.pc| && s5.pc[i] == ReadWait(b) && b < |s5.bufs| && s5.queue == [Req(b, false, s5.names[b])]
    ensures s7.pc == s5.pc[i := Reading(b)] && s7.names == s5.names
    ensures s7.bufs == s5.bufs[b := s5.bufs[b].(lock := false, uptodate := true, data := Disk(s5, s5.names[b]))]
  {
    assert s6.pc == s5.pc && !s6.bufs[b].lock;
    StaysForLock(s6, s7, i, b);
  }

  /** A dirty buffer that is written out: the disk has its data, and it is clean. */
  lemma SyncWrites(s0: State, s1: State, s2: State, s3: State, s4: State, i: nat, b: nat, v: Data)
    requires Follows(s0, s1, Sync(i, b)) && Follows(s1, s2, Continue(i)) && Follows(s2, s3, Continue(i)) && Follows(s3, s4, DiskDone(v))
    requires i < |s0.pc| && s0.pc[i] == Idle && s0.queue == [] && Sized(s0) && b < |s0.bufs| && s0.bufs[b].dirt && !s0.bufs[b].lock
    ensures s4.disk == s0.disk[s0.names[b] := s0.bufs[b].data] && s4.bufs == s0.bufs[b := s0.bufs[b].(dirt := false)]
    ensures s4.names == s0.names && s4.pc == s0.pc && s4.queue == []
  {
    assert s1 == s0.(pc := s0.pc[i := WriteLock(b)]);
    StaysForLock(s1, s2, i, b);
    StaysForSlot(s2, s3, i, b, true);
    assert BufOk(s0, b);
    assert s3.queue == [Req(b, true, s0.names[b])] by {
      assert multiset(s3.queue) == multiset{Req(b, true, s0.names[b])};
      assert |multiset(s3.queue)| == 1;
      assert s3.queue[0] in multiset(s3.queue);
    }
    assert s4.pc == s0.pc;
  }

  /** An activity that waits for a dirty buffer gets it once another has written it, and the disk keeps its data. */
  lemma EvictsWritten(states: seq<State>, i: nat, j: nat, n: Name, b: nat, v: Data)
    requires IsRun(states, [Sync(j, b), Continue(j), Continue(j), DiskDone(v), Continue(i)])
    requires i < |states[0].pc| && j < |states[0].pc| && states[0].pc[i] == VictimWait(n, b) && states[0].pc[j] == Idle
    requires states[0].queue == [] && NotCached(states[0], n) && Free(states[0], b) && states[0].bufs[b].dirt && !states[0].bufs[b].lock
    ensures Gets(states[4], states[5], i, b, n) && b < |states[0].names|
    ensures states[5].disk == states[0].disk[states[0].names[b] := states[0].bufs[b].data]
  {
    var choices := [Sync(j, b), Continue(j), Continue(j), DiskDone(v), Continue(i)];
    hide Follows, Inv, IsRun;
    RanOn(states, choices);
    SyncWrites(states[0], states[1], states[2], states[3], states[4], j, b, v);
    GetsChosen(states[4], states[5], i, n, b);
  }

  // ---------- what a reader sees ----------

  /** A choice by a holder of block `n` that may change it. */
  ghost predicate Changes(st: State, c: Choice, n: Name) {
    (c.Store? || c.Overwrite? || c.FreeBlock?) && c.i < |st.pc| && Has(st, st.pc[c.i]) && st.names[st.pc[c.i].b] == n
  }

  lemma StepChanges(st: State, t: State, c: Choice, n: Name)
    requires Shows(st, t, EventOf(st, c)) && n.dev != 0
    ensures !Changes(st, c, n) ==> Current(t, n) == Current(st, n)
    ensures Changes(st, c, n) && c.Store? && st.pc[c.i].Reading? ==> Current(t, n) == c.v
  {
    hide Current, Disk;
  }

  lemma {:induction false} Unchanged(states: seq<State>, choices: seq<Choice>, m: nat, k: nat, n: Name)
    requires IsRun(states, choices) && m <= k <= |choices| && n.dev != 0
    requires forall x: nat :: m <= x < k ==> !Changes(states[x], choices[x], n)
    ensures Current(states[k], n) == Current(states[m], n)
    decreases k
  {
    hide Inv, Follows, StepAt, KeepsHeld, Shows, Changes, Current;
    if m < k {
      Unchanged(states, choices, m, k - 1, n);
      RunKeeps(states, choices, k - 1);
      StepChanges(states[k - 1], states[k], choices[k - 1], n);
    }
  }

  /** Whatever is evicted, written back and read again in between, a reader of a block finds what was last stored in it. */
  lemma ReaderSeesStore(states: seq<State>, choices: seq<Choice>, m: nat, k: nat, j: nat, b: nat, v: Data, i: nat, c: nat)
    requires IsRun(states, choices) && m < k <= |choices| && choices[m] == Store(j, v)
    requires j < |states[m].pc| && states[m].pc[j] == Reading(b) && b < |states[m].names|
    requires forall x: nat :: m < x < k ==> !Changes(states[x], choices[x], states[m].names[b])
    requires i < |states[k].pc| && states[k].pc[i] == Reading(c) && c < |states[k].names| && states[k].names[c] == states[m].names[b]
    ensures c < |states[k].bufs| && states[k].bufs[c].data == v
  {
    hide Follows, StepAt, Step;
    var n := states[m].names[b];
    assert n.dev != 0 && b < |states[m].bufs| by { RunKeeps(states, choices, m); assert PcOk(states[m], states[m].pc[j], j); }
    StoreShown(states, choices, m, n);
    Unchanged(states, choices, m + 1, k, n);
    RunKeeps(states, choices, k);
    ReaderHas(states[k], i, c);
  }

  /** And one that finds the block unchanged since the start finds what was there. */
  lemma ReaderSeesStart(states: seq<State>, choices: seq<Choice>, k: nat, i: nat, c: nat)
    requires IsRun(states, choices) && k <= |choices| && i < |states[k].pc| && states[k].pc[i] == Reading(c) && c < |states[k].names|
    requires forall x: nat :: x < k ==> !Changes(states[x], choices[x], states[k].names[c])
    ensures c < |states[k].bufs| && states[k].bufs[c].data == Current(states[0], states[k].names[c])
  {
    hide Follows, StepAt, Step;
    RunKeeps(states, choices, k);
    ReaderHas(states[k], i, c);
    Unchanged(states, choices, 0, k, states[k].names[c]);
  }

  lemma StoreShown(states: seq<State>, choices: seq<Choice>, m: nat, n: Name)
    requires IsRun(states, choices) && m < |choices| && n.dev != 0 && Changes(states[m], choices[m], n)
    requires choices[m].Store? && states[m].pc[choices[m].i].Reading?
    ensures Current(states[m + 1], n) == choices[m].v
  {
    RunKeeps(states, choices, m);
    StepChanges(states[m], states[m + 1], choices[m], n);
  }

  lemma ReaderHas(st: State, i: nat, c: nat)
    requires Inv(st) && i < |st.pc| && st.pc[i] == Reading(c) && c < |st.names|
    ensures c < |st.bufs| && st.names[c].dev != 0 && st.bufs[c].data == Current(st, st.names[c])
  {
    assert PcOk(st, st.pc[i], i);
    assert Caches(st, c, st.names[c]);
    CurrentIs(st, c, st.names[c]);
  }

  /** The buffer that activity `i` got from bread has the data last stored in its block. */
  ghost predicate SeesLast(start: State, events: seq<Event>, st: State, i: nat) {
    i < |st.pc| && st.pc[i].Reading? ==>
      var b := st.pc[i].b;
      b < |st.bufs| && b < |st.names| && st.bufs[b].data == Replay(events, st.names[b], Current(start, st.names[b]))
  }

  lemma ReadersSeeLast(states: seq<State>, choices: seq<Choice>, k: nat, i: nat)
    requires IsRun(states, choices) && k <= |choices|
    ensures SeesLast(states[0], EventsOf(states, choices)[..k], states[k], i)
  {
    var st := states[k];
    hide Follows, StepAt, Step, IsRun;
    if i < |st.pc| && st.pc[i].Reading? {
      var b := st.pc[i].b;
      RunKeeps(states, choices, k);
      assert PcOk(st, st.pc[i], i);
      ReaderHas(st, i, b);
      RunIsMap(states, choices, k, st.names[b]);
    }
  }
}
