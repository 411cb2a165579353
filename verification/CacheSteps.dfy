/**
  What each kind of cache step shows to the activities, and what a whole run
  therefore shows: every reader gets the data last stored in its block.
 */
module CacheSteps {
  import opened BufferLists
  import opened CacheModel
  import RequestQueue

  datatype Choice =
    | Begin(i: nat, name: Name)      // call getblk
    | Continue(i: nat)               // run on to the next point where it may sleep
    | StartRead(i: nat)              // bread, with the buffer getblk returned
    | Store(i: nat, v: Data)         // change a buffer that bread returned
    | Overwrite(i: nat, v: Data)     // new_block: fill a buffer that nobody else holds
    | Load(i: nat)
    | Release(i: nat)                // brelse
    | FreeBlock(i: nat)              // free_block
    | Sync(i: nat, b: nat)           // sys_sync, sync_dev: write one dirty buffer
    | DiskDone(v: Data)              // end_request

  /** Stored: a holder changed a block. Freed: a block was freed, and what the disk has is what remains.
      Loaded: a holder read a block. */
  datatype Event = Quiet | Stored(n: Name, v: Data) | Freed(n: Name, v: Data) | Loaded(n: Name, v: Data)

  predicate Alone(st: State, b: nat) {
    b < |st.bufs| && st.bufs[b].count == 1 && !st.bufs[b].lock
  }

  predicate Has(st: State, p: Pc) {
    (p.Holding? || p.Reading?) && p.b < |st.names| && p.b < |st.bufs|
  }

  /** What a choice does to the contents of blocks; a choice that does not apply does nothing. */
  function EventOf(st: State, c: Choice): Event {
    var p := if !c.DiskDone? && c.i < |st.pc| then st.pc[c.i] else Idle;
    if !Has(st, p) then Quiet
    else if c.Store? && p.Reading? then Stored(st.names[p.b], c.v)
    else if c.Overwrite? && p.Holding? && Alone(st, p.b) then Stored(st.names[p.b], c.v)
    else if c.Load? && p.Reading? then Loaded(st.names[p.b], st.bufs[p.b].data)
    else if c.FreeBlock? && Alone(st, p.b) then Freed(st.names[p.b], Disk(st, st.names[p.b]))
    else Quiet
  }

  function AfterEvent(e: Event, n: Name, was: Data): Data {
    if (e.Stored? || e.Freed?) && e.n == n then e.v else was
  }

  /** The last data stored in a block. */
  function Replay(events: seq<Event>, n: Name, init: Data): Data {
    if events == [] then init
    else AfterEvent(events[|events| - 1], n, Replay(events[..|events| - 1], n, init))
  }

  ghost predicate Shows(st: State, t: State, e: Event) {
    && (forall n: Name :: n.dev != 0 ==> Current(t, n) == AfterEvent(e, n, Current(st, n)))
    && (e.Loaded? ==> e.n.dev != 0 && e.v == Current(st, e.n))
  }

  ghost predicate KeptName(st: State, t: State, b: nat) {
    && b < |st.names| && b < |st.bufs| && b < |t.names|
    && (t.names[b] != st.names[b] ==> st.bufs[b].count == 0 && !st.bufs[b].lock && !st.bufs[b].dirt)
  }

  /** A buffer changes its name only if nobody holds it, it is unlocked and clean. */
  ghost predicate KeepsHeld(st: State, t: State) {
    forall b: nat :: b < |st.names| ==> KeptName(st, t, b)
  }

  ghost predicate Step(st: State, t: State, e: Event) {
    Inv(t) && Shows(st, t, e) && KeepsHeld(st, t)
  }

  // ---------- what each step does ----------

  function Badness(u: Buf): nat {
    (if u.dirt then 2 else 0) + if u.lock then 1 else 0
  }

  /** A buffer nobody holds, and none of those is less trouble. */
  ghost predicate Best(st: State, v: nat) {
    v < |st.bufs| && st.bufs[v].count == 0 &&
    forall b: nat :: b < |st.bufs| && st.bufs[b].count == 0 ==> Badness(st.bufs[v]) <= Badness(st.bufs[b])
  }

  ghost predicate Cached(st: State, n: Name) {
    exists b: nat :: b < |st.names| && st.names[b] == n
  }

  function Goes(st: State, i: nat, p: Pc): State
    requires i < |st.pc|
  {
    st.(pc := st.pc[i := p])
  }

  /** Activity `i` goes to `p`, and what it holds is counted. */
  function Keeps(st: State, i: nat, p: Pc, b: nat, count: nat): State
    requires Sized(st) && i < |st.pc| && b < |st.bufs|
  {
    Upd(st, i, p, b, st.bufs[b].(count := count), st.owner[b])
  }

  ghost function Victimized(st: State, i: nat, n: Name, b: nat): State
    requires Sized(st) && i < |st.pc| && b < |st.bufs|
  {
    var u := st.bufs[b];
    if u.lock then Goes(st, i, VictimWait(n, b))
    else if u.count != 0 then Goes(st, i, Lookup(n))
    else if u.dirt then Goes(st, i, VictimWait(n, b))
    else if Cached(st, n) then Goes(st, i, Lookup(n))
    else Take(st, i, b, n)
  }

  ghost predicate LooksUp(st: State, t: State, i: nat, n: Name)
    requires Sized(st) && i < |st.pc|
  {
    if b: nat :| b < |st.bufs| && st.names[b] == n then
      t == Keeps(st, i, if st.bufs[b].lock then HashWait(n, b) else Holding(b), b, st.bufs[b].count + 1)
    else if v: nat :| Best(st, v) then exists w: nat :: Best(st, w) && t == Victimized(st, i, n, w)
    else t == Goes(st, i, FreeWait(n))
  }

  function Locks(st: State, i: nat, b: nat, write: bool): State
    requires Sized(st) && i < |st.pc| && b < |st.bufs|
  {
    var u := st.bufs[b];
    if if write then !u.dirt else u.uptodate then Keeps(st, i, if write then Idle else ReadWait(b), b, u.count)
    else Upd(st, i, if write then WriteSlot(b) else ReadSlot(b), b, u.(lock := true), Waiting(i, write))
  }

  ghost predicate Resumes(st: State, t: State, i: nat)
    requires Sized(st) && i < |st.pc| && PcOk(st, st.pc[i], i)
  {
    var p := st.pc[i];
    if p.Lookup? then LooksUp(st, t, i, p.name)
    else if p.FreeWait? then t == Goes(st, i, Lookup(p.name))
    else if p.ReadSlot? || p.WriteSlot? then
      t == Enqueue(st, i, p.b, p.WriteSlot?) || (t == st && |st.queue| >= RequestQueue.Limit(p.WriteSlot?))
    else if p.Idle? || p.Holding? || p.Reading? || st.bufs[p.b].lock then t == st
    else if p.HashWait? then t == Keeps(st, i, Holding(p.b), p.b, st.bufs[p.b].count)
    else if p.ReadWait? then t == Keeps(st, i, Reading(p.b), p.b, st.bufs[p.b].count)
    else if p.VictimWait? then t == Victimized(st, i, p.name, p.b)
    else t == Locks(st, i, p.b, p.WriteLock?)
  }

  ghost predicate Acts(st: State, t: State, c: Choice)
    requires Inv(st) && !c.DiskDone? && c.i < |st.pc|
  {
    var i, p := c.i, st.pc[c.i];
    assert PcOk(st, p, i);
    if c.Begin? && p.Idle? && c.name.dev != 0 then t == Goes(st, i, Lookup(c.name))
    else if c.Sync? && p.Idle? && c.b < |st.bufs| && st.bufs[c.b].dirt then t == Goes(st, i, WriteLock(c.b))
    else if c.Continue? then Resumes(st, t, i)
    else if c.StartRead? && p.Holding? then
      t == Keeps(st, i, if st.bufs[p.b].uptodate then Reading(p.b) else ReadLock(p.b), p.b, st.bufs[p.b].count)
    else if (c.Store? && p.Reading?) || (c.Overwrite? && p.Holding? && Alone(st, p.b)) then
      t == Upd(st, i, Reading(p.b), p.b, st.bufs[p.b].(data := c.v, dirt := true, uptodate := true), st.owner[p.b])
    else if c.Release? && Has(st, p) && !st.bufs[p.b].lock then
      st.bufs[p.b].count > 0 && t == Keeps(st, i, Idle, p.b, st.bufs[p.b].count - 1)
    else if c.FreeBlock? && Has(st, p) && Alone(st, p.b) then t == Discard(st, i, p.b)
    else t == st
  }

  /** What a choice does to the whole state. */
  ghost predicate Follows(st: State, t: State, c: Choice) {
    Inv(st) &&
    if c.DiskDone? then t == if st.queue == [] || st.queue[0].bh >= |st.bufs| then st else Complete(st, c.v)
    else if c.i >= |st.pc| then t == st
    else Acts(st, t, c)
  }

  // ---------- one lemma for each kind of step ----------

  lemma SameNames(st: State, t: State)
    requires Sized(st) && t.names == st.names
    ensures KeepsHeld(st, t)
  {
  }

  /** Nothing changes. */
  lemma Stay(st: State)
    requires Inv(st)
    ensures Step(st, st, Quiet)
  {
    assert Sized(st);
    hide Inv;
  }

  /** An activity that holds nothing moves and still holds nothing. */
  lemma MovedOk(st: State, i: nat, p: Pc)
    requires Inv(st) && i < |st.pc| && |st.bufs| > 0 && PcOk(st, p, i)
    requires !st.pc[i].ReadSlot? && !st.pc[i].WriteSlot? && forall c: nat :: Holds(st.pc[i], c) == Holds(p, c)
    ensures Step(st, st.(pc := st.pc[i := p]), Quiet)
  {
    var t := st.(pc := st.pc[i := p]);
    assert t == Upd(st, i, p, 0, st.bufs[0], st.owner[0]);
    assert BufOk(st, 0);
    LocalKeeps(st, i, p, 0, st.bufs[0], st.owner[0]);
    SameContents(st, t);
  }

  /** An activity takes hold of, keeps or lets go of a buffer. */
  lemma CountOk(st: State, i: nat, b: nat, p: Pc, count: nat)
    requires Inv(st) && i < |st.pc| && b < |st.bufs| && PcOk(st, p, i)
    requires !st.pc[i].ReadSlot? && !st.pc[i].WriteSlot? && forall c: nat :: c != b ==> Holds(st.pc[i], c) == Holds(p, c)
    requires count == st.bufs[b].count - (if Holds(st.pc[i], b) then 1 else 0) + (if Holds(p, b) then 1 else 0)
    ensures Step(st, Upd(st, i, p, b, st.bufs[b].(count := count), st.owner[b]), Quiet)
  {
    var u := st.bufs[b].(count := count);
    var t := Upd(st, i, p, b, u, st.owner[b]);
    assert BufOk(st, b);
    LocalKeeps(st, i, p, b, u, st.owner[b]);
    SameContents(st, t);
  }

  lemma HolderCounts(st: State, i: nat, b: nat)
    requires Inv(st) && i < |st.pc| && b < |st.bufs| && Holds(st.pc[i], b)
    ensures st.bufs[b].count >= 1
  {
    assert Counted(st, b);
    assert i in Holders(st.pc, b);
    assert Holders(st.pc, b) != {};
  }

  /** make_request locks the buffer. */
  lemma LockOk(st: State, i: nat, b: nat, write: bool)
    requires Inv(st) && i < |st.pc| && b < |st.bufs| && !st.bufs[b].lock
    requires st.pc[i] == (if write then WriteLock(b) else ReadLock(b)) && (if write then st.bufs[b].dirt else !st.bufs[b].uptodate)
    ensures Step(st, Upd(st, i, if write then WriteSlot(b) else ReadSlot(b), b, st.bufs[b].(lock := true), Waiting(i, write)), Quiet)
  {
    var p := if write then WriteSlot(b) else ReadSlot(b);
    var u := st.bufs[b].(lock := true);
    var t := Upd(st, i, p, b, u, Waiting(i, write));
    assert BufOk(st, b) && PcOk(st, st.pc[i], i);
    LocalKeeps(st, i, p, b, u, Waiting(i, write));
    SameContents(st, t);
  }

  lemma EnqueueOk(st: State, i: nat, b: nat, write: bool)
    requires Inv(st) && i < |st.pc| && b < |st.bufs| && st.pc[i] == if write then WriteSlot(b) else ReadSlot(b)
    ensures Step(st, Enqueue(st, i, b, write), Quiet) && st.names[b].dev != 0
  {
    assert PcOk(st, st.pc[i], i) && BufOk(st, b);
    EnqueueKeeps(st, i, b, write);
    SameNames(st, Enqueue(st, i, b, write));
  }

  /** A holder stores into a good buffer, or fills one that only it holds. */
  lemma StoreOk(st: State, i: nat, b: nat, v: Data)
    requires Inv(st) && i < |st.pc| && b < |st.bufs|
    requires st.pc[i] == Reading(b) || (st.pc[i] == Holding(b) && Alone(st, b))
    ensures Step(st, Upd(st, i, Reading(b), b, st.bufs[b].(data := v, dirt := true, uptodate := true), st.owner[b]), Stored(st.names[b], v))
  {
    var u := st.bufs[b].(data := v, dirt := true, uptodate := true);
    assert BufOk(st, b) && PcOk(st, st.pc[i], i);
    LocalKeeps(st, i, Reading(b), b, u, st.owner[b]);
    StoreShows(st, i, b, v, Reading(b));
    SameNames(st, Upd(st, i, Reading(b), b, u, st.owner[b]));
  }

  lemma LoadOk(st: State, i: nat, b: nat)
    requires Inv(st) && i < |st.pc| && b < |st.bufs| && st.pc[i] == Reading(b)
    ensures Step(st, st, Loaded(st.names[b], st.bufs[b].data))
  {
    assert PcOk(st, st.pc[i], i);
    assert Caches(st, b, st.names[b]);
    CurrentIs(st, b, st.names[b]);
  }

  lemma DiscardOk(st: State, i: nat, b: nat)
    requires Inv(st) && i < |st.pc| && b < |st.bufs| && (st.pc[i] == Holding(b) || st.pc[i] == Reading(b)) && Alone(st, b)
    ensures Step(st, Discard(st, i, b), Freed(st.names[b], Disk(st, st.names[b])))
  {
    DiscardKeeps(st, i, b);
    SameNames(st, Discard(st, i, b));
  }

  lemma TakeOk(st: State, i: nat, b: nat, n: Name)
    requires Inv(st) && i < |st.pc| && Takable(st, b, n) && (st.pc[i].Lookup? || st.pc[i].VictimWait?)
    ensures Step(st, Take(st, i, b, n), Quiet)
  {
    TakeKeeps(st, i, b, n);
  }

  lemma CompleteOk(st: State, v: Data)
    requires Inv(st) && st.queue != []
    ensures st.queue[0].bh < |st.bufs| && st.bufs[st.queue[0].bh].lock && Step(st, Complete(st, v), Quiet)
  {
    var r := st.queue[0];
    assert r in st.queue && ReqOk(st, r) && BufOk(st, r.bh);
    CompleteKeeps(st, v);
    CompleteHides(st, v);
    SameNames(st, Complete(st, v));
  }

  /** What getblk does with the buffer it chose. */
  lemma VictimStep(st: State, i: nat, n: Name, b: nat)
    requires Inv(st) && i < |st.pc| && (st.pc[i].Lookup? || st.pc[i].VictimWait?) && n.dev != 0 && b < |st.bufs|
    ensures Step(st, Victimized(st, i, n, b), Quiet)
  {
    var u := st.bufs[b];
    assert Sized(st);
    hide Inv, Step;
    if u.lock || (u.count == 0 && u.dirt) { MovedOk(st, i, VictimWait(n, b)); }
    else if u.count != 0 || Cached(st, n) { MovedOk(st, i, Lookup(n)); }
    else { TakeOk(st, i, b, n); }
  }

  lemma LookupStep(st: State, t: State, i: nat)
    requires Inv(st) && i < |st.pc| && st.pc[i].Lookup? && |st.bufs| > 0 && LooksUp(st, t, i, st.pc[i].name)
    ensures Step(st, t, Quiet)
  {
    var n := st.pc[i].name;
    assert PcOk(st, st.pc[i], i) && Unique(st.names) && Sized(st);
    hide Inv, Step, Victimized;
    if b: nat :| b < |st.bufs| && st.names[b] == n {
      var p := if st.bufs[b].lock then HashWait(n, b) else Holding(b);
      forall c: nat | c < |st.bufs| && st.names[c] == n ensures c == b {}
      CountOk(st, i, b, p, st.bufs[b].count + 1);
    } else if v: nat :| Best(st, v) {
      var w: nat :| Best(st, w) && t == Victimized(st, i, n, w);
      VictimStep(st, i, n, w);
    } else {
      MovedOk(st, i, FreeWait(n));
    }
  }

  lemma LocksStep(st: State, i: nat)
    requires Inv(st) && i < |st.pc| && (st.pc[i].ReadLock? || st.pc[i].WriteLock?) && st.pc[i].b < |st.bufs| && !st.bufs[st.pc[i].b].lock
    ensures Step(st, Locks(st, i, st.pc[i].b, st.pc[i].WriteLock?), Quiet)
  {
    var b, write := st.pc[i].b, st.pc[i].WriteLock?;
    assert PcOk(st, st.pc[i], i) && Sized(st);
    hide Inv, Step;
    if if write then !st.bufs[b].dirt else st.bufs[b].uptodate {
      CountOk(st, i, b, if write then Idle else ReadWait(b), st.bufs[b].count);
    } else {
      LockOk(st, i, b, write);
    }
  }

  lemma ResumesStep(st: State, t: State, i: nat)
    requires Inv(st) && i < |st.pc| && |st.bufs| > 0 && PcOk(st, st.pc[i], i) && Resumes(st, t, i)
    ensures Step(st, t, Quiet)
  {
    var p := st.pc[i];
    assert Sized(st) && (p.ReadWait? ==> BufOk(st, p.b));
    Stay(st);
    hide Inv, Step, LooksUp, Victimized, Locks;
    match p
    case Lookup(_) => LookupStep(st, t, i);
    case FreeWait(n) => MovedOk(st, i, Lookup(n));
    case ReadSlot(b) => EnqueueOk(st, i, b, false);
    case WriteSlot(b) => EnqueueOk(st, i, b, true);
    case HashWait(_, b) => if !st.bufs[b].lock { CountOk(st, i, b, Holding(b), st.bufs[b].count); }
    case ReadWait(b) => if !st.bufs[b].lock { CountOk(st, i, b, Reading(b), st.bufs[b].count); }
    case VictimWait(n, b) => if !st.bufs[b].lock { VictimStep(st, i, n, b); }
    case ReadLock(b) => if !st.bufs[b].lock { LocksStep(st, i); }
    case WriteLock(b) => if !st.bufs[b].lock { LocksStep(st, i); }
    case _ =>
  }

  /** What a holder does with its buffer. */
  lemma HolderStep(st: State, t: State, c: Choice)
    requires Inv(st) && !c.DiskDone? && c.i < |st.pc| && Acts(st, t, c) && Has(st, st.pc[c.i])
    requires !c.Begin? && !c.Sync? && !c.Continue?
    ensures Step(st, t, EventOf(st, c))
  {
    var i, p := c.i, st.pc[c.i];
    assert PcOk(st, p, i) && Sized(st);
    Stay(st);
    HolderCounts(st, i, p.b);
    hide Inv, Step, Resumes;
    match c
    case StartRead(_) =>
      if p.Holding? { CountOk(st, i, p.b, if st.bufs[p.b].uptodate then Reading(p.b) else ReadLock(p.b), st.bufs[p.b].count); }
    case Store(_, v) => if p.Reading? { StoreOk(st, i, p.b, v); }
    case Overwrite(_, v) => if p.Holding? && Alone(st, p.b) { StoreOk(st, i, p.b, v); }
    case Load(_) => if p.Reading? { LoadOk(st, i, p.b); }
    case Release(_) => if !st.bufs[p.b].lock { CountOk(st, i, p.b, Idle, st.bufs[p.b].count - 1); }
    case FreeBlock(_) => if Alone(st, p.b) { DiscardOk(st, i, p.b); }
  }

  lemma ActsStep(st: State, t: State, c: Choice)
    requires Inv(st) && |st.bufs| > 0 && !c.DiskDone? && c.i < |st.pc| && Acts(st, t, c)
    ensures Step(st, t, EventOf(st, c))
  {
    var i, p := c.i, st.pc[c.i];
    assert PcOk(st, p, i) && Sized(st);
    Stay(st);
    hide Inv, Step, Resumes;
    if c.Begin? {
      if p.Idle? && c.name.dev != 0 { MovedOk(st, i, Lookup(c.name)); }
    } else if c.Sync? {
      if p.Idle? && c.b < |st.bufs| { MovedOk(st, i, WriteLock(c.b)); }
    } else if c.Continue? {
      ResumesStep(st, t, i);
    } else if Has(st, p) {
      HolderStep(st, t, c);
    }
  }

  /** Every step there is keeps the invariant, shows what its event says, and lets held buffers keep their blocks. */
  lemma FollowsStep(st: State, t: State, c: Choice)
    requires Inv(st) && |st.bufs| > 0 && Follows(st, t, c)
    ensures Step(st, t, EventOf(st, c))
  {
    assert Sized(st);
    Stay(st);
    hide Inv, Acts, Step, Complete;
    if c.DiskDone? {
      if st.queue != [] { CompleteOk(st, c.v); }
    } else if c.i < |st.pc| {
      ActsStep(st, t, c);
    }
  }

  /** No step adds or removes a buffer. */
  lemma FollowsSize(st: State, t: State, c: Choice)
    requires Inv(st) && Follows(st, t, c)
    ensures |t.bufs| == |st.bufs|
  {
    assert Sized(st);
    hide Inv;
  }

  // ---------- whole runs ----------

  ghost predicate StepAt(states: seq<State>, choices: seq<Choice>, k: nat)
    requires |states| == |choices| + 1
  {
    k < |choices| && (Inv(states[k]) ==> Follows(states[k], states[k + 1], choices[k]))
  }

  /** Any number of activities, under any schedule. */
  ghost predicate IsRun(states: seq<State>, choices: seq<Choice>) {
    && |states| == |choices| + 1 && Inv(states[0]) && |states[0].bufs| > 0
    && forall k: nat :: k < |choices| ==> StepAt(states, choices, k)
  }

  /** What the steps of a run do to the contents of blocks. */
  function EventsOf(states: seq<State>, choices: seq<Choice>): (events: seq<Event>)
    requires |states| == |choices| + 1
    ensures |events| == |choices|
  {
    seq(|choices|, k requires 0 <= k < |choices| => EventOf(states[k], choices[k]))
  }

  lemma {:induction false} RunKeeps(states: seq<State>, choices: seq<Choice>, k: nat)
    requires IsRun(states, choices) && k <= |choices|
    ensures Inv(states[k]) && |states[k].bufs| == |states[0].bufs|
    ensures k < |choices| ==> Step(states[k], states[k + 1], EventOf(states[k], choices[k]))
    decreases k
  {
    hide Inv, Follows;
    if k > 0 {
      RunKeeps(states, choices, k - 1);
      assert StepAt(states, choices, k - 1);
      FollowsStep(states[k - 1], states[k], choices[k - 1]);
      FollowsSize(states[k - 1], states[k], choices[k - 1]);
    }
    if k < |choices| {
      assert StepAt(states, choices, k);
      FollowsStep(states[k], states[k + 1], choices[k]);
    }
  }

  /** Through every eviction, write-back and reordering, the cache and the disk together are a plain map. */
  lemma {:induction false} RunIsMap(states: seq<State>, choices: seq<Choice>, k: nat, n: Name)
    requires IsRun(states, choices) && k <= |choices| && n.dev != 0
    ensures Current(states[k], n) == Replay(EventsOf(states, choices)[..k], n, Current(states[0], n))
    decreases k
  {
    hide StepAt, Inv;
    if k > 0 {
      var events := EventsOf(states, choices);
      RunIsMap(states, choices, k - 1, n);
      RunKeeps(states, choices, k - 1);
      assert events[..k][..k - 1] == events[..k - 1];
    }
  }

  /** bread returns the data last stored in its block. */
  lemma ReadsLastStored(states: seq<State>, choices: seq<Choice>, k: nat)
    requires IsRun(states, choices) && k < |choices| && EventsOf(states, choices)[k].Loaded?
    ensures var events := EventsOf(states, choices);
      events[k].v == Replay(events[..k], events[k].n, Current(states[0], events[k].n))
  {
    RunKeeps(states, choices, k);
    RunIsMap(states, choices, k, EventsOf(states, choices)[k].n);
  }

  ghost predicate HeldAll(states: seq<State>, first: nat, last: nat, b: nat) {
    forall k: nat :: first <= k < last && k < |states| ==> b < |states[k].bufs| && states[k].bufs[b].count > 0
  }

  /** A buffer held throughout part of a run carries the same block throughout. */
  lemma {:induction false} HeldKeepsName(states: seq<State>, choices: seq<Choice>, first: nat, last: nat, b: nat)
    requires IsRun(states, choices) && first <= last <= |choices| && b < |states[first].names| && HeldAll(states, first, last, b)
    ensures b < |states[last].names| && states[last].names[b] == states[first].names[b]
    decreases last
  {
    if first < last {
      HeldKeepsName(states, choices, first, last - 1, b);
      RunKeeps(states, choices, last - 1);
      assert KeptName(states[last - 1], states[last], b);
    }
  }
}
