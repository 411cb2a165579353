/**
  getblk, bread, brelse and block writing (linux-0.11/fs/buffer.c,
  kernel/blk_drv/ll_rw_blk.c) on buffer heads, hash chains, the free list and
  request slots: each method is what one activity does between two points where
  it may sleep.
 */
module BufferCache {
  import opened Sequences
  import opened BufferLists
  import opened CacheModel
  import opened CacheSteps
  import opened CacheLaws
  import opened RequestQueue

  /** Nothing cached, nothing running, nothing queued. */
  lemma FreshOk(st: State)
    requires Sized(st) && st.queue == [] && forall i: nat :: i < |st.pc| ==> st.pc[i] == Idle
    requires forall b: nat :: b < |st.bufs| ==>
               st.bufs[b] == Buf(0, false, false, false, []) && st.names[b].dev == 0 && st.owner[b] == NoOne
    ensures Inv(st) && forall m: Name :: Current(st, m) == Disk(st, m)
  {
    forall b: nat | b < |st.bufs| ensures BufOk(st, b) && Counted(st, b) {
      assert Holders(st.pc, b) == {};
    }
    forall i: nat | i < |st.pc| ensures PcOk(st, st.pc[i], i) {}
    assert Elevator.OneDrop(Keys([]));
    forall m: Name ensures Current(st, m) == Disk(st, m) {
      forall b: nat ensures !Caches(st, b, m) {}
    }
  }

  /** An activity that needs a slot goes on waiting exactly if all those it may use are in use. */
  ghost predicate WaitsForSlot(p: Pc, q: Pc, taken: set<nat>) {
    p.ReadSlot? || p.WriteSlot? ==> (q == p <==> NoSlot(taken, p.WriteSlot?))
  }

  ghost predicate WaitsExactly(states: seq<State>, choices: seq<Choice>, taken: seq<set<nat>>, k: nat)
    requires k < |choices| && k + 1 < |states| && k < |taken|
  {
    var c := choices[k];
    c.Continue? && c.i < |states[k].pc| && c.i < |states[k + 1].pc| ==>
      WaitsForSlot(states[k].pc[c.i], states[k + 1].pc[c.i], taken[k])
  }

  class BufferCache {
    const lists: BufferLists
    const requests: RequestQueue
    const bufs: array<Buf>
    const pc: array<Pc>
    var disk: map<Name, Data>
    ghost var owner: seq<Owner>

    ghost predicate Built()
      reads this, requests, requests.slots, lists, lists.dev, lists.blocknr, lists.next, lists.prev, lists.nextFree,
            lists.prevFree, lists.hash
    {
      lists.Valid() && requests.Valid() && bufs.Length == lists.dev.Length
    }

    ghost function S(): State
      requires requests.Valid()
      reads this, bufs, pc, lists, requests, requests.slots
    {
      State(lists.lists.names, bufs[..], owner, pc[..], requests.Queue(), disk)
    }

    ghost predicate Valid()
      reads this, bufs, pc, requests, requests.slots, lists, lists.dev, lists.blocknr, lists.next, lists.prev,
            lists.nextFree, lists.prevFree, lists.hash
    {
      Built() && Inv(S())
    }

    /** Every step: the invariant, what it shows, and that held buffers keep their names. */
    twostate predicate Stepped(e: Event)
      reads this, bufs, pc, requests, requests.slots, lists, lists.dev, lists.blocknr, lists.next, lists.prev,
            lists.nextFree, lists.prevFree, lists.hash
    {
      old(Valid()) && Valid() && Step(old(S()), S(), e)
    }

    constructor (n: nat, activities: nat, disk: map<Name, Data>)
      requires n >= 2
      ensures Valid() && this.disk == disk && pc.Length == activities
      ensures forall m: Name :: Current(S(), m) == Disk(S(), m)
      ensures fresh(bufs) && fresh(pc) && fresh(lists) && fresh(requests)
    {
      lists := new BufferLists(n);
      requests := new RequestQueue();
      bufs := new Buf[n](i => Buf(0, false, false, false, []));
      pc := new Pc[activities](i => Idle);
      this.disk := disk;
      owner := seq(n, _ => NoOne);
      new;
      hide Linked, ChainsOk, RingOk, Ringed, HashLinks;
      FreshOk(S());
    }

    /** The free buffer that is least trouble, by write-back first and then lock; NULL if all are held. */
    method ChooseVictim() returns (v: int)
      requires Built()
      ensures v == NULL ==> forall b: nat :: b < bufs.Length ==> bufs[b].count > 0
      ensures v != NULL ==> 0 <= v < bufs.Length && bufs[v].count == 0
                            && forall b: nat :: b < bufs.Length && bufs[b].count == 0 ==> Badness(bufs[v]) <= Badness(bufs[b])
    {
      ghost var r := lists.lists.ring;
      v := NULL;
      var tmp := lists.freeList;
      ghost var k: nat := 0;
      assert Seat(lists.nextFree[..], lists.prevFree[..], r, 0);
      while true
        invariant k < |r| && tmp == r[k] && 0 <= tmp < bufs.Length && Seat(lists.nextFree[..], lists.prevFree[..], r, k)
        invariant v == NULL ==> forall b: nat :: b in r[..k] && b < bufs.Length ==> bufs[b].count > 0
        invariant v != NULL ==> 0 <= v < bufs.Length && bufs[v].count == 0
        invariant v != NULL ==> forall b: nat :: b in r[..k] && b < bufs.Length && bufs[b].count == 0 ==> Badness(bufs[v]) <= Badness(bufs[b])
        decreases |r| - k
      {
        if bufs[tmp].count == 0 {
          if v == NULL || Badness(bufs[tmp]) < Badness(bufs[v]) {
            v := tmp;
            if Badness(bufs[tmp]) == 0 { return; }
          }
        }
        assert r[..k + 1] == r[..k] + [r[k]];
        tmp := lists.nextFree[tmp];
        if tmp == lists.freeList {
          assert k + 1 == |r| && r[..k + 1] == r;
          forall b: nat | b < bufs.Length ensures b in r[..k] || b == r[k] {
            assert b in r;
          }
          return;
        }
        assert k + 1 < |r|;
        k := k + 1;
        assert Seat(lists.nextFree[..], lists.prevFree[..], r, k);
      }
    }

    /** Activity `i` moves to `p` and the count of buffer `b` changes. */
    method Move(i: nat, p: Pc, b: nat, count: nat)
      requires Valid() && i < pc.Length && b < bufs.Length && PcOk(S(), p, i)
      requires !pc[i].ReadSlot? && !pc[i].WriteSlot? && forall c: nat :: c != b ==> Holds(pc[i], c) == Holds(p, c)
      requires count == bufs[b].count - (if Holds(pc[i], b) then 1 else 0) + (if Holds(p, b) then 1 else 0)
      modifies bufs, pc
      ensures Stepped(Quiet) && S() == Upd(old(S()), i, p, b, old(bufs[b]).(count := count), owner[b])
    {
      ghost var st := S();
      CountOk(st, i, b, p, count);
      hide Inv, Step, PcOk, Linked, ChainsOk, RingOk, Ringed, HashLinks;
      bufs[b] := bufs[b].(count := count);
      pc[i] := p;
      assert S() == Upd(st, i, p, b, st.bufs[b].(count := count), st.owner[b]);
    }

    /** An activity that holds nothing, and still holds nothing. */
    method Go(i: nat, p: Pc)
      requires Valid() && i < pc.Length && PcOk(S(), p, i) && !pc[i].ReadSlot? && !pc[i].WriteSlot?
      requires forall c: nat :: Holds(pc[i], c) == Holds(p, c)
      modifies pc
      ensures Stepped(Quiet) && S() == old(S()).(pc := old(pc[..])[i := p])
    {
      ghost var st := S();
      MovedOk(st, i, p);
      hide Inv, Step, PcOk, Linked, ChainsOk, RingOk, Ringed, HashLinks;
      pc[i] := p;
      assert S() == st.(pc := st.pc[i := p]);
    }

    // ---------- getblk ----------

    /** get_hash_table, then the search for a free buffer, up to the first sleep. */
    method AtLookup(i: nat)
      requires Valid() && i < pc.Length && pc[i].Lookup?
      modifies this, bufs, pc, lists, lists.dev, lists.blocknr, lists.next, lists.prev, lists.nextFree, lists.prevFree,
               lists.hash
      ensures Stepped(Quiet)
      ensures LooksUp(old(S()), S(), i, old(pc[i]).name)
    {
      hide Step, Linked, ChainsOk, RingOk, Ringed, HashLinks, KeepsHeld, Shows, Victimized, Contents, QueueOk, BufOk,
           Counted;
      assert PcOk(S(), pc[i], i);
      var name := pc[i].name;
      var b := lists.FindBuffer(name.dev, name.block);
      if b != NULL {
        Move(i, if bufs[b].lock then HashWait(name, b) else Holding(b), b, bufs[b].count + 1);
      } else {
        var v := ChooseVictim();
        if v == NULL {
          Go(i, FreeWait(name));
        } else {
          assert Best(S(), v);
          TryVictim(i, name, v);
        }
      }
    }

    /** getblk once its chosen buffer may be unlocked: start over, wait, or take it. */
    method TryVictim(i: nat, name: Name, b: nat)
      requires Valid() && i < pc.Length && (pc[i].Lookup? || pc[i].VictimWait?) && name.dev != 0 && b < bufs.Length
      modifies this, bufs, pc, lists, lists.dev, lists.blocknr, lists.next, lists.prev, lists.nextFree, lists.prevFree,
               lists.hash
      ensures Stepped(Quiet) && S() == Victimized(old(S()), i, name, b)
      ensures old(Ripe(S(), b) && NotCached(S(), name)) ==> Gets(old(S()), S(), i, b, name)
    {
      hide Step, Linked, ChainsOk, RingOk, Ringed, HashLinks, KeepsHeld, Shows;
      if bufs[b].lock {
        Go(i, VictimWait(name, b));
      } else if bufs[b].count != 0 {
        Go(i, Lookup(name));
      } else if bufs[b].dirt {
        Go(i, VictimWait(name, b));
      } else {
        var c := lists.FindBuffer(name.dev, name.block);
        if c != NULL {
          Go(i, Lookup(name));
        } else {
          Claim(i, name, b);
        }
      }
    }

    /** The end of getblk. */
    method Claim(i: nat, name: Name, b: nat)
      requires Valid() && i < pc.Length && (pc[i].Lookup? || pc[i].VictimWait?) && Takable(S(), b, name)
      modifies this, bufs, pc, lists, lists.dev, lists.blocknr, lists.next, lists.prev, lists.nextFree, lists.prevFree,
               lists.hash
      ensures Stepped(Quiet) && S() == Take(old(S()), i, b, name)
    {
      ghost var st := S();
      TakeOk(st, i, b, name);
      hide Inv, Step, PcOk, Linked, ChainsOk, RingOk, Ringed, HashLinks;
      bufs[b] := bufs[b].(count := 1, dirt := false, uptodate := false);
      lists.Rename(b, name.dev, name.block);
      pc[i] := Holding(b);
      assert S() == Take(st, i, b, name);
    }

    /** get_hash_table after the lock was released; its buffer still has the name it was looked up by. */
    method AtHashWait(i: nat)
      requires Valid() && i < pc.Length && pc[i].HashWait? && (pc[i].b < bufs.Length ==> !bufs[pc[i].b].lock)
      modifies bufs, pc
      ensures Stepped(Quiet) && old(pc[i]).b < bufs.Length
      ensures S() == Keeps(old(S()), i, Holding(old(pc[i].b)), old(pc[i].b), old(bufs[pc[i].b].count))
      ensures S().names[old(pc[i].b)] == old(pc[i].name)
    {
      hide Step, Linked, ChainsOk, RingOk, Ringed, HashLinks, KeepsHeld, Shows;
      assert PcOk(S(), pc[i], i);
      var HashWait(name, b) := pc[i];
      if lists.dev[b] == name.dev && lists.blocknr[b] == name.block {
        Move(i, Holding(b), b, bufs[b].count);
      } else {
        assert false;
      }
    }

    /** brelse of an unlocked buffer; it never finds the count already zero. */
    method Release(i: nat)
      requires Valid() && i < pc.Length && Has(S(), pc[i]) && !bufs[pc[i].b].lock
      modifies bufs, pc
      ensures Stepped(Quiet) && old(bufs[pc[i].b].count) > 0
      ensures S() == Keeps(old(S()), i, Idle, old(pc[i].b), old(bufs[pc[i].b].count) - 1)
    {
      hide Step, Linked, ChainsOk, RingOk, Ringed, HashLinks, KeepsHeld, Shows;
      var b := pc[i].b;
      HolderCounts(S(), i, b);
      Move(i, Idle, b, bufs[b].count - 1);
    }

    // ---------- reading ----------

    /** bread, with the buffer getblk returned. */
    method StartRead(i: nat)
      requires Valid() && i < pc.Length && pc[i].Holding?
      modifies bufs, pc
      ensures Stepped(Quiet) && old(pc[i].b) < bufs.Length
      ensures var b := old(pc[i].b);
        S() == Keeps(old(S()), i, if old(bufs[pc[i].b].uptodate) then Reading(b) else ReadLock(b), b, old(bufs[pc[i].b].count))
    {
      hide Step, Linked, ChainsOk, RingOk, Ringed, HashLinks, KeepsHeld, Shows;
      assert PcOk(S(), pc[i], i);
      var b := pc[i].b;
      Move(i, if bufs[b].uptodate then Reading(b) else ReadLock(b), b, bufs[b].count);
    }

    /** make_request once the lock is free: another reader may have been faster, or a writer may be done. */
    method AtLock(i: nat)
      requires Valid() && i < pc.Length && (pc[i].ReadLock? || pc[i].WriteLock?) && (pc[i].b < bufs.Length ==> !bufs[pc[i].b].lock)
      modifies this`owner, bufs, pc
      ensures Stepped(Quiet)
      ensures old(pc[i].b) < bufs.Length && S() == Locks(old(S()), i, old(pc[i].b), old(pc[i].WriteLock?))
    {
      hide Step, Linked, ChainsOk, RingOk, Ringed, HashLinks, KeepsHeld, Shows;
      assert PcOk(S(), pc[i], i);
      var b, write := pc[i].b, pc[i].WriteLock?;
      if (write && !bufs[b].dirt) || (!write && bufs[b].uptodate) {
        Move(i, if write then Idle else ReadWait(b), b, bufs[b].count);
      } else {
        Lock(i, b, write);
      }
    }

    method Lock(i: nat, b: nat, write: bool)
      requires Valid() && i < pc.Length && b < bufs.Length && !bufs[b].lock
      requires pc[i] == (if write then WriteLock(b) else ReadLock(b)) && (if write then bufs[b].dirt else !bufs[b].uptodate)
      modifies this`owner, bufs, pc
      ensures Stepped(Quiet)
      ensures S() == Upd(old(S()), i, if write then WriteSlot(b) else ReadSlot(b), b, old(bufs[b]).(lock := true), Waiting(i, write))
    {
      ghost var st := S();
      LockOk(st, i, b, write);
      assert |st.owner| == |st.bufs|;
      hide Inv, Step, PcOk, Linked, ChainsOk, RingOk, Ringed, HashLinks;
      bufs[b] := bufs[b].(lock := true);
      pc[i] := if write then WriteSlot(b) else ReadSlot(b);
      owner := owner[b := Waiting(i, write)];
      assert S() == Upd(st, i, pc[i], b, bufs[b], Waiting(i, write));
    }

    // The request itself, and what add_request does to the buffer.
    method Submit(i: nat, b: nat, write: bool) returns (ok: bool)
      requires Built() && Sized(S()) && i < pc.Length && b < bufs.Length && lists.dev[b] > 0
      modifies this`owner, bufs, pc, requests, requests.slots
      ensures Built() && S() == if ok then Enqueue(old(S()), i, b, write) else old(S())
      ensures !write ==> (ok <==> old(|requests.Queue()|) < NR_REQUEST)
      ensures !ok ==> |requests.Queue()| >= Limit(write)
      ensures !ok <==> old(NoSlot(requests.Taken(), write))
    {
      hide Linked, ChainsOk, RingOk, Ringed, HashLinks, InsertReq, Contents;
      ghost var st := S();
      ok := requests.AddRequest(Req(b, write, Name(lists.dev[b], lists.blocknr[b])));
      if ok {
        bufs[b] := bufs[b].(dirt := false);
        pc[i] := if write then Idle else ReadWait(b);
        owner := owner[b := Queued(write)];
      }
      assert S() == if ok then Enqueue(st, i, b, write) else st;
    }

    /** The rest of make_request: it waits on while no slot is free. */
    method AtSlot(i: nat)
      requires Valid() && i < pc.Length && (pc[i].ReadSlot? || pc[i].WriteSlot?)
      modifies this`owner, bufs, pc, requests, requests.slots
      ensures Stepped(Quiet)
      ensures old(pc[i].b) < bufs.Length
      ensures S() == Enqueue(old(S()), i, old(pc[i].b), old(pc[i].WriteSlot?)) ||
              (S() == old(S()) && |S().queue| >= Limit(old(pc[i].WriteSlot?)))
      ensures old(pc[i].ReadSlot?) && old(|requests.Queue()|) < NR_REQUEST ==> pc[i] == ReadWait(old(pc[i].b))
      ensures pc[i] == old(pc[i]) <==> old(NoSlot(requests.Taken(), pc[i].WriteSlot?))
    {
      ghost var st := S();
      assert PcOk(st, pc[i], i);
      var b, write := pc[i].b, pc[i].WriteSlot?;
      EnqueueOk(st, i, b, write);
      Stay(st);
      assert Sized(st);
      hide Inv, Step, PcOk, Linked, ChainsOk, RingOk, Ringed, HashLinks, InsertReq, Contents;
      var ok := Submit(i, b, write);
    }

    /** bread after its transfer: the block is always there. */
    method AtReadWait(i: nat)
      requires Valid() && i < pc.Length && pc[i].ReadWait? && (pc[i].b < bufs.Length ==> !bufs[pc[i].b].lock)
      modifies bufs, pc
      ensures Stepped(Quiet) && old(pc[i]).b < bufs.Length
      ensures S() == Keeps(old(S()), i, Reading(old(pc[i].b)), old(pc[i].b), old(bufs[pc[i].b].count))
    {
      hide Step, Linked, ChainsOk, RingOk, Ringed, HashLinks, KeepsHeld, Shows;
      assert PcOk(S(), pc[i], i) && BufOk(S(), pc[i].b);
      var b := pc[i].b;
      if bufs[b].uptodate {
        Move(i, Reading(b), b, bufs[b].count);
      } else {
        assert false;
      }
    }

    // ---------- what holders do ----------

    method Store(i: nat, v: Data)
      requires Valid() && i < pc.Length && Has(S(), pc[i]) && (pc[i].Reading? || Alone(S(), pc[i].b))
      modifies bufs, pc
      ensures Stepped(Stored(old(S()).names[old(pc[i].b)], v))
      ensures var b := old(pc[i].b);
        S() == Upd(old(S()), i, Reading(b), b, old(bufs[pc[i].b]).(data := v, dirt := true, uptodate := true), owner[b])
    {
      ghost var st := S();
      var b := pc[i].b;
      StoreOk(st, i, b, v);
      hide Inv, Step, PcOk, Linked, ChainsOk, RingOk, Ringed, HashLinks;
      bufs[b] := bufs[b].(data := v, dirt := true, uptodate := true);
      pc[i] := Reading(b);
      assert S() == Upd(st, i, Reading(b), b, bufs[b], st.owner[b]);
    }

    /** free_block drops the buffer of the block it frees. If others hold it too that is reported, and nothing is done. */
    method FreeBlock(i: nat) returns (ok: bool)
      requires Valid() && i < pc.Length && Has(S(), pc[i]) && !bufs[pc[i].b].lock
      modifies bufs, pc
      ensures ok <==> old(bufs[pc[i].b]).count == 1
      ensures ok ==> Stepped(Freed(old(S()).names[old(pc[i].b)], Disk(old(S()), old(S()).names[old(pc[i].b)])))
                     && S() == Discard(old(S()), i, old(pc[i].b))
      ensures !ok ==> Stepped(Quiet) && S() == old(S())
    {
      ghost var st := S();
      var b := pc[i].b;
      Stay(st);
      if bufs[b].count != 1 { return false; }
      DiscardOk(st, i, b);
      hide Inv, Step, PcOk, Linked, ChainsOk, RingOk, Ringed, HashLinks;
      bufs[b] := bufs[b].(count := bufs[b].count - 1, dirt := false, uptodate := false);
      pc[i] := Idle;
      assert S() == Discard(st, i, b);
      ok := true;
    }

    /** The interrupt that ends the transfer at the head of the queue. If the buffer was stored into
        meanwhile, the disk may have got any mixture `v`. */
    method DiskDone(v: Data)
      requires Valid() && requests.Queue() != []
      modifies this, bufs, requests, requests.slots
      ensures Stepped(Quiet)
      ensures old(S()).queue[0].bh < bufs.Length && S() == Complete(old(S()), v)
    {
      ghost var st := S();
      CompleteOk(st, v);
      assert |st.owner| == |st.bufs|;
      hide Inv, Step, PcOk, Linked, ChainsOk, RingOk, Ringed, HashLinks;
      var r := requests.EndRequest();
      var u := bufs[r.bh];
      if r.write {
        disk := disk[r.name := if u.dirt then v else u.data];
      }
      bufs[r.bh] := u.(lock := false, uptodate := true,
                       data := if r.write then u.data else if r.name in disk then disk[r.name] else []);
      owner := owner[r.bh := NoOne];
      assert S() == Complete(st, v);
    }

    // ---------- any schedule ----------

    /** An activity runs on from where it waits, if what it waits for has happened. */
    method Continue(i: nat)
      requires Valid() && i < pc.Length
      modifies this, bufs, pc, requests, requests.slots, lists, lists.dev, lists.blocknr, lists.next, lists.prev,
               lists.nextFree, lists.prevFree, lists.hash
      ensures Stepped(Quiet) && PcOk(old(S()), old(pc[i]), i) && Resumes(old(S()), S(), i)
      ensures WaitsForSlot(old(pc[i]), pc[i], old(requests.Taken()))
    {
      hide Step, Linked, ChainsOk, RingOk, Ringed, HashLinks, KeepsHeld, Shows;
      assert PcOk(S(), pc[i], i);
      Stay(S());
      match pc[i]
      case Lookup(_) => AtLookup(i);
      case FreeWait(name) => Go(i, Lookup(name));
      case HashWait(_, b) => if !bufs[b].lock { AtHashWait(i); }
      case VictimWait(name, b) => if !bufs[b].lock { TryVictim(i, name, b); }
      case ReadLock(b) => if !bufs[b].lock { AtLock(i); }
      case WriteLock(b) => if !bufs[b].lock { AtLock(i); }
      case ReadSlot(_) => AtSlot(i);
      case WriteSlot(_) => AtSlot(i);
      case ReadWait(b) => if !bufs[b].lock { AtReadWait(i); }
      case _ =>
    }

    /** One choice by one activity; one that does not apply does nothing. */
    method Act(c: Choice) returns (ghost e: Event)
      requires Valid() && !c.DiskDone? && c.i < pc.Length
      modifies this, bufs, pc, requests, requests.slots, lists, lists.dev, lists.blocknr, lists.next, lists.prev,
               lists.nextFree, lists.prevFree, lists.hash
      ensures e == EventOf(old(S()), c) && Stepped(e) && Acts(old(S()), S(), c)
      ensures c.Continue? ==> WaitsForSlot(old(pc[c.i]), pc[c.i], old(requests.Taken()))
    {
      hide Step, Linked, ChainsOk, RingOk, Ringed, HashLinks, KeepsHeld, Shows, Resumes, Contents, QueueOk, Unique,
           BufOk, Counted;
      ghost var st := S();
      e := EventOf(st, c);
      Stay(st);
      assert PcOk(st, pc[c.i], c.i);
      match c
      case Begin(i, name) => if pc[i].Idle? && name.dev != 0 { Go(i, Lookup(name)); }
      case Continue(i) => Continue(i);
      case Sync(i, b) => if pc[i].Idle? && b < bufs.Length && bufs[b].dirt { Go(i, WriteLock(b)); }
      case StartRead(i) => if pc[i].Holding? { StartRead(i); }
      case Store(i, v) => if pc[i].Reading? { Store(i, v); }
      case Overwrite(i, v) => if pc[i].Holding? && bufs[pc[i].b].count == 1 && !bufs[pc[i].b].lock { Store(i, v); }
      case Load(i) => if pc[i].Reading? { LoadOk(st, i, pc[i].b); }
      case Release(i) => if (pc[i].Holding? || pc[i].Reading?) && !bufs[pc[i].b].lock { Release(i); }
      case FreeBlock(i) => if (pc[i].Holding? || pc[i].Reading?) && !bufs[pc[i].b].lock { var ok := FreeBlock(i); }
    }

    /** One choice of the schedule. */
    method Do(c: Choice) returns (ghost e: Event)
      requires Valid()
      modifies this, bufs, pc, requests, requests.slots, lists, lists.dev, lists.blocknr, lists.next, lists.prev,
               lists.nextFree, lists.prevFree, lists.hash
      ensures e == EventOf(old(S()), c) && Stepped(e) && Follows(old(S()), S(), c)
      ensures c.Continue? && c.i < pc.Length ==> WaitsForSlot(old(pc[c.i]), pc[c.i], old(requests.Taken()))
    {
      hide Step, Linked, ChainsOk, RingOk, Ringed, HashLinks, Acts, Inv, Contents, Complete;
      Stay(S());
      if c.DiskDone? {
        e := Quiet;
        if requests.current != NULL { DiskDone(c.v); }
      } else if c.i < pc.Length {
        e := Act(c);
      } else {
        e := Quiet;
      }
    }

    /** Any number of activities under any schedule: the cache and the disk together are a plain map,
        every load returns the data last stored, and a buffer that is held keeps its block. */
    method Run(choices: seq<Choice>) returns (ghost states: seq<State>, ghost events: seq<Event>,
                                            ghost taken: seq<set<nat>>)
      requires Valid()
      modifies this, bufs, pc, requests, requests.slots, lists, lists.dev, lists.blocknr, lists.next, lists.prev,
               lists.nextFree, lists.prevFree, lists.hash
      ensures Valid() && IsRun(states, choices) && events == EventsOf(states, choices)
      ensures states[0] == old(S()) && states[|choices|] == S()
      ensures forall k: nat :: k < |choices| ==> Follows(states[k], states[k + 1], choices[k])
      ensures |taken| == |states| && taken[0] == old(requests.Taken()) && taken[|choices|] == requests.Taken()
      ensures forall k: nat :: k <= |choices| ==> |taken[k]| == |states[k].queue|
      ensures forall k: nat :: k < |choices| ==> WaitsExactly(states, choices, taken, k)
      ensures forall k: nat :: k < |choices| && choices[k].Continue? ==> Served(states[k], states[k + 1], choices[k].i)
      ensures forall n: Name :: n.dev != 0 ==> Current(S(), n) == Replay(events, n, Current(old(S()), n))
      ensures forall k: nat, i: nat :: k <= |choices| ==> SeesLast(old(S()), events[..k], states[k], i)
      ensures forall k: nat :: k < |events| && events[k].Loaded? ==>
                events[k].v == Replay(events[..k], events[k].n, Current(old(S()), events[k].n))
    {
      hide Step, Linked, ChainsOk, RingOk, Ringed, HashLinks, KeepsHeld, Shows, Inv, Follows, Served, SeesLast;
      states, taken := [S()], [requests.Taken()];
      TakenSize(requests.slots[..], requests.order, requests.Taken());
      for j := 0 to |choices|
        invariant Valid() && |states| == j + 1 && states[0] == old(S()) && states[j] == S()
        invariant forall k: nat :: k < j ==> Follows(states[k], states[k + 1], choices[k])
        invariant |taken| == j + 1 && taken[0] == old(requests.Taken()) && taken[j] == requests.Taken()
        invariant forall k: nat :: k <= j ==> |taken[k]| == |states[k].queue|
        invariant forall k: nat :: k < j ==> WaitsExactly(states, choices, taken, k)
      {
        ghost var e := Do(choices[j]);
        ghost var states0, taken0 := states, taken;
        states, taken := states + [S()], taken + [requests.Taken()];
        TakenSize(requests.slots[..], requests.order, requests.Taken());
        forall k: nat | k < j + 1 ensures WaitsExactly(states, choices, taken, k) {
          if k < j { assert WaitsExactly(states0, choices, taken0, k); }
        }
      }
      assert forall k: nat :: k < |choices| ==> StepAt(states, choices, k);
      events := EventsOf(states, choices);
      forall k: nat | k < |choices| && choices[k].Continue? ensures Served(states[k], states[k + 1], choices[k].i) {
        AlwaysServed(states[k], states[k + 1], choices[k].i);
      }
      forall n: Name | n.dev != 0 ensures Current(S(), n) == Replay(events, n, Current(old(S()), n)) {
        RunIsMap(states, choices, |choices|, n);
        assert events[..|events|] == events;
      }
      forall k: nat, i: nat | k <= |choices| ensures SeesLast(old(S()), events[..k], states[k], i) {
        ReadersSeeLast(states, choices, k, i);
      }
      forall k: nat | k < |events| && events[k].Loaded?
        ensures events[k].v == Replay(events[..k], events[k].n, Current(old(S()), events[k].n))
      {
        ReadsLastStored(states, choices, k);
      }
    }
  }
}
