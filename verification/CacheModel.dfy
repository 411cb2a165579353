/**
  The buffer cache as a step machine (linux-0.11/fs/buffer.c and
  kernel/blk_drv/ll_rw_blk.c): any number of activities, each at one of the
  points where the kernel can switch away from it, share the buffers, the disk
  and the request queue. Each step is what one activity does between two such
  points, or the disk finishing the request at the head of the queue.
 */
module CacheModel {
  import opened BufferLists
  import Elevator

  // The contents of one block.
  type Data = seq<int>

  datatype Buf = Buf(count: nat, lock: bool, dirt: bool, uptodate: bool, data: Data)

  // A queued transfer: the buffer, the direction, and the block it is for.
  datatype Req = Req(bh: nat, write: bool, name: Name)

  /** Where an activity stands. An activity that keeps several buffers counts once for each. */
  datatype Pc =
    | Idle
    | Lookup(name: Name)               // getblk, from its top
    | HashWait(name: Name, b: nat)     // get_hash_table: counted, waiting for the lock
    | FreeWait(name: Name)             // getblk: no buffer is free
    | VictimWait(name: Name, b: nat)   // getblk: waiting for the chosen buffer
    | Holding(b: nat)                  // getblk returned this buffer
    | ReadLock(b: nat)                 // bread: waiting for the lock
    | ReadSlot(b: nat)                 // bread: locked, waiting for a request slot
    | ReadWait(b: nat)                 // bread: waiting for the transfer
    | Reading(b: nat)                  // bread returned this buffer
    | WriteLock(b: nat)                // ll_rw_block(WRITE): waiting for the lock
    | WriteSlot(b: nat)                // ll_rw_block(WRITE): locked, waiting for a slot

  predicate Holds(p: Pc, b: nat) {
    match p
    case HashWait(_, c) => c == b
    case Holding(c) => c == b
    case ReadLock(c) => c == b
    case ReadSlot(c) => c == b
    case ReadWait(c) => c == b
    case Reading(c) => c == b
    case _ => false
  }

  // Why a buffer is locked.
  datatype Owner = NoOne | Waiting(i: nat, write: bool) | Queued(write: bool)

  datatype State = State(names: seq<Name>, bufs: seq<Buf>, owner: seq<Owner>, pc: seq<Pc>, queue: seq<Req>,
      disk: map<Name, Data>)

  function Disk(st: State, n: Name): Data {
    if n in st.disk then st.disk[n] else []
  }

  // ---------- the invariant ----------

  ghost predicate Sized(st: State) {
    |st.names| == |st.bufs| == |st.owner|
  }

  /** No two buffers carry the same block. */
  ghost predicate Unique(names: seq<Name>) {
    forall a, b :: 0 <= a < b < |names| && names[a].dev != 0 ==> names[a] != names[b]
  }

  ghost function Holders(pc: seq<Pc>, b: nat): set<nat> {
    set i: nat | i < |pc| && Holds(pc[i], b)
  }

  ghost predicate BufOk(st: State, b: nat)
    requires Sized(st) && b < |st.bufs|
  {
    var u, o := st.bufs[b], st.owner[b];
    && u.lock == (o != NoOne)
    && (u.dirt ==> u.uptodate && st.names[b].dev != 0)
    && (o.Waiting? ==> o.i < |st.pc| && st.pc[o.i] == (if o.write then WriteSlot(b) else ReadSlot(b))
                       && st.names[b].dev != 0 && u.uptodate == o.write && (o.write ==> u.dirt))
    && (o.Queued? ==> Req(b, o.write, st.names[b]) in st.queue && u.uptodate == o.write)
    && (u.uptodate && !u.dirt && o != Queued(true) && st.names[b].dev != 0 ==> Disk(st, st.names[b]) == u.data)
  }

  ghost predicate Counted(st: State, b: nat)
    requires Sized(st) && b < |st.bufs|
  {
    st.bufs[b].count == |Holders(st.pc, b)|
  }

  ghost predicate PcOk(st: State, p: Pc, i: nat)
    requires Sized(st)
  {
    match p
    case Idle => true
    case Lookup(n) => n.dev != 0
    case FreeWait(n) => n.dev != 0
    case HashWait(n, b) => b < |st.bufs| && st.names[b] == n && n.dev != 0
    case VictimWait(n, b) => b < |st.bufs| && n.dev != 0
    case Holding(b) => b < |st.bufs| && st.names[b].dev != 0
    case ReadLock(b) => b < |st.bufs| && st.names[b].dev != 0
    case ReadSlot(b) => b < |st.bufs| && st.owner[b] == Waiting(i, false)
    case ReadWait(b) => b < |st.bufs| && st.names[b].dev != 0 && (st.bufs[b].uptodate || st.owner[b] == Queued(false))
    case Reading(b) => b < |st.bufs| && st.names[b].dev != 0 && st.bufs[b].uptodate
    case WriteLock(b) => b < |st.bufs|
    case WriteSlot(b) => b < |st.bufs| && st.owner[b] == Waiting(i, true)
  }

  ghost predicate ReqOk(st: State, r: Req)
    requires Sized(st)
  {
    r.bh < |st.bufs| && r.name == st.names[r.bh] && r.name.dev != 0 && st.owner[r.bh] == Queued(r.write)
  }

  // Reads sort before writes; a block is two sectors.
  function KeyOf(r: Req): Elevator.Key {
    Elevator.Key(if r.write then 1 else 0, r.name.dev, 2 * r.name.block)
  }

  function Keys(q: seq<Req>): (k: seq<Elevator.Key>)
    ensures |k| == |q|
  {
    seq(|q|, i requires 0 <= i < |q| => KeyOf(q[i]))
  }

  predicate DistinctBuffers(q: seq<Req>) {
    forall i, j :: 0 <= i < j < |q| ==> q[i].bh != q[j].bh
  }

  ghost predicate QueueOk(st: State)
    requires Sized(st)
  {
    && (forall r :: r in st.queue ==> ReqOk(st, r))
    && DistinctBuffers(st.queue)
    && Elevator.OneDrop(Keys(st.queue))
  }

  ghost predicate Inv(st: State) {
    && Sized(st) && Unique(st.names) && QueueOk(st)
    && (forall b: nat :: b < |st.bufs| ==> BufOk(st, b) && Counted(st, b))
    && (forall i: nat :: i < |st.pc| ==> PcOk(st, st.pc[i], i))
  }

  /** The transfers that wait are two sweeps over the disks: in each, reads come before writes, and those of one
      direction go by device and then by rising block. */
  lemma QueueSweeps(st: State) returns (k: nat)
    requires Inv(st)
    ensures k <= |st.queue|
    ensures forall i, j :: 0 <= i < j < |st.queue| && (j < k || k <= i) ==>
              && (st.queue[i].write ==> st.queue[j].write)
              && (st.queue[i].write == st.queue[j].write ==> st.queue[i].name.dev <= st.queue[j].name.dev)
              && (st.queue[i].write == st.queue[j].write && st.queue[i].name.dev == st.queue[j].name.dev ==>
                    st.queue[i].name.block < st.queue[j].name.block)
  {
    k := Elevator.OneDropIsTwoSweeps(Keys(st.queue));
    hide Inv;
    forall i, j | 0 <= i < j < |st.queue| && (j < k || k <= i)
      ensures Keys(st.queue)[i] == KeyOf(st.queue[i]) && Keys(st.queue)[j] == KeyOf(st.queue[j]) {}
  }

  // ---------- what the cache and the disk together hold ----------

  ghost predicate Caches(st: State, b: nat, n: Name) {
    b < |st.names| && b < |st.bufs| && st.names[b] == n && st.bufs[b].uptodate
  }

  /** The current contents of a block: the cached copy if there is a good one, else the disk's. */
  ghost function Current(st: State, n: Name): Data {
    if b: nat :| Caches(st, b, n) then st.bufs[b].data else Disk(st, n)
  }

  lemma CurrentIs(st: State, b: nat, n: Name)
    requires Unique(st.names) && n.dev != 0 && Caches(st, b, n)
    ensures Current(st, n) == st.bufs[b].data
  {
  }

  // ---------- steps that touch one activity and one buffer ----------

  /** Activity `i` moves to `p`, and buffer `b` becomes `u`, locked by `o`. */
  function Upd(st: State, i: nat, p: Pc, b: nat, u: Buf, o: Owner): State
    requires Sized(st) && i < |st.pc| && b < |st.bufs|
  {
    st.(pc := st.pc[i := p], bufs := st.bufs[b := u], owner := st.owner[b := o])
  }

  lemma SizeWithout(s: set<nat>, i: nat)
    ensures |s - {i}| == |s| - if i in s then 1 else 0
  {
    if i !in s { assert s - {i} == s; }
  }

  lemma HoldersAfter(pc: seq<Pc>, i: nat, p: Pc, b: nat)
    requires i < |pc|
    ensures |Holders(pc[i := p], b)| == |Holders(pc, b)| - (if Holds(pc[i], b) then 1 else 0) + (if Holds(p, b) then 1 else 0)
  {
    var h, h' := Holders(pc, b), Holders(pc[i := p], b);
    forall j: nat | j != i ensures j in h' <==> j in h {}
    assert i in h <==> Holds(pc[i], b);
    assert i in h' <==> Holds(p, b);
    hide Holds, Holders;
    assert h' - {i} == h - {i};
    SizeWithout(h, i);
    SizeWithout(h', i);
  }

  /** Another activity at buffer `b` is not disturbed if the lock stays its own and good data stays good. */
  ghost predicate Harmless(st: State, i: nat, b: nat, u: Buf, o: Owner)
    requires Sized(st) && b < |st.bufs|
  {
    && (st.bufs[b].uptodate ==> u.uptodate)
    && (o == st.owner[b] || (st.owner[b] == NoOne && o.Waiting? && o.i == i) || (st.owner[b].Waiting? && st.owner[b].i == i && o == NoOne))
  }

  lemma LocalKeeps(st: State, i: nat, p: Pc, b: nat, u: Buf, o: Owner)
    requires Inv(st) && i < |st.pc| && b < |st.bufs| && Harmless(st, i, b, u, o)
    requires u.count == st.bufs[b].count - (if Holds(st.pc[i], b) then 1 else 0) + (if Holds(p, b) then 1 else 0)
    requires forall c: nat :: c != b ==> Holds(st.pc[i], c) == Holds(p, c)
    requires st.pc[i].ReadSlot? || st.pc[i].WriteSlot? ==> st.pc[i].b == b
    requires var t := Upd(st, i, p, b, u, o); BufOk(t, b) && PcOk(t, p, i)
    ensures Inv(Upd(st, i, p, b, u, o))
  {
    var t := Upd(st, i, p, b, u, o);
    forall c: nat | c < |t.bufs| ensures BufOk(t, c) && Counted(t, c) {
      assert BufOk(st, c) && Counted(st, c);
      HoldersAfter(st.pc, i, p, c);
    }
    forall j: nat | j < |t.pc| ensures PcOk(t, t.pc[j], j) {
      assert PcOk(st, st.pc[j], j);
      if j != i { OthersOk(st, i, p, b, u, o, j); }
    }
    forall r | r in t.queue ensures ReqOk(t, r) {
      assert ReqOk(st, r);
    }
  }

  lemma OthersOk(st: State, i: nat, p: Pc, b: nat, u: Buf, o: Owner, j: nat)
    requires Inv(st) && i < |st.pc| && b < |st.bufs| && Harmless(st, i, b, u, o) && j < |st.pc| && j != i
    ensures PcOk(Upd(st, i, p, b, u, o), st.pc[j], j)
  {
    assert PcOk(st, st.pc[j], j) && BufOk(st, b);
  }

  predicate SameData(u: Buf, w: Buf) {
    w.uptodate == u.uptodate && (u.uptodate ==> w.data == u.data)
  }

  /** A step that changes no contents shows in no block. */
  lemma SameContents(st: State, t: State)
    requires Sized(st) && Sized(t) && Unique(st.names) && t.names == st.names && t.disk == st.disk
    requires forall b: nat :: b < |st.bufs| && st.names[b].dev != 0 ==> SameData(st.bufs[b], t.bufs[b])
    ensures forall n: Name :: n.dev != 0 ==> Current(t, n) == Current(st, n)
  {
    forall n: Name | n.dev != 0 ensures Current(t, n) == Current(st, n) {
      if b: nat :| Caches(st, b, n) {
        assert Caches(t, b, n);
        CurrentIs(st, b, n);
        CurrentIs(t, b, n);
      } else {
        forall b: nat ensures !Caches(t, b, n) { assert !Caches(st, b, n); }
      }
    }
  }

  /** A holder stores into a buffer. */
  lemma StoreShows(st: State, i: nat, b: nat, v: Data, p: Pc)
    requires Inv(st) && i < |st.pc| && b < |st.bufs| && st.names[b].dev != 0
    ensures var t := Upd(st, i, p, b, st.bufs[b].(data := v, dirt := true, uptodate := true), st.owner[b]);
      forall n: Name :: n.dev != 0 ==> Current(t, n) == if n == st.names[b] then v else Current(st, n)
  {
    var t := Upd(st, i, p, b, st.bufs[b].(data := v, dirt := true, uptodate := true), st.owner[b]);
    forall n: Name | n.dev != 0 ensures Current(t, n) == if n == st.names[b] then v else Current(st, n) {
      if n == st.names[b] {
        assert Caches(t, b, n);
        CurrentIs(t, b, n);
      } else if c: nat :| Caches(st, c, n) {
        assert Caches(t, c, n);
        CurrentIs(st, c, n);
        CurrentIs(t, c, n);
      } else {
        forall c: nat ensures !Caches(t, c, n) { assert !Caches(st, c, n); }
      }
    }
  }

  // ---------- a buffer changes its identity ----------

  /** getblk takes buffer `b` for the block `n`. */
  function Take(st: State, i: nat, b: nat, n: Name): State
    requires Sized(st) && i < |st.pc| && b < |st.bufs|
  {
    Upd(st, i, Holding(b), b, st.bufs[b].(count := 1, dirt := false, uptodate := false), st.owner[b]).(names := st.names[b := n])
  }

  /** It may be taken when nobody holds it, it is unlocked and clean, and the block is not cached. */
  ghost predicate Takable(st: State, b: nat, n: Name)
    requires Sized(st)
  {
    && b < |st.bufs| && st.bufs[b].count == 0 && !st.bufs[b].lock && !st.bufs[b].dirt && n.dev != 0
    && forall c: nat :: c < |st.names| ==> st.names[c] != n
  }

  lemma NotHeld(st: State, b: nat, j: nat)
    requires Inv(st) && b < |st.bufs| && st.bufs[b].count == 0 && j < |st.pc|
    ensures !Holds(st.pc[j], b)
  {
    assert Counted(st, b);
    assert Holders(st.pc, b) == {};
    assert Holds(st.pc[j], b) <==> j in Holders(st.pc, b);
  }

  lemma TakeKeeps(st: State, i: nat, b: nat, n: Name)
    requires Inv(st) && i < |st.pc| && Takable(st, b, n) && (st.pc[i].Lookup? || st.pc[i].VictimWait?)
    ensures Inv(Take(st, i, b, n))
    ensures forall m: Name :: m.dev != 0 ==> Current(Take(st, i, b, n), m) == Current(st, m)
  {
    var t := Take(st, i, b, n);
    assert BufOk(st, b);
    forall c: nat | c < |t.bufs| ensures BufOk(t, c) && Counted(t, c) {
      assert BufOk(st, c) && Counted(st, c);
      HoldersAfter(st.pc, i, Holding(b), c);
    }
    forall j: nat | j < |t.pc| ensures PcOk(t, t.pc[j], j) {
      assert PcOk(st, st.pc[j], j);
      NotHeld(st, b, j);
    }
    forall r | r in t.queue ensures ReqOk(t, r) {
      assert ReqOk(st, r);
    }
    TakeHides(st, i, b, n);
  }

  lemma TakeHides(st: State, i: nat, b: nat, n: Name)
    requires Inv(st) && i < |st.pc| && Takable(st, b, n)
    ensures forall m: Name :: m.dev != 0 ==> Current(Take(st, i, b, n), m) == Current(st, m)
  {
    var t := Take(st, i, b, n);
    assert BufOk(st, b);
    forall m: Name | m.dev != 0 ensures Current(t, m) == Current(st, m) {
      if c: nat :| Caches(st, c, m) {
        CurrentIs(st, c, m);
        if c != b {
          assert Caches(t, c, m);
          assert Unique(t.names);
          CurrentIs(t, c, m);
        } else {
          forall d: nat ensures !Caches(t, d, m) {}
        }
      } else {
        forall d: nat ensures !Caches(t, d, m) { assert !Caches(st, d, m); }
      }
    }
  }

  // ---------- the request queue ----------

  function InsertReq(q: seq<Req>, r: Req): seq<Req> {
    if q == [] then [r]
    else
      var p := Elevator.Place(Keys(q), KeyOf(r), 0) + 1;
      q[..p] + [r] + q[p..]
  }

  lemma InsertReqAt(q: seq<Req>, r: Req) returns (p: nat)
    ensures p <= |q| && InsertReq(q, r) == q[..p] + [r] + q[p..]
    ensures Keys(InsertReq(q, r)) == Elevator.Insert(Keys(q), KeyOf(r))
  {
    p := if q == [] then 0 else Elevator.Place(Keys(q), KeyOf(r), 0) + 1;
    assert Keys(q[..p]) == Keys(q)[..p] && Keys(q[p..]) == Keys(q)[p..];
    var t := q[..p] + [r] + q[p..];
    assert Keys(t) == Keys(q)[..p] + [KeyOf(r)] + Keys(q)[p..];
  }

  lemma SplicedMembers(q: seq<Req>, r: Req, p: nat)
    requires p <= |q|
    ensures forall x :: x in q[..p] + [r] + q[p..] <==> x in q || x == r
  {
    assert q == q[..p] + q[p..];
  }

  lemma SplicedBuffers(q: seq<Req>, r: Req, p: nat)
    requires p <= |q| && DistinctBuffers(q) && forall x :: x in q ==> x.bh != r.bh
    ensures DistinctBuffers(q[..p] + [r] + q[p..])
  {
    var t := q[..p] + [r] + q[p..];
    assert forall i :: 0 <= i < |t| ==> t[i] == if i < p then q[i] else if i == p then r else q[i - 1];
    forall i | 0 <= i < |q| ensures q[i].bh != r.bh { assert q[i] in q; }
  }

  lemma InsertReqProps(q: seq<Req>, r: Req)
    ensures forall x :: x in InsertReq(q, r) <==> x in q || x == r
    ensures Keys(InsertReq(q, r)) == Elevator.Insert(Keys(q), KeyOf(r))
    ensures (forall x :: x in q ==> x.bh != r.bh) && DistinctBuffers(q) ==> DistinctBuffers(InsertReq(q, r))
  {
    var p := InsertReqAt(q, r);
    SplicedMembers(q, r, p);
    if DistinctBuffers(q) && forall x :: x in q ==> x.bh != r.bh { SplicedBuffers(q, r, p); }
  }

  /** The locked buffer `b` goes into the queue; writes are clean from now on. */
  function Enqueue(st: State, i: nat, b: nat, write: bool): State
    requires Sized(st) && i < |st.pc| && b < |st.bufs|
  {
    Upd(st, i, if write then Idle else ReadWait(b), b, st.bufs[b].(dirt := false), Queued(write))
      .(queue := InsertReq(st.queue, Req(b, write, st.names[b])))
  }

  /** Different buffers have different keys, so the elevator's promise applies. */
  lemma NewKey(st: State, r: Req)
    requires Inv(st) && r.bh < |st.bufs| && r.name == st.names[r.bh] && r.name.dev != 0 && !st.owner[r.bh].Queued?
    ensures KeyOf(r) !in Keys(st.queue) && forall x :: x in st.queue ==> x.bh != r.bh
  {
    forall x | x in st.queue ensures KeyOf(x) != KeyOf(r) && x.bh != r.bh {
      assert ReqOk(st, x);
      assert KeyOf(x) == KeyOf(r) ==> x.name == r.name;
    }
  }

  lemma EnqueueQueue(st: State, i: nat, b: nat, write: bool)
    requires Inv(st) && i < |st.pc| && b < |st.bufs| && st.owner[b] == Waiting(i, write) && st.names[b].dev != 0
    ensures QueueOk(Enqueue(st, i, b, write))
  {
    var r := Req(b, write, st.names[b]);
    NewKey(st, r);
    InsertReqProps(st.queue, r);
    Elevator.InsertKeepsSweeps(Keys(st.queue), KeyOf(r));
    forall x | x in st.queue ensures ReqOk(Enqueue(st, i, b, write), x) {
      assert ReqOk(st, x);
    }
  }

  lemma EnqueueKeeps(st: State, i: nat, b: nat, write: bool)
    requires Inv(st) && i < |st.pc| && b < |st.bufs| && st.pc[i] == if write then WriteSlot(b) else ReadSlot(b)
    ensures Inv(Enqueue(st, i, b, write))
    ensures forall n: Name :: n.dev != 0 ==> Current(Enqueue(st, i, b, write), n) == Current(st, n)
  {
    hide Elevator.OneDrop;
    var t := Enqueue(st, i, b, write);
    assert PcOk(st, st.pc[i], i) && BufOk(st, b);
    EnqueueQueue(st, i, b, write);
    InsertReqProps(st.queue, Req(b, write, st.names[b]));
    forall c: nat | c < |t.bufs| ensures BufOk(t, c) && Counted(t, c) {
      assert BufOk(st, c) && Counted(st, c);
      HoldersAfter(st.pc, i, t.pc[i], c);
    }
    forall j: nat | j < |t.pc| ensures PcOk(t, t.pc[j], j) {
      assert PcOk(st, st.pc[j], j);
    }
    SameContents(st, t);
  }

  /** The disk finishes the head request. If the buffer was stored into while it was
      being written, the disk may have any mixture `v`, and the buffer is dirty. */
  function Complete(st: State, v: Data): State
    requires Sized(st) && st.queue != [] && st.queue[0].bh < |st.bufs|
  {
    var r := st.queue[0];
    var u := st.bufs[r.bh];
    st.(queue := st.queue[1..], owner := st.owner[r.bh := NoOne],
        bufs := st.bufs[r.bh := u.(lock := false, uptodate := true, data := if r.write then u.data else Disk(st, r.name))],
        disk := if r.write then st.disk[r.name := if u.dirt then v else u.data] else st.disk)
  }

  lemma CompleteKeeps(st: State, v: Data)
    requires Inv(st) && st.queue != []
    ensures st.queue[0].bh < |st.bufs| && Inv(Complete(st, v))
  {
    var r := st.queue[0];
    assert r in st.queue && ReqOk(st, r);
    var t := Complete(st, v);
    assert BufOk(st, r.bh);
    Elevator.RemoveKeepsSweeps(Keys(st.queue));
    assert Keys(t.queue) == Keys(st.queue)[1..];
    hide Elevator.OneDrop;
    forall x | x in t.queue ensures ReqOk(t, x) {
      assert x in st.queue && ReqOk(st, x);
      var k :| 0 <= k < |t.queue| && t.queue[k] == x;
      assert st.queue[k + 1].bh != st.queue[0].bh;
    }
    forall c: nat | c < |t.bufs| ensures BufOk(t, c) && Counted(t, c) {
      assert BufOk(st, c) && Counted(st, c);
      CompleteBuf(st, v, c);
    }
    forall j: nat | j < |t.pc| ensures PcOk(t, t.pc[j], j) {
      assert PcOk(st, st.pc[j], j);
    }
  }

  lemma CompleteBuf(st: State, v: Data, c: nat)
    requires Inv(st) && st.queue != [] && st.queue[0].bh < |st.bufs| && c < |st.bufs| && BufOk(st, c)
    ensures BufOk(Complete(st, v), c)
  {
    var r := st.queue[0];
    assert r in st.queue && ReqOk(st, r) && BufOk(st, r.bh);
    var t := Complete(st, v);
    if c != r.bh {
      assert st.names[c].dev != 0 ==> st.names[c] != r.name;
      if st.owner[c].Queued? {
        var x := Req(c, st.owner[c].write, st.names[c]);
        var k :| 0 <= k < |st.queue| && st.queue[k] == x;
        assert t.queue[k - 1] == x;
      }
    }
  }

  lemma CompleteHides(st: State, v: Data)
    requires Inv(st) && st.queue != [] && st.queue[0].bh < |st.bufs|
    ensures forall n: Name :: n.dev != 0 ==> Current(Complete(st, v), n) == Current(st, n)
  {
    var r := st.queue[0];
    var t := Complete(st, v);
    assert r in st.queue && ReqOk(st, r) && BufOk(st, r.bh);
    forall n: Name | n.dev != 0 ensures Current(t, n) == Current(st, n) {
      if n == r.name {
        assert Caches(t, r.bh, n);
        CurrentIs(t, r.bh, n);
        if r.write {
          assert Caches(st, r.bh, n);
          CurrentIs(st, r.bh, n);
        } else {
          forall b: nat ensures !Caches(st, b, n) {}
        }
      } else if b: nat :| Caches(st, b, n) {
        assert Caches(t, b, n);
        CurrentIs(st, b, n);
        CurrentIs(t, b, n);
      } else {
        forall b: nat ensures !Caches(t, b, n) { assert !Caches(st, b, n); }
      }
    }
  }

  // ---------- a block is freed ----------

  /** free_block drops the buffer of a freed block that nobody else holds. */
  function Discard(st: State, i: nat, b: nat): State
    requires Sized(st) && i < |st.pc| && b < |st.bufs|
  {
    Upd(st, i, Idle, b, st.bufs[b].(count := 0, dirt := false, uptodate := false), st.owner[b])
  }

  lemma OnlyHolder(st: State, i: nat, b: nat, j: nat)
    requires Inv(st) && b < |st.bufs| && st.bufs[b].count == 1 && i < |st.pc| && Holds(st.pc[i], b) && j < |st.pc| && j != i
    ensures !Holds(st.pc[j], b)
  {
    assert Counted(st, b);
    var h := Holders(st.pc, b);
    assert i in h;
    assert |h - {i}| == 0;
    assert h - {i} == {};
    assert Holds(st.pc[j], b) <==> j in h - {i};
  }

  lemma DiscardKeeps(st: State, i: nat, b: nat)
    requires Inv(st) && i < |st.pc| && b < |st.bufs| && (st.pc[i] == Holding(b) || st.pc[i] == Reading(b))
    requires st.bufs[b].count == 1 && !st.bufs[b].lock
    ensures Inv(Discard(st, i, b))
    ensures forall n: Name :: n.dev != 0 ==> Current(Discard(st, i, b), n) == if n == st.names[b] then Disk(st, n) else Current(st, n)
  {
    var t := Discard(st, i, b);
    assert BufOk(st, b);
    forall c: nat | c < |t.bufs| ensures BufOk(t, c) && Counted(t, c) {
      assert BufOk(st, c) && Counted(st, c);
      HoldersAfter(st.pc, i, Idle, c);
    }
    forall j: nat | j < |t.pc| ensures PcOk(t, t.pc[j], j) {
      assert PcOk(st, st.pc[j], j);
      if j != i { OnlyHolder(st, i, b, j); }
    }
    forall r | r in t.queue ensures ReqOk(t, r) {
      assert ReqOk(st, r);
    }
    forall n: Name | n.dev != 0 ensures Current(t, n) == if n == st.names[b] then Disk(st, n) else Current(st, n) {
      if n == st.names[b] {
        forall c: nat ensures !Caches(t, c, n) {}
      } else if c: nat :| Caches(st, c, n) {
        assert Caches(t, c, n);
        CurrentIs(st, c, n);
        CurrentIs(t, c, n);
      } else {
        forall c: nat ensures !Caches(t, c, n) { assert !Caches(st, c, n); }
      }
    }
  }
}
