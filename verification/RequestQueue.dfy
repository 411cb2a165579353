/**
  The request slots of linux-0.11/kernel/blk_drv/ll_rw_blk.c: a fixed array whose
  used entries are linked in the order they will be served. Proved against the
  plain sequence that CacheModel uses.
 */
module RequestQueue {
  import opened Sequences
  import opened BufferLists
  import opened CacheModel
  import Elevator

  const NR_REQUEST: nat := 32

  // struct request; a negative device marks a free slot.
  datatype Slot = Slot(dev: int, write: bool, sector: nat, bh: nat, next: int)

  // Writes may use only the first two thirds of the slots.
  function Limit(write: bool): nat {
    if write then NR_REQUEST * 2 / 3 else NR_REQUEST
  }

  function AsReq(s: Slot): Req {
    Req(s.bh, s.write, Name(if s.dev > 0 then s.dev else 0, s.sector / 2))
  }

  function AsKey(s: Slot): Elevator.Key {
    Elevator.Key(if s.write then 1 else 0, if s.dev > 0 then s.dev else 0, s.sector)
  }

  ghost predicate SlotOk(slots: seq<Slot>, order: seq<nat>, k: nat)
    requires k < |order|
  {
    && order[k] < |slots|
    && var s := slots[order[k]];
      s.dev >= 0 && s.sector % 2 == 0 && s.next == At(order, k + 1) && order[k] < Limit(s.write)
  }

  ghost predicate Linked(slots: seq<Slot>, order: seq<nat>) {
    && Distinct(order)
    && (forall k: nat :: k < |order| ==> SlotOk(slots, order, k))
    && (forall i: nat :: i < |slots| && i !in order ==> slots[i].dev < 0)
  }

  ghost function Contents(slots: seq<Slot>, order: seq<nat>): (q: seq<Req>)
    requires Linked(slots, order)
    ensures |q| == |order|
  {
    seq(|order|, k requires 0 <= k < |order| => assert SlotOk(slots, order, k); AsReq(slots[order[k]]))
  }

  // Every slot that the direction may use is in use.
  ghost predicate NoSlot(taken: set<nat>, write: bool) {
    forall i: nat :: i < Limit(write) ==> i in taken
  }

  // ---------- how many requests there can be ----------

  /** Full up to a limit means at least that many requests; room in the queue means a free slot. */
  lemma SlotsCount(slots: seq<Slot>, order: seq<nat>, n: nat)
    requires Linked(slots, order) && n <= |slots|
    ensures (forall i: nat :: i < n ==> slots[i].dev >= 0) ==> |order| >= n
    ensures |order| <= |slots|
    ensures |order| == |slots| ==> forall i: nat :: i < |slots| ==> slots[i].dev >= 0
  {
    if forall i: nat :: i < n ==> slots[i].dev >= 0 {
      SubsetSize(Below(n), Members(order));
    }
    forall i: nat | i in Members(order) ensures i in Below(|slots|) {
      var k :| 0 <= k < |order| && order[k] == i;
      assert SlotOk(slots, order, k);
    }
    SubsetSize(Members(order), Below(|slots|));
    if |order| == |slots| {
      forall i: nat | i < |slots| ensures slots[i].dev >= 0 {
        assert i in order;
        var k :| 0 <= k < |order| && order[k] == i;
        assert SlotOk(slots, order, k);
      }
    }
  }

  ghost function Writes(q: seq<Req>): set<nat> {
    set k: nat | k < |q| && q[k].write
  }

  /** However many writes are asked for, a third of the slots stays free for reads. */
  lemma {:induction false} WritesBounded(slots: seq<Slot>, order: seq<nat>)
    requires Linked(slots, order)
    ensures |Writes(Contents(slots, order))| <= 21
  {
    var w := Writes(Contents(slots, order));
    var s := set k: nat | k in w && k < |order| :: order[k];
    forall k: nat | k in w ensures k < |order| && order[k] < Limit(true) {
      assert SlotOk(slots, order, k);
    }
    SubsetSize(s, Below(Limit(true)));
    ImageSize(w, order);
  }

  // ---------- insertion and removal, on values ----------

  lemma FirstOk(slots: seq<Slot>, s: nat, r: Req)
    requires Linked(slots, []) && s < Limit(r.write) && s < |slots| && r.name.dev > 0
    ensures var t := slots[s := Slot(r.name.dev, r.write, 2 * r.name.block, r.bh, NULL)];
      Linked(t, [s]) && Contents(t, [s]) == InsertReq(Contents(slots, []), r)
  {
    var t := slots[s := Slot(r.name.dev, r.write, 2 * r.name.block, r.bh, NULL)];
    assert SlotOk(t, [s], 0);
  }

  function SplicedSlots(slots: seq<Slot>, p: nat, s: nat, r: Req): seq<Slot>
    requires p < |slots| && s < |slots|
  {
    var t := slots[s := Slot(r.name.dev, r.write, 2 * r.name.block, r.bh, slots[p].next)];
    t[p := t[p].(next := s)]
  }

  lemma SpliceOk(slots: seq<Slot>, order: seq<nat>, p: nat, s: nat, r: Req)
    requires Linked(slots, order) && p < |order| && s < |slots| && slots[s].dev < 0 && s < Limit(r.write) && r.name.dev > 0
    requires p == Elevator.Place(Keys(Contents(slots, order)), KeyOf(r), 0)
    ensures order[p] < |slots| && order[p] != s
    ensures var u, o := SplicedSlots(slots, order[p], s, r), order[..p + 1] + [s] + order[p + 1..];
      Linked(u, o) && Contents(u, o) == InsertReq(Contents(slots, order), r)
  {
    SpliceLinked(slots, order, p, s, r);
    hide Linked;
    SpliceContents(slots, order, p, s, r, SplicedSlots(slots, order[p], s, r), order[..p + 1] + [s] + order[p + 1..]);
  }

  lemma SpliceLinked(slots: seq<Slot>, order: seq<nat>, p: nat, s: nat, r: Req)
    requires Linked(slots, order) && p < |order| && s < |slots| && slots[s].dev < 0 && s < Limit(r.write) && r.name.dev > 0
    ensures order[p] < |slots| && order[p] != s && s !in order
    ensures Linked(SplicedSlots(slots, order[p], s, r), order[..p + 1] + [s] + order[p + 1..])
  {
    assert SlotOk(slots, order, p);
    var u := SplicedSlots(slots, order[p], s, r);
    var o := order[..p + 1] + [s] + order[p + 1..];
    forall k: nat | k < |order| ensures order[k] != s { assert SlotOk(slots, order, k); }
    forall k: nat | k < |o| ensures SlotOk(u, o, k) {
      if k <= p { assert SlotOk(slots, order, k); } else if k > p + 1 { assert SlotOk(slots, order, k - 1) && o[k] == order[k - 1]; }
    }
    forall i: nat | i < |u| && i !in o ensures u[i].dev < 0 {
      assert forall k :: 0 <= k < |order| ==> order[k] == o[if k <= p then k else k + 1];
      assert i !in order && i != s by { assert o[p + 1] == s; }
    }
  }

  lemma ContentsAt(slots: seq<Slot>, order: seq<nat>, k: nat)
    requires Linked(slots, order) && k < |order|
    ensures order[k] < |slots| && Contents(slots, order)[k] == AsReq(slots[order[k]])
  {
    assert SlotOk(slots, order, k);
  }

  lemma SpliceContents(slots: seq<Slot>, order: seq<nat>, p: nat, s: nat, r: Req, u: seq<Slot>, o: seq<nat>)
    requires Linked(slots, order) && Linked(u, o) && p < |order| && s < |slots| == |u| && s !in order
    requires p == Elevator.Place(Keys(Contents(slots, order)), KeyOf(r), 0)
    requires o == order[..p + 1] + [s] + order[p + 1..] && AsReq(u[s]) == r
    requires forall i: nat :: i < |u| && i != s ==> AsReq(u[i]) == AsReq(slots[i])
    ensures Contents(u, o) == InsertReq(Contents(slots, order), r)
  {
    hide Linked, AsReq, Contents;
    var c := Contents(slots, order);
    var d := Contents(u, o);
    forall k: nat | k < |d| ensures d[k] == InsertReq(c, r)[k] {
      ContentsAt(u, o, k);
      if k <= p {
        assert o[k] == order[k] && order[k] in order;
        ContentsAt(slots, order, k);
      } else if k > p + 1 {
        var j := k - 1;
        assert o[k] == order[j] && order[j] in order;
        ContentsAt(slots, order, j);
      }
    }
  }

  lemma PopOk(slots: seq<Slot>, order: seq<nat>)
    requires Linked(slots, order) && order != []
    ensures order[0] < |slots| && slots[order[0]].next == At(order[1..], 0)
    ensures var t := slots[order[0] := slots[order[0]].(dev := -1)];
      Linked(t, order[1..]) && Contents(t, order[1..]) == Contents(slots, order)[1..]
  {
    assert SlotOk(slots, order, 0);
    var t := slots[order[0] := slots[order[0]].(dev := -1)];
    var o := order[1..];
    forall k: nat | k < |o| ensures SlotOk(t, o, k) { assert SlotOk(slots, order, k + 1); }
    forall i: nat | i < |t| && i !in o ensures t[i].dev < 0 {
      assert order == [order[0]] + o;
    }
    forall k: nat | k < |o| ensures Contents(t, o)[k] == Contents(slots, order)[k + 1] { assert SlotOk(t, o, k); }
  }

  /** One request for each slot in use. */
  lemma TakenSize(slots: seq<Slot>, order: seq<nat>, taken: set<nat>)
    requires Linked(slots, order) && forall i: nat :: i in taken <==> i < |slots| && slots[i].dev >= 0
    ensures |taken| == |order|
  {
    forall i: nat ensures i in taken <==> i in Members(order) {
      if i in order {
        var k :| 0 <= k < |order| && order[k] == i;
        assert SlotOk(slots, order, k);
      }
    }
    assert taken == Members(order);
  }

  class RequestQueue {
    const slots: array<Slot>
    var current: int
    ghost var order: seq<nat>

    ghost predicate Valid()
      reads this, slots
    {
      slots.Length == NR_REQUEST && Linked(slots[..], order) && current == At(order, 0)
    }

    ghost function Queue(): seq<Req>
      requires Valid()
      reads this, slots
    {
      Contents(slots[..], order)
    }

    // The slots in use.
    ghost function Taken(): set<nat>
      reads slots
    {
      set i: nat | i < slots.Length && slots[i].dev >= 0
    }

    constructor ()
      ensures Valid() && Queue() == [] && fresh(slots)
    {
      slots := new Slot[NR_REQUEST](i => Slot(-1, false, 0, 0, NULL));
      current := NULL;
      order := [];
    }

    /** The highest free slot among those the direction may use. */
    method FindSlot(write: bool) returns (s: int)
      requires Valid()
      ensures s == NULL || (0 <= s < Limit(write) && slots[s].dev < 0)
      ensures s == NULL ==> |Queue()| >= Limit(write)
      ensures s == NULL <==> NoSlot(Taken(), write)
      ensures s != NULL ==> forall i: nat :: s < i < Limit(write) ==> slots[i].dev >= 0
      ensures !write ==> (s != NULL <==> |Queue()| < NR_REQUEST)
    {
      s := Limit(write);
      while s > 0
        invariant 0 <= s <= Limit(write)
        invariant forall i: nat :: s <= i < Limit(write) ==> slots[i].dev >= 0
      {
        s := s - 1;
        if slots[s].dev < 0 {
          assert s !in Taken();
          SlotsCount(slots[..], order, 0);
          return;
        }
      }
      SlotsCount(slots[..], order, Limit(write));
      s := NULL;
    }

    /** add_request: behind the first request it fits behind, otherwise last. */
    method Enlist(s: nat, r: Req)
      requires Valid() && r.name.dev > 0 && s < Limit(r.write) && slots[s].dev < 0
      modifies this, slots
      ensures Valid() && Queue() == InsertReq(old(Queue()), r)
    {
      hide Linked, InsertReq;
      ghost var was, o := slots[..], order;
      slots[s] := Slot(r.name.dev, r.write, 2 * r.name.block, r.bh, NULL);
      if current == NULL {
        assert o == [];
        FirstOk(was, s, r);
        current := s;
        order := [s];
        assert slots[..] == was[s := slots[s]];
        return;
      }
      var tmp := current;
      ghost var p: nat := 0;
      Walked(was, o, 0);
      while slots[tmp].next != NULL
        invariant p < |o| && tmp == o[p] && tmp < |was| && tmp != s && slots[..] == was[s := slots[s]]
        invariant slots[s] == Slot(r.name.dev, r.write, 2 * r.name.block, r.bh, NULL) && order == o && current == old(current)
        invariant forall j: nat :: j < p ==> !Elevator.Fits(Keys(Contents(was, o)), KeyOf(r), j)
        decreases |o| - p
      {
        Walked(was, o, p);
        var after := slots[tmp].next;
        if (Elevator.InOrder(AsKey(slots[tmp]), AsKey(slots[s])) || !Elevator.InOrder(AsKey(slots[tmp]), AsKey(slots[after])))
           && Elevator.InOrder(AsKey(slots[s]), AsKey(slots[after])) {
          break;
        }
        tmp := after;
        p := p + 1;
      }
      Walked(was, o, p);
      Elevator.PlaceIs(Keys(Contents(was, o)), KeyOf(r), p);
      SpliceOk(was, o, p, s, r);
      slots[s] := slots[s].(next := slots[tmp].next);
      slots[tmp] := slots[tmp].(next := s);
      order := o[..p + 1] + [s] + o[p + 1..];
      assert slots[..] == SplicedSlots(was, o[p], s, r);
    }

    /** The end of make_request: fails, for the caller to wait, when no slot is free. */
    method AddRequest(r: Req) returns (ok: bool)
      requires Valid() && r.name.dev > 0
      modifies this, slots
      ensures Valid() && Queue() == if ok then InsertReq(old(Queue()), r) else old(Queue())
      ensures !ok ==> |Queue()| >= Limit(r.write)
      ensures !ok <==> old(NoSlot(Taken(), r.write))
      ensures !ok ==> Taken() == old(Taken())
      ensures !r.write ==> (ok <==> old(|Queue()|) < NR_REQUEST)
    {
      hide Linked, InsertReq;
      var s := FindSlot(r.write);
      ok := s != NULL;
      if ok { Enlist(s, r); }
    }

    /** end_request: the head's slot is free again, and the next request is served. */
    method EndRequest() returns (r: Req)
      requires Valid() && Queue() != []
      modifies this, slots
      ensures Valid() && [r] + Queue() == old(Queue())
    {
      PopOk(slots[..], order);
      Walked(slots[..], order, 0);
      hide Linked;
      r := AsReq(slots[current]);
      slots[current] := slots[current].(dev := -1);
      current := slots[current].next;
      order := order[1..];
    }
  }

  lemma Walked(slots: seq<Slot>, order: seq<nat>, p: nat)
    requires Linked(slots, order) && p < |order|
    ensures order[p] < |slots| && slots[order[p]].dev >= 0 && slots[order[p]].next == At(order, p + 1)
    ensures Contents(slots, order)[p] == AsReq(slots[order[p]]) && Keys(Contents(slots, order))[p] == AsKey(slots[order[p]])
    ensures p + 1 < |order| ==> order[p + 1] < |slots| && slots[order[p + 1]].dev >= 0
                                && Keys(Contents(slots, order))[p + 1] == AsKey(slots[order[p + 1]])
  {
    assert SlotOk(slots, order, p);
    assert p + 1 < |order| ==> SlotOk(slots, order, p + 1);
  }
}
