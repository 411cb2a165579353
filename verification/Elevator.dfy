/**
  The disk request queue of linux-0.11/kernel/blk_drv (ll_rw_blk.c, blk.h): where
  a request is put, and why the queue is always at most two ascending sweeps.
 */
module Elevator {
  import opened Sequences

  // What orders requests: reads (0) before writes (1), then device, then sector.
  datatype Key = Key(cmd: nat, dev: nat, sector: nat)

  predicate InOrder(a: Key, b: Key) {
    a.cmd < b.cmd || (a.cmd == b.cmd && (a.dev < b.dev || (a.dev == b.dev && a.sector < b.sector)))
  }

  /** The test of add_request: `r` may go between `q[i]` and `q[i + 1]`. */
  predicate Fits(q: seq<Key>, r: Key, i: nat)
    requires i + 1 < |q|
  {
    (InOrder(q[i], r) || !InOrder(q[i], q[i + 1])) && InOrder(r, q[i + 1])
  }

  /** The first place at or after `i` where `r` fits behind `q[i]`, else behind the last. */
  function Place(q: seq<Key>, r: Key, i: nat): (p: nat)
    requires i < |q|
    ensures i <= p < |q| && (p + 1 < |q| ==> Fits(q, r, p))
    ensures forall j :: i <= j < p ==> !Fits(q, r, j)
    decreases |q| - i
  {
    if i + 1 == |q| || Fits(q, r, i) then i else Place(q, r, i + 1)
  }

  lemma PlaceIs(q: seq<Key>, r: Key, p: nat)
    requires p < |q| && (p + 1 < |q| ==> Fits(q, r, p)) && forall j: nat :: j < p ==> !Fits(q, r, j)
    ensures Place(q, r, 0) == p
  {
    var x := Place(q, r, 0);
    assert x + 1 < |q| ==> Fits(q, r, x);
  }

  function Insert(q: seq<Key>, r: Key): seq<Key> {
    if q == [] then [r]
    else
      var p := Place(q, r, 0) + 1;
      q[..p] + [r] + q[p..]
  }

  // ---------- sweeps ----------

  predicate Drop(q: seq<Key>, i: int) {
    0 <= i && i + 1 < |q| && !InOrder(q[i], q[i + 1])
  }

  ghost predicate OneDrop(q: seq<Key>) {
    forall i, j :: Drop(q, i) && Drop(q, j) ==> i == j
  }

  predicate Ascending(q: seq<Key>) {
    forall i, j :: 0 <= i < j < |q| ==> InOrder(q[i], q[j])
  }

  lemma {:induction false} NoDropsAscend(q: seq<Key>)
    requires forall i :: !Drop(q, i)
    ensures Ascending(q)
    decreases |q|
  {
    if |q| > 1 {
      var s := q[1..];
      forall i ensures !Drop(s, i) { assert !Drop(q, i + 1); }
      NoDropsAscend(s);
      assert !Drop(q, 0);
      forall i, j | 0 <= i < j < |q| ensures InOrder(q[i], q[j]) {
        if i > 0 {
          assert InOrder(s[i - 1], s[j - 1]);
        } else if j > 1 {
          assert InOrder(s[0], s[j - 1]);
        }
      }
    }
  }

  /** With one drop, the queue up to `k` and the queue from `k` on are each in the order of the disk: reads before
      writes, then by device, then by rising sector. */
  lemma OneDropIsTwoSweeps(q: seq<Key>) returns (k: nat)
    requires OneDrop(q)
    ensures k <= |q|
    ensures forall i, j :: 0 <= i < j < |q| && (j < k || k <= i) ==>
              && q[i].cmd <= q[j].cmd
              && (q[i].cmd == q[j].cmd ==> q[i].dev <= q[j].dev)
              && (q[i].cmd == q[j].cmd && q[i].dev == q[j].dev ==> q[i].sector < q[j].sector)
  {
    k := |q|;
    if d :| Drop(q, d) { k := d + 1; }
    var a, b := q[..k], q[k..];
    forall i ensures !Drop(a, i) {
      assert i != k - 1 ==> !Drop(q, i);
    }
    forall i ensures !Drop(b, i) {
      assert i >= 0 ==> !Drop(q, i + k);
    }
    NoDropsAscend(a);
    NoDropsAscend(b);
    forall i, j | 0 <= i < j < |q| && (j < k || k <= i) ensures InOrder(q[i], q[j]) {
      if j < k { assert InOrder(a[i], a[j]); } else { assert InOrder(b[i - k], b[j - k]); }
    }
  }

  /** After a drop that `r` did not use, everything up to the end is below `r`. */
  lemma {:induction false} SecondSweepBelow(q: seq<Key>, r: Key, k: nat, i: nat)
    requires OneDrop(q) && Drop(q, k) && k < i < |q| && r !in q
    requires forall j :: 0 <= j < |q| - 1 ==> !Fits(q, r, j)
    ensures InOrder(q[i], r)
    decreases i
  {
    if i == k + 1 {
      assert !Fits(q, r, k);
      assert q[i] in q;
    } else {
      SecondSweepBelow(q, r, k, i - 1);
      assert !Fits(q, r, i - 1);
      assert q[i] in q;
    }
  }

  /** An insertion never adds a second drop. */
  lemma {:induction false} InsertKeepsSweeps(q: seq<Key>, r: Key)
    requires OneDrop(q) && r !in q
    ensures OneDrop(Insert(q, r))
  {
    if q != [] {
      var p := Place(q, r, 0);
      var t := Insert(q, r);
      assert |t| == |q| + 1 && t[p + 1] == r;
      forall i ensures Drop(t, i) ==> if i < p then Drop(q, i) else if i == p then !InOrder(q[p], r) else if i == p + 1 then false else Drop(q, i - 1) {
        assert 0 <= i <= p ==> t[i] == q[i];
        assert p + 1 < i <= |q| ==> t[i] == q[i - 1];
        assert p + 1 == i && i + 1 < |t| ==> t[i + 1] == q[p + 1] && Fits(q, r, p);
      }
      if !InOrder(q[p], r) {
        if p + 1 < |q| {
          assert Drop(q, p);
        } else {
          forall k ensures !Drop(q, k) {
            if Drop(q, k) { SecondSweepBelow(q, r, k, |q| - 1); }
          }
        }
        forall i | Drop(t, i) ensures i == p {
          assert i != p ==> Drop(q, if i < p then i else i - 1);
        }
      } else {
        forall i, j | Drop(t, i) && Drop(t, j) ensures i == j {
          assert Drop(q, if i < p then i else i - 1) && Drop(q, if j < p then j else j - 1);
        }
      }
    }
  }

  lemma RemoveKeepsSweeps(q: seq<Key>)
    requires OneDrop(q) && q != []
    ensures OneDrop(q[1..])
  {
    forall i ensures Drop(q[1..], i) ==> Drop(q, i + 1) {}
  }

  /** Nothing is lost, nobody overtakes the request being served, and the others keep their order. */
  lemma InsertConserves(q: seq<Key>, r: Key)
    ensures multiset(Insert(q, r)) == multiset(q) + multiset{r}
    ensures q != [] ==> Insert(q, r)[0] == q[0]
    ensures exists p: nat :: p < |Insert(q, r)| && Insert(q, r)[p] == r && Insert(q, r)[..p] + Insert(q, r)[p + 1..] == q
  {
    var t := Insert(q, r);
    if q == [] {
      assert t[0] == r && t[..0] + t[1..] == q;
    } else {
      var p := Place(q, r, 0) + 1;
      assert q == q[..p] + q[p..];
      assert t[..p] + t[p + 1..] == q;
    }
  }

  /** A request for a place that the current sweep has yet to pass is served in that sweep, at its place. */
  lemma {:induction false} JoinsSweep(q: seq<Key>, r: Key, j: nat) returns (p: nat)
    requires 0 < j < |q| && Ascending(q[..j + 1]) && r !in q && InOrder(q[0], r) && InOrder(r, q[j])
    ensures 0 < p <= j && Insert(q, r) == q[..p] + [r] + q[p..]
    ensures InOrder(q[p - 1], r) && InOrder(r, q[p])
  {
    p := Place(q, r, 0) + 1;
    var b := j;
    while b > 1 && InOrder(r, q[b - 1])
      invariant 1 <= b <= j && InOrder(r, q[b])
    {
      b := b - 1;
    }
    assert q[b - 1] in q && Fits(q, r, b - 1);
    assert InOrder(q[..j + 1][p - 1], q[..j + 1][p]);
  }

  // ---------- any mix of inserts and completions ----------

  datatype Event = Add(r: Key) | Done

  /** The queue after a history; a request is added only if none with its key is waiting. */
  function Queue(events: seq<Event>): seq<Key> {
    if events == [] then []
    else
      var q := Queue(events[..|events| - 1]);
      match events[|events| - 1]
      case Add(r) => if r in q then q else Insert(q, r)
      case Done => if q == [] then [] else q[1..]
  }

  /** After any history the queue is two sweeps over the disk, split at `k`. */
  lemma {:induction false} AlwaysTwoSweeps(events: seq<Event>) returns (k: nat)
    ensures var q := Queue(events);
      k <= |q| && Distinct(q)
      && forall i, j :: 0 <= i < j < |q| && (j < k || k <= i) ==>
           && q[i].cmd <= q[j].cmd
           && (q[i].cmd == q[j].cmd ==> q[i].dev <= q[j].dev)
           && (q[i].cmd == q[j].cmd && q[i].dev == q[j].dev ==> q[i].sector < q[j].sector)
  {
    AlwaysOneDrop(events);
    k := OneDropIsTwoSweeps(Queue(events));
  }

  lemma {:induction false} AlwaysOneDrop(events: seq<Event>)
    ensures OneDrop(Queue(events)) && Distinct(Queue(events))
    decreases |events|
  {
    if events != [] {
      var q := Queue(events[..|events| - 1]);
      AlwaysOneDrop(events[..|events| - 1]);
      match events[|events| - 1]
      case Add(r) =>
        if r !in q {
          InsertKeepsSweeps(q, r);
          InsertConserves(q, r);
          InsertDistinct(q, r);
        }
      case Done =>
        if q != [] { RemoveKeepsSweeps(q); }
    }
  }

  lemma InsertDistinct(q: seq<Key>, r: Key)
    requires Distinct(q) && r !in q
    ensures Distinct(Insert(q, r))
  {
    if q != [] {
      var p := Place(q, r, 0) + 1;
      var t := Insert(q, r);
      assert forall i :: 0 <= i < |t| ==> t[i] == if i < p then q[i] else if i == p then r else q[i - 1];
      forall i | 0 <= i < |q| ensures q[i] != r { assert q[i] in q; }
    }
  }
}
