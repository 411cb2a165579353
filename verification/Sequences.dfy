/**
  Duplicate-free sequences, mostly of indices: what the intrusive lists of the
  kernels thread through their records.
 */
module Sequences {

  // The index that stands for a null pointer.
  const NULL: int := -1

  predicate Distinct<T(==)>(c: seq<T>) {
    forall i, j :: 0 <= i < j < |c| ==> c[i] != c[j]
  }

  // The k-th member, if there is one.
  function At(c: seq<nat>, k: int): int {
    if 0 <= k < |c| then c[k] else NULL
  }

  function Without(c: seq<nat>, k: nat): seq<nat>
    requires k < |c|
  {
    c[..k] + c[k + 1..]
  }

  lemma WithoutMembers(c: seq<nat>, k: nat)
    requires k < |c| && Distinct(c)
    ensures Distinct(Without(c, k)) && forall x: nat :: x in Without(c, k) <==> x in c && x != c[k]
  {
    var w := Without(c, k);
    forall x: nat | x in c && x != c[k] ensures x in w {
      var i :| 0 <= i < |c| && c[i] == x;
      assert w[if i < k then i else i - 1] == x;
    }
  }

  function IndexOf(c: seq<nat>, b: nat): (k: nat)
    requires b in c
    ensures k < |c| && c[k] == b && b !in c[..k]
  {
    if c[0] == b then 0 else 1 + IndexOf(c[1..], b)
  }

  function Remove(c: seq<nat>, b: nat): seq<nat> {
    if b in c then Without(c, IndexOf(c, b)) else c
  }

  lemma PrependMembers(c: seq<nat>, b: nat)
    requires Distinct(c) && b !in c
    ensures Distinct([b] + c) && forall x: nat :: x in [b] + c <==> x == b || x in c
  {
  }

  lemma AppendMembers(c: seq<nat>, b: nat)
    requires Distinct(c) && b !in c
    ensures Distinct(c + [b]) && forall x: nat :: x in c + [b] <==> x == b || x in c
  {
  }

  // ---------- counting ----------

  function Below(n: nat): (s: set<nat>)
    ensures |s| == n && forall i: nat :: i in s <==> i < n
  {
    if n == 0 then {} else Below(n - 1) + {n - 1}
  }

  function Members(c: seq<nat>): (s: set<nat>)
    ensures (forall i: nat :: i in s <==> i in c) && (Distinct(c) ==> |s| == |c|)
  {
    if c == [] then {}
    else
      assert c == c[..|c| - 1] + [c[|c| - 1]];
      Members(c[..|c| - 1]) + {c[|c| - 1]}
  }

  lemma SubsetSize<T>(a: set<T>, b: set<T>)
    requires a <= b
    ensures |a| <= |b| && (|a| == |b| ==> a == b)
  {
    assert b == a + (b - a);
    assert |b| == |a| + |b - a|;
    if |a| == |b| { assert b - a == {}; }
  }

  lemma {:induction false} ImageSize(w: set<nat>, order: seq<nat>)
    requires Distinct(order) && forall k: nat :: k in w ==> k < |order|
    ensures |set k: nat | k in w && k < |order| :: order[k]| == |w|
    decreases |w|
  {
    var s := set k: nat | k in w && k < |order| :: order[k];
    if w != {} {
      var x :| x in w;
      ImageSize(w - {x}, order);
      var s' := set k: nat | k in w - {x} && k < |order| :: order[k];
      assert order[x] !in s';
      assert s == s' + {order[x]};
    } else {
      assert s == {};
    }
  }
}
