/**
  The two structures every buffer head is threaded through (linux-0.11/fs/buffer.c):
  a hash table of doubly linked chains, and the circular free list.
 */
module BufferLists {
  import opened Sequences

  const NR_HASH: nat := 307

  // A device and block number; device 0 means the buffer holds nothing.
  datatype Name = Name(dev: nat, block: nat)

  // Exclusive or, bit by bit.
  function Xor(a: nat, b: nat): nat
    decreases a + b
  {
    if a == 0 && b == 0 then 0 else (if a % 2 != b % 2 then 1 else 0) + 2 * Xor(a / 2, b / 2)
  }

  function Hash(n: Name): (h: nat)
    ensures h < NR_HASH
  {
    Xor(n.dev, n.block) % NR_HASH
  }

  // ---------- chains ----------

  // Assignment to one element, if there is one.
  function Set(s: seq<int>, i: int, v: int): seq<int> {
    if 0 <= i < |s| then s[i := v] else s
  }

  // The k-th member's links.
  ghost predicate Node(next: seq<int>, prev: seq<int>, c: seq<nat>, k: nat)
    requires |prev| == |next| && k < |c|
  {
    c[k] < |next| && next[c[k]] == At(c, k + 1) && prev[c[k]] == At(c, k - 1)
  }

  /** `c` is threaded through next and prev, null-terminated at both ends. */
  ghost predicate Chained(next: seq<int>, prev: seq<int>, c: seq<nat>)
    requires |prev| == |next|
  {
    forall k: nat :: k < |c| ==> Node(next, prev, c, k)
  }

  lemma ChainRemove(next: seq<int>, prev: seq<int>, c: seq<nat>, k: nat, next': seq<int>, prev': seq<int>)
    requires |prev| == |next| && Distinct(c) && Chained(next, prev, c) && k < |c|
    requires next' == Set(next, At(c, k - 1), At(c, k + 1)) && prev' == Set(prev, At(c, k + 1), At(c, k - 1))
    ensures Chained(next', prev', Without(c, k))
  {
    var w := Without(c, k);
    assert k > 0 ==> Node(next, prev, c, k - 1);
    assert k + 1 < |c| ==> Node(next, prev, c, k + 1);
    forall j: nat | j < |w| ensures Node(next', prev', w, j) {
      var x := if j < k then j else j + 1;
      assert w[j] == c[x] && Node(next, prev, c, x);
      if k > 0 && x != k - 1 { assert c[x] != c[k - 1]; }
      if k + 1 < |c| && x != k + 1 { assert c[x] != c[k + 1]; }
    }
  }

  lemma ChainInsert(next: seq<int>, prev: seq<int>, c: seq<nat>, b: nat, next': seq<int>, prev': seq<int>)
    requires |prev| == |next| && Distinct(c) && Chained(next, prev, c) && b < |next| && b !in c
    requires next' == next[b := At(c, 0)]
    requires prev' == Set(prev[b := NULL], At(c, 0), b)
    ensures Chained(next', prev', [b] + c)
  {
    var w := [b] + c;
    assert c != [] ==> Node(next, prev, c, 0);
    forall j: nat | j < |w| ensures Node(next', prev', w, j) {
      if j > 0 {
        assert c[j - 1] in c && Node(next, prev, c, j - 1);
        if j > 1 { assert c[j - 1] != c[0]; }
      }
    }
  }

  /** A chain whose members' links did not change. */
  lemma ChainSame(next: seq<int>, prev: seq<int>, c: seq<nat>, next': seq<int>, prev': seq<int>)
    requires |prev| == |next| == |next'| == |prev'| && Chained(next, prev, c)
    requires forall x: nat :: x in c && x < |next| ==> next'[x] == next[x] && prev'[x] == prev[x]
    ensures Chained(next', prev', c)
  {
    forall j: nat | j < |c| ensures Node(next', prev', c, j) {
      assert c[j] in c && Node(next, prev, c, j);
    }
  }

  // ---------- the ring ----------

  function Succ(r: seq<nat>, k: nat): nat
    requires k < |r|
  {
    if k + 1 < |r| then r[k + 1] else r[0]
  }

  function Pred(r: seq<nat>, k: nat): nat
    requires k < |r|
  {
    if k > 0 then r[k - 1] else r[|r| - 1]
  }

  ghost predicate Seat(next: seq<int>, prev: seq<int>, r: seq<nat>, k: nat)
    requires |prev| == |next| && k < |r|
  {
    r[k] < |next| && next[r[k]] == Succ(r, k) && prev[r[k]] == Pred(r, k)
  }

  ghost predicate Ringed(next: seq<int>, prev: seq<int>, r: seq<nat>)
    requires |prev| == |next|
  {
    forall k: nat :: k < |r| ==> Seat(next, prev, r, k)
  }

  lemma RingRemove(next: seq<int>, prev: seq<int>, r: seq<nat>, k: nat, next': seq<int>, prev': seq<int>)
    requires |prev| == |next| && Distinct(r) && Ringed(next, prev, r) && k < |r| && |r| >= 2
    requires Pred(r, k) < |next| && Succ(r, k) < |next|
    requires next' == next[Pred(r, k) := Succ(r, k)] && prev' == prev[Succ(r, k) := Pred(r, k)]
    ensures Ringed(next', prev', Without(r, k))
  {
    var w := Without(r, k);
    forall j: nat | j < |w| ensures Seat(next', prev', w, j) {
      var x := if j < k then j else j + 1;
      assert w[j] == r[x];
      SuccWithout(r, k, x);
      PredWithout(r, k, x);
      assert Seat(next, prev, r, x);
    }
  }

  lemma SuccWithout(r: seq<nat>, k: nat, x: nat)
    requires Distinct(r) && k < |r| && |r| >= 2 && x < |r| && x != k
    ensures Succ(Without(r, k), if x < k then x else x - 1) == if r[x] == Pred(r, k) then Succ(r, k) else Succ(r, x)
  {
    var p := if k > 0 then k - 1 else |r| - 1;
    if x != p { assert r[x] != r[p]; }
  }

  lemma PredWithout(r: seq<nat>, k: nat, x: nat)
    requires Distinct(r) && k < |r| && |r| >= 2 && x < |r| && x != k
    ensures Pred(Without(r, k), if x < k then x else x - 1) == if r[x] == Succ(r, k) then Pred(r, k) else Pred(r, x)
  {
    var s := if k + 1 < |r| then k + 1 else 0;
    if x != s { assert r[x] != r[s]; }
  }

  lemma RingInsert(next: seq<int>, prev: seq<int>, r: seq<nat>, b: nat, next': seq<int>, prev': seq<int>)
    requires |prev| == |next| && Distinct(r) && Ringed(next, prev, r) && |r| >= 1 && b < |next| && b !in r
    requires var last := r[|r| - 1];
      r[0] < |next| && last < |next| && next' == next[b := r[0]][last := b] && prev' == prev[b := last][r[0] := b]
    ensures Ringed(next', prev', r + [b])
  {
    var w := r + [b];
    forall j: nat | j < |w| ensures Seat(next', prev', w, j) {
      if j < |r| {
        assert r[j] in r && Seat(next, prev, r, j);
        if j < |r| - 1 { assert r[j] != r[|r| - 1]; }
        if j > 0 { assert r[j] != r[0]; }
      } else {
        assert r[0] in r && r[|r| - 1] in r;
      }
    }
  }

  // ---------- the whole ----------

  /** The names, the chains by bucket, and the free list from its head on. */
  datatype Lists = Lists(names: seq<Name>, chains: seq<seq<nat>>, ring: seq<nat>)

  /** The hash chains hold exactly the buffers that have a device ... */
  ghost predicate ChainsOk(l: Lists) {
    && |l.chains| == NR_HASH
    && (forall h: nat :: h < NR_HASH ==> Distinct(l.chains[h]))
    && forall h: nat, b: nat {:trigger b in l.chains[h]} :: h < NR_HASH ==>
         (b in l.chains[h] <==> b < |l.names| && l.names[b].dev != 0 && Hash(l.names[b]) == h)
  }

  /** ... and the free list holds every buffer. */
  ghost predicate RingOk(l: Lists) {
    Distinct(l.ring) && forall b: nat :: b in l.ring <==> b < |l.names|
  }

  /** The lists without buffer `b`. */
  ghost predicate Lacks(l: Lists, b: nat) {
    && |l.chains| == NR_HASH && b < |l.names|
    && (forall h: nat :: h < NR_HASH ==> Distinct(l.chains[h]))
    && (forall h: nat, x: nat {:trigger x in l.chains[h]} :: h < NR_HASH ==>
          (x in l.chains[h] <==> x < |l.names| && x != b && l.names[x].dev != 0 && Hash(l.names[x]) == h))
    && Distinct(l.ring) && forall x: nat :: x in l.ring <==> x < |l.names| && x != b
  }

  function Removed(l: Lists, b: nat): Lists
    requires |l.chains| == NR_HASH && b < |l.names|
  {
    var h := Hash(l.names[b]);
    l.(chains := l.chains[h := Remove(l.chains[h], b)], ring := Remove(l.ring, b))
  }

  lemma RemovedLacks(l: Lists, b: nat)
    requires ChainsOk(l) && RingOk(l) && b < |l.names|
    ensures Lacks(Removed(l, b), b)
  {
    hide Hash;
    var h := Hash(l.names[b]);
    if b in l.chains[h] { WithoutMembers(l.chains[h], IndexOf(l.chains[h], b)); }
    WithoutMembers(l.ring, IndexOf(l.ring, b));
  }

  function Inserted(l: Lists, b: nat, n: Name): Lists
    requires |l.chains| == NR_HASH && b < |l.names|
  {
    l.(names := l.names[b := n], ring := l.ring + [b],
       chains := if n.dev == 0 then l.chains else l.chains[Hash(n) := [b] + l.chains[Hash(n)]])
  }

  lemma LacksAt(l: Lists, b: nat, h: nat, x: nat)
    requires Lacks(l, b) && h < NR_HASH
    ensures x in l.chains[h] <==> x < |l.names| && x != b && l.names[x].dev != 0 && Hash(l.names[x]) == h
  {
    hide Hash;
  }

  lemma InsertedOk(l: Lists, b: nat, n: Name)
    requires Lacks(l, b)
    ensures ChainsOk(Inserted(l, b, n)) && RingOk(Inserted(l, b, n))
  {
    hide Hash;
    var t := Inserted(l, b, n);
    var c := l.chains[Hash(n)];
    LacksAt(l, b, Hash(n), b);
    PrependMembers(c, b);
    AppendMembers(l.ring, b);
    forall h: nat | h < NR_HASH ensures Distinct(t.chains[h]) {
      assert Distinct(l.chains[h]);
    }
    forall h: nat, x: nat | h < NR_HASH
      ensures x in t.chains[h] <==> x < |t.names| && t.names[x].dev != 0 && Hash(t.names[x]) == h
    {
      LacksAt(l, b, h, x);
      if n.dev != 0 && h == Hash(n) {
        assert x in t.chains[h] <==> x == b || x in l.chains[h];
      }
    }
  }

  // ---------- the arrays ----------

  ghost predicate HashLinks(next: seq<int>, prev: seq<int>, hash: seq<int>, chains: seq<seq<nat>>)
    requires |prev| == |next|
  {
    && |hash| == |chains| == NR_HASH
    && forall h: nat {:trigger chains[h]} :: h < NR_HASH ==> hash[h] == At(chains[h], 0) && Chained(next, prev, chains[h])
  }

  function Empty(n: nat): Lists {
    Lists(seq(n, _ => Name(0, 0)), seq(NR_HASH, _ => []), seq(n, i => i))
  }

  lemma EmptyOk(n: nat, nextFree: seq<int>, prevFree: seq<int>, next: seq<int>, prev: seq<int>, hash: seq<int>)
    requires n >= 2 && |nextFree| == |prevFree| == |next| == |prev| == n && |hash| == NR_HASH
    requires forall i :: 0 <= i < n ==> nextFree[i] == (if i == n - 1 then 0 else i + 1) && prevFree[i] == (if i == 0 then n - 1 else i - 1)
    requires forall h :: 0 <= h < NR_HASH ==> hash[h] == NULL
    ensures Ringed(nextFree, prevFree, Empty(n).ring) && HashLinks(next, prev, hash, Empty(n).chains)
    ensures ChainsOk(Empty(n)) && RingOk(Empty(n))
  {
    hide Hash;
    forall b: nat ensures b in Empty(n).ring <==> b < n {
      if b < n { assert Empty(n).ring[b] == b; }
    }
  }

  class BufferLists {
    const dev: array<nat>
    const blocknr: array<nat>
    const next: array<int>
    const prev: array<int>
    const nextFree: array<int>
    const prevFree: array<int>
    const hash: array<int>
    var freeList: int
    ghost var lists: Lists

    ghost predicate Separate()
    {
      && dev != blocknr && next != prev && next != nextFree && next != prevFree && next != hash
      && prev != nextFree && prev != prevFree && prev != hash && nextFree != prevFree && nextFree != hash && prevFree != hash
      && dev.Length == blocknr.Length == next.Length == prev.Length == nextFree.Length == prevFree.Length && hash.Length == NR_HASH
      && dev.Length >= 2
    }

    /** The arrays carry the lists; `out` is a buffer taken out of both, if any. */
    ghost predicate Carries(out: int)
      requires Separate()
      reads this, dev, blocknr, next, prev, nextFree, prevFree, hash
    {
      && |lists.names| == dev.Length
      && (forall b: nat :: b < dev.Length ==> lists.names[b] == Name(dev[b], blocknr[b]))
      && (forall b: nat :: b < dev.Length && b != out && dev[b] == 0 ==> next[b] == NULL && prev[b] == NULL)
      && |lists.ring| > 0 && freeList == lists.ring[0] && Ringed(nextFree[..], prevFree[..], lists.ring)
      && HashLinks(next[..], prev[..], hash[..], lists.chains)
    }

    ghost predicate Valid()
      reads this, dev, blocknr, next, prev, nextFree, prevFree, hash
    {
      Separate() && Carries(NULL) && ChainsOk(lists) && RingOk(lists)
    }

    /** buffer_init: nothing is cached, and the free list is in memory order. */
    constructor (n: nat)
      requires n >= 2
      ensures Valid() && dev.Length == n && lists == Empty(n)
      ensures fresh(dev) && fresh(blocknr) && fresh(next) && fresh(prev) && fresh(nextFree) && fresh(prevFree) && fresh(hash)
    {
      dev := new nat[n](i => 0);
      blocknr := new nat[n](i => 0);
      next := new int[n](i => NULL);
      prev := new int[n](i => NULL);
      nextFree := new int[n](i => if i == n - 1 then 0 else i + 1);
      prevFree := new int[n](i => if i == 0 then n - 1 else i - 1);
      hash := new int[NR_HASH](i => NULL);
      freeList := 0;
      lists := Empty(n);
      new;
      EmptyOk(n, nextFree[..], prevFree[..], next[..], prev[..], hash[..]);
      hide Ringed, HashLinks, ChainsOk, RingOk;
    }

    /** The buffer that carries a name, or NULL. */
    method FindBuffer(d: nat, block: nat) returns (b: int)
      requires Valid() && d != 0
      ensures b == NULL ==> forall k: nat :: k < dev.Length ==> lists.names[k] != Name(d, block)
      ensures b != NULL ==> 0 <= b < dev.Length && lists.names[b] == Name(d, block)
    {
      hide Hash, Ringed, RingOk;
      var h := Hash(Name(d, block));
      ghost var c := lists.chains[h];
      b := hash[h];
      ghost var k: nat := 0;
      while b != NULL
        invariant k <= |c| && b == At(c, k)
        invariant forall j :: 0 <= j < k ==> c[j] < dev.Length && lists.names[c[j]] != Name(d, block)
        decreases |c| - k
      {
        assert c[k] in c && Node(next[..], prev[..], c, k);
        if dev[b] == d && blocknr[b] == block { return; }
        b := next[b];
        k := k + 1;
      }
      forall i: nat | i < dev.Length ensures lists.names[i] != Name(d, block) {
        assert i in c <==> lists.names[i].dev != 0 && Hash(lists.names[i]) == h;
      }
    }

    // The hash half of remove_from_queues.
    method UnlinkHash(b: nat)
      requires Separate() && b < dev.Length
      requires next[b] == NULL || (0 <= next[b] < dev.Length && next[b] != b)
      requires prev[b] == NULL || (0 <= prev[b] < dev.Length && prev[b] != b)
      modifies next, prev, hash
      ensures next[..] == if old(prev[b]) != NULL then old(next[..])[old(prev[b]) := old(next[b])] else old(next[..])
      ensures prev[..] == if old(next[b]) != NULL then old(prev[..])[old(next[b]) := old(prev[b])] else old(prev[..])
      ensures var h := Hash(Name(dev[b], blocknr[b]));
        hash[..] == if old(hash[h]) == b then old(hash[..])[h := old(next[b])] else old(hash[..])
    {
      hide Hash;
      if next[b] != NULL { prev[next[b]] := prev[b]; }
      if prev[b] != NULL { next[prev[b]] := next[b]; }
      var h := Hash(Name(dev[b], blocknr[b]));
      if hash[h] == b { hash[h] := next[b]; }
    }

    /** remove_from_queues. */
    method RemoveFromQueues(b: nat)
      requires Valid() && b < dev.Length
      modifies this, next, prev, nextFree, prevFree, hash
      ensures Carries(b) && lists == Removed(old(lists), b) && Lacks(lists, b)
    {
      hide Hash, Ringed, HashLinks, Chained;
      ghost var l := lists;
      RemovedLacks(l, b);
      UnlinkedHash(next[..], prev[..], hash[..], l, b);
      UnlinkHash(b);
      UnlinkedRing(nextFree[..], prevFree[..], l, b);
      var p, n := prevFree[b], nextFree[b];
      nextFree[p] := n;
      prevFree[n] := p;
      if freeList == b { freeList := n; }
      lists := Removed(l, b);
    }

    // The hash half of insert_into_queues; an empty bucket has no first buffer to link back from.
    method LinkHash(b: nat)
      requires Separate() && b < dev.Length
      requires var h := Hash(Name(dev[b], blocknr[b])); hash[h] == NULL || (0 <= hash[h] < dev.Length && hash[h] != b)
      modifies next, prev, hash
      ensures var h := Hash(Name(dev[b], blocknr[b]));
        var was, prev0 := old(hash[h]), old(prev[..])[b := NULL];
        if dev[b] == 0 then next[..] == old(next[..])[b := NULL] && prev[..] == prev0 && hash[..] == old(hash[..])
        else next[..] == old(next[..])[b := was] && hash[..] == old(hash[..])[h := b]
             && prev[..] == if was != NULL then prev0[was := b] else prev0
    {
      hide Hash;
      prev[b] := NULL;
      next[b] := NULL;
      if dev[b] != 0 {
        var h := Hash(Name(dev[b], blocknr[b]));
        next[b] := hash[h];
        hash[h] := b;
        if next[b] != NULL { prev[next[b]] := b; }
      }
    }

    /** insert_into_queues for a buffer whose name was just set. */
    method InsertIntoQueues(b: nat, ghost l: Lists)
      requires Separate() && b < dev.Length && Lacks(l, b) && |l.names| == dev.Length
      requires lists == l.(names := l.names[b := Name(dev[b], blocknr[b])]) && Carries(b)
      modifies this, next, prev, nextFree, prevFree, hash
      ensures Valid() && lists == Inserted(l, b, Name(dev[b], blocknr[b]))
    {
      hide Hash, Ringed, HashLinks, Chained;
      ghost var name := Name(dev[b], blocknr[b]);
      InsertedOk(l, b, name);
      LinkedRing(nextFree[..], prevFree[..], l, b);
      LinkedHash(next[..], prev[..], hash[..], l, b, name);
      nextFree[b] := freeList;
      prevFree[b] := prevFree[freeList];
      nextFree[prevFree[freeList]] := b;
      prevFree[freeList] := b;
      LinkHash(b);
      lists := Inserted(l, b, name);
    }

    /** The end of getblk: the buffer gets a new name and moves to the end of the free list. */
    method Rename(b: nat, d: nat, block: nat)
      requires Valid() && b < dev.Length
      modifies this, dev, blocknr, next, prev, nextFree, prevFree, hash
      ensures Valid() && lists.names == old(lists.names)[b := Name(d, block)]
      ensures lists.ring == Remove(old(lists.ring), b) + [b]
    {
      hide Hash, Ringed, HashLinks, Chained, Lacks, ChainsOk, RingOk, Distinct;
      RemoveFromQueues(b);
      ghost var l := lists;
      dev[b] := d;
      blocknr[b] := block;
      lists := l.(names := l.names[b := Name(d, block)]);
      InsertIntoQueues(b, l);
    }
  }

  lemma UnlinkedHash(next: seq<int>, prev: seq<int>, hash: seq<int>, l: Lists, b: nat)
    requires |next| == |prev| == |l.names| && HashLinks(next, prev, hash, l.chains) && ChainsOk(l) && b < |next|
    requires l.names[b].dev == 0 ==> next[b] == NULL && prev[b] == NULL
    ensures next[b] == NULL || (0 <= next[b] < |next| && next[b] != b && l.names[next[b]].dev != 0)
    ensures prev[b] == NULL || (0 <= prev[b] < |next| && prev[b] != b && l.names[prev[b]].dev != 0)
    ensures var h := Hash(l.names[b]);
      HashLinks(if prev[b] != NULL then next[prev[b] := next[b]] else next,
                if next[b] != NULL then prev[next[b] := prev[b]] else prev,
                if hash[h] == b then hash[h := next[b]] else hash, Removed(l, b).chains)
  {
    hide Hash;
    var h := Hash(l.names[b]);
    var c := l.chains[h];
    var next' := Set(next, prev[b], next[b]);
    var prev' := Set(prev, next[b], prev[b]);
    var hash' := if hash[h] == b then hash[h := next[b]] else hash;
    assert b in c <==> l.names[b].dev != 0;
    if b in c {
      var k := IndexOf(c, b);
      assert Node(next, prev, c, k);
      ChainNeighbours(l, h, k);
      ChainRemove(next, prev, c, k, next', prev');
      assert k > 0 ==> c[0] != c[k];
    } else if c != [] {
      assert c[0] in c;
    }
    forall g: nat | g < NR_HASH && g != h ensures hash'[g] == At(l.chains[g], 0) && Chained(next', prev', l.chains[g]) {
      if b in c {
        OtherChain(l, h, g);
        var k := IndexOf(c, b);
        assert k > 0 ==> c[k - 1] in c;
        assert k + 1 < |c| ==> c[k + 1] in c;
        ChainSame(next, prev, l.chains[g], next', prev');
      }
    }
  }

  lemma ChainNeighbours(l: Lists, h: nat, k: nat)
    requires ChainsOk(l) && h < NR_HASH && k < |l.chains[h]|
    ensures var c := l.chains[h];
      && (k > 0 ==> c[k - 1] < |l.names| && c[k - 1] != c[k] && l.names[c[k - 1]].dev != 0)
      && (k + 1 < |c| ==> c[k + 1] < |l.names| && c[k + 1] != c[k] && l.names[c[k + 1]].dev != 0)
  {
    var c := l.chains[h];
    if k > 0 { assert c[k - 1] in c; }
    if k + 1 < |c| { assert c[k + 1] in c; }
  }

  lemma OtherChain(l: Lists, h: nat, g: nat)
    requires |l.chains| == NR_HASH && h < NR_HASH && g < NR_HASH && h != g && (ChainsOk(l) || exists b: nat :: Lacks(l, b))
    ensures forall x: nat :: x in l.chains[h] ==> x !in l.chains[g]
  {
    hide Hash;
  }

  lemma UnlinkedRing(next: seq<int>, prev: seq<int>, l: Lists, b: nat)
    requires |next| == |prev| == |l.names| >= 2 && RingOk(l) && |l.ring| > 0 && Ringed(next, prev, l.ring) && b < |next|
    ensures 0 <= next[b] < |next| && 0 <= prev[b] < |next| && |l.ring| >= 2
    ensures Ringed(next[prev[b] := next[b]], prev[next[b] := prev[b]], Remove(l.ring, b))
    ensures |Remove(l.ring, b)| > 0 && Remove(l.ring, b)[0] == if l.ring[0] == b then next[b] else l.ring[0]
  {
    var r := l.ring;
    var k := IndexOf(r, b);
    assert Seat(next, prev, r, k);
    assert 0 in r && 1 in r;
    var i :| 0 <= i < |r| && r[i] == 0;
    var j :| 0 <= j < |r| && r[j] == 1;
    assert i != j;
    assert Succ(r, k) in r && Pred(r, k) in r;
    RingRemove(next, prev, r, k, next[prev[b] := next[b]], prev[next[b] := prev[b]]);
    if k > 0 { assert r[0] != r[k]; }
  }

  lemma LinkedRing(next: seq<int>, prev: seq<int>, l: Lists, b: nat)
    requires |next| == |prev| == |l.names| && Lacks(l, b) && |l.ring| > 0 && Ringed(next, prev, l.ring)
    ensures var f := l.ring[0];
      f < |next| && f != b && 0 <= prev[f] < |next| && prev[f] != b
      && Ringed(next[b := f][prev[f] := b], prev[b := prev[f]][f := b], l.ring + [b])
  {
    var r := l.ring;
    assert r[0] in r && r[|r| - 1] in r;
    assert Seat(next, prev, r, 0);
    RingInsert(next, prev, r, b, next[b := r[0]][prev[r[0]] := b], prev[b := prev[r[0]]][r[0] := b]);
  }

  lemma LinkedHash(next: seq<int>, prev: seq<int>, hash: seq<int>, l: Lists, b: nat, n: Name)
    requires |next| == |prev| == |l.names| && HashLinks(next, prev, hash, l.chains) && Lacks(l, b)
    ensures hash[Hash(n)] == NULL || (0 <= hash[Hash(n)] < |next| && hash[Hash(n)] != b)
    ensures var h, prev0 := Hash(n), prev[b := NULL];
      if n.dev == 0 then HashLinks(next[b := NULL], prev0, hash, l.chains)
      else && (hash[h] == NULL || (0 <= hash[h] < |next| && hash[h] != b && l.names[hash[h]].dev != 0))
           && HashLinks(next[b := hash[h]], if hash[h] != NULL then prev0[hash[h] := b] else prev0, hash[h := b], Inserted(l, b, n).chains)
  {
    hide Hash;
    var h := Hash(n);
    var c := l.chains[h];
    forall g: nat | g < NR_HASH ensures b !in l.chains[g] { LacksAt(l, b, g, b); }
    if c != [] { assert c[0] in c && Node(next, prev, c, 0); }
    if n.dev == 0 {
      forall g: nat | g < NR_HASH ensures hash[g] == At(l.chains[g], 0) && Chained(next[b := NULL], prev[b := NULL], l.chains[g]) {
        ChainSame(next, prev, l.chains[g], next[b := NULL], prev[b := NULL]);
      }
    } else {
      var next' := next[b := At(c, 0)];
      var prev' := Set(prev[b := NULL], At(c, 0), b);
      ChainInsert(next, prev, c, b, next', prev');
      forall g: nat | g < NR_HASH && g != h ensures hash[g] == At(l.chains[g], 0) && Chained(next', prev', l.chains[g]) {
        OtherChain(l, h, g);
        ChainSame(next, prev, l.chains[g], next', prev');
      }
    }
  }
}
