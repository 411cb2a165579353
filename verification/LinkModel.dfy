/**
  Directories and link counts (linux-0.11/fs/namei.c, with iput of fs/inode.c) as
  values: each system call is one step, given the directory it ended up in.
 */
module LinkModel {

  const ROOT: nat := 1
  const NAME_LEN: nat := 14
  const MAX_LINKS: nat := 256          // i_nlinks is one byte

  type Name = seq<nat>

  // A name as a directory stores it: cut off or filled up with zeros.
  function Stored(name: Name): Name {
    seq(NAME_LEN, i requires i >= 0 => if i < |name| then name[i] else 0)
  }

  function Dot(): Name { Stored([46]) }
  function DotDot(): Name { Stored([46, 46]) }

  // Inode 0 marks a free slot.
  datatype Entry = Entry(name: Name, inode: nat)

  /** `holders` is i_count; `entries` is the data of a directory. */
  datatype Node = Node(used: bool, dir: bool, nlinks: nat, holders: nat, entries: seq<Entry>)

  const FREE: Node := Node(false, false, 0, 0, [])

  // ---------- counting ----------

  function CountIn(es: seq<Entry>, i: nat): nat {
    if es == [] then 0 else CountIn(es[..|es| - 1], i) + if es[|es| - 1].inode == i then 1 else 0
  }

  function Rest(es: seq<Entry>): seq<Entry> {
    if |es| >= 2 then es[2..] else []
  }

  function Sum(ns: seq<Node>, w: Node -> nat): nat {
    if ns == [] then 0 else Sum(ns[..|ns| - 1], w) + w(ns[|ns| - 1])
  }

  // All entries for `i`, those behind "." and "..", and the ".." ones.
  function All(i: nat): Node -> nat { (n: Node) => CountIn(n.entries, i) }
  function Below(i: nat): Node -> nat { (n: Node) => CountIn(Rest(n.entries), i) }
  function Self(i: nat): Node -> nat { (n: Node) => if |n.entries| >= 2 && n.entries[0].inode == i then 1 else 0 }
  function Up(i: nat): Node -> nat { (n: Node) => if |n.entries| >= 2 && n.entries[1].inode == i then 1 else 0 }

  lemma {:induction false} SumUpdate(ns: seq<Node>, w: Node -> nat, d: nat, n: Node)
    requires d < |ns|
    ensures Sum(ns[d := n], w) == Sum(ns, w) - w(ns[d]) + w(n)
    decreases |ns|
  {
    var last := |ns| - 1;
    if d == last {
      assert ns[d := n][..last] == ns[..last];
    } else {
      assert ns[d := n][..last] == ns[..last][d := n];
      SumUpdate(ns[..last], w, d, n);
    }
  }

  lemma {:induction false} SumAtLeast(ns: seq<Node>, w: Node -> nat, d: nat)
    requires d < |ns|
    ensures Sum(ns, w) >= w(ns[d])
    decreases |ns|
  {
    if d < |ns| - 1 { SumAtLeast(ns[..|ns| - 1], w, d); }
  }

  lemma {:induction false} SumAtLeastTwo(ns: seq<Node>, w: Node -> nat, d: nat, e: nat)
    requires d < e < |ns|
    ensures Sum(ns, w) >= w(ns[d]) + w(ns[e])
    decreases |ns|
  {
    if e < |ns| - 1 { SumAtLeastTwo(ns[..|ns| - 1], w, d, e); } else { SumAtLeast(ns[..e], w, d); }
  }

  lemma {:induction false} SumOne(ns: seq<Node>, w: Node -> nat) returns (d: nat)
    requires Sum(ns, w) > 0
    ensures d < |ns| && w(ns[d]) > 0
    decreases |ns|
  {
    if w(ns[|ns| - 1]) > 0 { d := |ns| - 1; } else { d := SumOne(ns[..|ns| - 1], w); }
  }

  /** Every entry is a ".", a ".." or one behind them, if every directory has its first two. */
  lemma {:induction false} SumSplits(ns: seq<Node>, i: nat)
    requires forall d :: 0 <= d < |ns| ==> |ns[d].entries| != 1
    ensures Sum(ns, All(i)) == Sum(ns, Self(i)) + Sum(ns, Up(i)) + Sum(ns, Below(i))
    decreases |ns|
  {
    if ns != [] {
      SumSplits(ns[..|ns| - 1], i);
      CountSplits(ns[|ns| - 1].entries, i);
    }
  }

  lemma {:induction false} CountSplits(es: seq<Entry>, i: nat)
    requires |es| != 1
    ensures |es| >= 2 ==> CountIn(es, i) == CountIn(es[2..], i) + (if es[0].inode == i then 1 else 0) + (if es[1].inode == i then 1 else 0)
    ensures |es| == 0 ==> CountIn(es, i) == 0
    decreases |es|
  {
    if |es| > 2 {
      CountSplits(es[..|es| - 1], i);
      assert es[2..][..|es| - 3] == es[..|es| - 1][2..];
    } else if |es| == 2 {
      assert es[..1][..0] == [];
    }
  }

  lemma {:induction false} CountUpdate(es: seq<Entry>, k: nat, e: Entry, i: nat)
    requires k < |es|
    ensures CountIn(es[k := e], i) == CountIn(es, i) - (if es[k].inode == i then 1 else 0) + (if e.inode == i then 1 else 0)
    decreases |es|
  {
    var last := |es| - 1;
    if k == last {
      assert es[k := e][..last] == es[..last];
    } else {
      assert es[k := e][..last] == es[..last][k := e];
      CountUpdate(es[..last], k, e, i);
    }
  }

  lemma {:induction false} CountAtLeast(es: seq<Entry>, k: nat)
    requires k < |es|
    ensures CountIn(es, es[k].inode) >= 1
    decreases |es|
  {
    if k < |es| - 1 { CountAtLeast(es[..|es| - 1], k); }
  }

  lemma {:induction false} CountNone(es: seq<Entry>, i: nat)
    requires forall k :: 0 <= k < |es| ==> es[k].inode != i
    ensures CountIn(es, i) == 0
    decreases |es|
  {
    if es != [] { CountNone(es[..|es| - 1], i); }
  }

  // ---------- the invariant ----------

  predicate NamesUnique(es: seq<Entry>) {
    forall j, k :: 0 <= j < k < |es| && es[j].inode != 0 && es[k].inode != 0 ==> es[j].name != es[k].name
  }

  /** A directory starts with itself and its parent. */
  ghost predicate DirOk(ns: seq<Node>, d: nat)
    requires d < |ns|
  {
    var es := ns[d].entries;
    && |es| >= 2 && es[0] == Entry(Dot(), d) && es[1].name == DotDot() && NamesUnique(es)
    && 0 < es[1].inode < |ns| && ns[es[1].inode].used && ns[es[1].inode].dir
    && (forall k :: 0 <= k < |es| ==> es[k].inode < |ns|)
  }

  /** A directory other than the root has one entry besides its "." and its children's "..", in the one ".." names. */
  ghost predicate PlaceOk(ns: seq<Node>, d: nat)
    requires d < |ns|
  {
    if d == ROOT then Sum(ns, Below(d)) == 0 && |ns[d].entries| >= 2 && ns[d].entries[1].inode == ROOT
    else Sum(ns, Below(d)) == 1 && |ns[d].entries| >= 2 && ns[d].entries[1].inode < |ns| && ns[d].entries[1].inode != d
         && CountIn(Rest(ns[ns[d].entries[1].inode].entries), d) == 1
  }

  /** The link count is the number of entries in directories, and an inode is in use as long as it has links or holders. */
  ghost predicate NodeOk(ns: seq<Node>, i: nat)
    requires i < |ns|
  {
    var n := ns[i];
    && n.nlinks == Sum(ns, All(i)) < MAX_LINKS && (n.used <==> n.nlinks > 0 || n.holders > 0)
    && (!n.used ==> n == FREE) && (!n.dir ==> n.entries == [])
    && (n.dir ==> n.nlinks > 0 && DirOk(ns, i) && PlaceOk(ns, i))
  }

  ghost predicate Inv(ns: seq<Node>) {
    && |ns| > ROOT && ns[0] == FREE && ns[ROOT].dir && ns[ROOT].holders > 0
    && forall i: nat :: 0 < i < |ns| ==> NodeOk(ns, i)
  }

  lemma NodeAt(ns: seq<Node>, i: nat)
    requires Inv(ns) && 0 < i < |ns|
    ensures NodeOk(ns, i)
  {
  }

  lemma DirAt(ns: seq<Node>, d: nat)
    requires Inv(ns) && d < |ns| && ns[d].dir
    ensures d > 0 && ns[d].used && DirOk(ns, d) && PlaceOk(ns, d) && ns[d].nlinks == Sum(ns, All(d)) > 0
  {
    assert d > 0 ==> NodeOk(ns, d);
  }

  // ---------- an entry is added ----------

  function WithEntry(n: Node, k: nat, e: Entry): Node
    requires k <= |n.entries|
  {
    n.(entries := if k < |n.entries| then n.entries[k := e] else n.entries + [e])
  }

  // A free slot, or the place behind the last.
  predicate FreeSlot(es: seq<Entry>, k: nat) {
    2 <= k <= |es| && (k < |es| ==> es[k].inode == 0)
  }

  predicate NotIn(es: seq<Entry>, name: Name) {
    forall k :: 0 <= k < |es| && es[k].inode != 0 ==> es[k].name != name
  }

  lemma SetCounts(n: Node, k: nat, e: Entry, i: nat)
    requires 2 <= k <= |n.entries|
    ensures var gone := if k < |n.entries| && n.entries[k].inode == i then 1 else 0;
      && CountIn(WithEntry(n, k, e).entries, i) == CountIn(n.entries, i) - gone + (if e.inode == i then 1 else 0)
      && CountIn(Rest(WithEntry(n, k, e).entries), i) == CountIn(Rest(n.entries), i) - gone + (if e.inode == i then 1 else 0)
  {
    var es, fs := n.entries, WithEntry(n, k, e).entries;
    if k < |es| {
      CountUpdate(es, k, e, i);
      CountUpdate(es[2..], k - 2, e, i);
      assert fs[2..] == es[2..][k - 2 := e];
    } else {
      assert fs[..|es|] == es;
      assert fs[2..] == es[2..] + [e] && fs[2..][..|es| - 2] == es[2..];
    }
  }

  lemma AddedSums(ns: seq<Node>, d: nat, k: nat, e: Entry, links: nat, holders: nat, i: nat)
    requires d < |ns| && FreeSlot(ns[d].entries, k) && i > 0
    ensures var t := ns[d := WithEntry(ns[d], k, e).(nlinks := links, holders := holders)];
      && Sum(t, All(i)) == Sum(ns, All(i)) + (if e.inode == i then 1 else 0)
      && Sum(t, Below(i)) == Sum(ns, Below(i)) + (if e.inode == i then 1 else 0)
      && CountIn(Rest(t[d].entries), i) == CountIn(Rest(ns[d].entries), i) + if e.inode == i then 1 else 0
  {
    var n := WithEntry(ns[d], k, e).(nlinks := links, holders := holders);
    SetCounts(ns[d], k, e, i);
    SumUpdate(ns, All(i), d, n);
    SumUpdate(ns, Below(i), d, n);
  }

  /** A new inode `n` takes a slot; what is asked of it and of the directory is left to the caller. */
  lemma AddedOthers(ns: seq<Node>, d: nat, k: nat, name: Name, n: nat, node: Node, links: nat, t: seq<Node>, i: nat)
    requires Inv(ns) && d < |ns| && ns[d].dir && FreeSlot(ns[d].entries, k) && 0 < n < |ns| && ns[n] == FREE
    requires |node.entries| == 0 || (|node.entries| == 2 && node.entries[0].inode == n && node.entries[1].inode == d)
    requires t == ns[n := node][d := WithEntry(ns[d], k, Entry(name, n)).(nlinks := links)]
    requires 0 < i < |ns|
    ensures i != n ==> Sum(t, All(i)) == Sum(ns, All(i)) + (if i == d && |node.entries| == 2 then 1 else 0)
    ensures i == n ==> Sum(t, All(i)) == 1 + (if |node.entries| == 2 then 1 else 0)
    ensures Sum(t, Below(i)) == if i == n then 1 else Sum(ns, Below(i))
    ensures CountIn(Rest(t[d].entries), i) == if i == n then 1 else CountIn(Rest(ns[d].entries), i)
  {
    hide Inv, NamesUnique, Dot, DotDot, Stored, Sum, PlaceOk;
    var u := ns[n := node];
    DirAt(ns, d);
    NodeAt(ns, n);
    SumUpdate(ns, All(i), n, node);
    SumUpdate(ns, Below(i), n, node);
    CountSplits(node.entries, i);
    AddedSums(u, d, k, Entry(name, n), links, u[d].holders, i);
    NothingBelow(ns, n);
    SumAtLeast(ns, All(n), d);
    if |node.entries| == 2 { assert node.entries[2..] == []; }
    if i == n { BelowLeAll(ns[d].entries, n); }
  }

  lemma BelowLeAll(es: seq<Entry>, i: nat)
    ensures CountIn(Rest(es), i) <= CountIn(es, i)
  {
    if |es| >= 2 { CountSplits(es, i); }
  }

  /** Nothing points to a free inode. */
  lemma NothingBelow(ns: seq<Node>, n: nat)
    requires Inv(ns) && 0 < n < |ns| && ns[n] == FREE
    ensures Sum(ns, All(n)) == 0 && Sum(ns, Below(n)) == 0
  {
    assert NodeOk(ns, n);
    if Sum(ns, Below(n)) > 0 {
      var d := SumOne(ns, Below(n));
      BelowLeAll(ns[d].entries, n);
      SumAtLeast(ns, All(n), d);
    }
  }

  lemma SlotUnique(n: Node, k: nat, e: Entry)
    requires FreeSlot(n.entries, k) && NamesUnique(n.entries) && NotIn(n.entries, e.name)
    ensures NamesUnique(WithEntry(n, k, e).entries)
  {
  }

  // ---------- the steps ----------

  // One more link, in one byte.
  function Inc(n: nat): nat {
    if n + 1 == MAX_LINKS then 0 else n + 1
  }

  /** mknod, and open with O_CREAT: `holders` is what is left of the new inode's count. */
  function FileMade(ns: seq<Node>, d: nat, k: nat, name: Name, n: nat, holders: nat): seq<Node>
    requires d < |ns| && n < |ns| && d != n && FreeSlot(ns[d].entries, k)
  {
    ns[n := Node(true, false, 1, holders, [])][d := WithEntry(ns[d], k, Entry(name, n)).(nlinks := ns[d].nlinks)]
  }

  ghost predicate CanMake(ns: seq<Node>, d: nat, k: nat, name: Name, n: nat) {
    && Inv(ns) && d < |ns| && ns[d].dir && FreeSlot(ns[d].entries, k) && NotIn(ns[d].entries, name)
    && 0 < n < |ns| && ns[n] == FREE
  }

  lemma FileMadeKeeps(ns: seq<Node>, d: nat, k: nat, name: Name, n: nat, holders: nat)
    requires CanMake(ns, d, k, name, n)
    ensures d != n && Inv(FileMade(ns, d, k, name, n, holders))
  {
    var t := FileMade(ns, d, k, name, n, holders);
    DirAt(ns, d);
    hide Sum, CountIn;
    forall i: nat | 0 < i < |t| ensures NodeOk(t, i) {
      assert NodeOk(ns, i);
      AddedOthers(ns, d, k, name, n, Node(true, false, 1, holders, []), ns[d].nlinks, t, i);
      if t[i].dir { MadeDirs(ns, d, k, name, n, Node(true, false, 1, holders, []), ns[d].nlinks, t, i); }
    }
  }

  /** The other directories, and the one with the new entry. */
  lemma MadeDirs(ns: seq<Node>, d: nat, k: nat, name: Name, n: nat, node: Node, links: nat, t: seq<Node>, i: nat)
    requires CanMake(ns, d, k, name, n)
    requires |node.entries| == 0 || (|node.entries| == 2 && node.entries[0].inode == n && node.entries[1].inode == d)
    requires t == ns[n := node][d := WithEntry(ns[d], k, Entry(name, n)).(nlinks := links)]
    requires 0 < i < |ns| && i != n && ns[i].dir
    ensures DirOk(t, i) && PlaceOk(t, i)
  {
    DirAt(ns, i);
    DirAt(ns, d);
    MadeDirOk(ns, d, k, name, n, node, links, t, i);
    AddedOthers(ns, d, k, name, n, node, links, t, i);
    hide Sum, CountIn, NamesUnique, NotIn, DirOk;
    var p := ns[i].entries[1].inode;
    assert t[i].entries[1] == ns[i].entries[1];
    assert p < |ns| ==> p != n;
    assert p < |ns| && p != d ==> t[p] == ns[p];
  }

  lemma MadeDirOk(ns: seq<Node>, d: nat, k: nat, name: Name, n: nat, node: Node, links: nat, t: seq<Node>, i: nat)
    requires n < |ns| && ns[n] == FREE && d < |ns| && DirOk(ns, d) && FreeSlot(ns[d].entries, k) && NotIn(ns[d].entries, name)
    requires t == ns[n := node][d := WithEntry(ns[d], k, Entry(name, n)).(nlinks := links)]
    requires i < |ns| && i != n && DirOk(ns, i)
    ensures DirOk(t, i)
  {
    SlotUnique(ns[d], k, Entry(name, n));
    hide NamesUnique, NotIn, Dot, DotDot;
    assert t[i].entries[1] == ns[i].entries[1] && t[i].entries[0] == ns[i].entries[0];
  }

  // ---------- mkdir ----------

  function NewDir(n: nat, d: nat): Node {
    Node(true, true, 2, 0, [Entry(Dot(), n), Entry(DotDot(), d)])
  }

  function DirMade(ns: seq<Node>, d: nat, k: nat, name: Name, n: nat): seq<Node>
    requires d < |ns| && n < |ns| && d != n && FreeSlot(ns[d].entries, k)
  {
    ns[n := NewDir(n, d)][d := WithEntry(ns[d], k, Entry(name, n)).(nlinks := Inc(ns[d].nlinks))]
  }

  /** mkdir keeps the counts right exactly if the parent's count does not wrap. */
  lemma DirMadeExact(ns: seq<Node>, d: nat, k: nat, name: Name, n: nat)
    requires CanMake(ns, d, k, name, n)
    ensures d != n && (Inv(DirMade(ns, d, k, name, n)) <==> ns[d].nlinks < MAX_LINKS - 1)
  {
    var t := DirMade(ns, d, k, name, n);
    DirAt(ns, d);
    hide Sum, CountIn, NamesUnique, NotIn, DirOk, PlaceOk;
    assert NodeOk(ns, d);
    if ns[d].nlinks < MAX_LINKS - 1 {
      forall i: nat | 0 < i < |t| ensures NodeOk(t, i) {
        DirMadeAt(ns, d, k, name, n, i);
      }
    } else {
      assert !NodeOk(t, d);
    }
  }

  lemma DirMadeAt(ns: seq<Node>, d: nat, k: nat, name: Name, n: nat, i: nat)
    requires CanMake(ns, d, k, name, n) && ns[d].nlinks < MAX_LINKS - 1 && 0 < i < |ns| && d != n
    ensures NodeOk(DirMade(ns, d, k, name, n), i)
  {
    var t := DirMade(ns, d, k, name, n);
    DirAt(ns, d);
    assert NodeOk(ns, i) && NodeOk(ns, d);
    hide Sum, CountIn, NamesUnique, NotIn, DirOk, PlaceOk, Dot, DotDot, CanMake;
    AddedOthers(ns, d, k, name, n, NewDir(n, d), Inc(ns[d].nlinks), t, i);
    if i == n { NewDirOk(ns, d, k, name, n); }
    else if t[i].dir { MadeDirs(ns, d, k, name, n, NewDir(n, d), Inc(ns[d].nlinks), t, i); }
  }

  lemma NewDirOk(ns: seq<Node>, d: nat, k: nat, name: Name, n: nat)
    requires CanMake(ns, d, k, name, n) && d != n
    ensures var t := DirMade(ns, d, k, name, n); DirOk(t, n) && PlaceOk(t, n)
  {
    DirAt(ns, d);
    AddedOthers(ns, d, k, name, n, NewDir(n, d), Inc(ns[d].nlinks), DirMade(ns, d, k, name, n), n);
    hide Sum, CountIn;
    assert Dot()[1] == 0 && DotDot()[1] == 46;
  }

  // ---------- link and unlink ----------

  // iput by the last holder of an inode without links frees it.
  function Settled(n: Node): Node {
    if n.nlinks == 0 && n.holders == 0 then FREE else n
  }

  function Linked(ns: seq<Node>, d: nat, k: nat, name: Name, x: nat): seq<Node>
    requires d < |ns| && x < |ns| && k <= |ns[d].entries|
  {
    ns[d := WithEntry(ns[d], k, Entry(name, x))][x := Settled(ns[x].(nlinks := Inc(ns[x].nlinks)))]
  }

  ghost predicate CanLink(ns: seq<Node>, d: nat, k: nat, name: Name, x: nat) {
    && Inv(ns) && d < |ns| && ns[d].dir && FreeSlot(ns[d].entries, k) && NotIn(ns[d].entries, name)
    && 0 < x < |ns| && ns[x].nlinks > 0 && !ns[x].dir
  }

  /** Setting one slot of directory `d` and the links of the file `x`: what it does to the counts. */
  lemma SlotSums(ns: seq<Node>, d: nat, k: nat, e: Entry, x: nat, node: Node, i: nat)
    requires d < |ns| && x < |ns| && d != x && 2 <= k <= |ns[d].entries| && ns[x].entries == [] && node.entries == []
    ensures var t := ns[d := WithEntry(ns[d], k, e)][x := node];
      var gone := if k < |ns[d].entries| && ns[d].entries[k].inode == i then 1 else 0;
      && Sum(t, All(i)) == Sum(ns, All(i)) - gone + (if e.inode == i then 1 else 0)
      && Sum(t, Below(i)) == Sum(ns, Below(i)) - gone + (if e.inode == i then 1 else 0)
      && CountIn(Rest(t[d].entries), i) == CountIn(Rest(ns[d].entries), i) - gone + (if e.inode == i then 1 else 0)
  {
    var n := WithEntry(ns[d], k, e);
    var u := ns[d := n];
    SetCounts(ns[d], k, e, i);
    SumUpdate(ns, All(i), d, n);
    SumUpdate(ns, Below(i), d, n);
    SumUpdate(u, All(i), x, node);
    SumUpdate(u, Below(i), x, node);
  }

  // Slot `k` of `d` is set to `e`, and the file `x` it is, or was, for becomes `node`.
  ghost predicate SlotChange(ns: seq<Node>, d: nat, k: nat, e: Entry, x: nat, node: Node) {
    && Inv(ns) && d < |ns| && ns[d].dir && 2 <= k <= |ns[d].entries| && NamesUnique(WithEntry(ns[d], k, e).entries)
    && 0 < x < |ns| && !ns[x].dir && ns[x].entries == [] && node.entries == [] && !node.dir && d != x
    && (e.inode == 0 || e.inode == x)
    && (k < |ns[d].entries| ==> ns[d].entries[k].inode == 0 || ns[d].entries[k].inode == x)
  }

  lemma SlotDirOk(ns: seq<Node>, d: nat, k: nat, e: Entry, x: nat, node: Node, i: nat)
    requires SlotChange(ns, d, k, e, x, node) && i < |ns| && i != x && DirOk(ns, i)
    ensures DirOk(ns[d := WithEntry(ns[d], k, e)][x := node], i)
  {
    var t := ns[d := WithEntry(ns[d], k, e)][x := node];
    hide Inv, NamesUnique, Dot, DotDot;
    assert t[i].entries[1] == ns[i].entries[1] && t[i].entries[0] == ns[i].entries[0];
  }

  /** Directories are not disturbed. */
  lemma SlotDirs(ns: seq<Node>, d: nat, k: nat, e: Entry, x: nat, node: Node, i: nat)
    requires SlotChange(ns, d, k, e, x, node) && 0 < i < |ns| && ns[i].dir
    ensures var t := ns[d := WithEntry(ns[d], k, e)][x := node]; DirOk(t, i) && PlaceOk(t, i)
  {
    var t := ns[d := WithEntry(ns[d], k, e)][x := node];
    DirAt(ns, i);
    SlotDirOk(ns, d, k, e, x, node, i);
    SlotSums(ns, d, k, e, x, node, i);
    hide Inv, Sum, CountIn, NamesUnique, Dot, DotDot;
    var p := ns[i].entries[1].inode;
    assert t[i].entries[1] == ns[i].entries[1];
    hide DirOk;
    assert p < |ns| && p != x;
    assert p != d ==> t[p] == ns[p];
  }

  ghost predicate SlotFits(ns: seq<Node>, d: nat, k: nat, e: Entry, x: nat, node: Node) {
    && SlotChange(ns, d, k, e, x, node)
    && node.nlinks == Sum(ns[d := WithEntry(ns[d], k, e)][x := node], All(x)) < MAX_LINKS
    && (node.used <==> node.nlinks > 0 || node.holders > 0) && (!node.used ==> node == FREE)
  }

  lemma SlotAt(ns: seq<Node>, d: nat, k: nat, e: Entry, x: nat, node: Node, i: nat)
    requires SlotFits(ns, d, k, e, x, node) && 0 < i < |ns|
    ensures NodeOk(ns[d := WithEntry(ns[d], k, e)][x := node], i)
  {
    hide Inv, Sum, CountIn, NamesUnique, DirOk, PlaceOk;
    var t := ns[d := WithEntry(ns[d], k, e)][x := node];
    NodeAt(ns, i);
    SlotSums(ns, d, k, e, x, node, i);
    if t[i].dir { SlotDirs(ns, d, k, e, x, node, i); }
    hide SlotChange;
  }

  lemma SlotKeeps(ns: seq<Node>, d: nat, k: nat, e: Entry, x: nat, node: Node)
    requires SlotFits(ns, d, k, e, x, node)
    ensures Inv(ns[d := WithEntry(ns[d], k, e)][x := node])
  {
    var t := ns[d := WithEntry(ns[d], k, e)][x := node];
    DirAt(ns, d);
    hide NodeOk;
    forall i: nat | 0 < i < |t| ensures NodeOk(t, i) {
      SlotAt(ns, d, k, e, x, node, i);
    }
  }

  /** link keeps the counts right exactly if the file's count does not wrap. */
  lemma LinkedExact(ns: seq<Node>, d: nat, k: nat, name: Name, x: nat)
    requires CanLink(ns, d, k, name, x)
    ensures Inv(Linked(ns, d, k, name, x)) <==> ns[x].nlinks < MAX_LINKS - 1
  {
    NodeAt(ns, x);
    hide Inv, Sum, CountIn, NamesUnique, NotIn, DirOk, PlaceOk;
    if ns[x].nlinks < MAX_LINKS - 1 { LinkedKeeps(ns, d, k, name, x); } else { LinkedWraps(ns, d, k, name, x); }
  }

  lemma LinkedKeeps(ns: seq<Node>, d: nat, k: nat, name: Name, x: nat)
    requires CanLink(ns, d, k, name, x) && ns[x].nlinks < MAX_LINKS - 1
    ensures Inv(Linked(ns, d, k, name, x))
  {
    var e, node := Entry(name, x), Settled(ns[x].(nlinks := Inc(ns[x].nlinks)));
    DirAt(ns, d);
    NodeAt(ns, x);
    SlotUnique(ns[d], k, e);
    hide Sum, CountIn, NamesUnique, NotIn, DirOk, PlaceOk;
    SlotSums(ns, d, k, e, x, node, x);
    SlotKeeps(ns, d, k, e, x, node);
  }

  lemma LinkedWraps(ns: seq<Node>, d: nat, k: nat, name: Name, x: nat)
    requires CanLink(ns, d, k, name, x) && ns[x].nlinks == MAX_LINKS - 1
    ensures !Inv(Linked(ns, d, k, name, x))
  {
    var t := Linked(ns, d, k, name, x);
    NodeAt(ns, x);
    DirAt(ns, d);
    hide Sum, CountIn, NamesUnique, NotIn, DirOk, PlaceOk;
    SlotSums(ns, d, k, Entry(name, x), x, Settled(ns[x].(nlinks := 0)), x);
    assert !NodeOk(t, x);
  }

  function Unlinked(ns: seq<Node>, d: nat, k: nat): seq<Node>
    requires d < |ns| && k < |ns[d].entries| && ns[d].entries[k].inode < |ns| && ns[ns[d].entries[k].inode].nlinks > 0
  {
    var e := ns[d].entries[k];
    var x := e.inode;
    ns[d := WithEntry(ns[d], k, Entry(e.name, 0))][x := Settled(ns[x].(nlinks := ns[x].nlinks - 1))]
  }

  /** The entry that was found is for a file; so it is not one of the first two. */
  ghost predicate CanUnlink(ns: seq<Node>, d: nat, k: nat) {
    && Inv(ns) && d < |ns| && ns[d].dir && k < |ns[d].entries|
    && 0 < ns[d].entries[k].inode < |ns| && !ns[ns[d].entries[k].inode].dir
  }

  lemma EntryIsLinked(ns: seq<Node>, d: nat, k: nat)
    requires Inv(ns) && d < |ns| && ns[d].dir && k < |ns[d].entries| && ns[d].entries[k].inode > 0
    ensures ns[d].entries[k].inode < |ns| && ns[ns[d].entries[k].inode].nlinks > 0 && ns[ns[d].entries[k].inode].used
    ensures k < 2 ==> ns[ns[d].entries[k].inode].dir
  {
    DirAt(ns, d);
    var x := ns[d].entries[k].inode;
    assert NodeOk(ns, x);
    CountAtLeast(ns[d].entries, k);
    SumAtLeast(ns, All(x), d);
  }

  lemma ClearUnique(n: Node, k: nat)
    requires k < |n.entries| && NamesUnique(n.entries)
    ensures NamesUnique(WithEntry(n, k, Entry(n.entries[k].name, 0)).entries)
  {
  }

  lemma UnlinkedKeeps(ns: seq<Node>, d: nat, k: nat)
    requires CanUnlink(ns, d, k)
    ensures ns[ns[d].entries[k].inode].nlinks > 0 && Inv(Unlinked(ns, d, k))
  {
    hide Inv, Sum, CountIn, NamesUnique, NotIn, PlaceOk, Stored, Dot, DotDot, Rest;
    EntryIsLinked(ns, d, k);
    DirAt(ns, d);
    var e0 := ns[d].entries[k];
    var x, e := e0.inode, Entry(e0.name, 0);
    var node := Settled(ns[x].(nlinks := ns[x].nlinks - 1));
    NodeAt(ns, x);
    ClearUnique(ns[d], k);
    hide DirOk, WithEntry;
    SlotSums(ns, d, k, e, x, node, x);
    SlotKeeps(ns, d, k, e, x, node);
  }

  // ---------- holders ----------

  function Held(ns: seq<Node>, i: nat): seq<Node>
    requires i < |ns|
  {
    ns[i := ns[i].(holders := ns[i].holders + 1)]
  }

  /** iput. */
  function Dropped(ns: seq<Node>, i: nat): seq<Node>
    requires i < |ns| && ns[i].holders > 0
  {
    ns[i := Settled(ns[i].(holders := ns[i].holders - 1))]
  }

  /** Only the holders of one inode change, or it is freed. */
  lemma HoldersKeep(ns: seq<Node>, i: nat, node: Node)
    requires Inv(ns) && 0 < i < |ns| && ns[i].used && (node == ns[i].(holders := node.holders) || (node == FREE && ns[i].nlinks == 0))
    requires node.used <==> node.nlinks > 0 || node.holders > 0
    requires i == ROOT ==> node.holders > 0
    ensures Inv(ns[i := node])
  {
    var t := ns[i := node];
    assert NodeOk(ns, i);
    hide Sum, CountIn, DirOk, PlaceOk;
    forall j: nat | 0 < j < |t| ensures NodeOk(t, j) {
      assert NodeOk(ns, j);
      HoldersAt(ns, i, node, j);
    }
  }

  lemma HoldersAt(ns: seq<Node>, i: nat, node: Node, j: nat)
    requires i < |ns| && j < |ns| && node.entries == ns[i].entries
    requires (node.used && node.dir == ns[i].dir) || !ns[i].dir
    ensures Sum(ns[i := node], All(j)) == Sum(ns, All(j)) && Sum(ns[i := node], Below(j)) == Sum(ns, Below(j))
    ensures DirOk(ns, j) && PlaceOk(ns, j) ==> DirOk(ns[i := node], j) && PlaceOk(ns[i := node], j)
  {
    SumUpdate(ns, All(j), i, node);
    SumUpdate(ns, Below(j), i, node);
    hide Sum, CountIn, NamesUnique, Dot, DotDot;
  }

  // ---------- rmdir ----------

  /** What empty_dir accepts. */
  predicate Bare(es: seq<Entry>, x: nat) {
    && |es| >= 2 && es[0].inode == x && es[1].inode != 0 && es[0].name == Dot() && es[1].name == DotDot()
    && forall k :: 2 <= k < |es| ==> es[k].inode == 0
  }

  function DirRemoved(ns: seq<Node>, d: nat, k: nat): seq<Node>
    requires d < |ns| && k < |ns[d].entries| && ns[d].entries[k].inode < |ns| && ns[d].nlinks > 0
  {
    var e := ns[d].entries[k];
    ns[d := WithEntry(ns[d], k, Entry(e.name, 0)).(nlinks := ns[d].nlinks - 1)][e.inode := FREE]
  }

  ghost predicate CanRemove(ns: seq<Node>, d: nat, k: nat, x: nat) {
    && Inv(ns) && d < |ns| && ns[d].dir && k < |ns[d].entries| && ns[d].entries[k].inode == x
    && 0 < x < |ns| && x != d && ns[x].dir && ns[x].holders == 0 && Bare(ns[x].entries, x)
  }

  lemma BareCounts(es: seq<Entry>, x: nat, i: nat)
    requires Bare(es, x) && i > 0
    ensures CountIn(Rest(es), i) == 0
    ensures CountIn(es, i) == (if i == x then 1 else 0) + (if i == es[1].inode then 1 else 0)
  {
    CountSplits(es, i);
    CountNone(es[2..], i);
  }

  /** Nothing is "inside" an empty directory. */
  lemma NoChildren(ns: seq<Node>, d: nat, k: nat, x: nat)
    requires CanRemove(ns, d, k, x)
    ensures Sum(ns, Up(x)) == 0 && x != ROOT && k >= 2
  {
    DirAt(ns, x);
    DirAt(ns, d);
    BareCounts(ns[x].entries, x, d);
    BelowRest(ns, d, k, x);
    if Sum(ns, Up(x)) > 0 {
      var y := SumOne(ns, Up(x));
      assert y > 0 && NodeOk(ns, y);
      BareCounts(ns[x].entries, x, y);
    }
  }

  lemma BelowRest(ns: seq<Node>, d: nat, k: nat, x: nat)
    requires CanRemove(ns, d, k, x)
    ensures k >= 2 && CountIn(Rest(ns[d].entries), x) >= 1 && Sum(ns, Below(x)) >= 1 && x != ROOT
  {
    DirAt(ns, d);
    DirAt(ns, x);
    if k == 1 {
      // "..": the parent is not empty, for it holds this directory.
      BareCounts(ns[x].entries, x, d);
      assert false;
    }
    assert ns[d].entries[2..][k - 2].inode == x;
    CountAtLeast(ns[d].entries[2..], k - 2);
    SumAtLeast(ns, Below(x), d);
  }

  /** It is in the directory that its ".." names, and it has exactly two links. */
  lemma RemovedPlace(ns: seq<Node>, d: nat, k: nat, x: nat)
    requires CanRemove(ns, d, k, x)
    ensures ns[x].entries[1].inode == d && ns[x].nlinks == 2 && k >= 2
    ensures CountIn(Rest(ns[d].entries), x) == 1
  {
    DirAt(ns, x);
    DirAt(ns, d);
    NoChildren(ns, d, k, x);
    BelowRest(ns, d, k, x);
    SumAtLeast(ns, Below(x), d);
    var p := ns[x].entries[1].inode;
    if p < d { SumAtLeastTwo(ns, Below(x), p, d); } else if d < p { SumAtLeastTwo(ns, Below(x), d, p); }
    forall i | 0 <= i < |ns| ensures |ns[i].entries| != 1 {
      assert i > 0 ==> NodeOk(ns, i);
    }
    SumSplits(ns, x);
    OneSelf(ns, x, |ns|);
    assert ns[..|ns|] == ns;
  }

  lemma SelfAt(ns: seq<Node>, x: nat, j: nat)
    requires Inv(ns) && 0 < x < |ns| && ns[x].dir && j < |ns|
    ensures Self(x)(ns[j]) == if j == x then 1 else 0
  {
    if j > 0 { NodeAt(ns, j); }
  }

  /** Only its own "." is a first entry for `x`. */
  lemma {:induction false} OneSelf(ns: seq<Node>, x: nat, n: nat)
    requires Inv(ns) && 0 < x < |ns| && ns[x].dir && n <= |ns|
    ensures Sum(ns[..n], Self(x)) == if x < n then 1 else 0
    decreases n
  {
    hide Inv, Self;
    if n > 0 {
      OneSelf(ns, x, n - 1);
      assert ns[..n][..n - 1] == ns[..n - 1];
      SelfAt(ns, x, n - 1);
    }
  }

  lemma RemovedSums(ns: seq<Node>, d: nat, k: nat, x: nat, i: nat)
    requires CanRemove(ns, d, k, x) && k >= 2 && i > 0 && ns[x].entries[1].inode == d && ns[d].nlinks > 0
    ensures var t := DirRemoved(ns, d, k);
      && Sum(t, All(i)) == Sum(ns, All(i)) - (if i == x then 2 else if i == d then 1 else 0)
      && Sum(t, Below(i)) == Sum(ns, Below(i)) - (if i == x then 1 else 0)
      && CountIn(Rest(t[d].entries), i) == CountIn(Rest(ns[d].entries), i) - (if i == x then 1 else 0)
  {
    var e := Entry(ns[d].entries[k].name, 0);
    var n := WithEntry(ns[d], k, e).(nlinks := ns[d].nlinks - 1);
    var u := ns[d := n];
    SetCounts(ns[d], k, e, i);
    SumUpdate(ns, All(i), d, n);
    SumUpdate(ns, Below(i), d, n);
    SumUpdate(u, All(i), x, FREE);
    SumUpdate(u, Below(i), x, FREE);
    BareCounts(ns[x].entries, x, i);
  }

  lemma RemovedDirOk(ns: seq<Node>, d: nat, k: nat, x: nat, i: nat)
    requires d < |ns| && DirOk(ns, d) && 2 <= k < |ns[d].entries| && ns[d].entries[k].inode == x < |ns| && ns[d].nlinks > 0
    requires i < |ns| && i != x && d != x && DirOk(ns, i) && ns[i].entries[1].inode != x
    ensures DirOk(DirRemoved(ns, d, k), i)
  {
    var t := DirRemoved(ns, d, k);
    ClearUnique(ns[d], k);
    hide NamesUnique, Dot, DotDot;
    assert t[i].entries[1] == ns[i].entries[1] && t[i].entries[0] == ns[i].entries[0];
  }

  lemma RemovedDirs(ns: seq<Node>, d: nat, k: nat, x: nat, i: nat)
    requires CanRemove(ns, d, k, x) && 0 < i < |ns| && ns[i].dir && i != x && ns[d].nlinks > 0
    ensures var t := DirRemoved(ns, d, k); DirOk(t, i) && PlaceOk(t, i)
  {
    var t := DirRemoved(ns, d, k);
    DirAt(ns, i);
    DirAt(ns, d);
    RemovedPlace(ns, d, k, x);
    NoChildren(ns, d, k, x);
    SumAtLeast(ns, Up(x), i);
    var p := ns[i].entries[1].inode;
    assert p != x;
    RemovedDirOk(ns, d, k, x, i);
    RemovedSums(ns, d, k, x, i);
    hide Inv, Sum, CountIn, NamesUnique, DirOk, Bare;
    assert t[i].entries[1] == ns[i].entries[1];
    assert p < |ns| && p != d ==> t[p] == ns[p];
  }

  lemma RemovedAt(ns: seq<Node>, d: nat, k: nat, x: nat, i: nat)
    requires CanRemove(ns, d, k, x) && ns[d].nlinks > 1 && 0 < i < |ns|
    ensures NodeOk(DirRemoved(ns, d, k), i)
  {
    var t := DirRemoved(ns, d, k);
    RemovedPlace(ns, d, k, x);
    NodeAt(ns, i);
    DirAt(ns, d);
    hide Sum, CountIn, NamesUnique, DirOk, PlaceOk, Bare;
    RemovedSums(ns, d, k, x, i);
    if t[i].dir { RemovedDirs(ns, d, k, x, i); }
    hide Inv;
  }

  /** rmdir frees the directory: no entry is left that names it, and its parent has one link less. */
  lemma DirRemovedKeeps(ns: seq<Node>, d: nat, k: nat, x: nat)
    requires CanRemove(ns, d, k, x)
    ensures ns[d].nlinks > 1 && ns[x].nlinks == 2 && Inv(DirRemoved(ns, d, k))
  {
    RemovedPlace(ns, d, k, x);
    NoChildren(ns, d, k, x);
    LinkedTwice(ns, d, x);
    var t := DirRemoved(ns, d, k);
    DirAt(ns, d);
    hide Bare, NodeOk;
    forall i: nat | 0 < i < |t| ensures NodeOk(t, i) {
      RemovedAt(ns, d, k, x, i);
    }
  }

  lemma LinkedTwice(ns: seq<Node>, d: nat, x: nat)
    requires Inv(ns) && d < |ns| && 0 < x < |ns| && x != d && ns[d].dir && ns[x].dir && |ns[x].entries| >= 2 && ns[x].entries[1].inode == d
    ensures ns[d].nlinks >= 2
  {
    DirAt(ns, d);
    DirAt(ns, x);
    CountAtLeast(ns[d].entries, 0);
    CountAtLeast(ns[x].entries, 1);
    if d < x { SumAtLeastTwo(ns, All(d), d, x); } else { SumAtLeastTwo(ns, All(d), x, d); }
  }

  // ---------- a fresh file system ----------

  /** Only the root, held by the first process. */
  lemma RootOk(ns: seq<Node>)
    requires |ns| > ROOT && ns[ROOT] == NewDir(ROOT, ROOT).(holders := 1)
    requires forall i: nat :: i < |ns| && i != ROOT ==> ns[i] == FREE
    ensures Inv(ns)
  {
    forall i: nat | 0 < i < |ns| ensures NodeOk(ns, i) {
      RootSums(ns, i, |ns|);
      assert ns[..|ns|] == ns;
      if i == ROOT { assert Dot()[1] == 0 && DotDot()[1] == 46; }
    }
  }

  lemma {:induction false} RootSums(ns: seq<Node>, i: nat, n: nat)
    requires |ns| > ROOT && ns[ROOT] == NewDir(ROOT, ROOT).(holders := 1) && n <= |ns| && i > 0
    requires forall i: nat :: i < |ns| && i != ROOT ==> ns[i] == FREE
    ensures Sum(ns[..n], All(i)) == (if i == ROOT && n > ROOT then 2 else 0) && Sum(ns[..n], Below(i)) == 0
    decreases n
  {
    if n > 0 {
      RootSums(ns, i, n - 1);
      assert ns[..n][..n - 1] == ns[..n - 1];
      if n - 1 == ROOT { CountSplits(ns[ROOT].entries, i); }
    }
  }
}
