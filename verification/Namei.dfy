/**
  The directory calls (linux-0.11/fs/namei.c, iget and iput of fs/inode.c,
  new_inode and free_inode of fs/bitmap.c) on a table of inodes. Each call is
  given the directory its path led to; nothing else runs meanwhile.
 */
module Namei {
  import opened LinkModel
  import opened DirCalls

  // The comparison of match(), for a name already cut.
  predicate Match(name: Name, e: Entry)
    requires |name| <= NAME_LEN && |e.name| == NAME_LEN
  {
    e.inode != 0 && (|name| == NAME_LEN || e.name[|name|] == 0) && e.name[..|name|] == name
  }

  /** match() is equality with the stored form. */
  lemma MatchIsStored(name: Name, e: Entry)
    requires 0 !in name && |e.name| == NAME_LEN && Padded(e.name)
    ensures Match(Cut(name), e) <==> e.inode != 0 && e.name == Stored(name)
  {
    var c, s := Cut(name), Stored(name);
    forall i | 0 <= i < |c| ensures c[i] == s[i] {}
    if Match(c, e) {
      forall i | 0 <= i < NAME_LEN ensures e.name[i] == s[i] {
        if i < |c| { assert e.name[..|c|][i] == c[i]; }
      }
    }
    if e.name == s { assert e.name[..|c|] == c; }
  }

  // rmdir may take slot `k`, which has that name.
  ghost predicate Removable(ns: seq<Node>, d: nat, k: nat, name: Name) {
    && d < |ns| && k < |ns[d].entries| && ns[d].entries[k].name == name && CanRemove(ns, d, k, ns[d].entries[k].inode)
    && ns[d].nlinks > 0
  }

  // No other slot qualifies.
  ghost predicate OnlyRemovable(ns: seq<Node>, d: nat, name: Name, k: int) {
    forall j: nat :: Removable(ns, d, j, name) ==> j == k
  }

  ghost predicate Unlinkable(ns: seq<Node>, d: nat, k: nat) {
    CanUnlink(ns, d, k) && ns[ns[d].entries[k].inode].nlinks > 0
  }

  class Namespace {
    const nodes: array<Node>

    ghost function S(): seq<Node>
      reads nodes
    {
      nodes[..]
    }

    ghost predicate Valid()
      reads nodes
    {
      Inv(S()) && Names(S())
    }

    /** find_entry: the first slot with that name, or -1. */
    method FindEntry(d: nat, name: Name, root: nat) returns (k: int)
      requires Valid() && d < nodes.Length && nodes[d].dir && Component(name)
      ensures Finds(nodes[d].entries, Stored(Sought(name, d == root)), k)
      ensures k == -1 <==> NotIn(nodes[d].entries, Stored(Sought(name, d == root)))
    {
      hide Inv;
      var wanted := if d == root && name == [46, 46] then [46] else name;
      assert 0 !in wanted;
      var es := nodes[d].entries;
      k := 0;
      while k < |es|
        invariant 0 <= k <= |es|
        invariant forall j :: 0 <= j < k && es[j].inode != 0 ==> es[j].name != Stored(wanted)
      {
        if es[k].inode != 0 {
          assert Padded(es[k].name);
          MatchIsStored(wanted, es[k]);
          if Match(Cut(wanted), es[k]) { return; }
        }
        k := k + 1;
      }
      k := -1;
    }

    /** add_entry: the first free slot, or a new one behind the last, takes the name; -1 if there is no block for it. */
    method AddEntry(d: nat, name: Name, room: bool) returns (k: int)
      requires d < nodes.Length && Component(name)
      requires |nodes[d].entries| >= 2 && nodes[d].entries[0].inode != 0 && nodes[d].entries[1].inode != 0
      modifies nodes
      ensures k == -1 <==> Full(old(nodes[d]).entries, room)
      ensures k == -1 ==> S() == old(S())
      ensures forall j :: 0 <= j < k ==> j < |old(nodes[d]).entries| && old(nodes[d]).entries[j].inode != 0
      ensures k != -1 ==> 0 <= k && FreeSlot(old(nodes[d].entries), k)
                          && S() == old(S())[d := WithEntry(old(nodes[d]), k, Entry(Stored(name), 0))]
    {
      hide Stored;
      var es := nodes[d].entries;
      k := 0;
      while k < |es| && es[k].inode != 0
        invariant 0 <= k <= |es| && forall j :: 0 <= j < k ==> es[j].inode != 0
      {
        k := k + 1;
      }
      if k == |es| && |es| % DIR_ENTRIES_PER_BLOCK == 0 && !room { return -1; }
      nodes[d] := WithEntry(nodes[d], k, Entry(Stored(Cut(name)), 0));
      StoredPadded(name);
    }

    /** new_inode: the lowest number that is free, or 0. */
    method NewInode() returns (n: nat)
      requires Valid()
      modifies nodes
      ensures n == 0 <==> NoInode(old(S()))
      ensures n == 0 ==> S() == old(S())
      ensures n != 0 ==> n < nodes.Length && old(nodes[n]) == FREE && (forall i :: 0 < i < n ==> old(nodes[i]).used)
                         && S() == old(S())[n := Node(true, false, 1, 1, [])]
    {
      n := 1;
      while n < nodes.Length && nodes[n].used
        invariant 1 <= n <= nodes.Length && forall i :: 0 < i < n ==> nodes[i].used
      {
        n := n + 1;
      }
      if n == nodes.Length { return 0; }
      NodeAt(S(), n);
      hide Inv;
      nodes[n] := Node(true, false, 1, 1, []);
    }

    /** iput: the last holder of an inode without links frees it. */
    method Iput(i: nat)
      requires i < nodes.Length && nodes[i].holders > 0
      modifies nodes
      ensures S() == Dropped(old(S()), i)
    {
      if nodes[i].holders > 1 {
        nodes[i] := nodes[i].(holders := nodes[i].holders - 1);
      } else if nodes[i].nlinks == 0 {
        nodes[i] := FREE;
      } else {
        nodes[i] := nodes[i].(holders := nodes[i].holders - 1);
      }
    }

    // The inode that new_inode gave is not needed after all.
    method Unmake(n: nat)
      requires n < nodes.Length && nodes[n] == Node(true, false, 1, 1, [])
      modifies nodes
      ensures S() == old(S())[n := FREE]
    {
      nodes[n] := nodes[n].(nlinks := nodes[n].nlinks - 1);
      Iput(n);
    }

    // de->inode = n, in the slot that add_entry found.
    method Enter(d: nat, k: nat, n: nat)
      requires d < nodes.Length && k < |nodes[d].entries|
      modifies nodes
      ensures S() == old(S())[d := WithEntry(old(nodes[d]), k, Entry(old(nodes[d]).entries[k].name, n))]
    {
      nodes[d] := nodes[d].(entries := nodes[d].entries[k := Entry(nodes[d].entries[k].name, n)]);
    }

    /** A new inode with its entry, counted once for its creator; what mknod and a creating open have in common. */
    method Make(d: nat, name: Name, room: bool) returns (r: Outcome, k: int, n: nat)
      requires Valid() && d < nodes.Length && nodes[d].dir && Component(name) && NotIn(nodes[d].entries, Stored(name))
      modifies nodes
      ensures r == if NoInode(old(S())) || Full(old(nodes[d]).entries, room) then Fail(ENOSPC) else Ok
      ensures r == Ok ==> k >= 0 && CanMake(old(S()), d, k, Stored(name), n) && d != n
                          && S() == FileMade(old(S()), d, k, Stored(name), n, 1)
      ensures r != Ok ==> S() == old(S())
    {
      ghost var ns := S();
      FirstTwo(ns, d);
      hide Inv, Stored, PlaceOk, DirOk, Names, NotIn, WithEntry, FreeSlot, FileMade, Sum, Full;
      n := NewInode();
      if n == 0 { return Fail(ENOSPC), -1, 0; }
      k := Christen(d, name, n, room, ns);
      r := if k == -1 then Fail(ENOSPC) else Ok;
    }

    // The new inode gets its entry, or is given back.
    method Christen(d: nat, name: Name, n: nat, room: bool, ghost ns: seq<Node>) returns (k: int)
      requires d < nodes.Length && 0 < n < nodes.Length && d != n && Component(name)
      requires |ns| == nodes.Length && ns[n] == FREE && S() == ns[n := Node(true, false, 1, 1, [])]
      requires |ns[d].entries| >= 2 && ns[d].entries[0].inode != 0 && ns[d].entries[1].inode != 0
      modifies nodes
      ensures k == -1 <==> Full(ns[d].entries, room)
      ensures k == -1 ==> S() == ns
      ensures k != -1 ==> k >= 0 && FreeSlot(ns[d].entries, k) && S() == FileMade(ns, d, k, Stored(name), n, 1)
    {
      hide Stored, WithEntry, FileMade, Full, FreeSlot;
      k := AddEntry(d, name, room);
      if k == -1 {
        Unmake(n);
        assert S() == ns;
      } else {
        MadeInSteps(ns, d, k, Stored(name), n);
        Enter(d, k, n);
      }
    }

    /** mknod of a file or device. */
    method Mknod(d: nat, name: Name, root: nat, mayWrite: bool, room: bool) returns (r: Outcome, k: int, n: nat)
      requires Valid() && d < nodes.Length && nodes[d].dir && Component(name)
      modifies nodes
      ensures Valid() && MknodIs(old(S()), S(), Call.Mknod(d, name, root, mayWrite, room), Answer(r, k, n))
    {
      ghost var ns := S();
      hide Inv, Stored, Names, FileMade, NotIn, FreeSlot;
      if !mayWrite { return Fail(EPERM), -1, 0; }
      var f := FindEntry(d, name, root);
      if f != -1 { return Fail(EEXIST), -1, 0; }
      NotFound(ns, d, name, d == root);
      r, k, n := Make(d, name, room);
      if r == Ok {
        MadeAndPut(ns, d, k, Stored(name), n);
        Iput(n);
      }
    }

    /** open: a creating open makes the inode and keeps it held, others hold what they found. */
    method Open(d: nat, name: Name, root: nat, creat: bool, excl: bool, mayWrite: bool, mayOpen: bool, room: bool)
      returns (r: Outcome, k: int, x: nat)
      requires Valid() && d < nodes.Length && nodes[d].dir && Component(name)
      modifies nodes
      ensures Valid() && OpenIs(old(S()), S(), Call.Open(d, name, root, creat, excl, mayWrite, mayOpen, room), Answer(r, k, x))
    {
      ghost var ns := S();
      hide Inv, Stored, Names, FileMade, NotIn, FreeSlot;
      k := FindEntry(d, name, root);
      if k == -1 {
        if !creat { return Fail(ENOENT), -1, 0; }
        if !mayWrite { return Fail(EACCES), -1, 0; }
        NotFound(ns, d, name, d == root);
        r, k, x := Make(d, name, room);
        if r == Ok { MadeAndPut(ns, d, k, Stored(name), x); }
        return;
      }
      EntryIsLinked(ns, d, k);
      x := nodes[d].entries[k].inode;
      if excl { return Fail(EEXIST), k, x; }
      HeldKeeps(ns, x);
      nodes[x] := nodes[x].(holders := nodes[x].holders + 1);
      if !mayOpen {
        Iput(x);
        assert S() == ns;
        return Fail(EPERM), k, x;
      }
      r := Ok;
    }

    /** The last close of a file, or leaving a directory. */
    method Close(x: nat)
      requires Valid() && 0 < x < nodes.Length && nodes[x].holders > (if x == ROOT then 1 else 0)
      modifies nodes
      ensures Valid() && S() == Dropped(old(S()), x)
    {
      DroppedKeeps(S(), x);
      hide Inv, Names;
      Iput(x);
    }

    /** mkdir. If the directory it goes into needs a block and there is none, the new directory's own block is
        freed twice, which is a panic. */
    method Mkdir(d: nat, name: Name, root: nat, mayWrite: bool, block: bool, room: bool)
        returns (r: Outcome, k: int, n: nat)
      requires Valid() && d < nodes.Length && nodes[d].dir && Component(name)
      modifies nodes
      ensures MkdirIs(old(S()), S(), Call.Mkdir(d, name, root, mayWrite, block, room), Answer(r, k, n))
      ensures r.Fail? ==> Valid()
      ensures r == Ok ==> Names(S()) && (Valid() <==> old(nodes[d]).nlinks < MAX_LINKS - 1)
    {
      ghost var ns := S();
      hide Inv, Stored, Names, DirMade, NotIn, FreeSlot;
      if !mayWrite { return Fail(EPERM), -1, 0; }
      var f := FindEntry(d, name, root);
      if f != -1 { return Fail(EEXIST), -1, 0; }
      NotFound(ns, d, name, d == root);
      r, k, n := MakeDir(d, name, block, room);
      if r == Ok {
        DirMadeNames(ns, d, k, Stored(name), n);
        DirMadeExact(ns, d, k, Stored(name), n);
      }
    }

    method MakeDir(d: nat, name: Name, block: bool, room: bool) returns (r: Outcome, k: int, n: nat)
      requires Valid() && d < nodes.Length && nodes[d].dir && Component(name) && NotIn(nodes[d].entries, Stored(name))
      modifies nodes
      ensures r == if NoInode(old(S())) || !block then Fail(ENOSPC) else if Full(old(nodes[d]).entries, room) then Panic else Ok
      ensures r.Fail? ==> S() == old(S())
      ensures r == Ok ==> k >= 0 && CanMake(old(S()), d, k, Stored(name), n) && d != n && S() == DirMade(old(S()), d, k, Stored(name), n)
    {
      ghost var ns := S();
      FirstTwo(ns, d);
      hide Inv, Stored, PlaceOk, DirOk, Names, NotIn, WithEntry, FreeSlot, DirMade, Sum, Dot, DotDot, Full, Dropped;
      n := NewInode();
      if n == 0 { return Fail(ENOSPC), -1, 0; }
      if !block {
        Unmake(n);
        assert S() == ns;
        return Fail(ENOSPC), -1, n;
      }
      k := Furnish(d, name, n, room, ns);
      r := if k == -1 then Panic else Ok;
    }

    // The new inode becomes a directory with its entry.
    method Furnish(d: nat, name: Name, n: nat, room: bool, ghost ns: seq<Node>) returns (k: int)
      requires d < nodes.Length && 0 < n < nodes.Length && d != n && Component(name)
      requires |ns| == nodes.Length && S() == ns[n := Node(true, false, 1, 1, [])]
      requires |ns[d].entries| >= 2 && ns[d].entries[0].inode != 0 && ns[d].entries[1].inode != 0
      modifies nodes
      ensures k == -1 <==> Full(ns[d].entries, room)
      ensures k != -1 ==> k >= 0 && FreeSlot(ns[d].entries, k) && S() == DirMade(ns, d, k, Stored(name), n)
    {
      hide Stored, WithEntry, DirMade, Dot, DotDot, Full, Dropped, FreeSlot;
      nodes[n] := NewDir(n, d).(holders := 1);
      assert S() == ns[n := NewDir(n, d).(holders := 1)];
      k := AddEntry(d, name, room);
      if k != -1 {
        DirMadeInSteps(ns, d, k, Stored(name), n);
        Attach(d, k, n);
      }
    }

    // The entry, the parent's link, and the end of the call.
    method Attach(d: nat, k: nat, n: nat)
      requires d < nodes.Length && n < nodes.Length && d != n && k < |nodes[d].entries| && nodes[n].holders == 1
      modifies nodes
      ensures var c := old(S())[d := WithEntry(old(nodes[d]), k, Entry(old(nodes[d]).entries[k].name, n))];
        S() == Dropped(c[d := c[d].(nlinks := Inc(c[d].nlinks))], n)
    {
      Enter(d, k, n);
      nodes[d] := nodes[d].(nlinks := Inc(nodes[d].nlinks));
      Iput(n);
    }

    /** empty_dir. */
    method EmptyDir(x: nat) returns (empty: bool)
      requires x < nodes.Length
      ensures empty <==> Bare(nodes[x].entries, x)
    {
      hide Stored;
      var es := nodes[x].entries;
      if |es| < 2 { return false; }
      if es[0].inode != x || es[1].inode == 0 || es[0].name != Dot() || es[1].name != DotDot() { return false; }
      var nr := 2;
      while nr < |es|
        invariant 2 <= nr <= |es| && forall k :: 2 <= k < nr ==> es[k].inode == 0
      {
        if es[nr].inode != 0 { return false; }
        nr := nr + 1;
      }
      return true;
    }

    /** rmdir. `sticky` says that the directory's sticky bit forbids it. It removes exactly what may be removed. */
    method Rmdir(d: nat, name: Name, root: nat, mayWrite: bool, sticky: bool) returns (r: Outcome, k: int, x: nat)
      requires Valid() && d < nodes.Length && nodes[d].dir && Component(name)
      modifies nodes
      ensures Valid() && RmdirIs(old(S()), S(), Call.Rmdir(d, name, root, mayWrite, sticky), Answer(r, k, x))
      ensures r == Ok ==> mayWrite && !sticky && Removable(old(S()), d, k, Stored(Sought(name, d == root)))
      ensures mayWrite && !sticky ==> OnlyRemovable(old(S()), d, Stored(Sought(name, d == root)), if r == Ok then k else -1)
    {
      ghost var ns := S();
      hide Inv, Stored, Names, DirRemoved, NotIn, Bare;
      if !mayWrite { return Fail(EPERM), -1, 0; }
      k := FindEntry(d, name, root);
      OnlyFound(ns, d, Stored(Sought(name, d == root)), k);
      if k == -1 { return Fail(ENOENT), -1, 0; }
      EntryIsLinked(ns, d, k);
      x := nodes[d].entries[k].inode;
      r := RmdirAt(d, k, sticky);
    }

    method RmdirAt(d: nat, k: nat, sticky: bool) returns (r: Outcome)
      requires Valid() && d < nodes.Length && nodes[d].dir && k < |nodes[d].entries| && nodes[d].entries[k].inode > 0
      modifies nodes
      ensures Valid() && (r != Ok ==> S() == old(S())) && r != Panic
      ensures old(nodes[d]).entries[k].inode < nodes.Length && r == Refusal(old(S()), d, old(nodes[d]).entries[k].inode, sticky)
      ensures r == Ok <==> !sticky && CanRemove(old(S()), d, k, old(nodes[d]).entries[k].inode)
      ensures r == Ok ==> old(nodes[d]).nlinks > 0 && old(nodes[d]).entries[k].inode < nodes.Length && S() == DirRemoved(old(S()), d, k)
    {
      ghost var ns := S();
      hide Inv, Stored, Names, DirRemoved, NotIn, Bare;
      EntryIsLinked(ns, d, k);
      var x := nodes[d].entries[k].inode;
      nodes[x] := nodes[x].(holders := nodes[x].holders + 1);
      var e := Refuses(d, x, sticky);
      if e != Ok {
        Iput(x);
        assert S() == ns;
        return e;
      }
      DirRemovedKeeps(ns, d, k, x);
      RemovedNames(ns, d, k);
      if nodes[x].nlinks != 2 { assert false; }
      RemoveNow(d, k, x, ns);
      r := Ok;
    }

    // The tests of rmdir, once the inode has been fetched.
    method Refuses(d: nat, x: nat, sticky: bool) returns (e: Outcome)
      requires d < nodes.Length && x < nodes.Length
      requires nodes[x].holders > 0
      ensures e == Refusal(S()[x := nodes[x].(holders := nodes[x].holders - 1)], d, x, sticky)
    {
      hide Bare;
      if sticky { return Fail(EPERM); }
      if nodes[x].holders > 1 { return Fail(EPERM); }
      if x == d { return Fail(EPERM); }
      if !nodes[x].dir { return Fail(ENOTDIR); }
      var empty := EmptyDir(x);
      if !empty { return Fail(ENOTEMPTY); }
      return Ok;
    }

    method RemoveNow(d: nat, k: nat, x: nat, ghost ns: seq<Node>)
      requires d < |ns| == nodes.Length && k < |ns[d].entries| && ns[d].entries[k].inode == x < |ns| && x != d && ns[d].nlinks > 0
      requires ns[x].holders == 0 && S() == ns[x := ns[x].(holders := 1)]
      modifies nodes
      ensures S() == DirRemoved(ns, d, k)
    {
      Enter(d, k, 0);
      nodes[x] := nodes[x].(nlinks := 0);
      nodes[d] := nodes[d].(nlinks := nodes[d].nlinks - 1);
      Iput(x);
    }

    /** unlink. */
    method Unlink(d: nat, name: Name, root: nat, mayWrite: bool, sticky: bool) returns (r: Outcome, k: int, x: nat)
      requires Valid() && d < nodes.Length && nodes[d].dir && Component(name)
      modifies nodes
      ensures Valid() && UnlinkIs(old(S()), S(), Call.Unlink(d, name, root, mayWrite, sticky), Answer(r, k, x))
      ensures r == Ok ==> k >= 0 && Unlinkable(old(S()), d, k)
    {
      hide Inv, Stored, Names, Unlinked, NotIn;
      if !mayWrite { return Fail(EPERM), -1, 0; }
      k := FindEntry(d, name, root);
      if k == -1 { return Fail(ENOENT), -1, 0; }
      EntryIsLinked(S(), d, k);
      x := nodes[d].entries[k].inode;
      r := UnlinkAt(d, k, sticky);
    }

    method UnlinkAt(d: nat, k: nat, sticky: bool) returns (r: Outcome)
      requires Valid() && d < nodes.Length && nodes[d].dir && k < |nodes[d].entries| && nodes[d].entries[k].inode > 0
      modifies nodes
      ensures Valid() && (r != Ok ==> S() == old(S()))
      ensures old(nodes[d]).entries[k].inode < nodes.Length
      ensures r == if sticky || old(S())[old(nodes[d]).entries[k].inode].dir then Fail(EPERM) else Ok
      ensures r == Ok <==> !sticky && Unlinkable(old(S()), d, k)
      ensures r == Ok ==> S() == Unlinked(old(S()), d, k)
    {
      ghost var ns := S();
      hide Inv, Stored, Names, Unlinked, NotIn;
      EntryIsLinked(ns, d, k);
      var x := nodes[d].entries[k].inode;
      nodes[x] := nodes[x].(holders := nodes[x].holders + 1);
      if sticky || nodes[x].dir {
        Iput(x);
        assert S() == ns;
        return Fail(EPERM);
      }
      UnlinkedKeeps(ns, d, k);
      UnlinkedNames(ns, d, k);
      if nodes[x].nlinks == 0 { assert false; }
      UnlinkNow(d, k, x, ns);
      r := Ok;
    }

    method UnlinkNow(d: nat, k: nat, x: nat, ghost ns: seq<Node>)
      requires d < |ns| == nodes.Length && k < |ns[d].entries| && ns[d].entries[k].inode == x < |ns| && x != d && ns[x].nlinks > 0
      requires S() == ns[x := ns[x].(holders := ns[x].holders + 1)]
      modifies nodes
      ensures S() == Unlinked(ns, d, k)
    {
      Enter(d, k, 0);
      nodes[x] := nodes[x].(nlinks := nodes[x].nlinks - 1);
      Iput(x);
    }

    /** link, to the file that the old name led to. */
    method Link(x: nat, d: nat, name: Name, root: nat, mayWrite: bool, room: bool) returns (r: Outcome, k: int)
      requires Valid() && d < nodes.Length && nodes[d].dir && Component(name) && 0 < x < nodes.Length && nodes[x].nlinks > 0
      modifies nodes
      ensures LinkIs(old(S()), S(), Call.Link(x, d, name, root, mayWrite, room), Answer(r, k, x))
      ensures r == Ok ==> 0 <= k && CanLink(old(S()), d, k, Stored(name), x)
                          && Names(S()) && (Valid() <==> old(nodes[x]).nlinks < MAX_LINKS - 1)
      ensures r != Ok ==> Valid()
    {
      hide Inv, Stored, Names, Linked, NotIn, FreeSlot, Full;
      if nodes[x].dir { return Fail(EPERM), -1; }
      if !mayWrite { return Fail(EACCES), -1; }
      var f := FindEntry(d, name, root);
      if f != -1 { return Fail(EEXIST), -1; }
      NotFound(S(), d, name, d == root);
      k := LinkAt(x, d, name, room);
      r := if k == -1 then Fail(ENOSPC) else Ok;
    }

    method LinkAt(x: nat, d: nat, name: Name, room: bool) returns (k: int)
      requires Valid() && d < nodes.Length && nodes[d].dir && Component(name) && NotIn(nodes[d].entries, Stored(name))
      requires 0 < x < nodes.Length && nodes[x].nlinks > 0 && !nodes[x].dir
      modifies nodes
      ensures k == -1 <==> Full(old(nodes[d]).entries, room)
      ensures k == -1 ==> S() == old(S())
      ensures k != -1 ==> 0 <= k && CanLink(old(S()), d, k, Stored(name), x) && S() == Linked(old(S()), d, k, Stored(name), x)
                          && Names(S()) && (Valid() <==> old(nodes[x]).nlinks < MAX_LINKS - 1)
    {
      hide Inv, Stored, Names, Linked, NotIn, FreeSlot, Full, WithEntry, Dropped;
      ghost var ns := S();
      FirstTwo(ns, d);
      k := AddEntry(d, name, room);
      if k == -1 { return; }
      StoredPadded(name);
      LinkedWhole(ns, d, k, Stored(name), x);
      LinkNow(d, k, x);
    }

    // The entry, the link, and iput by the holder that namei had made.
    method LinkNow(d: nat, k: nat, x: nat)
      requires d < nodes.Length && x < nodes.Length && d != x && k < |nodes[d].entries|
      modifies nodes
      ensures var c := old(S())[d := WithEntry(old(nodes[d]), k, Entry(old(nodes[d]).entries[k].name, x))];
        S() == Dropped(c[x := c[x].(nlinks := Inc(c[x].nlinks), holders := c[x].holders + 1)], x)
    {
      nodes[x] := nodes[x].(holders := nodes[x].holders + 1);
      Enter(d, k, x);
      nodes[x] := nodes[x].(nlinks := Inc(nodes[x].nlinks));
      Iput(x);
    }

    /** An empty file system: the root directory, held by the first process. */
    constructor (inodes: nat)
      requires inodes > ROOT
      ensures Valid() && nodes.Length == inodes && fresh(nodes)
    {
      nodes := new Node[inodes](i => if i == ROOT then NewDir(ROOT, ROOT).(holders := 1) else FREE);
      new;
      RootOk(S());
      StoredPadded([46]);
      StoredPadded([46, 46]);
    }

    /** One call, whichever it is. `sound` is false exactly when a count wrapped, or mkdir panicked. */
    method Do(c: Call) returns (sound: bool, a: Answer)
      requires Valid()
      modifies nodes
      ensures Follows(old(S()), S(), c, a) && (sound <==> !Overflows(old(S()), c))
      ensures sound ==> Valid()
    {
      hide Inv, Names, Full, NotIn, FreeSlot, FileMade, DirMade, Linked, Unlinked, DirRemoved, Dropped, Stored,
           Component, Finds, NoInode, Bare;
      sound, a := true, Answer(Fail(ENOENT), -1, 0);
      if c.Close? {
        if 0 < c.x < nodes.Length && nodes[c.x].holders > (if c.x == ROOT then 1 else 0) { Close(c.x); }
        return;
      }
      if c.d >= nodes.Length || !nodes[c.d].dir || !Component(c.name) { return; }
      var r, k, x := Fail(ENOENT), -1, 0;
      match c {
        case Mknod(d, name, root, w, room) => r, k, x := Mknod(d, name, root, w, room);
        case Open(d, name, root, creat, excl, w, o, room) => r, k, x := Open(d, name, root, creat, excl, w, o, room);
        case Rmdir(d, name, root, w, sticky) => r, k, x := Rmdir(d, name, root, w, sticky);
        case Unlink(d, name, root, w, sticky) => r, k, x := Unlink(d, name, root, w, sticky);
        case Mkdir(d, name, root, w, block, room) =>
          InBounds(S(), d);
          var links := nodes[d].nlinks;
          r, k, x := Mkdir(d, name, root, w, block, room);
          sound := r.Fail? || (r == Ok && links < MAX_LINKS - 1);
        case Link(y, d, name, root, w, room) =>
          if 0 < y < nodes.Length && nodes[y].nlinks > 0 {
            InBounds(S(), y);
            var links := nodes[y].nlinks;
            r, k := Link(y, d, name, root, w, room);
            x := y;
            sound := r != Ok || links < MAX_LINKS - 1;
          }
      }
      a := Answer(r, k, x);
    }

    /** Any sequence of calls, up to the first that wraps a count or panics, is a run: after each call link counts are
        the numbers of entries, names are unique, and inodes are in use exactly while they have links or holders. */
    method Run(calls: seq<Call>) returns (done: nat, ghost states: seq<seq<Node>>, ghost answers: seq<Answer>)
      requires Valid()
      modifies nodes
      ensures done == |answers| && IsRun(states, calls, answers) && states[0] == old(S())
      ensures forall k :: 0 <= k <= done ==> Inv(states[k]) && Names(states[k])
      ensures done == |calls| ==> states[done] == S()
      ensures done < |calls| ==> Overflows(states[done], calls[done])
    {
      hide Inv, Names, Overflows, Follows;
      done, states, answers := 0, [S()], [];
      while done < |calls|
        invariant done == |answers| && IsRun(states, calls, answers) && states[0] == old(S()) && states[done] == S() && Valid()
        invariant forall k :: 0 <= k <= done ==> Inv(states[k]) && Names(states[k])
      {
        var sound, a := Do(calls[done]);
        if !sound { return; }
        states, answers := states + [S()], answers + [a];
        done := done + 1;
      }
    }
  }

  lemma InBounds(ns: seq<Node>, i: nat)
    requires Inv(ns) && i < |ns|
    ensures ns[i].nlinks < MAX_LINKS
  {
    if i > 0 { NodeAt(ns, i); }
  }

  /** "." and ".." are there, and add_entry does not find them free. */
  lemma FirstTwo(ns: seq<Node>, d: nat)
    requires Inv(ns) && d < |ns| && ns[d].dir
    ensures ns[d].used && |ns[d].entries| >= 2 && ns[d].entries[0].inode != 0 && ns[d].entries[1].inode != 0
  {
    DirAt(ns, d);
  }

  /** Names are unique, so no other entry than the one found may be meant. */
  lemma OnlyFound(ns: seq<Node>, d: nat, name: Name, k: int)
    requires Inv(ns) && d < |ns| && ns[d].dir
    requires if k == -1 then NotIn(ns[d].entries, name)
             else 0 <= k < |ns[d].entries| && ns[d].entries[k].inode > 0 && ns[d].entries[k].name == name
    ensures OnlyRemovable(ns, d, name, k)
    ensures k != -1 && !Removable(ns, d, k, name) ==> OnlyRemovable(ns, d, name, -1)
  {
    DirAt(ns, d);
    hide Inv;
  }

  /** All that link needs to know of its three writes. */
  lemma LinkedWhole(ns: seq<Node>, d: nat, k: nat, name: Name, x: nat)
    requires CanLink(ns, d, k, name, x) && Names(ns) && Padded(name)
    ensures d != x && Names(Linked(ns, d, k, name, x))
    ensures Inv(Linked(ns, d, k, name, x)) <==> ns[x].nlinks < MAX_LINKS - 1
    ensures var b := ns[d := WithEntry(ns[d], k, Entry(name, 0))];
      k < |b[d].entries| &&
      var c := b[d := WithEntry(b[d], k, Entry(b[d].entries[k].name, x))];
      var e := c[x := c[x].(nlinks := Inc(c[x].nlinks), holders := c[x].holders + 1)];
      e[x].holders > 0 && Dropped(e, x) == Linked(ns, d, k, name, x)
  {
    hide Inv, Names, NotIn, Linked, Dropped, Padded;
    LinkedInSteps(ns, d, k, name, x);
    LinkedNames(ns, d, k, name, x);
    LinkedExact(ns, d, k, name, x);
  }

  lemma LinkedInSteps(ns: seq<Node>, d: nat, k: nat, name: Name, x: nat)
    requires d < |ns| && x < |ns| && d != x && FreeSlot(ns[d].entries, k)
    ensures var b := ns[d := WithEntry(ns[d], k, Entry(name, 0))];
      k < |b[d].entries| &&
      var c := b[d := WithEntry(b[d], k, Entry(b[d].entries[k].name, x))];
      var e := c[x := c[x].(nlinks := Inc(c[x].nlinks), holders := c[x].holders + 1)];
      e[x].holders > 0 && Dropped(e, x) == Linked(ns, d, k, name, x)
  {
    var es, e0, e1 := ns[d].entries, Entry(name, 0), Entry(name, x);
    if k < |es| {
      assert es[k := e0][k := e1] == es[k := e1];
    } else {
      assert (es + [e0])[k := e1] == es + [e1];
    }
    assert WithEntry(WithEntry(ns[d], k, e0), k, e1) == WithEntry(ns[d], k, e1);
  }

  lemma LinkedNames(ns: seq<Node>, d: nat, k: nat, name: Name, x: nat)
    requires d < |ns| && x < |ns| && d != x && FreeSlot(ns[d].entries, k) && Names(ns) && Padded(name)
    ensures Names(Linked(ns, d, k, name, x))
  {
    hide Padded;
  }

  lemma UnlinkedNames(ns: seq<Node>, d: nat, k: nat)
    requires d < |ns| && k < |ns[d].entries| && ns[d].entries[k].inode < |ns| && ns[ns[d].entries[k].inode].nlinks > 0 && Names(ns)
    requires ns[d].entries[k].inode != d
    ensures Names(Unlinked(ns, d, k))
  {
    hide Padded;
  }

  lemma RemovedNames(ns: seq<Node>, d: nat, k: nat)
    requires d < |ns| && k < |ns[d].entries| && ns[d].entries[k].inode < |ns| && ns[d].nlinks > 0 && Names(ns)
    ensures Names(DirRemoved(ns, d, k))
  {
    hide Padded;
  }

  lemma HeldKeeps(ns: seq<Node>, x: nat)
    requires Inv(ns) && 0 < x < |ns| && ns[x].used
    ensures Inv(Held(ns, x)) && (Names(ns) ==> Names(Held(ns, x)))
  {
    HoldersKeep(ns, x, ns[x].(holders := ns[x].holders + 1));
    hide Inv;
  }

  lemma DroppedKeeps(ns: seq<Node>, x: nat)
    requires Inv(ns) && Names(ns) && 0 < x < |ns| && ns[x].holders > (if x == ROOT then 1 else 0)
    ensures Inv(Dropped(ns, x)) && Names(Dropped(ns, x))
  {
    NodeAt(ns, x);
    HoldersKeep(ns, x, Settled(ns[x].(holders := ns[x].holders - 1)));
    hide Inv;
  }

  lemma DirMadeInSteps(ns: seq<Node>, d: nat, k: nat, name: Name, n: nat)
    requires d < |ns| && n < |ns| && d != n && FreeSlot(ns[d].entries, k)
    ensures var a := ns[n := NewDir(n, d).(holders := 1)];
      k <= |a[d].entries| &&
      var b := a[d := WithEntry(a[d], k, Entry(name, 0))];
      k < |b[d].entries| &&
      var c := b[d := WithEntry(b[d], k, Entry(b[d].entries[k].name, n))];
      var e := c[d := c[d].(nlinks := Inc(c[d].nlinks))];
      e[n].holders == 1 && Dropped(e, n) == DirMade(ns, d, k, name, n)
  {
    var es, e0, e1 := ns[d].entries, Entry(name, 0), Entry(name, n);
    hide Dot, DotDot;
    if k < |es| {
      assert es[k := e0][k := e1] == es[k := e1];
    } else {
      assert (es + [e0])[k := e1] == es + [e1];
    }
    assert WithEntry(WithEntry(ns[d], k, e0), k, e1) == WithEntry(ns[d], k, e1);
  }

  /** What was not found was the name itself, for "." is always found. */
  lemma NotFound(ns: seq<Node>, d: nat, name: Name, atRoot: bool)
    requires Inv(ns) && d < |ns| && ns[d].dir && NotIn(ns[d].entries, Stored(Sought(name, atRoot))) && Component(name)
    ensures Sought(name, atRoot) == name && NotIn(ns[d].entries, Stored(name)) && Padded(Stored(name))
  {
    DirAt(ns, d);
    StoredPadded(name);
    hide Inv;
    assert ns[d].entries[0] == Entry(Dot(), d);
  }

  /** mknod lets go of the inode it made. */
  lemma MadeAndPut(ns: seq<Node>, d: nat, k: nat, name: Name, n: nat)
    requires CanMake(ns, d, k, name, n) && d != n && Names(ns) && Padded(name)
    ensures n < |FileMade(ns, d, k, name, n, 1)| && FileMade(ns, d, k, name, n, 1)[n].holders > 0
    ensures Dropped(FileMade(ns, d, k, name, n, 1), n) == FileMade(ns, d, k, name, n, 0)
    ensures Inv(FileMade(ns, d, k, name, n, 0)) && Names(FileMade(ns, d, k, name, n, 0))
    ensures Inv(FileMade(ns, d, k, name, n, 1)) && Names(FileMade(ns, d, k, name, n, 1))
  {
    FileMadeKeeps(ns, d, k, name, n, 0);
    FileMadeKeeps(ns, d, k, name, n, 1);
    hide Inv;
  }

  lemma MadeInSteps(ns: seq<Node>, d: nat, k: nat, name: Name, n: nat)
    requires d < |ns| && n < |ns| && d != n && FreeSlot(ns[d].entries, k)
    ensures var a := ns[n := Node(true, false, 1, 1, [])];
      k <= |a[d].entries| &&
      var b := a[d := WithEntry(a[d], k, Entry(name, 0))];
      k < |b[d].entries| &&
      b[d := WithEntry(b[d], k, Entry(b[d].entries[k].name, n))] == FileMade(ns, d, k, name, n, 1)
  {
    var es, e0, e1 := ns[d].entries, Entry(name, 0), Entry(name, n);
    var a := ns[n := Node(true, false, 1, 1, [])];
    var b := a[d := WithEntry(a[d], k, e0)];
    if k < |es| {
      assert es[k := e0][k := e1] == es[k := e1];
    } else {
      assert (es + [e0])[k := e1] == es + [e1];
    }
    assert WithEntry(b[d], k, e1) == WithEntry(ns[d], k, e1);
  }
}
