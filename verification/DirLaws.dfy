/**
  What the directory calls mean for the names in a directory: after a call the
  name that was made is found and no other is lost, a removed name is gone, ".."
  leads to the parent but never out of the caller's root, and each error has its
  cause.
 */
module DirLaws {
  import opened LinkModel
  import opened DirCalls

  // A used slot with the first fourteen bytes of the name, filled up with zeros.
  predicate Carries(e: Entry, name: Name) {
    e.inode > 0 && |e.name| == 14 && forall j :: 0 <= j < 14 ==> e.name[j] == if j < |name| then name[j] else 0
  }

  ghost predicate Taken(s: seq<Node>, c: Call)
    requires !c.Close? && c.d < |s|
  {
    exists e: Entry :: e in s[c.d].entries && Carries(e, c.name)
  }

  ghost predicate Called(s: seq<Node>, t: seq<Node>, c: Call, a: Answer) {
    Inv(s) && Names(s) && Applies(s, c) && Follows(s, t, c, a) && !c.Close?
  }

  lemma CarriesStored(e: Entry, name: Name)
    ensures Carries(e, name) <==> e.inode > 0 && e.name == Stored(name)
  {
  }

  /** The root directory of the caller has a ".." whichever of the two it looks up. */
  lemma AbsentExactly(s: seq<Node>, c: Call)
    requires Inv(s) && !c.Close? && c.d < |s| && s[c.d].dir
    ensures Absent(s, c) <==> !Taken(s, c)
  {
    DirAt(s, c.d);
    hide Inv, Stored;
    var es := s[c.d].entries;
    forall e ensures Carries(e, c.name) <==> e.inode > 0 && e.name == Stored(c.name) { CarriesStored(e, c.name); }
    if c.d == c.root && c.name == [46, 46] {
      assert es[0].name == Stored([46]) && es[0].inode > 0;
      assert es[1].name == Stored([46, 46]) && es[1].inode > 0 && es[1] in es;
      assert !Absent(s, c);
    } else if !Absent(s, c) {
      var k :| 0 <= k < |es| && es[k].inode > 0 && es[k].name == Stored(c.name);
      assert es[k] in es;
    }
  }

  // ---------- what a name leads to ----------

  /** What open finds: the entry with that name, except that ".." in the caller's root is that root itself. */
  lemma OpenFinds(s: seq<Node>, t: seq<Node>, c: Call, a: Answer)
    requires Called(s, t, c, a) && c.Open? && a.r == Ok && Taken(s, c)
    ensures if c.name == [46, 46] && c.d == c.root then a.x == c.d
            else exists e: Entry :: e in s[c.d].entries && Carries(e, c.name) && e.inode == a.x
    ensures c.name == [46] ==> a.x == c.d
    ensures |s[c.d].entries| >= 2
    ensures c.name == [46, 46] && c.d != c.root ==> a.x == s[c.d].entries[1].inode
    ensures a.x < |s| && t == s[a.x := s[a.x].(holders := s[a.x].holders + 1)]
  {
    AbsentExactly(s, c);
    DirAt(s, c.d);
    hide Inv, PlaceOk, Stored, FileMade, Full, NoInode, Taken, Names, Component;
    var e := s[c.d].entries[a.k];
    assert e in s[c.d].entries && e.inode == a.x;
    CarriesStored(e, c.name);
    if e.name == Dot() { FindsOne(s, c.d, Dot(), a.k, 0); }
    if e.name == DotDot() { FindsOne(s, c.d, DotDot(), a.k, 1); }
  }

  // ---------- what a name leads to afterwards ----------

  /** A call that makes an entry: the directory has that entry and those it had, and no other directory is touched. */
  lemma MadeIsFound(s: seq<Node>, t: seq<Node>, c: Call, a: Answer)
    requires Called(s, t, c, a) && a.r == Ok && (c.Mknod? || c.Mkdir? || c.Link? || (c.Open? && !Taken(s, c)))
    ensures |t| == |s| && forall e: Entry :: e.inode > 0 ==>
              (e in t[c.d].entries <==> e in s[c.d].entries || (Carries(e, c.name) && e.inode == if c.Link? then c.x else a.x))
    ensures !c.Link? ==> 0 < a.x < |s| && !s[a.x].used && a.x != c.d
    ensures c.Mknod? || c.Open? ==> t[a.x] == Node(true, false, 1, if c.Open? then 1 else 0, [])
    ensures c.Mkdir? ==> t[a.x].used && t[a.x].dir && |t[a.x].entries| == 2
                         && Carries(t[a.x].entries[0], [46]) && t[a.x].entries[0].inode == a.x
                         && Carries(t[a.x].entries[1], [46, 46]) && t[a.x].entries[1].inode == c.d
    ensures forall i: nat :: i < |s| && i != c.d && (c.Link? || i != a.x) ==> t[i].entries == s[i].entries
  {
    AbsentExactly(s, c);
    MadeEntry(s, t, c, a);
    MadeRest(s, t, c, a);
    var x := if c.Link? then c.x else a.x;
    hide Inv, Stored, Follows, WithEntry, Carries;
    EntryAdded(s[c.d], a.k, Entry(Stored(c.name), x));
    forall e: Entry | e.inode > 0 ensures e in t[c.d].entries <==> e in s[c.d].entries || (Carries(e, c.name) && e.inode == x) {
      CarriesStored(e, c.name);
    }
  }

  lemma EntryAdded(n: Node, k: nat, e: Entry)
    requires FreeSlot(n.entries, k)
    ensures forall f: Entry :: f.inode > 0 ==> (f in WithEntry(n, k, e).entries <==> f in n.entries || (f == e && e.inode > 0))
  {
    var es, w := n.entries, WithEntry(n, k, e).entries;
    forall f: Entry | f.inode > 0 ensures f in w <==> f in es || (f == e && e.inode > 0) {
      if f in es {
        var j :| 0 <= j < |es| && es[j] == f;
        assert w[j] == f;
      }
      assert w[k] == e;
    }
  }

  lemma MadeEntry(s: seq<Node>, t: seq<Node>, c: Call, a: Answer)
    requires Called(s, t, c, a) && a.r == Ok && (c.Mknod? || c.Mkdir? || c.Link? || (c.Open? && Absent(s, c)))
    ensures 0 <= a.k && FreeSlot(s[c.d].entries, a.k) && |t| == |s| && 0 < if c.Link? then c.x else a.x
    ensures t[c.d].entries == WithEntry(s[c.d], a.k, Entry(Stored(c.name), if c.Link? then c.x else a.x)).entries
  {
    hide Inv, Stored, Full, NoInode, Names, Component, Absent;
  }

  lemma MadeRest(s: seq<Node>, t: seq<Node>, c: Call, a: Answer)
    requires Called(s, t, c, a) && a.r == Ok && (c.Mknod? || c.Mkdir? || c.Link? || (c.Open? && Absent(s, c)))
    ensures |t| == |s|
    ensures !c.Link? ==> 0 < a.x < |s| && !s[a.x].used && a.x != c.d
    ensures c.Mknod? || c.Open? ==> t[a.x] == Node(true, false, 1, if c.Open? then 1 else 0, [])
    ensures c.Mkdir? ==> t[a.x].used && t[a.x].dir && |t[a.x].entries| == 2
                         && Carries(t[a.x].entries[0], [46]) && t[a.x].entries[0].inode == a.x
                         && Carries(t[a.x].entries[1], [46, 46]) && t[a.x].entries[1].inode == c.d
    ensures forall i: nat :: i < |s| && i != c.d && (c.Link? || i != a.x) ==> t[i].entries == s[i].entries
  {
    DirAt(s, c.d);
    if c.Link? { NodeAt(s, c.x); }
    if c.Mkdir? {
      CarriesStored(Entry(Dot(), a.x), [46]);
      CarriesStored(Entry(DotDot(), c.d), [46, 46]);
    }
    hide Inv, Stored, Full, NoInode, Names, Component, Absent, WithEntry, PlaceOk, Carries, Sum;
  }

  /** A call that removes an entry: no used entry of that name is left, the others are, and no other directory is
      touched but the one removed. */
  lemma RemovedIsGone(s: seq<Node>, t: seq<Node>, c: Call, a: Answer)
    requires Called(s, t, c, a) && a.r == Ok && (c.Unlink? || c.Rmdir?)
    ensures |t| == |s| && a.x < |s| && a.x != c.d && (c.Rmdir? <==> s[a.x].dir)
    ensures exists e: Entry :: e in s[c.d].entries && Carries(e, c.name) && e.inode == a.x
    ensures forall e: Entry :: e.inode > 0 ==> (e in t[c.d].entries <==> e in s[c.d].entries && !Carries(e, c.name))
    ensures forall i: nat :: i < |s| && i != c.d && i != a.x ==> t[i] == s[i]
    ensures c.Rmdir? ==> !t[a.x].used
  {
    hide Inv, Stored, Follows, Carries, Names, PlaceOk, Sum, NamesUnique;
    DirAt(s, c.d);
    if c.Unlink? { UnlinkedEntry(s, t, c, a); } else { RemovedEntry(s, t, c, a); }
    var es := s[c.d].entries;
    assert es[a.k] in es;
    CarriesStored(es[a.k], c.name);
    EntryRemoved(es, a.k, c.name);
  }

  lemma EntryRemoved(es: seq<Entry>, k: nat, name: Name)
    requires k < |es| && NamesUnique(es) && es[k].inode > 0 && es[k].name == Stored(name)
    ensures forall e: Entry :: e.inode > 0 ==> (e in es[k := Entry(Stored(name), 0)] <==> e in es && !Carries(e, name))
  {
    hide Stored, Carries;
    var w := es[k := Entry(Stored(name), 0)];
    forall e: Entry | e.inode > 0 ensures e in w <==> e in es && !Carries(e, name) {
      CarriesStored(e, name);
      if e in es && e != es[k] {
        var j :| 0 <= j < |es| && es[j] == e;
        assert w[j] == e;
      }
      if e in w {
        var j :| 0 <= j < |w| && w[j] == e;
        assert j != k && es[j] == e;
      }
    }
  }

  lemma UnlinkedEntry(s: seq<Node>, t: seq<Node>, c: Call, a: Answer)
    requires Called(s, t, c, a) && a.r == Ok && c.Unlink?
    ensures 0 <= a.k < |s[c.d].entries| && s[c.d].entries[a.k].inode == a.x && 0 < a.x < |s| && a.x != c.d && !s[a.x].dir
    ensures s[c.d].entries[a.k].name == Stored(c.name) && |t| == |s|
    ensures t[c.d].entries == s[c.d].entries[a.k := Entry(Stored(c.name), 0)]
    ensures forall i: nat :: i < |s| && i != c.d && i != a.x ==> t[i] == s[i]
  {
    hide Inv, Stored, Names, Component, PlaceOk, Sum, NotIn, NamesUnique;
    DirAt(s, c.d);
    if c.name == [46, 46] && c.d == c.root { FindsOne(s, c.d, Dot(), a.k, 0); }
  }

  lemma RemovedEntry(s: seq<Node>, t: seq<Node>, c: Call, a: Answer)
    requires Called(s, t, c, a) && a.r == Ok && c.Rmdir?
    ensures 0 <= a.k < |s[c.d].entries| && s[c.d].entries[a.k].inode == a.x && 0 < a.x < |s| && a.x != c.d && s[a.x].dir
    ensures s[c.d].entries[a.k].name == Stored(c.name) && |t| == |s| && !t[a.x].used
    ensures t[c.d].entries == s[c.d].entries[a.k := Entry(Stored(c.name), 0)]
    ensures forall i: nat :: i < |s| && i != c.d && i != a.x ==> t[i] == s[i]
  {
    hide Inv, Stored, Names, Component, PlaceOk, Sum, NotIn, NamesUnique;
    DirAt(s, c.d);
    if c.name == [46, 46] && c.d == c.root { FindsOne(s, c.d, Dot(), a.k, 0); }
  }

  /** close gives up one hold, and the last one of an inode without links gives up the inode too. */
  lemma CloseExactly(s: seq<Node>, t: seq<Node>, x: nat, a: Answer)
    requires Inv(s) && Applies(s, Close(x)) && Follows(s, t, Close(x), a)
    ensures t == s[x := if s[x].nlinks == 0 && s[x].holders == 1 then Node(false, false, 0, 0, [])
                        else s[x].(holders := s[x].holders - 1)]
  {
    NodeAt(s, x);
    hide Inv, NodeOk;
  }

  // ---------- why a call fails ----------

  /** Every block of the directory is full, and there is no other block to be had. */
  predicate NoSpace(s: seq<Node>, d: nat, room: bool)
    requires d < |s|
  {
    !room && |s[d].entries| % 64 == 0 && forall e: Entry :: e in s[d].entries ==> e.inode != 0
  }

  ghost predicate NoneFree(s: seq<Node>) {
    forall i: nat :: 0 < i < |s| ==> s[i].used
  }

  lemma MknodFails(s: seq<Node>, t: seq<Node>, c: Call, a: Answer)
    requires Called(s, t, c, a) && c.Mknod?
    ensures a.r == Fail(EPERM) <==> !c.mayWrite
    ensures a.r == Fail(EEXIST) <==> c.mayWrite && Taken(s, c)
    ensures a.r == Fail(ENOSPC) <==> c.mayWrite && !Taken(s, c) && (NoneFree(s) || NoSpace(s, c.d, c.room))
    ensures a.r == Ok || a.r in {Fail(EPERM), Fail(EEXIST), Fail(ENOSPC)}
  {
    hide Inv, Stored, Names, Component, NotIn, FreeSlot, FileMade;
    AbsentExactly(s, c);
  }

  lemma OpenFails(s: seq<Node>, t: seq<Node>, c: Call, a: Answer)
    requires Called(s, t, c, a) && c.Open?
    ensures a.r == Fail(ENOENT) <==> !Taken(s, c) && !c.creat
    ensures a.r == Fail(EACCES) <==> !Taken(s, c) && c.creat && !c.mayWrite
    ensures a.r == Fail(ENOSPC) <==> !Taken(s, c) && c.creat && c.mayWrite && (NoneFree(s) || NoSpace(s, c.d, c.room))
    ensures a.r == Fail(EEXIST) <==> Taken(s, c) && c.excl
    ensures a.r == Fail(EPERM) <==> Taken(s, c) && !c.excl && !c.mayOpen
    ensures a.r == Ok || a.r in {Fail(ENOENT), Fail(EACCES), Fail(ENOSPC), Fail(EEXIST), Fail(EPERM)}
  {
    hide Inv, Stored, Names, Component, NotIn, FreeSlot, FileMade;
    AbsentExactly(s, c);
  }

  /** The panic is the one case of a full directory on a full device: the new directory's own block was the last. */
  lemma MkdirFails(s: seq<Node>, t: seq<Node>, c: Call, a: Answer)
    requires Called(s, t, c, a) && c.Mkdir?
    ensures a.r == Fail(EPERM) <==> !c.mayWrite
    ensures a.r == Fail(EEXIST) <==> c.mayWrite && Taken(s, c)
    ensures a.r == Fail(ENOSPC) <==> c.mayWrite && !Taken(s, c) && (NoneFree(s) || !c.block)
    ensures a.r == Panic <==> c.mayWrite && !Taken(s, c) && !NoneFree(s) && c.block && NoSpace(s, c.d, c.room)
    ensures a.r == Ok || a.r == Panic || a.r in {Fail(EPERM), Fail(EEXIST), Fail(ENOSPC)}
  {
    hide Inv, Stored, Names, Component, NotIn, FreeSlot, DirMade;
    AbsentExactly(s, c);
  }

  lemma LinkFails(s: seq<Node>, t: seq<Node>, c: Call, a: Answer)
    requires Called(s, t, c, a) && c.Link?
    ensures a.r == Fail(EPERM) <==> s[c.x].dir
    ensures a.r == Fail(EACCES) <==> !s[c.x].dir && !c.mayWrite
    ensures a.r == Fail(EEXIST) <==> !s[c.x].dir && c.mayWrite && Taken(s, c)
    ensures a.r == Fail(ENOSPC) <==> !s[c.x].dir && c.mayWrite && !Taken(s, c) && NoSpace(s, c.d, c.room)
    ensures a.r == Ok || a.r in {Fail(EPERM), Fail(EACCES), Fail(EEXIST), Fail(ENOSPC)}
  {
    hide Inv, Stored, Names, Component, NotIn, FreeSlot, Linked;
    AbsentExactly(s, c);
  }

  lemma UnlinkFails(s: seq<Node>, t: seq<Node>, c: Call, a: Answer)
    requires Called(s, t, c, a) && c.Unlink?
    ensures c.mayWrite && Taken(s, c) ==> a.x < |s|
    ensures a.r == Fail(EPERM) <==> !c.mayWrite || (Taken(s, c) && (c.sticky || s[a.x].dir))
    ensures a.r == Fail(ENOENT) <==> c.mayWrite && !Taken(s, c)
    ensures a.r == Ok || a.r in {Fail(EPERM), Fail(ENOENT)}
  {
    hide Inv, Stored, Names, Component, FreeSlot, Unlinked;
    AbsentExactly(s, c);
  }

  /** A directory is busy if it is held or is the one it was looked up in, and empty with nothing but its first two. */
  lemma RmdirFails(s: seq<Node>, t: seq<Node>, c: Call, a: Answer)
    requires Called(s, t, c, a) && c.Rmdir?
    ensures c.mayWrite && Taken(s, c) ==> a.x < |s|
    ensures a.r == Fail(EPERM) <==> !c.mayWrite || (Taken(s, c) && (c.sticky || s[a.x].holders > 0 || a.x == c.d))
    ensures a.r == Fail(ENOENT) <==> c.mayWrite && !Taken(s, c)
    ensures a.r == Fail(ENOTDIR) <==>
              c.mayWrite && Taken(s, c) && !c.sticky && s[a.x].holders == 0 && a.x != c.d && !s[a.x].dir
    ensures a.r == Fail(ENOTEMPTY) <==>
              c.mayWrite && Taken(s, c) && !c.sticky && s[a.x].holders == 0 && a.x != c.d && s[a.x].dir
              && exists j :: 2 <= j < |s[a.x].entries| && s[a.x].entries[j].inode > 0
    ensures a.r == Ok || a.r in {Fail(EPERM), Fail(ENOENT), Fail(ENOTDIR), Fail(ENOTEMPTY)}
  {
    hide Inv, Stored, Names, Component, FreeSlot, DirRemoved, PlaceOk, Sum;
    AbsentExactly(s, c);
    if c.mayWrite && a.k != -1 && a.x < |s| && s[a.x].dir { DirAt(s, a.x); }
  }
}
