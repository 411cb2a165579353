/**
  What the directory calls of linux-0.11/fs/namei.c and the last close of
  fs/inode.c answer and do, as relations between the table of inodes before and
  after; and what follows for whole runs of them.
 */
module DirCalls {
  import opened LinkModel

  const DIR_ENTRIES_PER_BLOCK: nat := 64

  datatype Error = EPERM | ENOENT | EEXIST | ENOSPC | ENOTDIR | ENOTEMPTY | EACCES | EISDIR
  datatype Outcome = Ok | Fail(e: Error) | Panic

  // ---------- names ----------

  // A component of a path: not empty, without zeros.
  predicate Component(name: Name) {
    name != [] && 0 !in name
  }

  predicate Padded(name: Name) {
    |name| == NAME_LEN && forall i, j :: 0 <= i < j < NAME_LEN && name[i] == 0 ==> name[j] == 0
  }

  predicate AllPadded(es: seq<Entry>) {
    forall k :: 0 <= k < |es| && es[k].inode != 0 ==> Padded(es[k].name)
  }

  ghost predicate Names(ns: seq<Node>) {
    forall d: nat :: d < |ns| ==> AllPadded(ns[d].entries)
  }

  // What is compared and stored of a name.
  function Cut(name: Name): Name {
    if |name| > NAME_LEN then name[..NAME_LEN] else name
  }

  lemma StoredPadded(name: Name)
    requires 0 !in name
    ensures Padded(Stored(name)) && Stored(Cut(name)) == Stored(name)
  {
    forall i | 0 <= i < |name| ensures name[i] != 0 {
      assert name[i] in name;
    }
  }

  // ".." in the root of the process is ".".
  function Sought(name: Name, atRoot: bool): Name {
    if atRoot && name == [46, 46] then [46] else name
  }

  /** The used slot with that name, or -1. */
  predicate Finds(es: seq<Entry>, name: Name, k: int) {
    if k == -1 then NotIn(es, name) else 0 <= k < |es| && es[k].inode > 0 && es[k].name == name
  }

  /** Names are unique, so there is one answer only. */
  lemma FindsOne(ns: seq<Node>, d: nat, name: Name, j: int, k: int)
    requires Inv(ns) && d < |ns| && ns[d].dir && Finds(ns[d].entries, name, j) && Finds(ns[d].entries, name, k)
    ensures j == k
  {
    DirAt(ns, d);
    hide Inv;
  }

  // ---------- the calls ----------

  // No room: the last block is full of entries, and there is no other to be had.
  predicate Full(es: seq<Entry>, room: bool) {
    !room && |es| % DIR_ENTRIES_PER_BLOCK == 0 && forall j :: 0 <= j < |es| ==> es[j].inode != 0
  }

  predicate NoInode(ns: seq<Node>) {
    forall i :: 0 < i < |ns| ==> ns[i].used
  }

  /** A call on the directory `d` that its path led to; `root` is the caller's root directory. */
  datatype Call =
    | Mknod(d: nat, name: Name, root: nat, mayWrite: bool, room: bool)
    | Open(d: nat, name: Name, root: nat, creat: bool, excl: bool, mayWrite: bool, mayOpen: bool, room: bool)
    | Mkdir(d: nat, name: Name, root: nat, mayWrite: bool, block: bool, room: bool)
    | Rmdir(d: nat, name: Name, root: nat, mayWrite: bool, sticky: bool)
    | Unlink(d: nat, name: Name, root: nat, mayWrite: bool, sticky: bool)
    | Link(x: nat, d: nat, name: Name, root: nat, mayWrite: bool, room: bool)
    | Close(x: nat)

  // How a call ended, the slot it found or filled, and the inode.
  datatype Answer = Answer(r: Outcome, k: int, x: nat)

  predicate Applies(ns: seq<Node>, c: Call) {
    if c.Close? then 0 < c.x < |ns| && ns[c.x].holders > (if c.x == ROOT then 1 else 0)
    else c.d < |ns| && ns[c.d].dir && Component(c.name) && (c.Link? ==> 0 < c.x < |ns| && ns[c.x].nlinks > 0)
  }

  // The slots of the directory, and the name that is looked up.
  function Slots(ns: seq<Node>, c: Call): seq<Entry>
    requires !c.Close? && c.d < |ns|
  {
    ns[c.d].entries
  }

  function Wanted(c: Call): Name
    requires !c.Close?
  {
    Stored(Sought(c.name, c.d == c.root))
  }

  predicate Absent(ns: seq<Node>, c: Call)
    requires !c.Close? && c.d < |ns|
  {
    NotIn(Slots(ns, c), Wanted(c))
  }

  // The inode that the slot `k` names.
  function Named(ns: seq<Node>, c: Call, k: int): nat
    requires !c.Close? && c.d < |ns| && 0 <= k < |Slots(ns, c)|
  {
    Slots(ns, c)[k].inode
  }

  // The tests of rmdir on the directory it found, in their order.
  function Refusal(ns: seq<Node>, d: nat, x: nat, sticky: bool): Outcome
    requires x < |ns|
  {
    if sticky || ns[x].holders > 0 || x == d then Fail(EPERM)
    else if !ns[x].dir then Fail(ENOTDIR)
    else if !Bare(ns[x].entries, x) then Fail(ENOTEMPTY)
    else Ok
  }

  predicate Created(ns: seq<Node>, c: Call, k: int, n: nat)
    requires !c.Close? && c.d < |ns|
  {
    k >= 0 && FreeSlot(Slots(ns, c), k) && NotIn(Slots(ns, c), Stored(c.name)) && 0 < n < |ns| && ns[n] == FREE && c.d != n
  }

  ghost predicate MknodIs(s: seq<Node>, t: seq<Node>, c: Call, a: Answer)
    requires c.Mknod? && c.d < |s|
  {
    && a.r == (if !c.mayWrite then Fail(EPERM) else if !Absent(s, c) then Fail(EEXIST)
               else if NoInode(s) || Full(Slots(s, c), c.room) then Fail(ENOSPC) else Ok)
    && if a.r == Ok then Created(s, c, a.k, a.x) && t == FileMade(s, c.d, a.k, Stored(c.name), a.x, 0) else t == s
  }

  /** A creating open makes and holds a new file, any other holds what the name stands for. */
  ghost predicate OpenIs(s: seq<Node>, t: seq<Node>, c: Call, a: Answer)
    requires c.Open? && c.d < |s|
  {
    && a.r == (if Absent(s, c) then
                 if !c.creat then Fail(ENOENT) else if !c.mayWrite then Fail(EACCES)
                 else if NoInode(s) || Full(Slots(s, c), c.room) then Fail(ENOSPC) else Ok
               else if c.excl then Fail(EEXIST) else if !c.mayOpen then Fail(EPERM) else Ok)
    && if a.r != Ok then t == s
       else if Absent(s, c) then Created(s, c, a.k, a.x) && t == FileMade(s, c.d, a.k, Stored(c.name), a.x, 1)
       else a.k >= 0 && Finds(Slots(s, c), Wanted(c), a.k) && a.x == Named(s, c, a.k) < |s| && t == Held(s, a.x)
  }

  /** A panic leaves no state to speak of. */
  ghost predicate MkdirIs(s: seq<Node>, t: seq<Node>, c: Call, a: Answer)
    requires c.Mkdir? && c.d < |s|
  {
    && a.r == MkdirOutcome(s, c)
    && (a.r.Fail? ==> t == s)
    && (a.r == Ok ==> Created(s, c, a.k, a.x) && t == DirMade(s, c.d, a.k, Stored(c.name), a.x))
  }

  function MkdirOutcome(s: seq<Node>, c: Call): Outcome
    requires c.Mkdir? && c.d < |s|
  {
    if !c.mayWrite then Fail(EPERM) else if !Absent(s, c) then Fail(EEXIST)
    else if NoInode(s) || !c.block then Fail(ENOSPC)
    else if Full(Slots(s, c), c.room) then Panic else Ok
  }

  ghost predicate RmdirIs(s: seq<Node>, t: seq<Node>, c: Call, a: Answer)
    requires c.Rmdir? && c.d < |s|
  {
    && (!c.mayWrite ==> a.r == Fail(EPERM))
    && (c.mayWrite ==> Finds(Slots(s, c), Wanted(c), a.k))
    && (c.mayWrite && a.k == -1 ==> a.r == Fail(ENOENT))
    && (c.mayWrite && a.k != -1 ==> a.x == Named(s, c, a.k) < |s| && a.r == Refusal(s, c.d, a.x, c.sticky))
    && (a.r != Ok ==> t == s)
    && (a.r == Ok ==> s[c.d].nlinks > 0 && t == DirRemoved(s, c.d, a.k))
  }

  ghost predicate UnlinkIs(s: seq<Node>, t: seq<Node>, c: Call, a: Answer)
    requires c.Unlink? && c.d < |s|
  {
    && (!c.mayWrite ==> a.r == Fail(EPERM))
    && (c.mayWrite ==> Finds(Slots(s, c), Wanted(c), a.k))
    && (c.mayWrite && a.k == -1 ==> a.r == Fail(ENOENT))
    && (c.mayWrite && a.k != -1 ==> a.x == Named(s, c, a.k) < |s| && a.r == if c.sticky || s[a.x].dir then Fail(EPERM) else Ok)
    && (a.r != Ok ==> t == s)
    && (a.r == Ok ==> s[a.x].nlinks > 0 && t == Unlinked(s, c.d, a.k))
  }

  function LinkOutcome(s: seq<Node>, c: Call): Outcome
    requires c.Link? && c.d < |s| && c.x < |s|
  {
    if s[c.x].dir then Fail(EPERM) else if !c.mayWrite then Fail(EACCES) else if !Absent(s, c) then Fail(EEXIST)
    else if Full(Slots(s, c), c.room) then Fail(ENOSPC) else Ok
  }

  ghost predicate LinkIs(s: seq<Node>, t: seq<Node>, c: Call, a: Answer)
    requires c.Link? && c.d < |s| && c.x < |s|
  {
    && a.r == LinkOutcome(s, c)
    && if a.r == Ok then a.k >= 0 && FreeSlot(Slots(s, c), a.k) && t == Linked(s, c.d, a.k, Stored(c.name), c.x) else t == s
  }

  /** What one call makes of the table. A call that does not apply does nothing. */
  ghost predicate Follows(s: seq<Node>, t: seq<Node>, c: Call, a: Answer) {
    if !Applies(s, c) then t == s
    else match c
      case Mknod(_, _, _, _, _) => MknodIs(s, t, c, a)
      case Open(_, _, _, _, _, _, _, _) => OpenIs(s, t, c, a)
      case Mkdir(_, _, _, _, _, _) => MkdirIs(s, t, c, a)
      case Rmdir(_, _, _, _, _) => RmdirIs(s, t, c, a)
      case Unlink(_, _, _, _, _) => UnlinkIs(s, t, c, a)
      case Link(_, _, _, _, _, _) => LinkIs(s, t, c, a)
      case Close(x) => t == Dropped(s, x)
  }

  /** The calls that the kernel does not survive unharmed: mkdir without room for the entry, and a count that wraps. */
  predicate Overflows(s: seq<Node>, c: Call) {
    Applies(s, c) &&
    if c.Mkdir? then MkdirOutcome(s, c) == Panic || (MkdirOutcome(s, c) == Ok && s[c.d].nlinks == MAX_LINKS - 1)
    else c.Link? && LinkOutcome(s, c) == Ok && s[c.x].nlinks == MAX_LINKS - 1
  }

  lemma DirMadeNames(ns: seq<Node>, d: nat, k: nat, name: Name, n: nat)
    requires d < |ns| && n < |ns| && d != n && FreeSlot(ns[d].entries, k) && Names(ns) && Padded(name)
    ensures Names(DirMade(ns, d, k, name, n))
  {
    StoredPadded([46]);
    StoredPadded([46, 46]);
    hide Padded;
  }

  // ---------- when an inode is freed, and when it is taken ----------

  /** The call takes the last link or the last holder of inode `i`. */
  predicate TakesLast(s: seq<Node>, c: Call, a: Answer, i: nat)
    requires i < |s|
  {
    match c
    case Unlink(_, _, _, _, _) => a.r == Ok && a.x == i && s[i].nlinks == 1 && s[i].holders == 0
    case Rmdir(_, _, _, _, _) => a.r == Ok && a.x == i && s[i].nlinks == 2 && s[i].holders == 0
    case Close(x) => x == i && s[i].nlinks == 0 && s[i].holders == 1
    case _ => false
  }

  /** The call makes inode `i`, which was free. */
  predicate Makes(s: seq<Node>, c: Call, a: Answer, i: nat)
    requires i < |s|
  {
    (c.Mknod? || c.Open? || c.Mkdir?) && a.r == Ok && a.x == i && !s[i].used
  }

  /** unlink frees the inode exactly if this was its last link and nobody holds it; no other inode goes. */
  lemma UnlinkFreesExactly(ns: seq<Node>, d: nat, k: nat, i: nat)
    requires CanUnlink(ns, d, k) && i < |ns|
    ensures ns[ns[d].entries[k].inode].nlinks > 0 && |Unlinked(ns, d, k)| == |ns|
    ensures var x := ns[d].entries[k].inode;
      Unlinked(ns, d, k)[i].used <==> ns[i].used && !(i == x && ns[x].nlinks == 1 && ns[x].holders == 0)
  {
    EntryIsLinked(ns, d, k);
    DirAt(ns, d);
    NodeAt(ns, ns[d].entries[k].inode);
    hide Inv, DirOk, PlaceOk, Sum;
  }

  /** rmdir frees the directory it removes, which had its two links and no holder, and no other inode. */
  lemma RmdirFreesExactly(ns: seq<Node>, d: nat, k: nat, x: nat, i: nat)
    requires CanRemove(ns, d, k, x) && i < |ns|
    ensures ns[d].nlinks > 0 && ns[x].nlinks == 2 && ns[x].holders == 0 && |DirRemoved(ns, d, k)| == |ns|
    ensures DirRemoved(ns, d, k)[i].used <==> ns[i].used && i != x
  {
    DirRemovedKeeps(ns, d, k, x);
    DirAt(ns, d);
    hide Inv, DirOk, PlaceOk, Bare, Sum;
  }

  /** The last close frees it exactly if no link is left. */
  lemma CloseFreesExactly(ns: seq<Node>, x: nat, i: nat)
    requires Inv(ns) && 0 < x < |ns| && i < |ns| && ns[x].holders > 0
    ensures |Dropped(ns, x)| == |ns|
    ensures Dropped(ns, x)[i].used <==> ns[i].used && !(i == x && ns[x].nlinks == 0 && ns[x].holders == 1)
  {
    NodeAt(ns, x);
    hide Inv, DirOk, PlaceOk, Sum;
  }

  lemma LinkUses(s: seq<Node>, d: nat, k: nat, name: Name, x: nat, i: nat)
    requires Inv(s) && d < |s| && 0 < x < |s| && i < |s| && k <= |s[d].entries| && 0 < s[x].nlinks < MAX_LINKS - 1
    ensures |Linked(s, d, k, name, x)| == |s| && (Linked(s, d, k, name, x)[i].used <==> s[i].used)
  {
    NodeAt(s, x);
    hide Inv, DirOk, PlaceOk, Sum;
  }

  lemma MadeUses(s: seq<Node>, d: nat, k: nat, name: Name, n: nat, i: nat)
    requires d < |s| && n < |s| && i < |s| && d != n && FreeSlot(s[d].entries, k)
    ensures forall holders: nat :: |FileMade(s, d, k, name, n, holders)| == |s|
                                   && (FileMade(s, d, k, name, n, holders)[i].used <==> s[i].used || i == n)
    ensures |DirMade(s, d, k, name, n)| == |s| && (DirMade(s, d, k, name, n)[i].used <==> s[i].used || i == n)
  {
    hide Dot, DotDot;
  }

  lemma MakersUse(s: seq<Node>, t: seq<Node>, c: Call, a: Answer, i: nat)
    requires Inv(s) && Follows(s, t, c, a) && Applies(s, c) && !Overflows(s, c) && i < |s| && (c.Mknod? || c.Open? || c.Mkdir?)
    ensures |t| == |s| && (t[i].used <==> s[i].used || Makes(s, c, a, i))
  {
    hide NotIn, Stored, Component, Full, NoInode, Inv, DirOk, PlaceOk, Sum, RmdirIs, UnlinkIs, LinkIs, FileMade,
         DirMade, WithEntry, FreeSlot;
    if a.r == Ok {
      if c.Open? && !Absent(s, c) {
        EntryIsLinked(s, c.d, a.k);
      } else {
        MadeUses(s, c.d, a.k, Stored(c.name), a.x, i);
      }
    }
  }

  /** An inode in use is freed exactly by the call that takes its last link or its last holder, a free one is taken
      exactly by a call that makes it. */
  lemma UsedExactly(s: seq<Node>, t: seq<Node>, c: Call, a: Answer, i: nat)
    requires Inv(s) && Follows(s, t, c, a) && Applies(s, c) && !Overflows(s, c) && i < |s|
    ensures |t| == |s| && (t[i].used <==> (s[i].used && !TakesLast(s, c, a, i)) || Makes(s, c, a, i))
  {
    hide NotIn, Stored, Component, Full, NoInode, Unlinked, DirRemoved, Linked, MknodIs, OpenIs, MkdirIs, Dropped;
    if c.Mknod? || c.Open? || c.Mkdir? {
      MakersUse(s, t, c, a, i);
    } else if c.Close? {
      CloseFreesExactly(s, c.x, i);
    } else if a.r == Ok {
      if c.Link? {
        NodeAt(s, c.x);
        LinkUses(s, c.d, a.k, Stored(c.name), c.x, i);
      } else {
        EntryIsLinked(s, c.d, a.k);
        if c.Unlink? { UnlinkFreesExactly(s, c.d, a.k, i); } else { RmdirFreesExactly(s, c.d, a.k, a.x, i); }
      }
    }
    hide Inv;
  }

  // ---------- whole runs ----------

  ghost predicate Sound(s: seq<Node>, c: Call) {
    Inv(s) && Names(s) && !Overflows(s, c)
  }

  /** The tables between the calls. */
  ghost predicate IsRun(states: seq<seq<Node>>, calls: seq<Call>, answers: seq<Answer>) {
    && |states| == |answers| + 1 && |answers| <= |calls|
    && forall k :: 0 <= k < |answers| ==> Sound(states[k], calls[k]) && Follows(states[k], states[k + 1], calls[k], answers[k])
  }

  /** Call number `k` frees inode `i`. */
  ghost predicate Frees(states: seq<seq<Node>>, calls: seq<Call>, answers: seq<Answer>, k: nat, i: nat)
    requires IsRun(states, calls, answers)
  {
    k < |answers| && i < |states[k]| && Applies(states[k], calls[k]) && TakesLast(states[k], calls[k], answers[k], i)
  }

  ghost predicate Takes(states: seq<seq<Node>>, calls: seq<Call>, answers: seq<Answer>, k: nat, i: nat)
    requires IsRun(states, calls, answers)
  {
    k < |answers| && i < |states[k]| && Applies(states[k], calls[k]) && Makes(states[k], calls[k], answers[k], i)
  }

  lemma StepUses(states: seq<seq<Node>>, calls: seq<Call>, answers: seq<Answer>, k: nat, i: nat)
    requires IsRun(states, calls, answers) && k < |answers| && i < |states[k]|
    ensures |states[k + 1]| == |states[k]|
    ensures states[k + 1][i].used <==> (states[k][i].used && !Frees(states, calls, answers, k, i)) || Takes(states, calls, answers, k, i)
  {
    if Applies(states[k], calls[k]) { UsedExactly(states[k], states[k + 1], calls[k], answers[k], i); }
  }

  lemma {:induction false} SameTable(states: seq<seq<Node>>, calls: seq<Call>, answers: seq<Answer>, k: nat)
    requires IsRun(states, calls, answers) && k <= |answers|
    ensures |states[k]| == |states[0]|
  {
    if k > 0 {
      SameTable(states, calls, answers, k - 1);
      assert Sound(states[k - 1], calls[k - 1]);
      StepUses(states, calls, answers, k - 1, 0);
    }
  }

  /** An inode is in use after a call exactly if some call made it, or it was in use at first, and none has freed it since. */
  lemma {:induction false} UsedSince(states: seq<seq<Node>>, calls: seq<Call>, answers: seq<Answer>, first: nat,
      last: nat, i: nat)
    requires IsRun(states, calls, answers) && first <= last <= |answers| && i < |states[0]|
    requires forall k: nat :: first <= k < last ==> !Takes(states, calls, answers, k, i)
    ensures i < |states[first]| && i < |states[last]|
    ensures states[last][i].used <==> states[first][i].used && forall k: nat :: first <= k < last ==> !Frees(states, calls, answers, k, i)
    decreases last
  {
    hide Sound, Follows, Frees, Takes;
    SameTable(states, calls, answers, first);
    SameTable(states, calls, answers, last);
    if first < last {
      UsedSince(states, calls, answers, first, last - 1, i);
      StepUses(states, calls, answers, last - 1, i);
    }
  }

  /** So it is freed once for each time it is made: between two calls that free it there is one that makes it. */
  lemma FreedOnce(states: seq<seq<Node>>, calls: seq<Call>, answers: seq<Answer>, first: nat, last: nat, i: nat)
    requires IsRun(states, calls, answers) && first < last && i < |states[0]|
    requires Frees(states, calls, answers, first, i) && Frees(states, calls, answers, last, i)
    ensures exists k: nat :: first < k < last && Takes(states, calls, answers, k, i)
  {
    hide Sound, Follows;
    SameTable(states, calls, answers, first);
    SameTable(states, calls, answers, last);
    StepUses(states, calls, answers, first, i);
    FreesUsed(states, calls, answers, last, i);
    if forall k: nat :: first < k < last ==> !Takes(states, calls, answers, k, i) {
      UsedSince(states, calls, answers, first + 1, last, i);
    }
  }

  lemma FreesUsed(states: seq<seq<Node>>, calls: seq<Call>, answers: seq<Answer>, k: nat, i: nat)
    requires IsRun(states, calls, answers) && Frees(states, calls, answers, k, i)
    ensures states[k][i].used && !Takes(states, calls, answers, k, i)
  {
    var s := states[k];
    assert Sound(s, calls[k]);
    if i > 0 { NodeAt(s, i); }
  }

  // ---------- calls that go wrong ----------

  // Names of two letters; the second tells them apart.
  function Letters(k: nat): Name { [97, k + 1] }

  /** A directory with `n` entries, all used, behind its first two. */
  ghost predicate Lettered(es: seq<Entry>, n: nat) {
    && |es| == n + 2 && (forall j :: 0 <= j < |es| ==> es[j].inode != 0)
    && forall m: nat :: m >= n ==> NotIn(es, Stored(Letters(m)))
  }

  lemma LettersDiffer(k: nat, m: nat)
    ensures Component(Letters(k)) && Padded(Stored(Letters(k))) && Stored(Letters(k)) != Dot() && Stored(Letters(k)) != DotDot()
    ensures k != m ==> Stored(Letters(k)) != Stored(Letters(m))
  {
    assert Stored(Letters(k))[0] == 97 && Stored(Letters(k))[1] == k + 1 && Stored(Letters(m))[1] == m + 1;
    assert Dot()[0] == 46 && DotDot()[0] == 46;
  }

  lemma OneMore(n: Node, k: nat, e: Entry)
    requires Lettered(n.entries, k) && AllPadded(n.entries) && e.inode != 0 && e.name == Stored(Letters(k))
    ensures FreeSlot(n.entries, k + 2) && Lettered(WithEntry(n, k + 2, e).entries, k + 1) && AllPadded(WithEntry(n, k + 2, e).entries)
  {
    LettersDiffer(k, 0);
    forall m: nat | m >= k + 1 ensures NotIn(WithEntry(n, k + 2, e).entries, Stored(Letters(m))) {
      LettersDiffer(k, m);
    }
  }

  /** A fresh file system. */
  lemma FreshTable(inodes: nat) returns (ns: seq<Node>)
    requires inodes > ROOT
    ensures Inv(ns) && Names(ns) && |ns| == inodes && ns[ROOT] == NewDir(ROOT, ROOT).(holders := 1)
    ensures Lettered(ns[ROOT].entries, 0) && forall i: nat :: ROOT < i < inodes ==> ns[i] == FREE
  {
    ns := seq(inodes, i => if i == ROOT then NewDir(ROOT, ROOT).(holders := 1) else FREE);
    RootOk(ns);
    hide Inv;
    forall m: nat ensures NotIn(ns[ROOT].entries, Stored(Letters(m))) { LettersDiffer(m, m); }
  }

  ghost predicate LinkedOften(ns: seq<Node>, n: nat) {
    && Inv(ns) && Names(ns) && |ns| == 4 && ns[ROOT].dir && Lettered(ns[ROOT].entries, n)
    && ns[2].used && !ns[2].dir && ns[2].nlinks == n && ns[3] == FREE
  }

  /** One file in the root under `n` names. */
  lemma {:induction false} ManyLinks(n: nat) returns (ns: seq<Node>)
    requires 0 < n < MAX_LINKS
    ensures LinkedOften(ns, n)
  {
    if n == 1 {
      var empty := FreshTable(4);
      ns := FileMade(empty, ROOT, 2, Stored(Letters(0)), 2, 0);
      FileMadeKeeps(empty, ROOT, 2, Stored(Letters(0)), 2, 0);
      OneMore(empty[ROOT], 0, Entry(Stored(Letters(0)), 2));
    } else {
      var before := ManyLinks(n - 1);
      OneMore(before[ROOT], n - 1, Entry(Stored(Letters(n - 1)), 2));
      LinkedExact(before, ROOT, n + 1, Stored(Letters(n - 1)), 2);
      ns := Linked(before, ROOT, n + 1, Stored(Letters(n - 1)), 2);
    }
    hide Inv, Lettered, WithEntry, FreeSlot, NotIn, AllPadded;
  }

  ghost predicate ParentOfMany(ns: seq<Node>, n: nat) {
    && Inv(ns) && Names(ns) && |ns| == MAX_LINKS + 1 && ns[ROOT].dir && Lettered(ns[ROOT].entries, n)
    && ns[ROOT].nlinks == n + 2 && forall i: nat :: n + 1 < i < |ns| ==> ns[i] == FREE
  }

  /** `n` directories in the root. */
  lemma {:induction false} ManyDirs(n: nat) returns (ns: seq<Node>)
    requires n + 2 < MAX_LINKS
    ensures ParentOfMany(ns, n)
  {
    if n == 0 {
      ns := FreshTable(MAX_LINKS + 1);
    } else {
      var before := ManyDirs(n - 1);
      var name := Stored(Letters(n - 1));
      OneMore(before[ROOT], n - 1, Entry(name, n + 1));
      DirMadeExact(before, ROOT, n + 1, name, n + 1);
      DirMadeNames(before, ROOT, n + 1, name, n + 1);
      LettersDiffer(n - 1, 0);
      ns := DirMade(before, ROOT, n + 1, name, n + 1);
    }
    hide Inv, Lettered, WithEntry, FreeSlot, NotIn, AllPadded;
  }

  /** A file with 255 links: one more is refused by nothing, and the count is 0. */
  lemma LinkWraps() returns (ns: seq<Node>, c: Call)
    ensures Inv(ns) && Names(ns) && c.Link? && Overflows(ns, c) && LinkOutcome(ns, c) == Ok
    ensures CanLink(ns, c.d, |Slots(ns, c)|, Stored(c.name), c.x) && !Inv(Linked(ns, c.d, |Slots(ns, c)|, Stored(c.name), c.x))
  {
    hide Inv, Stored, Names, Linked, AllPadded;
    ns := ManyLinks(MAX_LINKS - 1);
    var name := Letters(MAX_LINKS - 1);
    LettersDiffer(MAX_LINKS - 1, 0);
    c := Link(2, ROOT, name, ROOT, true, true);
    LinkedExact(ns, ROOT, MAX_LINKS + 1, Stored(name), 2);
  }

  /** A directory with 253 others in it: one more is refused by nothing, and the count is 0. */
  lemma MkdirWraps() returns (ns: seq<Node>, c: Call)
    ensures Inv(ns) && Names(ns) && c.Mkdir? && Overflows(ns, c) && MkdirOutcome(ns, c) == Ok
    ensures CanMake(ns, c.d, |Slots(ns, c)|, Stored(c.name), MAX_LINKS) && c.d != MAX_LINKS
    ensures !Inv(DirMade(ns, c.d, |Slots(ns, c)|, Stored(c.name), MAX_LINKS))
  {
    ns := ManyDirs(MAX_LINKS - 3);
    var name := Letters(MAX_LINKS - 3);
    LettersDiffer(MAX_LINKS - 3, 0);
    c := Mkdir(ROOT, name, ROOT, true, true, true);
    DirMadeExact(ns, ROOT, MAX_LINKS - 1, Stored(name), MAX_LINKS);
    hide Inv, Stored;
  }

  /** A root with 64 entries, one block full, and a device with just one block left: mkdir panics. */
  lemma MkdirPanics() returns (ns: seq<Node>, c: Call)
    ensures Inv(ns) && Names(ns) && c.Mkdir? && Applies(ns, c) && |Slots(ns, c)| == DIR_ENTRIES_PER_BLOCK
    ensures c.mayWrite && c.block && !c.room && MkdirOutcome(ns, c) == Panic
  {
    ns := ManyLinks(DIR_ENTRIES_PER_BLOCK - 2);
    LettersDiffer(DIR_ENTRIES_PER_BLOCK, 0);
    c := Mkdir(ROOT, Letters(DIR_ENTRIES_PER_BLOCK), ROOT, true, true, false);
    assert !ns[3].used;
    hide Inv, Stored;
  }
}
