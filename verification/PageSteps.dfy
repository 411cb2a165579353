/**
  The elementary updates that linux-0.11/mm/memory.c makes, as functions on a
  snapshot, each with the lemma that it keeps the invariant and what it does to
  the memory that programs see.
 */
module PageSteps {
  import opened PageTables
  import Sequences

  function SetWord(m: Mem, f: nat, i: nat, w: Word): Mem
    requires f < |m.phys| && i < WORDS
  {
    m.(phys := m.phys[f := m.phys[f][i := w]])
  }

  predicate Writable(m: Mem, l: Loc) {
    l.t < WORDS && l.i < DIRS && HasTable(m, DirOf(l)) && Dir(m, DirOf(l)).frame < |m.phys|
  }

  function SetEntry(m: Mem, l: Loc, w: Word): Mem
    requires Writable(m, l)
  {
    SetWord(m, Dir(m, DirOf(l)).frame, l.t, w)
  }

  // A frame below LOW_MEM has no counter.
  function AddCount(m: Mem, f: nat, delta: int): Mem {
    if LOW <= f < LOW + |m.count| then m.(count := m.count[f - LOW := m.count[f - LOW] + delta]) else m
  }

  // ---------- effect of the two writes ----------

  lemma SetEntryEffect(m: Mem, l: Loc, w: Word)
    requires Sized(m) && KernelOk(m) && TablesOk(m) && Writable(m, l)
    ensures forall d :: Dir(SetEntry(m, l, w), d) == Dir(m, d)
    ensures forall k: Loc :: Entry(SetEntry(m, l, w), k) == if k == l then w else Entry(m, k)
    ensures forall f: nat :: f != Dir(m, DirOf(l)).frame ==> Content(SetEntry(m, l, w), f) == Content(m, f)
  {
  }

  lemma SetDirEffect(m: Mem, d: nat, w: Word)
    requires Sized(m) && KernelOk(m) && UserDir(d)
    ensures forall e :: Dir(SetWord(m, 0, d, w), e) == if e == d then w else Dir(m, e)
    ensures forall f: nat :: f != 0 ==> Content(SetWord(m, 0, d, w), f) == Content(m, f)
    ensures (w.present ==> w.frame != 0) && (forall e :: HasTable(m, e) ==> Dir(m, e).frame != 0) ==>
      forall k: Loc :: Entry(SetWord(m, 0, d, w), k) ==
        if DirOf(k) != d || k.i >= DIRS then Entry(m, k)
        else if k.t < WORDS && w.present then Content(m, w.frame)[k.t] else ZERO
  {
  }

  // ---------- allocation ----------

  function Alloc(m: Mem, f: nat): Mem
    requires LOW <= f < |m.phys| && f < LOW + |m.count|
  {
    m.(phys := m.phys[f := Zeros()], count := m.count[f - LOW := 1], held := m.held + {f})
  }

  /** Same page tables: a counter is right when the owners it counts are. */
  lemma SameCounts(m: Mem, n: Mem, but: set<nat>)
    requires Sized(m) && Counts(m) && Sized(n) && |n.phys| == |m.phys| && n.first == m.first
    requires forall d :: Dir(n, d) == Dir(m, d)
    requires forall l: Loc :: Entry(n, l).present == Entry(m, l).present && Entry(n, l).frame == Entry(m, l).frame
    requires forall f: nat :: f !in but ==> (f in n.held <==> f in m.held)
    requires forall f: nat :: LOW <= f < LOW + PAGING_PAGES && f !in but ==> n.count[f - LOW] == m.count[f - LOW]
    requires forall f: nat :: f in but ==> Managed(n, f) && n.count[f - LOW] == Owners(n, f)
    ensures Counts(n)
  {
    SameTables(m, n);
    forall f: nat | LOW <= f < LOW + PAGING_PAGES && f !in but
      ensures n.count[f - LOW] == if Managed(n, f) then Owners(n, f) else USED
    {
      SameRefs(m, n, f);
      assert Managed(m, f) ==> Owners(n, f) == Owners(m, f);
    }
  }

  /** Same page tables and no new held frame that they use. */
  lemma SameShape(m: Mem, n: Mem)
    requires KernelOk(m) && TablesOk(m) && PagesOk(m) && Aligned(m) && Exclusive(m)
    requires |n.phys| == |m.phys| && n.first == m.first
    requires forall d :: Dir(n, d) == Dir(m, d)
    requires forall l: Loc :: Entry(n, l) == Entry(m, l)
    requires forall f: nat :: f in n.held && f !in m.held ==> !IsTable(m, f) && forall l: Loc :: Entry(m, l).present ==> Entry(m, l).frame != f
    ensures KernelOk(n) && TablesOk(n) && PagesOk(n) && Aligned(n) && Exclusive(n)
  {
    SameTables(m, n);
    forall l: Loc, k: Loc | SameFrame(n, l, k) ensures SameFrame(m, l, k) {}
    forall d | HasTable(n, d) ensures Managed(n, Dir(n, d).frame) && Dir(n, d).frame !in n.held {
      assert HasTable(m, d);
    }
  }

  lemma AllocOk(m: Mem, f: nat)
    requires Inv(m) && Managed(m, f) && m.count[f - LOW] == 0
    ensures Inv(Alloc(m, f))
    ensures f !in m.held && !IsTable(m, f) && Refs(m, f) == {}
    ensures forall d :: Dir(Alloc(m, f), d) == Dir(m, d)
    ensures forall l: Loc :: Entry(Alloc(m, f), l) == Entry(m, l) && Look(Alloc(m, f), l) == Look(m, l)
  {
    var n := Alloc(m, f);
    assert Owners(m, f) == 0;
    assert Refs(m, f) == {};
    forall l: Loc ensures Entry(n, l) == Entry(m, l) && Look(n, l) == Look(m, l) {
      InRefs(m, f, l);
      assert HasTable(m, DirOf(l)) ==> Dir(m, DirOf(l)).frame != f;
    }
    forall l: Loc | Entry(m, l).present ensures Entry(m, l).frame != f { InRefs(m, f, l); }
    SameRefs(m, n, f);
    SameTables(m, n);
    SameShape(m, n);
    SameCounts(m, n, {f});
  }

  function Release(m: Mem, f: nat): Mem {
    AddCount(m, f, -1).(held := m.held - {f})
  }

  /** A held frame has no other owner. */
  lemma HeldAlone(m: Mem, f: nat)
    requires Inv(m) && f in m.held
    ensures m.count[f - LOW] == 1 && Refs(m, f) == {} && !IsTable(m, f)
    ensures forall l: Loc :: Entry(m, l).present ==> Entry(m, l).frame != f
  {
    forall l ensures l !in Refs(m, f) { InRefs(m, f, l); }
    assert Refs(m, f) == {};
    assert m.count[f - LOW] == Owners(m, f);
  }

  lemma ReleaseOk(m: Mem, f: nat)
    requires Inv(m) && f in m.held
    ensures Inv(Release(m, f)) && Release(m, f).count[f - LOW] == 0
    ensures forall l: Loc :: Entry(Release(m, f), l) == Entry(m, l) && Look(Release(m, f), l) == Look(m, l)
  {
    var n := Release(m, f);
    HeldAlone(m, f);
    SameRefs(m, n, f);
    SameTables(m, n);
    SameShape(m, n);
    SameCounts(m, n, {f});
  }

  // ---------- one entry changes ----------

  /** `n` is `m` with the entry at `l` replaced by `w`; counters and held frames may differ. */
  ghost predicate Replaced(m: Mem, n: Mem, l: Loc, w: Word) {
    && |n.phys| == |m.phys| && |n.count| == |m.count| && n.first == m.first
    && (forall d :: Dir(n, d) == Dir(m, d))
    && (forall k: Loc :: Entry(n, k) == if k == l then w else Entry(m, k))
  }

  /** The counters after one entry changed: the old frame loses a reference, the new one gains it. */
  lemma ReplacedCounts(m: Mem, n: Mem, l: Loc, w: Word)
    requires Sized(m) && Counts(m) && Replaced(m, n, l, w)
    requires forall f: nat :: LOW <= f < LOW + PAGING_PAGES ==>
      n.count[f - LOW] == m.count[f - LOW] - Points(Entry(m, l), f) + Points(w, f)
        - (if f in m.held then 1 else 0) + (if f in n.held then 1 else 0)
    requires Entry(m, l).present && Entry(m, l).frame >= LOW ==> Managed(m, Entry(m, l).frame)
    requires w.present && w.frame >= LOW ==> Managed(m, w.frame)
    requires forall f: nat :: f in m.held || f in n.held ==> Managed(m, f)
    ensures Counts(n)
  {
    SameTables(m, n);
    forall f: nat | LOW <= f < LOW + PAGING_PAGES
      ensures n.count[f - LOW] == if Managed(n, f) then Owners(n, f) else USED
    {
      RefsAfter(m, n, l, f);
      assert m.count[f - LOW] == if Managed(m, f) then Owners(m, f) else USED;
    }
  }

  /** The page tables stay in order if the new word refers to nothing,
      to a shared low frame, or to a frame with no other reference ... */
  lemma ReplacedShape(m: Mem, n: Mem, l: Loc, w: Word)
    requires KernelOk(m) && TablesOk(m) && PagesOk(m) && Aligned(m) && Exclusive(m) && HeldOk(m)
    requires Replaced(m, n, l, w) && l.slot != 0 && n.held <= m.held
    requires w.present ==>
      if w.frame < LOW then !w.writable
      else && Managed(m, w.frame) && w.frame !in n.held && !IsTable(m, w.frame)
           && forall k: Loc :: Entry(m, k).present && Entry(m, k).frame == w.frame && k != l ==>
                k.i == l.i && k.t == l.t && !w.writable && !Entry(m, k).writable
    ensures KernelOk(n) && TablesOk(n) && PagesOk(n) && Aligned(n) && Exclusive(n) && HeldOk(n)
  {
    SameTables(m, n);
    forall d | HasTable(n, d) ensures HasTable(m, d) {}
    forall j: Loc, k: Loc | SameFrame(n, j, k) && j != l && k != l ensures SameFrame(m, j, k) {}
    forall j: Loc | SameFrame(n, j, l) && j != l ensures j.i == l.i && j.t == l.t && !w.writable && !Entry(n, j).writable {}
  }

  function Meaning(m: Mem, w: Word): View {
    if !w.present then Absent else if w.frame < LOW then LowFrame(w.frame) else Own(Content(m, w.frame))
  }

  /** Writing an entry shows through at that location only. */
  lemma SetEntryLook(m: Mem, l: Loc, w: Word)
    requires Sized(m) && KernelOk(m) && TablesOk(m) && PagesOk(m) && Writable(m, l)
    requires w.present && w.frame >= LOW ==> !IsTable(m, w.frame)
    ensures Replaced(m, SetEntry(m, l, w), l, w)
    ensures forall k: Loc :: Look(SetEntry(m, l, w), k) == if k == l then Meaning(m, w) else Look(m, k)
  {
    SetEntryEffect(m, l, w);
    var t := Dir(m, DirOf(l)).frame;
    assert IsTable(m, t);
    forall k: Loc | k != l && Entry(m, k).present && Entry(m, k).frame >= LOW ensures Entry(m, k).frame != t {}
  }

  lemma WritableEntry(m: Mem, l: Loc)
    requires TablesOk(m) && Entry(m, l).present && l.slot != 0
    ensures Writable(m, l)
  {
  }

  function Clear(m: Mem, l: Loc): Mem
    requires Writable(m, l)
  {
    SetEntry(if Entry(m, l).present then AddCount(m, Entry(m, l).frame, -1) else m, l, ZERO)
  }

  lemma ClearOk(m: Mem, l: Loc)
    requires Inv(m) && Writable(m, l) && l.slot != 0
    ensures Inv(Clear(m, l)) && Replaced(m, Clear(m, l), l, ZERO)
    ensures forall k: Loc :: Look(Clear(m, l), k) == if k == l then Absent else Look(m, k)
  {
    SetEntryLook(m, l, ZERO);
    var n := Clear(m, l);
    assert n == SetEntry(m, l, ZERO).(count := n.count);
    SameLooks(SetEntry(m, l, ZERO), n);
    ReplacedShape(m, n, l, ZERO);
    ReplacedCounts(m, n, l, ZERO);
  }

  // Counters and held frames do not show in the page tables.
  lemma SameLooks(m: Mem, n: Mem)
    requires n.phys == m.phys
    ensures forall d :: Dir(n, d) == Dir(m, d)
    ensures forall k: Loc :: Entry(n, k) == Entry(m, k) && Look(n, k) == Look(m, k)
  {
  }

  /** Map the held frame `f` at `l`, dropping what was mapped there. */
  function Map(m: Mem, l: Loc, f: nat): Mem
    requires Writable(m, l)
  {
    SetEntry(if Entry(m, l).present then AddCount(m, Entry(m, l).frame, -1) else m, l, Fresh(f)).(held := m.held - {f})
  }

  lemma MapOk(m: Mem, l: Loc, f: nat)
    requires Inv(m) && Writable(m, l) && l.slot != 0 && f in m.held
    ensures Inv(Map(m, l, f)) && Replaced(m, Map(m, l, f), l, Fresh(f))
    ensures forall k: Loc :: Look(Map(m, l, f), k) == if k == l then Own(Content(m, f)) else Look(m, k)
  {
    HeldAlone(m, f);
    SetEntryLook(m, l, Fresh(f));
    var n := Map(m, l, f);
    SameLooks(SetEntry(m, l, Fresh(f)), n);
    ReplacedShape(m, n, l, Fresh(f));
    ReplacedCounts(m, n, l, Fresh(f));
  }

  /** put_page overwrites the entry, whatever it was. */
  function Put(m: Mem, l: Loc, f: nat): Mem
    requires Writable(m, l)
  {
    SetEntry(m, l, Fresh(f)).(held := m.held - {f})
  }

  /** The counters stay right exactly if no counted frame was mapped there. */
  lemma PutExact(m: Mem, l: Loc, f: nat)
    requires Inv(m) && Writable(m, l) && l.slot != 0 && f in m.held
    ensures Inv(Put(m, l, f)) <==> !Entry(m, l).present || Entry(m, l).frame < LOW
    ensures Inv(Put(m, l, f)) ==> forall k: Loc :: Look(Put(m, l, f), k) == if k == l then Own(Content(m, f)) else Look(m, k)
  {
    if Entry(m, l).present && Entry(m, l).frame >= LOW {
      PutLeaks(m, l, f);
    } else {
      MapOk(m, l, f);
      assert Put(m, l, f) == Map(m, l, f);
    }
    hide Inv;
  }

  lemma PutLeaks(m: Mem, l: Loc, f: nat)
    requires Inv(m) && Writable(m, l) && l.slot != 0 && f in m.held && Entry(m, l).present && Entry(m, l).frame >= LOW
    ensures !Inv(Put(m, l, f))
  {
    hide Aligned, Exclusive;
    var n, g := Put(m, l, f), Entry(m, l).frame;
    HeldAlone(m, f);
    SetEntryLook(m, l, Fresh(f));
    hide Entry, Look, KernelOk, TablesOk;
    RefsAfter(m, n, l, g);
    SameTables(m, n);
    assert n.count[g - LOW] == m.count[g - LOW] == Owners(m, g) && Owners(n, g) == Owners(m, g) - 1;
  }

  /** Write-protect or unprotect a mapped page; marking it dirty changes as little. */
  function Mark(m: Mem, l: Loc, w: bool, dirty: bool): Mem
    requires Writable(m, l)
  {
    SetEntry(m, l, Entry(m, l).(writable := w, dirty := dirty))
  }

  lemma MarkOk(m: Mem, l: Loc, w: bool, dirty: bool)
    requires Inv(m) && Entry(m, l).present && Writable(m, l) && l.slot != 0
    requires w ==> Entry(m, l).frame >= LOW && m.count[Entry(m, l).frame - LOW] == 1
    ensures Inv(Mark(m, l, w, dirty)) && Replaced(m, Mark(m, l, w, dirty), l, Entry(m, l).(writable := w, dirty := dirty))
    ensures forall k: Loc :: Look(Mark(m, l, w, dirty), k) == Look(m, k)
  {
    var e := Entry(m, l).(writable := w, dirty := dirty);
    SetEntryLook(m, l, e);
    if w { OneRef(m, l); }
    forall k: Loc | e.frame >= LOW && Entry(m, k).present && Entry(m, k).frame == e.frame && k != l
      ensures k.i == l.i && k.t == l.t && !w && !Entry(m, k).writable
    {
      assert SameFrame(m, k, l);
    }
    ReplacedShape(m, Mark(m, l, w, dirty), l, e);
    ReplacedCounts(m, Mark(m, l, w, dirty), l, e);
  }

  /** A count of one means nobody else maps the frame. */
  lemma OneRef(m: Mem, l: Loc)
    requires Inv(m) && Entry(m, l).present && Entry(m, l).frame >= LOW
    requires m.count[Entry(m, l).frame - LOW] == 1
    ensures forall k: Loc :: SameFrame(m, k, l) ==> k == l
  {
    var f := Entry(m, l).frame;
    assert Owners(m, f) == 1;
    forall k: Loc | SameFrame(m, k, l) && k != l ensures false {
      InRefs(m, f, l);
      InRefs(m, f, k);
      assert {l, k} <= Refs(m, f);
      Sequences.SubsetSize({l, k}, Refs(m, f));
    }
  }

  // ---------- sharing ----------

  /** Make `k` map what `l` maps, write-protecting both; low memory has no counter
      and its source entry is left alone. */
  function Share(m: Mem, l: Loc, k: Loc): Mem
    requires Writable(m, k) && (l.slot != 0 ==> Writable(m, l))
  {
    var e := Entry(m, l).(writable := false);
    var n := if e.frame >= LOW && l.slot != 0 then SetEntry(AddCount(m, e.frame, 1), l, e) else m;
    if Writable(n, k) then SetEntry(n, k, e) else n
  }

  lemma ShareOk(m: Mem, l: Loc, k: Loc)
    requires Inv(m) && Entry(m, l).present && !Entry(m, k).present
    requires Writable(m, k) && (l.slot != 0 ==> Writable(m, l))
    requires k.slot != 0 && k == l.(slot := k.slot)
    ensures Inv(Share(m, l, k)) && Share(m, l, k).held == m.held
    ensures forall d :: Dir(Share(m, l, k), d) == Dir(m, d)
    ensures forall j: Loc :: Entry(Share(m, l, k), j) ==
                             if j == k || (j == l && Entry(m, l).frame >= LOW) then Entry(m, l).(writable := false) else Entry(m, j)
    ensures forall j: Loc :: Look(Share(m, l, k), j) == Look(m, if j == k then l else j)
  {
    hide Inv, Share, Entry, Look;
    if Entry(m, l).frame < LOW { ShareLowOk(m, l, k); } else { ShareCountedOk(m, l, k); }
  }

  lemma ShareCountedOk(m: Mem, l: Loc, k: Loc)
    requires Inv(m) && Entry(m, l).present && !Entry(m, k).present && Entry(m, l).frame >= LOW
    requires Writable(m, k) && (l.slot != 0 ==> Writable(m, l)) && k.slot != 0 && k == l.(slot := k.slot)
    ensures var n := Share(m, l, k);
      && Inv(n) && n.held == m.held && (forall d :: Dir(n, d) == Dir(m, d))
      && (forall j: Loc :: Entry(n, j) == if j == k || j == l then Entry(m, l).(writable := false) else Entry(m, j))
      && (forall j: Loc :: Look(n, j) == Look(m, if j == k then l else j))
  {
    var e := Entry(m, l).(writable := false);
    MarkOk(m, l, false, e.dirty);
    var p := Mark(m, l, false, e.dirty);
    ShareProtected(p, l, k);
    assert Share(m, l, k) == SetEntry(AddCount(p, e.frame, 1), k, e);
  }

  lemma ShareLowOk(m: Mem, l: Loc, k: Loc)
    requires Inv(m) && Entry(m, l).present && !Entry(m, k).present && Entry(m, l).frame < LOW
    requires Writable(m, k) && (l.slot != 0 ==> Writable(m, l)) && k.slot != 0
    ensures var n := Share(m, l, k);
      && Inv(n) && n.held == m.held && (forall d :: Dir(n, d) == Dir(m, d))
      && (forall j: Loc :: Entry(n, j) == if j == k then Entry(m, l).(writable := false) else Entry(m, j))
      && (forall j: Loc :: Look(n, j) == Look(m, if j == k then l else j))
  {
    var e := Entry(m, l).(writable := false);
    SetEntryLook(m, k, e);
    ReplacedShape(m, SetEntry(m, k, e), k, e);
    ReplacedCounts(m, SetEntry(m, k, e), k, e);
  }

  lemma ShareProtected(p: Mem, l: Loc, k: Loc)
    requires Inv(p) && Entry(p, l).present && !Entry(p, k).present && !Entry(p, l).writable
    requires Writable(p, k) && Entry(p, l).frame >= LOW
    requires k.slot != 0 && k == l.(slot := k.slot)
    ensures Writable(AddCount(p, Entry(p, l).frame, 1), k)
    ensures var n := SetEntry(AddCount(p, Entry(p, l).frame, 1), k, Entry(p, l));
      Inv(n) && Replaced(p, n, k, Entry(p, l)) && forall j: Loc :: Look(n, j) == Look(p, if j == k then l else j)
  {
    var e := Entry(p, l);
    var q := SetEntry(p, k, e);
    var n := SetEntry(AddCount(p, e.frame, 1), k, e);
    SetEntryLook(p, k, e);
    SameLooks(q, n);
    forall j: Loc | Entry(p, j).present && Entry(p, j).frame == e.frame ensures j.i == k.i && j.t == k.t && !Entry(p, j).writable {
      assert SameFrame(p, j, l);
    }
    ReplacedShape(p, n, k, e);
    ReplacedCounts(p, n, k, e);
  }

  // ---------- page tables come and go ----------

  /** A held, zeroed frame becomes the page table of an empty directory entry. */
  function AddTable(m: Mem, d: nat, f: nat): Mem
    requires |m.phys| > 0 && d < WORDS
  {
    SetWord(m, 0, d, Fresh(f)).(held := m.held - {f})
  }

  lemma AddTableOk(m: Mem, d: nat, f: nat)
    requires Inv(m) && UserDir(d) && !Dir(m, d).present && f in m.held && Content(m, f) == Zeros()
    ensures Inv(AddTable(m, d, f))
    ensures forall e :: Dir(AddTable(m, d, f), e) == if e == d then Fresh(f) else Dir(m, e)
    ensures forall k: Loc :: Entry(AddTable(m, d, f), k) == Entry(m, k) && Look(AddTable(m, d, f), k) == Look(m, k)
  {
    HeldAlone(m, f);
    var n := AddTable(m, d, f);
    SetDirEffect(m, d, Fresh(f));
    SameLooks(SetWord(m, 0, d, Fresh(f)), n);
    TablesChange(m, n, d, f, true);
    forall j: Loc, k: Loc | SameFrame(n, j, k) ensures SameFrame(m, j, k) {}
  }

  /** Directory entry `d` gains or loses a page table without mapped pages. */
  lemma TablesChange(m: Mem, n: Mem, d: nat, f: nat, gain: bool)
    requires Sized(m) && Counts(m) && Sized(n) && |n.phys| == |m.phys| && n.first == m.first && UserDir(d) && Managed(m, f)
    requires forall l: Loc :: Entry(n, l) == Entry(m, l)
    requires forall e :: e != d ==> Dir(n, e) == Dir(m, e)
    requires if gain then !Dir(m, d).present && Dir(n, d) == Fresh(f) else !Dir(n, d).present && Dir(m, d).present && Dir(m, d).frame == f
    requires forall e :: HasTable(m, e) && e != d ==> Dir(m, e).frame != f
    requires forall g: nat :: g != f ==> (g in m.held <==> g in n.held)
    requires n.count == m.count[f - LOW := n.count[f - LOW]]
    requires n.count[f - LOW] - (if gain then 1 else 0) - (if f in n.held then 1 else 0)
          == m.count[f - LOW] - (if gain then 0 else 1) - (if f in m.held then 1 else 0)
    ensures forall g :: IsTable(n, g) == if g == f then gain else IsTable(m, g)
    ensures Counts(n)
  {
    forall g ensures IsTable(n, g) == if g == f then gain else IsTable(m, g) {
      forall e | e != d ensures HasTable(n, e) == HasTable(m, e) {}
      assert HasTable(n, d) == gain && HasTable(m, d) == !gain;
    }
    forall g: nat | LOW <= g < LOW + PAGING_PAGES
      ensures n.count[g - LOW] == if Managed(n, g) then Owners(n, g) else USED
    {
      SameRefs(m, n, g);
      assert m.count[g - LOW] == if Managed(m, g) then Owners(m, g) else USED;
      assert IsTable(m, f) == !gain by { assert HasTable(m, d) == !gain; }
    }
  }

  /** An emptied page table is freed and its directory entry cleared. */
  function DropTable(m: Mem, d: nat): Mem
    requires |m.phys| > 0 && d < WORDS
  {
    SetWord(AddCount(m, Dir(m, d).frame, -1), 0, d, ZERO)
  }

  ghost predicate EmptyDir(m: Mem, d: nat) {
    forall l: Loc :: DirOf(l) == d ==> !Entry(m, l).present
  }

  ghost predicate Blank(m: Mem, d: nat) {
    forall l: Loc :: DirOf(l) == d ==> Entry(m, l) == ZERO
  }

  lemma DropTableOk(m: Mem, d: nat)
    requires Inv(m) && HasTable(m, d) && Blank(m, d)
    ensures Inv(DropTable(m, d))
    ensures forall e :: Dir(DropTable(m, d), e) == if e == d then ZERO else Dir(m, e)
    ensures forall k: Loc :: Entry(DropTable(m, d), k) == Entry(m, k) && Look(DropTable(m, d), k) == Look(m, k)
  {
    var f := Dir(m, d).frame;
    var n := DropTable(m, d);
    SetDirEffect(m, d, ZERO);
    SameLooks(SetWord(m, 0, d, ZERO), n);
    TablesChange(m, n, d, f, false);
    forall j: Loc, k: Loc | SameFrame(n, j, k) ensures SameFrame(m, j, k) {}
  }

  // ---------- contents ----------

  /** The kernel fills a frame it holds. */
  function Fill(m: Mem, f: nat, p: Page): Mem
    requires f < |m.phys|
  {
    m.(phys := m.phys[f := p])
  }

  lemma FillOk(m: Mem, f: nat, p: Page)
    requires Inv(m) && f in m.held
    ensures Inv(Fill(m, f, p))
    ensures forall k: Loc :: Entry(Fill(m, f, p), k) == Entry(m, k) && Look(Fill(m, f, p), k) == Look(m, k)
    ensures forall d :: Dir(Fill(m, f, p), d) == Dir(m, d)
  {
    var n := Fill(m, f, p);
    HeldAlone(m, f);
    forall l: Loc ensures Entry(n, l) == Entry(m, l) {
      assert HasTable(m, DirOf(l)) ==> Dir(m, DirOf(l)).frame != f;
    }
    SameShape(m, n);
    SameCounts(m, n, {});
  }

  /** The processor stores a word through a writable entry. */
  function Store(m: Mem, l: Loc, off: nat, w: Word): Mem
    requires Writable(m, l) && Entry(m, l).frame < |m.phys| && off < WORDS
  {
    var n := Mark(m, l, Entry(m, l).writable, true);
    SetWord(n, Entry(m, l).frame, off, w)
  }

  lemma StoreOk(m: Mem, l: Loc, off: nat, w: Word)
    requires Inv(m) && Writable(m, l) && Entry(m, l).present && Entry(m, l).writable && l.slot != 0 && off < WORDS
    ensures Entry(m, l).frame < |m.phys| && Inv(Store(m, l, off, w))
    ensures forall k: Loc :: Look(Store(m, l, off, w), k) ==
                             if k == l then Own(Look(m, l).page[off := w]) else Look(m, k)
    ensures forall k: Loc :: Entry(Store(m, l, off, w), k) == if k == l then Entry(m, l).(dirty := true) else Entry(m, k)
    ensures forall d :: Dir(Store(m, l, off, w), d) == Dir(m, d)
  {
    var f := Entry(m, l).frame;
    WritableAlone(m, l);
    MarkOk(m, l, true, true);
    var n := Mark(m, l, true, true);
    var r := SetWord(n, f, off, w);
    forall k: Loc ensures Entry(r, k) == Entry(n, k) {
      assert HasTable(n, DirOf(k)) ==> IsTable(n, Dir(n, DirOf(k)).frame);
    }
    forall k: Loc | k != l && Entry(n, k).present ensures Entry(n, k).frame != f {
      if Entry(n, k).frame == f { assert SameFrame(n, l, k); }
    }
    SameShape(n, r);
    SameCounts(n, r, {});
  }

  /** A page some task may write has exactly one reference. */
  lemma WritableAlone(m: Mem, l: Loc)
    requires Inv(m) && Entry(m, l).present && Entry(m, l).writable && l.slot != 0
    ensures Entry(m, l).frame >= LOW && Refs(m, Entry(m, l).frame) == {l} && m.count[Entry(m, l).frame - LOW] == 1
  {
    var f := Entry(m, l).frame;
    forall k ensures k in Refs(m, f) <==> k == l {
      InRefs(m, f, k);
      assert k in Refs(m, f) ==> SameFrame(m, l, k);
    }
    assert Refs(m, f) == {l};
    assert m.count[f - LOW] == Owners(m, f);
  }
}
