/**
  The memory manager of linux-0.11/mm/memory.c over real arrays: frames of
  words, one byte counter per frame, the page directory in frame 0.
 */
module Memory {
  import opened PageTables
  import opened PageSteps
  import Sequences

  datatype CopyResult = Copied | OutOfMemory | AlreadyExists

  datatype ShareResult = Shared | NotShared | NoMemory | Exists

  /** Every frame reference except the right to write is as before. */
  ghost predicate SameReferences(m: Mem, n: Mem) {
    && |n.phys| == |m.phys| && n.first == m.first && n.held == m.held
    && (forall d :: Dir(n, d).present == Dir(m, d).present && (Dir(m, d).present ==> Dir(n, d).frame == Dir(m, d).frame))
    && (forall l: Loc :: Entry(n, l).present == Entry(m, l).present && (Entry(m, l).present ==> Entry(n, l).frame == Entry(m, l).frame))
  }

  /** The counters are a function of the references. */
  lemma CountersDetermined(m: Mem, n: Mem)
    requires Inv(m) && Inv(n) && SameReferences(m, n)
    ensures n.count == m.count
  {
    forall k | 0 <= k < PAGING_PAGES ensures n.count[k] == m.count[k] {
      var f := k + LOW;
      SameRefs(m, n, f);
      forall d ensures HasTable(n, d) == HasTable(m, d) {}
      assert IsTable(n, f) == IsTable(m, f);
      assert Owners(n, f) == Owners(m, f) && Managed(n, f) == Managed(m, f);
      assert m.count[f - LOW] == if Managed(m, f) then Owners(m, f) else USED;
    }
  }

  /** The frames get_free_page can still hand out. */
  ghost function Free(m: Mem): set<nat> {
    set k: nat | k < |m.count| && m.count[k] == 0
  }

  lemma FreeAfterAlloc(m: Mem, f: nat)
    requires LOW <= f < |m.phys| && f < LOW + |m.count| && m.count[f - LOW] == 0
    ensures |Free(Alloc(m, f))| == |Free(m)| - 1
  {
    assert Free(Alloc(m, f)) == Free(m) - {f - LOW};
  }

  /** How many page tables a task has in its first `n` directory entries. */
  ghost function Tables(m: Mem, slot: nat, n: nat): nat {
    if n == 0 then 0 else Tables(m, slot, n - 1) + if Dir(m, DIRS * slot + n - 1).present then 1 else 0
  }

  lemma {:induction false} FewerTables(m: Mem, slot: nat, k: nat, n: nat)
    requires k <= n
    ensures Tables(m, slot, k) <= Tables(m, slot, n)
    ensures k < n && Dir(m, DIRS * slot + k).present ==> Tables(m, slot, k) < Tables(m, slot, n)
  {
    if k < n { FewerTables(m, slot, k, n - 1); }
  }

  // The task has no page table in its first `n` directory entries.
  ghost predicate NoTables(m: Mem, slot: nat, n: nat) {
    forall d: nat :: DIRS * slot <= d < DIRS * slot + n ==> !Dir(m, d).present
  }

  lemma BootOk(boot: Mem, m: Mem)
    requires KernelOk(boot) && (forall d :: !HasTable(boot, d)) && m.phys == boot.phys && m.held == {} && Sized(m)
    requires forall k :: 0 <= k < PAGING_PAGES ==> m.count[k] == if m.first - LOW <= k < |m.phys| - LOW then 0 else USED
    ensures Inv(m)
  {
    SameLooks(boot, m);
    forall d ensures !HasTable(m, d) {
      assert !HasTable(boot, d);
    }
    forall f: nat ensures !IsTable(m, f) {}
    forall f: nat | Managed(m, f) ensures Owners(m, f) == 0 {
      forall l ensures l !in Refs(m, f) { InRefs(m, f, l); }
      assert Refs(m, f) == {};
    }
  }

  class Memory {
    const phys: array<Page>
    const memMap: array<int>
    const first: nat
    ghost var held: set<nat>

    ghost function S(): Mem
      reads this, phys, memMap
    {
      Mem(phys[..], memMap[..], first, held)
    }

    ghost predicate Valid()
      reads this, phys, memMap
    {
      Inv(S())
    }

    /** mem_init: frames from `start` on are free, all other counters say used. */
    constructor (frames: seq<Page>, start: nat)
      requires LOW <= start <= |frames| <= LOW + PAGING_PAGES
      requires var boot := Mem(frames, [], start, {}); KernelOk(boot) && forall d :: !HasTable(boot, d)
      ensures Valid() && fresh(phys) && fresh(memMap)
      ensures phys[..] == frames && held == {} && first == start
    {
      phys := new Page[|frames|](i requires 0 <= i < |frames| => frames[i]);
      memMap := new int[PAGING_PAGES](i => USED);
      first := start;
      held := {};
      new;
      var i := start - LOW;
      var left := phys.Length - start;
      while left > 0
        invariant 0 <= left && i + left == phys.Length - LOW
        invariant phys[..] == frames
        invariant forall k :: 0 <= k < PAGING_PAGES ==> memMap[k] == if start - LOW <= k < i then 0 else USED
        invariant start - LOW <= i
        modifies memMap
      {
        memMap[i] := 0;
        i, left := i + 1, left - 1;
      }
      ghost var boot := Mem(frames, [], start, {});
      BootOk(boot, S());
    }

    method GetFreePage() returns (f: nat)
      requires Valid()
      modifies this`held, phys, memMap
      ensures Valid()
      ensures f == 0 <==> Free(old(S())) == {}
      ensures f == 0 ==> S() == old(S())
      ensures f != 0 ==> |Free(S())| == |Free(old(S()))| - 1
      ensures f != 0 ==> Managed(old(S()), f) && old(memMap[f - LOW]) == 0 && S() == Alloc(old(S()), f)
      ensures f != 0 ==> forall k :: f - LOW < k < PAGING_PAGES ==> old(memMap[k]) != 0
    {
      var k := PAGING_PAGES;
      while k > 0
        invariant 0 <= k <= PAGING_PAGES
        invariant forall j :: k <= j < memMap.Length ==> memMap[j] != 0
      {
        k := k - 1;
        if memMap[k] == 0 {
          f := k + LOW;
          assert memMap[f - LOW] == 0;
          assert Managed(S(), f);
          AllocOk(S(), f);
          FreeAfterAlloc(S(), f);
          assert k in Free(S());
          memMap[k] := 1;
          phys[f] := Zeros();
          held := held + {f};
          return;
        }
      }
      f := 0;
    }

    /** False where the source panics. */
    method FreePage(f: nat) returns (ok: bool)
      requires phys.Length <= LOW + PAGING_PAGES && memMap.Length == PAGING_PAGES
      modifies memMap
      ensures ok <==> f < LOW || (f < phys.Length && old(memMap[f - LOW]) != 0)
      ensures S() == if ok && f >= LOW then AddCount(old(S()), f, -1) else old(S())
    {
      if f < LOW { return true; }
      if f >= phys.Length { return false; }
      if memMap[f - LOW] != 0 {
        memMap[f - LOW] := memMap[f - LOW] - 1;
        return true;
      }
      memMap[f - LOW] := 0;
      return false;
    }

    /** Returns a frame the kernel holds. */
    method PutBack(f: nat) returns (ok: bool)
      requires Valid() && f in held
      modifies this`held, memMap
      ensures ok && Valid() && S() == Release(old(S()), f)
    {
      HeldAlone(S(), f);
      ReleaseOk(S(), f);
      ok := FreePage(f);
      held := held - {f};
    }

    /** One entry of a table being freed. */
    method FreeEntry(l: Loc) returns (ok: bool)
      requires Valid() && Writable(S(), l) && l.slot != 0
      modifies phys, memMap
      ensures ok && Valid() && S() == Clear(old(S()), l)
    {
      ghost var m := S();
      var table := phys[0][DirOf(l)].frame;
      var e := phys[table][l.t];
      assert e == Entry(m, l);
      ok := true;
      if e.present {
        if e.frame >= LOW { EntryCounted(m, l); }
        ok := FreePage(e.frame);
      }
      phys[table] := phys[table][l.t := ZERO];
      ClearOk(m, l);
    }

    method FreePageTables(slot: nat, n: nat) returns (ok: bool)
      requires Valid() && 0 < slot < NR_TASKS && n <= DIRS
      modifies phys, memMap
      ensures forall g: nat :: g in held ==> Content(S(), g) == Content(old(S()), g)
      ensures ok && Valid() && held == old(held)
      ensures forall d: nat :: Dir(S(), d) == if DIRS * slot <= d < DIRS * slot + n && Dir(old(S()), d).present then ZERO else Dir(old(S()), d)
      ensures forall l: Loc :: Entry(S(), l) == if l.slot == slot && l.i < n then ZERO else Entry(old(S()), l)
      ensures forall l: Loc :: Look(S(), l) == if l.slot == slot && l.i < n then Absent else Look(old(S()), l)
    {
      hide Aligned, Exclusive, Counts, PagesOk, KernelOk, TablesOk;
      ok := true;
      for i := 0 to n
        invariant ok && Valid() && held == old(held)
        invariant forall g: nat :: g in held ==> Content(S(), g) == Content(old(S()), g)
        invariant forall d: nat :: Dir(S(), d) == if DIRS * slot <= d < DIRS * slot + i && Dir(old(S()), d).present then ZERO else Dir(old(S()), d)
        invariant forall l: Loc :: Entry(S(), l) == if l.slot == slot && l.i < i then ZERO else Entry(old(S()), l)
        invariant forall l: Loc :: Look(S(), l) == if l.slot == slot && l.i < i then Absent else Look(old(S()), l)
      {
        var d := DIRS * slot + i;
        if phys[0][d].present {
          ok := FreeTable(slot, i);
        }
      }
    }

    method FreeTable(slot: nat, i: nat) returns (ok: bool)
      requires Valid() && 0 < slot < NR_TASKS && i < DIRS && HasTable(S(), DIRS * slot + i)
      modifies phys, memMap
      ensures forall g: nat :: g in held ==> Content(S(), g) == Content(old(S()), g)
      ensures ok && Valid() && held == old(held)
      ensures forall d: nat :: Dir(S(), d) == if d == DIRS * slot + i then ZERO else Dir(old(S()), d)
      ensures forall l: Loc :: Entry(S(), l) == if l.slot == slot && l.i == i then ZERO else Entry(old(S()), l)
      ensures forall l: Loc :: Look(S(), l) == if l.slot == slot && l.i == i then Absent else Look(old(S()), l)
    {
      hide Aligned, Exclusive, Counts, PagesOk, KernelOk;
      var d := DIRS * slot + i;
      for t := 0 to WORDS
        invariant Valid() && held == old(held)
        invariant forall g: nat :: g in held ==> Content(S(), g) == Content(old(S()), g)
        invariant forall e :: Dir(S(), e) == Dir(old(S()), e)
        invariant forall l: Loc :: Entry(S(), l) == if l.slot == slot && l.i == i && l.t < t then ZERO else Entry(old(S()), l)
        invariant forall l: Loc :: Look(S(), l) == if l.slot == slot && l.i == i && l.t < t then Absent else Look(old(S()), l)
      {
        ClearOk(S(), Loc(slot, i, t));
        ok := FreeEntry(Loc(slot, i, t));
      }
      ghost var m := S();
      assert Blank(m, d) by {
        forall l: Loc | DirOf(l) == d ensures Entry(m, l) == ZERO {
          if l.i < DIRS { assert l.slot == slot && l.i == i; }
        }
      }
      DropTableOk(m, d);
      TableCounted(m, d);
      ok := FreePage(phys[0][d].frame);
      phys[0] := phys[0][d := ZERO];
      assert S() == DropTable(m, d);
    }

    /** One round of the inner loop of copy_page_tables. */
    method CopyEntry(l: Loc, to: nat, ghost m: Mem)
      requires Valid() && CopiedUpTo(m, S(), l.slot, to, l.i, l.t) && l.t < WORDS && l.i < DIRS
      requires l.slot < NR_TASKS && 0 < to < NR_TASKS && l.slot != to
      requires Dir(m, DIRS * l.slot + l.i).present && Dir(m, DIRS * to + l.i).present && (l.slot == 0 ==> l.i == 0 && l.t < KERNEL_PAGES)
      requires forall k: Loc :: k.slot == to && k.i == l.i ==> Look(m, k) == Absent
      modifies phys, memMap
      ensures Valid() && CopiedUpTo(m, S(), l.slot, to, l.i, l.t + 1)
    {
      hide PagesOk, Aligned, Exclusive, Counts, TablesOk, KernelOk, CopiedUpTo, Look;
      ghost var n := S();
      ghost var k := l.(slot := to);
      CopyNext(m, n, l, to);
      var fromTable := phys[0][DirOf(l)].frame;
      if phys[fromTable][l.t].present {
        var toTable := phys[0][DirOf(l.(slot := to))].frame;
        var e := phys[fromTable][l.t].(writable := false);
        ShareByWrites(n, l, k);
        ghost var p := n.phys[toTable := n.phys[toTable][k.t := e]];
        phys[toTable] := phys[toTable][l.t := e];
        assert phys[..] == p;
        if e.frame >= LOW {
          phys[fromTable] := phys[fromTable][l.t := e];
          memMap[e.frame - LOW] := (memMap[e.frame - LOW] + 1) % 256;
        }
        assert S() == Share(n, l, k);
      }
    }

    /** Gives an empty directory entry a fresh table. */
    method NewTable(d: nat) returns (table: nat)
      requires Valid() && UserDir(d) && !Dir(S(), d).present
      modifies this`held, phys, memMap
      ensures Valid() && held == old(held)
      ensures table == 0 ==> S() == old(S()) && Free(S()) == {}
      ensures table != 0 ==> |Free(S())| == |Free(old(S()))| - 1
      ensures forall e :: Dir(S(), e) == if e == d && table != 0 then Fresh(table) else Dir(old(S()), e)
      ensures forall f: nat :: f in held ==> phys[f] == old(phys[f])
      ensures forall l: Loc :: Entry(S(), l) == Entry(old(S()), l) && Look(S(), l) == Look(old(S()), l)
    {
      table := GetFreePage();
      if table != 0 {
        AllocOk(old(S()), table);
        AddTableOk(S(), d, table);
        phys[0] := phys[0][d := Fresh(table)];
        held := held - {table};
        assert S() == AddTable(Alloc(old(S()), table), d, table);
      }
    }

    /** Copies the entries of one table into a new, empty one. */
    method CopyTable(from: nat, to: nat, i: nat)
      requires Valid() && from < NR_TASKS && 0 < to < NR_TASKS && from != to && i < DIRS
      requires Dir(S(), DIRS * from + i).present && Dir(S(), DIRS * to + i).present && (from == 0 ==> i == 0)
      requires forall l: Loc :: l.slot == to && l.i == i ==> Look(S(), l) == Absent
      modifies phys, memMap
      ensures Valid() && CopiedUpTo(old(S()), S(), from, to, i, WORDS)
    {
      hide Inv, CopiedUpTo;
      ghost var m := S();
      var nr := if from == 0 then KERNEL_PAGES else WORDS;
      CopyStart(m, from, to, i);
      for t := 0 to nr
        invariant Valid() && CopiedUpTo(m, S(), from, to, i, t)
      {
        CopyEntry(Loc(from, i, t), to, m);
      }
      CopyDone(m, S(), from, to, i, nr);
    }

    /** Copies the first `n` page tables of a task; a null frame ends it early. */
    method CopyPageTables(from: nat, to: nat, n: nat) returns (r: CopyResult, ghost done: nat)
      requires Valid() && from < NR_TASKS && 0 < to < NR_TASKS && from != to && n <= DIRS && (from == 0 ==> n <= 1)
      modifies this`held, phys, memMap
      ensures Valid() && done <= n && TablesCopied(old(S()), S(), from, to, done)
      ensures r == Copied ==> done == n
      ensures r == OutOfMemory ==> done < n && Free(S()) == {} && Dir(old(S()), DIRS * from + done).present
      ensures r == AlreadyExists <==> done < n && Dir(old(S()), DIRS * to + done).present
    {
      hide Aligned, Exclusive, Counts, PagesOk, TablesOk, CopiedUpTo, TablesCopied;
      ghost var m := S();
      NothingCopied(m, from, to);
      for i := 0 to n
        invariant Valid() && TablesCopied(m, S(), from, to, i)
      {
        ghost var c := S();
        TablesNext(m, c, from, to, i);
        if phys[0][DIRS * to + i].present { return AlreadyExists, i; }
        if phys[0][DIRS * from + i].present {
          var table := NewTable(DIRS * to + i);
          if table == 0 {
            TablesSame(m, c, S(), from, to, i);
            return OutOfMemory, i;
          }
          ghost var t := S();
          CopyTable(from, to, i);
          TableDone(m, c, t, S(), from, to, i);
        }
      }
      r, done := Copied, n;
    }

    /** fork's copy_mem: all of the address space, or nothing at all. */
    method CopyMem(from: nat, to: nat, n: nat) returns (ok: bool)
      requires Valid() && from < NR_TASKS && 0 < to < NR_TASKS && from != to && n <= DIRS && (from == 0 ==> n <= 1)
      requires NoTables(S(), to, n)
      modifies this`held, phys, memMap
      ensures Valid() && held == old(held)
      ensures forall d: nat :: !(DIRS * to <= d < DIRS * to + n) ==> Dir(S(), d) == Dir(old(S()), d)
      ensures forall l: Loc :: Look(S(), l) == Look(old(S()), if ok && l.slot == to && l.i < n then l.(slot := from) else l)
      ensures ok <==> |Free(old(S()))| >= Tables(old(S()), from, n)
      ensures !ok ==> SameReferences(old(S()), S()) && memMap[..] == old(memMap[..])
    {
      hide Aligned, Exclusive, Counts, PagesOk, TablesOk, KernelOk;
      var r;
      ghost var m := S();
      ghost var done;
      r, done := CopyPageTables(from, to, n);
      ghost var c := S();
      ok := r == Copied;
      FewerTables(m, from, done, n);
      if !ok {
        var freed := FreePageTables(to, n);
        RolledBack(m, c, S(), from, to, n, done);
      }
    }

    /** Maps the held frame `f`; 0 if a page table is needed and there is no memory for it. What it overwrites must not
        be counted, see PutExact. */
    method PutPage(f: nat, l: Loc) returns (page: nat)
      requires Valid() && f in held && UserLoc(l) && (!Entry(S(), l).present || Entry(S(), l).frame < LOW)
      modifies this`held, phys, memMap
      ensures Valid() && OnlyDir(old(S()), S(), DirOf(l))
      ensures page == if page == 0 then 0 else f
      ensures page == 0 ==> S() == old(S()) && !Dir(S(), DirOf(l)).present && Free(S()) == {}
      ensures page != 0 ==> Dir(S(), DirOf(l)).present && (Dir(old(S()), DirOf(l)).present || Free(old(S())) != {})
      ensures forall g: nat :: g in held ==> phys[g] == old(phys[g])
      ensures page != 0 ==> held == old(held) - {f}
                            && forall k: Loc :: Look(S(), k) == if k == l then Own(Content(old(S()), f)) else Look(old(S()), k)
    {
      hide Aligned, Exclusive, Counts, PagesOk, KernelOk;
      ghost var m := S();
      HeldAlone(m, f);
      if !phys[0][DirOf(l)].present {
        var tmp := NewTable(DirOf(l));
        if tmp == 0 { return 0; }
      }
      ghost var n := S();
      PutExact(n, l, f);
      var table := phys[0][DirOf(l)].frame;
      phys[table] := phys[table][l.t := Fresh(f)];
      held := held - {f};
      assert S() == Put(n, l, f);
      page := f;
    }

    /** The page-fault handler for a write to a protected page. False if out of memory. */
    method UnWpPage(l: Loc) returns (ok: bool)
      requires Valid() && UserLoc(l) && Entry(S(), l).present
      modifies this`held, phys, memMap
      ensures Valid() && held == old(held) && forall d :: Dir(S(), d) == Dir(old(S()), d)
      ensures ok <==> CountedOnce(old(S()), Entry(old(S()), l).frame) || Free(old(S())) != {}
      ensures !ok ==> S() == old(S())
      ensures ok ==> Entry(S(), l).present && Entry(S(), l).writable
      ensures ok ==> forall k: Loc :: Look(S(), k) == if k == l then PrivateView(old(S()), l) else Look(old(S()), k)
    {
      hide Aligned, Exclusive, Counts, PagesOk, KernelOk;
      ghost var m := S();
      var table := phys[0][DirOf(l)].frame;
      var oldPage := phys[table][l.t].frame;
      if oldPage >= LOW { EntryCounted(m, l); }
      if oldPage >= LOW && memMap[oldPage - LOW] == 1 {
        phys[table] := phys[table][l.t := phys[table][l.t].(writable := true)];
        MarkOk(m, l, true, Entry(m, l).dirty);
        assert S() == Mark(m, l, true, Entry(m, l).dirty);
        return true;
      }
      ok := UnShare(l);
    }

    /** The copying half of UnWpPage. */
    method UnShare(l: Loc) returns (ok: bool)
      requires Valid() && UserLoc(l) && Entry(S(), l).present
      modifies this`held, phys, memMap
      ensures Valid() && held == old(held) && forall d :: Dir(S(), d) == Dir(old(S()), d)
      ensures ok <==> Free(old(S())) != {}
      ensures !ok ==> S() == old(S())
      ensures ok ==> Entry(S(), l).present && Entry(S(), l).writable
      ensures ok ==> forall k: Loc :: Look(S(), k) == if k == l then PrivateView(old(S()), l) else Look(old(S()), k)
    {
      hide Aligned, Exclusive, Counts, PagesOk, KernelOk;
      ghost var m := S();
      var table := phys[0][DirOf(l)].frame;
      var oldPage := phys[table][l.t].frame;
      var newPage := GetFreePage();
      if newPage == 0 { return false; }
      CopyOnWrite(m, l, newPage);
      assert oldPage == Entry(m, l).frame;
      ghost var n := CopiedPage(m, l, newPage);
      assert n.first == m.first;
      hide Inv, Entry, Look, TablesOk, CopiedPage, Writable;
      if oldPage >= LOW {
        memMap[oldPage - LOW] := memMap[oldPage - LOW] - 1;
      }
      phys[table] := phys[table][l.t := Fresh(newPage)];
      phys[newPage] := phys[oldPage];
      held := held - {newPage};
      assert S().phys == n.phys && S().count == n.count;
      assert S() == n;
      ok := true;
    }

    /** A task stores a word: the write fault if there is one, then the store itself. */
    method StoreWord(l: Loc, off: nat, w: Word) returns (ok: bool)
      requires Valid() && UserLoc(l) && Entry(S(), l).present && off < WORDS
      modifies this`held, phys, memMap
      ensures Valid() && held == old(held) && forall d :: Dir(S(), d) == Dir(old(S()), d)
      ensures ok <==> Entry(old(S()), l).writable || CountedOnce(old(S()), Entry(old(S()), l).frame) || Free(old(S())) != {}
      ensures !ok ==> S() == old(S())
      ensures ok ==> forall k: Loc :: Look(S(), k) ==
                                      if k == l then Own(PrivateView(old(S()), l).page[off := w]) else Look(old(S()), k)
    {
      hide Aligned, Exclusive, Counts, PagesOk, KernelOk;
      var table := phys[0][DirOf(l)].frame;
      ok := true;
      if !phys[table][l.t].writable {
        ok := UnWpPage(l);
        if !ok { return; }
      } else {
        WritableAlone(S(), l);
      }
      ghost var m := S();
      var e := phys[table][l.t];
      StoreOk(m, l, off, w);
      WritableAlone(m, l);
      phys[table] := phys[table][l.t := e.(dirty := true)];
      phys[e.frame] := phys[e.frame][off := w];
      assert S() == Store(m, l, off, w);
    }

    /** A fresh zero page at an unmapped location (the first touch of bss or stack). */
    method GetEmptyPage(l: Loc) returns (ok: bool)
      requires Valid() && UserLoc(l) && !Entry(S(), l).present
      modifies this`held, phys, memMap
      ensures Valid() && held == old(held) && OnlyDir(old(S()), S(), DirOf(l))
      ensures forall k: Loc :: Look(S(), k) == if ok && k == l then Own(Zeros()) else Look(old(S()), k)
      ensures ok <==> CanGrow(old(S()), l)
      ensures !ok ==> SameReferences(old(S()), S()) && memMap[..] == old(memMap[..])
    {
      hide Aligned, Exclusive, Counts, PagesOk, KernelOk, TablesOk, Free;
      ghost var m := S();
      var tmp := GetFreePage();
      if tmp == 0 { return false; }
      AllocOk(m, tmp);
      ghost var n := S();
      var put := PutPage(tmp, l);
      if put != 0 {
        assert Free(n) == {} ==> |Free(n)| == 0;
        return true;
      }
      ReleaseOk(S(), tmp);
      ok := PutBack(tmp);
      ok := false;
      CountersDetermined(m, S());
    }

    /** do_no_page without sharing: a new page filled by the kernel, then mapped. */
    method LoadPage(l: Loc, content: Page) returns (ok: bool)
      requires Valid() && UserLoc(l) && !Entry(S(), l).present
      modifies this`held, phys, memMap
      ensures Valid() && held == old(held) && OnlyDir(old(S()), S(), DirOf(l))
      ensures forall k: Loc :: Look(S(), k) == if ok && k == l then Own(content) else Look(old(S()), k)
      ensures ok <==> CanGrow(old(S()), l)
      ensures !ok ==> SameReferences(old(S()), S()) && memMap[..] == old(memMap[..])
    {
      hide Aligned, Exclusive, Counts, PagesOk, KernelOk, TablesOk;
      ghost var m := S();
      var page := GetFreePage();
      if page == 0 { return false; }
      AllocOk(m, page);
      FillOk(S(), page, content);
      ghost var a := S();
      phys[page] := content;
      assert S() == Fill(a, page, content);
      ghost var n := S();
      var put := PutPage(page, l);
      if put != 0 {
        assert Free(n) == {} ==> |Free(n)| == 0;
        return true;
      }
      ReleaseOk(S(), page);
      ok := PutBack(page);
      ok := false;
      CountersDetermined(m, S());
    }

    /** The end of TryToShare: protect the source entry, copy it, count the new reference. */
    method WriteProtectBoth(k: Loc, l: Loc, page: nat)
      requires Valid() && Entry(S(), k).present && !Entry(S(), l).present && k.slot != 0 && l.slot != 0 && l == k.(slot := l.slot)
      requires Writable(S(), l) && Writable(S(), k) && LOW <= page == Entry(S(), k).frame
      modifies phys, memMap
      ensures S() == Share(old(S()), k, l)
    {
      hide Aligned, Exclusive, Counts, KernelOk, Look, PagesOk;
      ghost var n := S();
      var from, table := phys[0][DirOf(k)].frame, phys[0][DirOf(l)].frame;
      ShareByWrites(n, k, l);
      phys[from] := phys[from][k.t := phys[from][k.t].(writable := false)];
      phys[table] := phys[table][l.t := phys[from][k.t]];
      memMap[page - LOW] := (memMap[page - LOW] + 1) % 256;
      assert S().phys == Share(n, k, l).phys;
    }

    /** Map the clean page that task `other` has at the same address, write-protected in both. */
    method TryToShare(l: Loc, other: nat) returns (r: ShareResult)
      requires Valid() && UserLoc(l) && 0 < other < NR_TASKS && other != l.slot
      modifies this`held, phys, memMap
      ensures Valid() && held == old(held) && OnlyDir(old(S()), S(), DirOf(l))
      ensures r == Exists ==> Entry(old(S()), l).present
      ensures r == NoMemory ==> S() == old(S()) && !Dir(S(), DirOf(l)).present && Free(S()) == {}
      ensures r == Shared ==> Dir(old(S()), DirOf(l)).present || Free(old(S())) != {}
      ensures r == NotShared <==> var e := Entry(old(S()), l.(slot := other)); !e.present || e.dirty || e.frame < LOW
      ensures forall k: Loc :: Look(S(), k) == Look(old(S()), if r == Shared && k == l then l.(slot := other) else k)
    {
      hide Aligned, Exclusive, Counts, KernelOk, Look;
      ghost var m := S();
      var k := l.(slot := other);
      if !phys[0][DirOf(k)].present { return NotShared; }
      var e := phys[phys[0][DirOf(k)].frame][k.t];
      if !e.present || e.dirty { return NotShared; }
      if e.frame >= phys.Length || e.frame < LOW { return NotShared; }
      if !phys[0][DirOf(l)].present {
        var tmp := NewTable(DirOf(l));
        if tmp == 0 { return NoMemory; }
      }
      ghost var n := S();
      var table := phys[0][DirOf(l)].frame;
      if phys[table][l.t].present { return Exists; }
      ShareOk(n, k, l);
      WriteProtectBoth(k, l, e.frame);
      r := Shared;
    }
  }

  // A frame above the first megabyte with a counter of one.
  predicate CountedOnce(m: Mem, f: nat) {
    LOW <= f < LOW + |m.count| && m.count[f - LOW] == 1
  }

  /** What a not-present fault needs: a frame for the page, and one for its table if there is none. */
  ghost predicate CanGrow(m: Mem, l: Loc) {
    |Free(m)| >= if Dir(m, DirOf(l)).present then 1 else 2
  }

  /** The page a task gets to itself when it writes. */
  function PrivateView(m: Mem, l: Loc): View {
    Own(Content(m, Entry(m, l).frame))
  }

  function CopiedPage(m: Mem, l: Loc, f: nat): Mem
    requires LOW <= f < |m.phys| && f < LOW + |m.count| && Writable(m, l)
  {
    var n := Fill(Alloc(m, f), f, Content(m, Entry(m, l).frame));
    if Writable(n, l) then Map(n, l, f) else n
  }

  lemma CopyOnWrite(m: Mem, l: Loc, f: nat)
    requires Inv(m) && UserLoc(l) && Entry(m, l).present && Managed(m, f) && m.count[f - LOW] == 0
    ensures Writable(m, l) && Entry(m, l).frame < |m.phys| && Entry(m, l).frame != f
    ensures Dir(m, DirOf(l)).frame != f && Dir(m, DirOf(l)).frame != Entry(m, l).frame
    ensures var n, was, table := CopiedPage(m, l, f), Entry(m, l).frame, Dir(m, DirOf(l)).frame;
      && Inv(n) && n.held == m.held - {f} == m.held
      && n.phys == m.phys[f := m.phys[was]][table := m.phys[table][l.t := Fresh(f)]]
      && n.count == (if was < LOW then m.count else m.count[was - LOW := m.count[was - LOW] - 1])[f - LOW := 1]
      && Entry(n, l) == Fresh(f) && (forall d :: Dir(n, d) == Dir(m, d))
      && forall k: Loc :: Look(n, k) == if k == l then PrivateView(m, l) else Look(m, k)
  {
    hide Aligned, Exclusive, Counts, KernelOk;
    WritableEntry(m, l);
    AllocOk(m, f);
    var was := Entry(m, l).frame;
    if was >= LOW { EntryCounted(m, l); }
    FillOk(Alloc(m, f), f, Content(m, was));
    var n := Fill(Alloc(m, f), f, Content(m, was));
    assert Writable(n, l);
    assert IsTable(m, Dir(m, DirOf(l)).frame);
    MapOk(n, l, f);
  }

  predicate UserLoc(l: Loc) {
    0 < l.slot < NR_TASKS && l.i < DIRS && l.t < WORDS
  }

  // Only directory entry `d` may have changed.
  ghost predicate OnlyDir(m: Mem, n: Mem, d: nat) {
    forall e: nat :: e != d ==> Dir(n, e) == Dir(m, e)
  }

  // Only task `slot` gained or lost page tables.
  ghost predicate OtherDirs(m: Mem, n: Mem, slot: nat) {
    forall d: nat :: !(DIRS * slot <= d < DIRS * slot + DIRS) ==> Dir(n, d) == Dir(m, d)
  }

  lemma RolledBack(m: Mem, c: Mem, n: Mem, from: nat, to: nat, dirs: nat, done: nat)
    requires Inv(m) && Inv(n) && TablesCopied(m, c, from, to, done) && done <= dirs && NoTables(m, to, dirs)
    requires dirs <= DIRS && 0 < to < NR_TASKS && from != to
    requires n.held == c.held && |n.phys| == |c.phys| && n.first == c.first
    requires forall d: nat :: Dir(n, d) == if DIRS * to <= d < DIRS * to + dirs && Dir(c, d).present then ZERO else Dir(c, d)
    requires forall l: Loc :: Entry(n, l) == if l.slot == to && l.i < dirs then ZERO else Entry(c, l)
    requires forall l: Loc :: Look(n, l) == if l.slot == to && l.i < dirs then Absent else Look(c, l)
    ensures SameReferences(m, n) && n.count == m.count
    ensures forall l: Loc :: Look(n, l) == Look(m, l)
    ensures forall d: nat :: !(DIRS * to <= d < DIRS * to + dirs) ==> Dir(n, d) == Dir(m, d)
  {
    hide Aligned, Exclusive, Counts, PagesOk, TablesOk, KernelOk;
    forall l: Loc | l.slot == to
      ensures Look(n, l) == Look(m, l) && Entry(n, l).present == Entry(m, l).present && (Entry(m, l).present ==> Entry(n, l).frame == Entry(m, l).frame)
    {
      if l.i < dirs {
        assert !HasTable(m, DirOf(l));
        assert Entry(m, l) == ZERO;
      }
    }
    CountersDetermined(m, n);
  }

  /** `n` is `m` with the first `i` page tables of task `from` copied to task `to`. */
  ghost predicate TablesCopied(m: Mem, n: Mem, from: nat, to: nat, i: nat) {
    && n.held == m.held && |n.phys| == |m.phys| && n.first == m.first && |Free(n)| + Tables(m, from, i) == |Free(m)|
    && (forall d: nat :: !(DIRS * to <= d < DIRS * to + i) ==> Dir(n, d) == Dir(m, d))
    && (forall l: Loc :: l.slot != to || l.i >= i ==> SameTarget(Entry(n, l), Entry(m, l)))
    && (forall l: Loc :: Look(n, l) == Look(m, if l.slot == to && l.i < i then l.(slot := from) else l))
  }

  lemma NothingCopied(m: Mem, from: nat, to: nat)
    ensures TablesCopied(m, m, from, to, 0)
  {
  }

  lemma TablesSame(m: Mem, c: Mem, n: Mem, from: nat, to: nat, i: nat)
    requires TablesCopied(m, c, from, to, i) && n == c
    ensures TablesCopied(m, n, from, to, i)
  {
  }

  // Before table `i`: it is still as at the start, and absent tables need no copying.
  lemma TablesNext(m: Mem, c: Mem, from: nat, to: nat, i: nat)
    requires TablesCopied(m, c, from, to, i) && i < DIRS && from != to && to != 0 && to < NR_TASKS && (from == 0 ==> i == 0)
    ensures Dir(c, DIRS * to + i) == Dir(m, DIRS * to + i) && Dir(c, DIRS * from + i) == Dir(m, DIRS * from + i)
    ensures !Dir(m, DIRS * to + i).present ==> forall l: Loc :: l.slot == to && l.i == i ==> Look(c, l) == Look(m, l) == Absent
    ensures !Dir(m, DIRS * to + i).present && !Dir(m, DIRS * from + i).present && from != 0 ==> TablesCopied(m, c, from, to, i + 1)
  {
    if !Dir(m, DIRS * to + i).present && !Dir(m, DIRS * from + i).present && from != 0 {
      forall l: Loc | l.i == i && (l.slot == to || l.slot == from) ensures Entry(m, l) == ZERO {}
    }
  }

  lemma TableDone(m: Mem, c: Mem, t: Mem, n: Mem, from: nat, to: nat, i: nat)
    requires TablesCopied(m, c, from, to, i) && CopiedUpTo(t, n, from, to, i, WORDS)
    requires |n.phys| == |t.phys| == |c.phys| && n.first == t.first == c.first && t.held == c.held
    requires forall d: nat :: d != DIRS * to + i ==> Dir(t, d) == Dir(c, d)
    requires forall l: Loc :: Entry(t, l) == Entry(c, l) && Look(t, l) == Look(c, l)
    requires |Free(t)| == |Free(c)| - 1 && Dir(m, DIRS * from + i).present
    ensures TablesCopied(m, n, from, to, i + 1)
  {
    forall l: Loc | l.slot == to && l.i == i
      ensures Look(n, l) == Look(m, l.(slot := from))
    {
      if l.t < WORDS {
        assert Look(n, l) == Look(t, l.(slot := from)) == Look(c, l.(slot := from));
      } else {
        assert Look(n, l) == Absent == Look(m, l.(slot := from));
      }
    }
  }

  /** `n` is `m` with the first `t` entries of table `i` of task `from` copied to task `to`. */
  ghost predicate CopiedUpTo(m: Mem, n: Mem, from: nat, to: nat, i: nat, t: nat) {
    && n.held == m.held && Free(n) == Free(m)
    && (forall d :: Dir(n, d) == Dir(m, d))
    && (forall l: Loc :: l.slot != to || l.i != i ==> SameTarget(Entry(n, l), Entry(m, l)))
    && (forall l: Loc :: Look(n, l) == Look(m, if l.slot == to && l.i == i && l.t < t then l.(slot := from) else l))
  }

  lemma CopyStart(m: Mem, from: nat, to: nat, i: nat)
    ensures CopiedUpTo(m, m, from, to, i, 0)
  {
  }

  lemma CopyPlaces(m: Mem, n: Mem, l: Loc, to: nat)
    requires Inv(n) && CopiedUpTo(m, n, l.slot, to, l.i, l.t) && l.t < WORDS && l.i < DIRS
    requires l.slot < NR_TASKS && 0 < to < NR_TASKS && l.slot != to
    requires Dir(m, DIRS * l.slot + l.i).present && Dir(m, DIRS * to + l.i).present && (l.slot == 0 ==> l.i == 0 && l.t < KERNEL_PAGES)
    requires Look(m, l.(slot := to)) == Absent
    ensures Dir(n, DirOf(l)).frame < |n.phys| && n.phys[Dir(n, DirOf(l)).frame][l.t] == Entry(n, l)
    ensures Writable(n, l.(slot := to)) && !Entry(n, l.(slot := to)).present && (l.slot != 0 ==> Writable(n, l))
    ensures Look(n, l) == Look(m, l) && Look(n, l.(slot := to)) == Absent
  {
    hide Aligned, Exclusive, Counts, PagesOk;
  }

  lemma CopyNext(m: Mem, n: Mem, l: Loc, to: nat)
    requires Inv(n) && CopiedUpTo(m, n, l.slot, to, l.i, l.t) && l.t < WORDS && l.i < DIRS
    requires l.slot < NR_TASKS && 0 < to < NR_TASKS && l.slot != to
    requires Dir(m, DIRS * l.slot + l.i).present && Dir(m, DIRS * to + l.i).present && (l.slot == 0 ==> l.i == 0 && l.t < KERNEL_PAGES)
    requires forall k: Loc :: k.slot == to && k.i == l.i ==> Look(m, k) == Absent
    ensures Dir(n, DirOf(l)).frame < |n.phys| && n.phys[Dir(n, DirOf(l)).frame][l.t] == Entry(n, l)
    ensures Writable(n, l.(slot := to)) && !Entry(n, l.(slot := to)).present
    ensures !Entry(n, l).present ==> CopiedUpTo(m, n, l.slot, to, l.i, l.t + 1)
    ensures Entry(n, l).present ==> (l.slot != 0 ==> Writable(n, l))
    ensures Entry(n, l).present ==> Inv(Share(n, l, l.(slot := to))) && CopiedUpTo(m, Share(n, l, l.(slot := to)), l.slot, to, l.i, l.t + 1)
  {
    hide Inv, Entry, Share, Writable;
    var k := l.(slot := to);
    assert Look(m, k) == Absent;
    CopyPlaces(m, n, l, to);
    if Entry(n, l).present {
      ShareOk(n, l, k);
      ShareKeepsFree(n, l, k);
    } else {
      assert Look(n, l) == Absent;
    }
    hide Look;
  }

  lemma ShareKeepsFree(m: Mem, l: Loc, k: Loc)
    requires Inv(m) && Entry(m, l).present && Writable(m, k) && (l.slot != 0 ==> Writable(m, l))
    ensures Free(Share(m, l, k)) == Free(m)
  {
    hide Aligned, Exclusive, Counts, PagesOk, Look, KernelOk, TablesOk;
    if Entry(m, l).frame >= LOW { EntryCounted(m, l); }
  }

  lemma CopyDone(m: Mem, n: Mem, from: nat, to: nat, i: nat, nr: nat)
    requires CopiedUpTo(m, n, from, to, i, nr)
    requires nr == WORDS || (from == 0 && nr == KERNEL_PAGES && to != 0 && i == 0)
    requires forall k: Loc :: k.slot == to && k.i == i ==> Look(m, k) == Absent
    ensures CopiedUpTo(m, n, from, to, i, WORDS)
  {
    forall l: Loc | l.slot == to && l.i == i && nr <= l.t
      ensures Look(n, l) == Absent && Look(m, l.(slot := from)) == Absent
    {
    }
  }

  // The same page, perhaps with different rights.
  predicate SameTarget(a: Word, b: Word) {
    a.present == b.present && a.frame == b.frame
  }

  /** The two writes and the increment of copy_page_tables; the byte counter does not wrap. */
  lemma ShareByWrites(m: Mem, l: Loc, k: Loc)
    requires Inv(m) && Entry(m, l).present && !Entry(m, k).present
    requires Writable(m, k) && (l.slot == 0 ==> DirOf(l) == 0)
    requires k.slot != 0 && k == l.(slot := k.slot)
    ensures Inv(Share(m, l, k))
    ensures l.i < DIRS && l.t < WORDS
    ensures var f, g, e := Dir(m, DirOf(l)).frame, Dir(m, DirOf(k)).frame, Entry(m, l).(writable := false);
      f < |m.phys| && g < |m.phys| && m.phys[f][l.t] == Entry(m, l) &&
      var p := m.phys[g := m.phys[g][k.t := e]];
      if e.frame < LOW then Share(m, l, k) == m.(phys := p)
      else && e.frame < LOW + PAGING_PAGES
           && Share(m, l, k) == m.(phys := p[f := p[f][l.t := e]], count := m.count[e.frame - LOW := (m.count[e.frame - LOW] + 1) % 256])
  {
    hide Aligned, Exclusive, Counts, PagesOk, Look;
    ShareOk(m, l, k);
    var f, g, e := Dir(m, DirOf(l)).frame, Dir(m, DirOf(k)).frame, Entry(m, l).(writable := false);
    if e.frame >= LOW {
      EntryCounted(m, l);
      assert l.slot != 0 && f != g;
      var p := m.phys[g := m.phys[g][k.t := e]];
      assert p[f := p[f][l.t := e]] == m.phys[f := m.phys[f][l.t := e]][g := m.phys[g][k.t := e]];
    }
  }

  lemma EntryCounted(m: Mem, l: Loc)
    requires Inv(m) && Entry(m, l).present && Entry(m, l).frame >= LOW
    ensures Managed(m, Entry(m, l).frame) && 1 <= m.count[Entry(m, l).frame - LOW] < NR_TASKS
  {
    var f := Entry(m, l).frame;
    InRefs(m, f, l);
    Sequences.SubsetSize({l}, Refs(m, f));
    CountBounded(m, f);
  }

  lemma TableCounted(m: Mem, d: nat)
    requires Inv(m) && HasTable(m, d)
    ensures Managed(m, Dir(m, d).frame) && m.count[Dir(m, d).frame - LOW] == 1
  {
    var f := Dir(m, d).frame;
    assert IsTable(m, f);
    forall l ensures l !in Refs(m, f) { InRefs(m, f, l); }
    assert Refs(m, f) == {};
  }
}
