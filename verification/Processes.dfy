/**
  Tasks over the memory manager: fork, exit, exec, page faults and stores
  (linux-0.11/kernel/fork.c, linux-0.11/mm/memory.c, linux-0.11/fs/exec.c),
  proved to be indistinguishable from tasks that own private memories.
 */
module Processes {
  import opened PageTables
  import opened PageSteps
  import opened Memory
  import opened Tasks
  import Sequences

  class Processes {
    const mem: Memory
    const tasks: array<Task>

    ghost predicate Valid()
      reads this, mem, mem.phys, mem.memMap, tasks
    {
      mem.Valid() && TasksOk(mem.S(), tasks[..])
    }

    ghost function Spaces(): Spaces
      reads this, mem, mem.phys, mem.memMap
    {
      SpacesOf(mem.S())
    }

    constructor (mem: Memory)
      requires mem.Valid() && forall d :: !HasTable(mem.S(), d)
      ensures Valid() && this.mem == mem && fresh(tasks)
      ensures tasks[..] == [Task(0, 1)] + seq(NR_TASKS - 1, i => NoTask) && Leaked(St()) == mem.held
    {
      this.mem := mem;
      tasks := new Task[NR_TASKS](i => if i == 0 then Task(0, 1) else NoTask);
      new;
      assert tasks[..] == [Task(0, 1)] + seq(NR_TASKS - 1, i => NoTask);
      assert forall d :: UserDir(d) ==> !HasTable(mem.S(), d);
    }

    predicate Runs(slot: nat)
      reads this, tasks
    {
      Running(tasks[..], slot)
    }

    ghost function St(): State
      reads this, mem, mem.phys, mem.memMap, tasks
    {
      State(mem.S(), tasks[..])
    }

    method FindEmptyProcess() returns (slot: nat)
      requires Valid()
      ensures slot == 0 ==> AllRun(tasks[..])
      ensures slot != 0 ==> slot < NR_TASKS && !Runs(slot) && forall s :: 0 < s < slot ==> Running(tasks[..], s)
    {
      slot := 1;
      while slot < NR_TASKS
        invariant 1 <= slot <= NR_TASKS
        invariant forall s :: 0 < s < slot ==> Running(tasks[..], s)
      {
        if tasks[slot].NoTask? { return; }
        slot := slot + 1;
      }
      slot := 0;
    }

    /** sys_fork: 0 for EAGAIN, else the child, which finds what its parent finds. */
    method Fork(parent: nat) returns (child: nat)
      requires Valid() && Runs(parent)
      modifies mem, mem.phys, mem.memMap, tasks
      ensures Valid()
      ensures child != 0 ==>
        && child < NR_TASKS && !old(Runs(child)) && Runs(child) && tasks[child].dirs == old(tasks[parent].dirs)
        && tasks[..] == old(tasks[..])[child := tasks[child]] && (forall s :: 0 < s < child ==> Running(old(tasks[..]), s))
        && tasks[child].page !in old(mem.held) && mem.held == old(mem.held) + {tasks[child].page}
        && Spaces() == After(old(Spaces()), Op.Fork(parent), Forked(child), [])
      ensures child == 0 <==> AllRun(old(tasks[..])) || |Free(old(mem.S()))| < 1 + Tables(old(mem.S()), parent, old(tasks[parent]).dirs)
      ensures child == 0 ==>
        && tasks[..] == old(tasks[..]) && Spaces() == old(Spaces())
        && SameReferences(old(mem.S()), mem.S()) && mem.memMap[..] == old(mem.memMap[..])
    {
      child := FindEmptyProcess();
      if child == 0 { return; }
      hide TasksOk;
      var ok := ForkInto(parent, child);
      if !ok { child := 0; }
    }

    // copy_process, for a slot that was found.
    method ForkInto(parent: nat, child: nat) returns (ok: bool)
      requires Valid() && Runs(parent) && 0 < child < NR_TASKS && !Runs(child)
      modifies mem, mem.phys, mem.memMap, tasks
      ensures Valid() && (ok <==> |Free(old(mem.S()))| >= 1 + Tables(old(mem.S()), parent, old(tasks[parent]).dirs))
      ensures ok ==>
        && Runs(child) && tasks[child].dirs == old(tasks[parent].dirs) && tasks[..] == old(tasks[..])[child := tasks[child]]
        && tasks[child].page !in old(mem.held) && mem.held == old(mem.held) + {tasks[child].page}
        && Spaces() == After(old(Spaces()), Op.Fork(parent), Forked(child), [])
      ensures !ok ==>
        && tasks[..] == old(tasks[..]) && Spaces() == old(Spaces())
        && SameReferences(old(mem.S()), mem.S()) && mem.memMap[..] == old(mem.memMap[..])
    {
      ghost var m, was := mem.S(), tasks[..];
      ParentOk(m, was, parent, child);
      hide Inv, TasksOk, Look, Entry, Free, SpacesOf, After, Tables, Release;
      var page := mem.GetFreePage();
      if page == 0 { return false; }
      AllocOk(m, page);
      var dirs := tasks[parent].dirs;
      TablesKept(m, mem.S(), parent, dirs);
      tasks[child] := Task(page, dirs);
      ghost var a := mem.S();
      ok := mem.CopyMem(parent, child, dirs);
      if ok {
        ForkedOk(m, a, mem.S(), was, parent, child, page, dirs);
      } else {
        ghost var c := mem.S();
        tasks[child] := NoTask;
        var back := mem.PutBack(page);
        assert tasks[..] == was;
        ForkUndone(m, c, was, child, page);
      }
    }

    /** do_exit and the parent's release: the address space, then the task structure. */
    method Exit(slot: nat)
      requires Valid() && Runs(slot) && 0 < slot
      modifies mem, mem.phys, mem.memMap, tasks
      ensures Valid() && tasks[..] == old(tasks[..])[slot := NoTask] && mem.held == old(mem.held) - {old(tasks[slot]).page}
      ensures Spaces() == After(old(Spaces()), Op.Exit(slot), Done, [])
    {
      hide KernelOk, TablesOk, PagesOk, Aligned, Exclusive, Counts, HeldOk, Look;
      ghost var m := mem.S();
      var Task(page, dirs) := tasks[slot];
      assert TaskOk(m, slot, tasks[slot]);
      var ok := mem.FreePageTables(slot, dirs);
      ghost var f := mem.S();
      OutsideIsAbsent(m, slot, dirs);
      ReleaseOk(f, page);
      tasks[slot] := NoTask;
      ok := mem.PutBack(page);
      SameLooks(f, mem.S());
      TasksAfter(m, mem.S(), old(tasks[..]), slot, NoTask);
      SameSpaces(m, mem.S(), Op.Exit(slot), Done, []);
    }

    /** A store, with its write fault. False if the fault ran out of memory. */
    method Store(l: Loc, off: nat, w: Word) returns (ok: bool)
      requires Valid() && Addressable(tasks[..], l) && Look(mem.S(), l) != Absent && off < WORDS
      modifies mem, mem.phys, mem.memMap
      ensures Valid() && mem.held == old(mem.held)
      ensures var m := old(mem.S()); ok <==> Entry(m, l).writable || CountedOnce(m, Entry(m, l).frame) || Free(m) != {}
      ensures Spaces() == After(old(Spaces()), Op.Store(l, off, w), if ok then Done else Refused, old(mem.phys[..]))
    {
      hide KernelOk, TablesOk, PagesOk, Aligned, Exclusive, Counts, HeldOk;
      ghost var m := mem.S();
      ok := mem.StoreWord(l, off, w);
      TasksAfter(m, mem.S(), tasks[..], l.slot, tasks[l.slot]);
      assert tasks[..][l.slot := tasks[l.slot]] == tasks[..];
      StoredView(m, l, off, w);
      SameSpaces(m, mem.S(), Op.Store(l, off, w), if ok then Done else Refused, m.phys);
    }

    /** A not-present fault outside the executable: a zero page. */
    method Touch(l: Loc) returns (ok: bool)
      requires Valid() && Addressable(tasks[..], l) && Look(mem.S(), l) == Absent
      modifies mem, mem.phys, mem.memMap
      ensures Valid() && mem.held == old(mem.held) && (ok <==> CanGrow(old(mem.S()), l))
      ensures Spaces() == After(old(Spaces()), Op.Touch(l), if ok then Done else Refused, [])
    {
      hide KernelOk, TablesOk, PagesOk, Aligned, Exclusive, Counts, HeldOk;
      ghost var m := mem.S();
      ok := mem.GetEmptyPage(l);
      Grown(m, mem.S(), tasks[..], l);
      SameSpaces(m, mem.S(), Op.Touch(l), if ok then Done else Refused, []);
    }

    /** A not-present fault served from the executable. */
    method Load(l: Loc, content: Page) returns (ok: bool)
      requires Valid() && Addressable(tasks[..], l) && Look(mem.S(), l) == Absent
      modifies mem, mem.phys, mem.memMap
      ensures Valid() && mem.held == old(mem.held) && (ok <==> CanGrow(old(mem.S()), l))
      ensures Spaces() == After(old(Spaces()), Op.Load(l, content), if ok then Done else Refused, [])
    {
      hide KernelOk, TablesOk, PagesOk, Aligned, Exclusive, Counts, HeldOk;
      ghost var m := mem.S();
      ok := mem.LoadPage(l, content);
      Grown(m, mem.S(), tasks[..], l);
      SameSpaces(m, mem.S(), Op.Load(l, content), if ok then Done else Refused, []);
    }

    /** A not-present fault served by another task's clean page. */
    method Borrow(l: Loc, other: nat) returns (r: ShareResult)
      requires Valid() && Addressable(tasks[..], l) && Look(mem.S(), l) == Absent && 0 < other && Runs(other) && other != l.slot
      modifies mem, mem.phys, mem.memMap
      ensures Valid() && mem.held == old(mem.held) && r != Exists
      ensures r != NotShared ==> (r == NoMemory <==> Free(old(mem.S())) == {} && !Dir(old(mem.S()), DirOf(l)).present)
      ensures r == NotShared <==> Unshareable(Entry(old(mem.S()), l.(slot := other)))
      ensures Spaces() == After(old(Spaces()), Op.Borrow(l, other), if r == Shared then Done else Refused, [])
    {
      hide KernelOk, TablesOk, PagesOk, Aligned, Exclusive, Counts, HeldOk;
      ghost var m := mem.S();
      r := mem.TryToShare(l, other);
      Grown(m, mem.S(), tasks[..], l);
      SameSpaces(m, mem.S(), Op.Borrow(l, other), if r == Shared then Done else Refused, []);
    }

    /** The pages copy_strings fills, the highest first; none if memory runs out. */
    method CollectPages(args: seq<Page>) returns (pages: seq<nat>)
      requires Valid()
      modifies mem, mem.phys, mem.memMap
      ensures Valid() && (forall d :: Dir(mem.S(), d) == Dir(old(mem.S()), d))
      ensures forall l: Loc :: Look(mem.S(), l) == Look(old(mem.S()), l)
      ensures |pages| == if |Free(old(mem.S()))| < |args| then 0 else |args|
      ensures |pages| == |args| ==> PagesHeld(mem.S(), old(mem.held), pages, args)
                                    && mem.held == old(mem.held) + Sequences.Members(pages)
      ensures |pages| == |args| ==> |Free(mem.S())| + |args| == |Free(old(mem.S()))|
      ensures |pages| != |args| ==> mem.held == old(mem.held) && mem.memMap[..] == old(mem.memMap[..])
    {
      hide Inv, Look, Entry, PagesHeld, TasksOk, Alloc, Fill, Free, Sequences.Members;
      ghost var m := mem.S();
      pages := [];
      NothingHeld(m, args);
      var k := |args|;
      while k > 0
        invariant 0 <= k == |args| - |pages| <= |args|
        invariant mem.Valid() && PagesHeld(mem.S(), m.held, pages, args[k..]) && mem.held == m.held + Sequences.Members(pages)
        invariant forall d :: Dir(mem.S(), d) == Dir(m, d)
        invariant forall l: Loc :: Entry(mem.S(), l) == Entry(m, l) && Look(mem.S(), l) == Look(m, l)
        invariant |Free(mem.S())| + |pages| == |Free(m)|
      {
        k := k - 1;
        ghost var c := mem.S();
        var page := TakePage(args[k]);
        if page == 0 {
          ReleaseAll(pages, m.held, args[k + 1..]);
          Returned(m, mem.S());
          TasksStay(m, mem.S(), tasks[..]);
          pages := [];
          return;
        }
        Collected(c, mem.S(), m.held, pages, args[k + 1..], page, args[k]);
        pages := [page] + pages;
        assert args[k..] == [args[k]] + args[k + 1..];
      }
      assert args[0..] == args;
      TasksStay(m, mem.S(), tasks[..]);
    }

    // A frame, filled.
    method TakePage(arg: Page) returns (page: nat)
      requires mem.Valid()
      modifies mem, mem.phys, mem.memMap
      ensures mem.Valid() && (page == 0 <==> Free(old(mem.S())) == {}) && (page == 0 ==> mem.S() == old(mem.S()))
      ensures forall d :: Dir(mem.S(), d) == Dir(old(mem.S()), d)
      ensures forall l: Loc :: Entry(mem.S(), l) == Entry(old(mem.S()), l) && Look(mem.S(), l) == Look(old(mem.S()), l)
      ensures page != 0 ==>
        && page !in old(mem.held) && mem.held == old(mem.held) + {page} && |Free(mem.S())| == |Free(old(mem.S()))| - 1
        && Content(mem.S(), page) == arg && forall g: nat :: g != page ==> Content(mem.S(), g) == Content(old(mem.S()), g)
    {
      hide KernelOk, TablesOk, PagesOk, Aligned, Exclusive, Counts, HeldOk, Look, Entry;
      ghost var c := mem.S();
      page := mem.GetFreePage();
      if page == 0 { return; }
      AllocOk(c, page);
      ghost var a := mem.S();
      FillOk(a, page, arg);
      mem.phys[page] := arg;
      assert mem.S() == Fill(a, page, arg);
    }

    method ReleaseAll(pages: seq<nat>, ghost base: set<nat>, ghost args: seq<Page>)
      requires mem.Valid() && PagesHeld(mem.S(), base, pages, args) && mem.held == base + Sequences.Members(pages)
      modifies mem, mem.memMap
      ensures mem.Valid() && mem.held == base
      ensures forall d :: Dir(mem.S(), d) == Dir(old(mem.S()), d)
      ensures forall l: Loc :: Entry(mem.S(), l) == Entry(old(mem.S()), l)
      ensures forall l: Loc :: Look(mem.S(), l) == Look(old(mem.S()), l)
    {
      hide Inv, Look, Entry, PagesHeld, Release, Sequences.Members;
      ghost var was := mem.S();
      assert pages[0..] == pages;
      for i := 0 to |pages|
        invariant mem.Valid() && mem.held == base + Sequences.Members(pages[i..])
        invariant forall d :: Dir(mem.S(), d) == Dir(old(mem.S()), d)
        invariant forall l: Loc :: Entry(mem.S(), l) == Entry(old(mem.S()), l)
        invariant forall l: Loc :: Look(mem.S(), l) == Look(old(mem.S()), l)
      {
        ghost var c := mem.S();
        HeldFrom(was, base, pages, args, i);
        ReleaseOk(c, pages[i]);
        var ok := mem.PutBack(pages[i]);
        Freed(c, mem.S(), pages[i]);
      }
    }

    /** The page loop of change_ldt. */
    method PlacePages(slot: nat, args: seq<Page>, pages: seq<nat>, ghost base: set<nat>) returns (r: Result)
      requires Valid() && Runs(slot) && 0 < slot < NR_TASKS && tasks[slot].dirs == DIRS && |args| <= MAX_ARG_PAGES && tasks.Length == NR_TASKS
      requires PagesHeld(mem.S(), base, pages, args) && mem.held == base + Sequences.Members(pages) && |pages| == |args|
      requires Structures(tasks[..]) <= base
      requires (forall l: Loc :: l.slot == slot ==> Look(mem.S(), l) == Absent) && NoTables(mem.S(), slot, DIRS)
      modifies mem, mem.phys, mem.memMap
      ensures Valid() && r == if args != [] && Free(old(mem.S())) == {} then Lost else Done
      ensures mem.held == if r == Done then base else base + Sequences.Members(pages)
      ensures args == [] ==> mem.S() == old(mem.S())
      ensures forall l: Loc :: Look(mem.S(), l) == if r == Done && IsArg(slot, |args|, l) then Own(args[l.t + |args| - WORDS])
                                                   else Look(old(mem.S()), l)
    {
      hide Inv, Look, Entry, Free, PlacedFrom, PagesHeld, TasksOk, Sequences.Members, Structures;
      ghost var m := mem.S();
      var k := |args|;
      r := Done;
      NothingPlaced(m, slot, args);
      assert pages[..k] == pages && args[..k] == args;
      while k > 0
        invariant 0 <= k <= |args| && (r == Done || r == Lost)
        invariant mem.Valid() && PagesHeld(mem.S(), base, pages[..k], args[..k])
        invariant base <= mem.held && (r == Done ==> mem.held == base + Sequences.Members(pages[..k]))
        invariant PlacedFrom(m, mem.S(), slot, args, k, r)
      {
        k := k - 1;
        var l := Loc(slot, DIRS - 1, WORDS - |args| + k);
        ghost var c := mem.S();
        NextFree(m, c, slot, args, k, r, l);
        HeldAt(c, base, pages, args, k);
        var page := mem.PutPage(pages[k], l);
        PlaceStep(m, c, mem.S(), slot, args, k, r, l, page != 0);
        assert pages[..k + 1] == pages[..k] + [pages[k]];
        HeldBefore(c, mem.S(), base, pages, args, k);
        if page == 0 { r := Lost; }
      }
      Placed(m, mem.S(), slot, args, r);
      StillTasks(m, mem.S(), tasks[..], slot);
    }

    /** do_execve: argument pages first, then the old address space goes and the
        pages are mapped at the top of the new one. Lost: no memory for the page
        table they need, which the source does not notice. */
    method Exec(slot: nat, args: seq<Page>) returns (r: Result)
      requires Valid() && Runs(slot) && 0 < slot && |args| <= MAX_ARG_PAGES
      modifies mem, mem.phys, mem.memMap, tasks
      ensures Valid()
      ensures r == if |Free(old(mem.S()))| < |args| then Refused else if Loses(old(mem.S()), slot, |args|) then Lost else Done
      ensures if r == Lost then old(mem.held) <= mem.held && |mem.held - old(mem.held)| == |args| else mem.held == old(mem.held)
      ensures r == Refused ==> mem.memMap[..] == old(mem.memMap[..])
      ensures args == [] ==> NoTables(mem.S(), slot, DIRS)
      ensures tasks[..] == if r == Refused then old(tasks[..]) else old(tasks[..])[slot := old(tasks[slot]).(dirs := DIRS)]
      ensures Spaces() == After(old(Spaces()), Op.Exec(slot, args), r, [])
    {
      ghost var m, was := mem.S(), tasks[..];
      StructuresHeld(St());
      assert tasks.Length == NR_TASKS;
      StructuresKept(was, slot, DIRS);
      hide Inv, TasksOk, Look, Entry, Free, SpacesOf, After, Tables, PagesHeld, Sequences.Members, Structures;
      var pages := CollectPages(args);
      if |pages| < |args| {
        r := Refused;
        RefusedSpaces(m, Op.Exec(slot, args), []);
        SameViews(m, mem.S());
        return;
      }
      ghost var c := mem.S();
      TablesKept(m, c, slot, DIRS);
      PageCount(c, m.held, pages, args);
      Vacate(slot);
      ghost var v := mem.S();
      StillHeld(c, v, m.held, pages, args);
      r := PlacePages(slot, args, pages, m.held);
      ExecSpaces(m, v, mem.S(), slot, args, r);
      NoTablesNone(v, slot, DIRS);
    }

    // The old address space goes; the new one has room for every address of a task.
    method Vacate(slot: nat)
      requires Valid() && Runs(slot) && 0 < slot
      modifies mem, mem.phys, mem.memMap, tasks
      ensures Valid() && mem.held == old(mem.held) && NoTables(mem.S(), slot, DIRS)
      ensures Free(mem.S()) == {} <==> Free(old(mem.S())) == {} && Tables(old(mem.S()), slot, DIRS) == 0
      ensures forall f: nat :: f in mem.held ==> Content(mem.S(), f) == Content(old(mem.S()), f)
      ensures tasks[..] == old(tasks[..])[slot := old(tasks[slot]).(dirs := DIRS)]
      ensures forall l: Loc :: Look(mem.S(), l) == if l.slot == slot then Absent else Look(old(mem.S()), l)
    {
      hide KernelOk, TablesOk, PagesOk, Aligned, Exclusive, Counts, HeldOk, Look;
      ghost var c := mem.S();
      var dirs := tasks[slot].dirs;
      var ok := mem.FreePageTables(slot, dirs);
      tasks[slot] := tasks[slot].(dirs := DIRS);
      OutsideIsAbsent(c, slot, dirs);
      VacatedFree(c, mem.S(), slot, dirs);
      TasksAfter(c, mem.S(), old(tasks[..]), slot, tasks[slot]);
    }

    /** One operation, whichever it is. */
    method Do(op: Op) returns (r: Result)
      requires Valid() && Allowed(St(), op)
      modifies mem, mem.phys, mem.memMap, tasks
      ensures Valid() && Follows(old(St()), St(), op, r)
      ensures Undisturbed(old(mem.S()), mem.S(), op, r)
    {
      hide Inv, TasksOk, SpacesOf, After, ViewAfter, Look, Entry, Free, Undisturbed;
      ghost var m := mem.S();
      match op {
        case Fork(parent) =>
          var child := Fork(parent);
          r := if child == 0 then Refused else Forked(child);
          if child == 0 { RefusedSpaces(m, op, m.phys); }
          KernelUnused(SpacesOf(m), op, r, [], m.phys);
        case Exit(slot) =>
          Exit(slot);
          r := Done;
          KernelUnused(SpacesOf(m), op, r, [], m.phys);
        case Exec(slot, args) =>
          r := Exec(slot, args);
          KernelUnused(SpacesOf(m), op, r, [], m.phys);
        case _ =>
          r := DoFault(op);
      }
      OthersFind(m, mem.S(), op, r);
    }

    // The operations that one instruction of a program causes.
    method DoFault(op: Op) returns (r: Result)
      requires Valid() && Allowed(St(), op) && (op.Store? || op.Touch? || op.Load? || op.Borrow?)
      modifies mem, mem.phys, mem.memMap
      ensures Valid() && Follows(old(St()), St(), op, r)
    {
      hide Inv, TasksOk, SpacesOf, After, ViewAfter, Look, Entry, Free;
      ghost var m := mem.S();
      match op {
        case Store(l, off, w) =>
          var ok := Store(l, off, w);
          r := if ok then Done else Refused;
        case Touch(l) =>
          var ok := Touch(l);
          r := if ok then Done else Refused;
          KernelUnused(SpacesOf(m), op, r, [], m.phys);
        case Load(l, content) =>
          var ok := Load(l, content);
          r := if ok then Done else Refused;
          KernelUnused(SpacesOf(m), op, r, [], m.phys);
        case Borrow(l, other) =>
          var s := Borrow(l, other);
          r := if s == Shared then Done else Refused;
          KernelUnused(SpacesOf(m), op, r, [], m.phys);
      }
    }

    method Mapped(l: Loc) returns (b: bool)
      requires Valid() && UserLoc(l)
      ensures b <==> Look(mem.S(), l) != Absent
    {
      hide KernelOk, PagesOk, Aligned, Exclusive, Counts, HeldOk;
      b := mem.phys[0][DirOf(l)].present;
      if b {
        assert HasTable(mem.S(), DirOf(l));
        b := mem.phys[mem.phys[0][DirOf(l)].frame][l.t].present;
      }
    }

    method IsAllowed(op: Op) returns (b: bool)
      requires Valid()
      ensures b <==> Allowed(St(), op)
    {
      match op {
        case Fork(parent) => b := Runs(parent);
        case Exit(slot) => b := Runs(slot) && 0 < slot;
        case Exec(slot, args) => b := Runs(slot) && 0 < slot && |args| <= MAX_ARG_PAGES;
        case Store(l, off, w) =>
          b := UserLoc(l) && Runs(l.slot) && l.i < tasks[l.slot].dirs && off < WORDS;
          if b { b := Mapped(l); }
        case Touch(l) =>
          b := UserLoc(l) && Runs(l.slot) && l.i < tasks[l.slot].dirs;
          if b { b := Mapped(l); b := !b; }
        case Load(l, content) =>
          b := UserLoc(l) && Runs(l.slot) && l.i < tasks[l.slot].dirs;
          if b { b := Mapped(l); b := !b; }
        case Borrow(l, other) =>
          b := UserLoc(l) && Runs(l.slot) && l.i < tasks[l.slot].dirs && 0 < other && Runs(other) && other != l.slot;
          if b { b := Mapped(l); b := !b; }
      }
    }

    /** Any run: the tasks never notice that they share memory, and no counter is ever wrong. */
    method Run(ops: seq<Op>) returns (ghost states: seq<State>, ghost events: seq<Event>)
      requires Valid()
      modifies mem, mem.phys, mem.memMap, tasks
      ensures Valid() && |events| == |ops| && |states| == |ops| + 1 && states[0] == old(St()) && states[|ops|] == St()
      ensures forall k: nat :: k < |ops| ==> RunAt(states, events, ops, k)
      ensures Spaces() == AfterAll(old(Spaces()), events)
      ensures forall k: nat :: k <= |ops| ==> |Leaked(states[k])| == |Leaked(old(St()))| + ArgsLost(events[..k])
    {
      hide Inv, TasksOk, SpacesOf, After, ViewAfter, Follows, Ok, Leaked;
      states, events := [St()], [];
      for k := 0 to |ops|
        invariant Valid() && |events| == k && |states| == k + 1 && states[0] == old(St()) && states[k] == St()
        invariant forall j: nat :: j < k ==> RunAt(states, events, ops, j)
        invariant Spaces() == AfterAll(old(Spaces()), events)
      {
        var r := Try(ops[k]);
        ghost var e := Event(ops[k], r, states[k].mem.phys);
        AfterOne(old(Spaces()), events, e);
        ghost var states0, events0 := states, events;
        states, events := states + [St()], events + [e];
        forall j: nat | j < k + 1 ensures RunAt(states, events, ops, j) {
          if j < k { assert RunAt(states0, events0, ops, j); }
        }
      }
      forall k: nat | k <= |ops| ensures |Leaked(states[k])| == |Leaked(states[0])| + ArgsLost(events[..k]) {
        LeaksExactly(states, events, ops, k);
      }
    }

    // An operation that is not allowed is refused.
    method Try(op: Op) returns (r: Result)
      requires Valid()
      modifies mem, mem.phys, mem.memMap, tasks
      ensures Valid() && Ok(old(St())) && Follows(old(St()), St(), op, r)
      ensures Spaces() == After(old(Spaces()), op, r, old(mem.phys[..]))
    {
      hide Inv, TasksOk, SpacesOf, After, ViewAfter, Allowed, Ends, TasksFollow;
      var allowed := IsAllowed(op);
      r := Refused;
      if allowed { r := Do(op); } else { RefusedSpaces(mem.S(), op, mem.phys[..]); }
    }
  }

  // ---------- exec can lose its arguments ----------

  function BootFrames(): (frames: seq<Page>)
    ensures |frames| == LOW + 2
  {
    var directory := Zeros()[0 := Word(1, false, false, true, 0)];
    seq<Page>(LOW + 2, i => if i == 0 then directory else Zeros())
  }

  lemma BootFramesOk(boot: Mem)
    requires boot == Mem(BootFrames(), [], LOW, {})
    ensures KernelOk(boot) && forall d :: !HasTable(boot, d)
  {
    forall l: Loc ensures !Entry(boot, l).present {}
  }

  /** Without page tables a frame is free exactly if the kernel does not hold it. */
  lemma TwoFrames(m: Mem)
    requires Inv(m) && m.first == LOW && |m.phys| == LOW + 2 && forall d :: !HasTable(m, d)
    ensures forall k: nat :: k in Free(m) <==> k < 2 && k + LOW !in m.held
  {
    forall k: nat | k < PAGING_PAGES ensures k in Free(m) <==> k < 2 && k + LOW !in m.held {
      var f := k + LOW;
      forall l: Loc ensures l !in Refs(m, f) { InRefs(m, f, l); }
      assert Refs(m, f) == {} && !IsTable(m, f);
      assert m.count[f - LOW] == if Managed(m, f) then Owners(m, f) else USED;
    }
  }

  lemma NoTableAnywhere(m: Mem, tasks: seq<Task>)
    requires TasksOk(m, tasks) && forall s :: 0 < s < NR_TASKS && tasks[s].Task? ==> NoTables(m, s, DIRS)
    ensures forall d :: !HasTable(m, d)
  {
    forall d: nat ensures !HasTable(m, d) {
      if UserDir(d) {
        var s := d / DIRS;
        assert TaskOk(m, s, tasks[s]);
      }
    }
  }

  /** Two frames besides the first megabyte; the first task forks, and the child takes them both. */
  method TwoTasks() returns (p: Processes)
    ensures fresh(p) && fresh(p.mem) && fresh(p.mem.phys) && fresh(p.mem.memMap) && fresh(p.tasks)
    ensures p.Valid() && p.mem.first == LOW && p.mem.phys.Length == LOW + 2
    ensures p.tasks.Length == NR_TASKS && p.tasks[1].Task? && (forall s :: 1 < s < NR_TASKS ==> p.tasks[s].NoTask?)
    ensures p.mem.held == {p.tasks[1].page} && Leaked(p.St()) == {}
  {
    hide Inv, Look, Entry, Free, SpacesOf, After, TasksOk;
    BootFramesOk(Mem(BootFrames(), [], LOW, {}));
    var mem := new Memory(BootFrames(), LOW);
    p := new Processes(mem);
    TwoFrames(mem.S());
    assert Free(mem.S()) == {0, 1};
    KernelTable(mem.S());
    assert Tables(mem.S(), 0, 1) == Tables(mem.S(), 0, 0) + 1;
    ghost var was := p.tasks[..];
    assert !Running(was, 1) && Structures(was) == {};
    var child := p.Fork(0);
    assert child == 1;
    StructuresAdded(was, 1, p.tasks[1]);
  }

  /** A task that has no page table left, and one free frame: an exec with one page of arguments loses it, and its frame
      stays counted for good. */
  method LoseArguments() returns (p: Processes, r: Result)
    ensures p.Valid() && r == Lost && |Leaked(p.St())| == 1
  {
    hide Inv, Look, Entry, Free, SpacesOf, After, TasksOk, Structures;
    p := TwoTasks();
    ghost var st := p.St();
    StructuresKept(st.tasks, 1, DIRS);
    var gone := p.Exec(1, []);
    assert gone == Done;
    ghost var t := p.St();
    OneFree(t);
    StructuresHeld(t);
    StructuresKept(t.tasks, 1, DIRS);
    r := p.Exec(1, [Zeros()]);
    assert Leaked(p.St()) == p.mem.held - t.mem.held;
  }

  lemma OneFree(st: State)
    requires Ok(st) && st.mem.first == LOW && |st.mem.phys| == LOW + 2 && NoTables(st.mem, 1, DIRS)
    requires st.tasks[1].Task? && (forall s :: 1 < s < NR_TASKS ==> st.tasks[s].NoTask?) && st.mem.held == {st.tasks[1].page}
    ensures |Free(st.mem)| == 1 && Tables(st.mem, 1, DIRS) == 0
  {
    var m, f := st.mem, st.tasks[1].page;
    NoTableAnywhere(m, st.tasks);
    NoTablesNone(m, 1, DIRS);
    TwoFrames(m);
    assert f in m.held && Managed(m, f);
    assert Free(m) == if f == LOW then {1} else {0};
  }

  lemma KernelTable(m: Mem)
    requires Inv(m)
    ensures Dir(m, 0).present
  {
  }
}
