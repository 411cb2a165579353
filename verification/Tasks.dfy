/**
  Tasks over the memory manager, as values: what each operation does for tasks that
  own private memories, what the kernel holds for them, and when an operation is
  refused (linux-0.11/kernel/fork.c, linux-0.11/mm/memory.c, linux-0.11/fs/exec.c).
 */
module Tasks {
  import opened PageTables
  import opened PageSteps
  import opened Memory
  import Sequences

  const MAX_ARG_PAGES: nat := 32

  // ---------- the specification: private memories ----------

  /** What every task finds at every location. */
  type Spaces = imap<Loc, View>

  ghost function At(sp: Spaces, l: Loc): View {
    if l in sp then sp[l] else Absent
  }

  ghost function SpacesOf(m: Mem): Spaces {
    imap l: Loc | true :: Look(m, l)
  }

  datatype Op =
    | Fork(parent: nat)
    | Exit(slot: nat)
    | Exec(slot: nat, args: seq<Page>)
    | Store(l: Loc, off: nat, w: Word)
    | Touch(l: Loc)
    | Load(l: Loc, content: Page)
    | Borrow(l: Loc, other: nat)

  datatype Result = Refused | Done | Forked(child: nat) | Lost

  /** Each operation on private memories. `kernel` is the first megabyte, which
      tasks may see; a task that writes there gets a page of its own. */
  ghost function After(sp: Spaces, op: Op, r: Result, kernel: seq<Page>): Spaces {
    imap l: Loc | true :: ViewAfter(sp, op, r, kernel, l)
  }

  ghost function ViewAfter(sp: Spaces, op: Op, r: Result, kernel: seq<Page>, l: Loc): View {
    if r == Refused then At(sp, l)
    else match op {
      case Fork(parent) => At(sp, if r.Forked? && l.slot == r.child then l.(slot := parent) else l)
      case Exit(slot) => if l.slot == slot then Absent else At(sp, l)
      case Exec(slot, args) =>
        if l.slot != slot then At(sp, l)
        else if r == Done && IsArg(slot, |args|, l) then Own(args[l.t + |args| - WORDS])
        else Absent
      case Store(at, off, w) => if l == at then Stored(At(sp, l), off, w, kernel) else At(sp, l)
      case Touch(at) => if l == at then Own(Zeros()) else At(sp, l)
      case Load(at, content) => if l == at then Own(content) else At(sp, l)
      case Borrow(at, other) => At(sp, if l == at then l.(slot := other) else l)
    }
  }

  ghost function Stored(v: View, off: nat, w: Word, kernel: seq<Page>): View {
    if off >= WORDS then v else
    match v
    case Absent => Absent
    case LowFrame(f) => if f < |kernel| then Own(kernel[f][off := w]) else v
    case Own(p) => Own(p[off := w])
  }

  // ---------- the implementation ----------

  datatype Task = NoTask | Task(page: nat, dirs: nat)

  // The task has no page table at or beyond its `n`-th directory entry.
  ghost predicate Within(m: Mem, slot: nat, n: nat) {
    forall d: nat :: DIRS * slot + n <= d < DIRS * slot + DIRS ==> !Dir(m, d).present
  }

  lemma OutsideIsAbsent(m: Mem, slot: nat, n: nat)
    requires if slot == 0 then n == 1 else Within(m, slot, n)
    ensures forall l: Loc :: l.slot == slot && l.i >= n ==> Look(m, l) == Absent
  {
  }

  ghost predicate TaskOk(m: Mem, s: nat, t: Task) {
    match t
    case NoTask => Within(m, s, 0)
    case Task(page, dirs) => page in m.held && dirs <= DIRS && Within(m, s, dirs)
  }

  ghost predicate TasksOk(m: Mem, tasks: seq<Task>) {
    && |tasks| == NR_TASKS && tasks[0] == Task(0, 1)
    && (forall s :: 0 < s < NR_TASKS ==> TaskOk(m, s, tasks[s]))
    && (forall s, r :: 0 < s < r < NR_TASKS && tasks[s].Task? && tasks[r].Task? ==> tasks[s].page != tasks[r].page)
  }

  /** Memory and the task table at one moment. */
  datatype State = State(mem: Mem, tasks: seq<Task>)

  ghost predicate Ok(st: State) {
    Inv(st.mem) && TasksOk(st.mem, st.tasks)
  }

  predicate Running(tasks: seq<Task>, slot: nat) {
    slot < |tasks| && tasks[slot].Task?
  }

  /** The address is inside the data segment of a task other than the first. */
  predicate Addressable(tasks: seq<Task>, l: Loc) {
    UserLoc(l) && Running(tasks, l.slot) && l.i < tasks[l.slot].dirs
  }

  /** What the source demands of the caller of each operation. */
  ghost predicate Allowed(st: State, op: Op) {
    match op
    case Fork(parent) => Running(st.tasks, parent)
    case Exit(slot) => Running(st.tasks, slot) && 0 < slot
    case Exec(slot, args) => Running(st.tasks, slot) && 0 < slot && |args| <= MAX_ARG_PAGES
    case Store(l, off, w) => Addressable(st.tasks, l) && Look(st.mem, l) != Absent && off < WORDS
    case Touch(l) => Addressable(st.tasks, l) && Look(st.mem, l) == Absent
    case Load(l, content) => Addressable(st.tasks, l) && Look(st.mem, l) == Absent
    case Borrow(l, other) =>
      Addressable(st.tasks, l) && Look(st.mem, l) == Absent && 0 < other && Running(st.tasks, other) && other != l.slot
  }

  ghost predicate AllRun(tasks: seq<Task>) {
    forall s :: 0 < s < NR_TASKS ==> Running(tasks, s)
  }

  // What try_to_share will not share.
  predicate Unshareable(e: Word) {
    !e.present || e.dirty || e.frame < LOW
  }

  /** An allowed operation is refused exactly for want of frames, of a task slot, or of a clean page to share. */
  ghost predicate Refuses(st: State, op: Op) {
    var m, free := st.mem, |Free(st.mem)|;
    match op
    case Fork(parent) => AllRun(st.tasks) || (Running(st.tasks, parent) && free < 1 + Tables(m, parent, st.tasks[parent].dirs))
    case Exit(_) => false
    case Exec(_, args) => free < |args|
    case Store(l, _, _) => free == 0 && !Entry(m, l).writable && !CountedOnce(m, Entry(m, l).frame)
    case Touch(l) => !CanGrow(m, l)
    case Load(l, _) => !CanGrow(m, l)
    case Borrow(l, other) => Unshareable(Entry(m, l.(slot := other))) || (free == 0 && !Dir(m, DirOf(l)).present)
  }

  /** exec loses its arguments exactly if they took the last frames and the old address space has no page table to give back. */
  ghost predicate Loses(m: Mem, slot: nat, n: nat) {
    |Free(m)| == n > 0 && Tables(m, slot, DIRS) == 0
  }

  /** How an allowed operation ends; a child gets the first free slot. */
  ghost predicate Ends(st: State, op: Op, r: Result) {
    if Refuses(st, op) then r == Refused
    else if op.Fork? then
      r.Forked? && 0 < r.child < NR_TASKS && !Running(st.tasks, r.child) && forall s :: 0 < s < r.child ==> Running(st.tasks, s)
    else r == if op.Exec? && Loses(st.mem, op.slot, |op.args|) then Lost else Done
  }

  // ---------- the frames the kernel holds ----------

  /** The frames of the task structures. */
  ghost function Structures(tasks: seq<Task>): set<nat> {
    set s: nat | 0 < s < |tasks| && tasks[s].Task? :: tasks[s].page
  }

  /** Frames that are counted although nothing refers to them any more. */
  ghost function Leaked(st: State): set<nat> {
    st.mem.held - Structures(st.tasks)
  }

  /** The frames the kernel holds before and after: a task structure more or less, and the arguments of an exec that lost them. */
  ghost predicate HeldFollows(s: State, t: State, op: Op, r: Result) {
    var was, now := s.mem.held, t.mem.held;
    if op.Fork? && r.Forked? then
      Running(t.tasks, r.child) && t.tasks[r.child].page !in was && now == was + {t.tasks[r.child].page}
    else if op.Exit? then Running(s.tasks, op.slot) && now == was - {s.tasks[op.slot].page}
    else if op.Exec? && r == Lost then was <= now && |now - was| == |op.args|
    else now == was
  }

  /** The task table before and after. */
  ghost predicate TasksFollow(s: seq<Task>, t: seq<Task>, op: Op, r: Result) {
    |t| == |s| &&
    if op.Fork? && r.Forked? then
      Running(s, op.parent) && Running(t, r.child) && t[r.child].dirs == s[op.parent].dirs && t == s[r.child := t[r.child]]
    else if op.Exit? then op.slot < |s| && t == s[op.slot := NoTask]
    else if op.Exec? && r != Refused then Running(s, op.slot) && t == s[op.slot := s[op.slot].(dirs := DIRS)]
    else t == s
  }

  /** One operation: what the tasks find is what they would find with private memories. */
  ghost predicate Follows(s: State, t: State, op: Op, r: Result) {
    if !Allowed(s, op) then r == Refused && t == s
    else
      && Ends(s, op, r) && TasksFollow(s.tasks, t.tasks, op, r) && HeldFollows(s, t, op, r)
      && SpacesOf(t.mem) == After(SpacesOf(s.mem), op, r, s.mem.phys)
  }

  /** An operation that was attempted, how it ended, and the memory it found. */
  datatype Event = Event(op: Op, r: Result, kernel: seq<Page>)

  ghost predicate RunAt(states: seq<State>, events: seq<Event>, ops: seq<Op>, k: nat)
    requires k < |events| <= |ops| && |states| == |events| + 1
  {
    && events[k].op == ops[k] && events[k].kernel == states[k].mem.phys
    && Ok(states[k]) && Follows(states[k], states[k + 1], ops[k], events[k].r)
  }

  ghost function AfterAll(sp: Spaces, events: seq<Event>): Spaces {
    if events == [] then sp
    else
      var e := events[|events| - 1];
      After(AfterAll(sp, events[..|events| - 1]), e.op, e.r, e.kernel)
  }

  lemma AfterOne(sp: Spaces, events: seq<Event>, e: Event)
    ensures AfterAll(sp, events + [e]) == After(AfterAll(sp, events), e.op, e.r, e.kernel)
  {
    assert (events + [e])[..|events|] == events;
  }

  /** Isolation: whatever one task does, another task finds what it found before. */
  lemma Isolated(sp: Spaces, op: Op, r: Result, kernel: seq<Page>, l: Loc)
    requires l.slot != Actor(op) && r != Forked(l.slot)
    ensures At(After(sp, op, r, kernel), l) == At(sp, l)
  {
  }

  /** Tasks that have no part in an operation find what they found before. */
  ghost predicate Undisturbed(m: Mem, n: Mem, op: Op, r: Result) {
    forall l: Loc :: l.slot != Actor(op) && r != Forked(l.slot) ==> Look(n, l) == Look(m, l)
  }

  lemma OthersFind(m: Mem, n: Mem, op: Op, r: Result)
    requires SpacesOf(n) == After(SpacesOf(m), op, r, m.phys)
    ensures Undisturbed(m, n, op, r)
  {
    forall l: Loc | l.slot != Actor(op) && r != Forked(l.slot) ensures Look(n, l) == Look(m, l) {
      Isolated(SpacesOf(m), op, r, m.phys, l);
      assert At(SpacesOf(n), l) == Look(n, l) && At(SpacesOf(m), l) == Look(m, l);
    }
  }

  function Actor(op: Op): nat {
    match op
    case Fork(parent) => parent
    case Exit(slot) => slot
    case Exec(slot, _) => slot
    case Store(l, _, _) => l.slot
    case Touch(l) => l.slot
    case Load(l, _) => l.slot
    case Borrow(l, _) => l.slot
  }

  /** A fresh child finds its parent's memory, and keeps it over any run of other
      tasks' operations, whatever the parent stores. */
  lemma {:induction false} ChildKeepsMemory(sp: Spaces, parent: nat, child: nat, kernel: seq<Page>, events: seq<Event>,
      l: Loc)
    requires l.slot == child
    requires forall k :: 0 <= k < |events| ==> Actor(events[k].op) != child && events[k].r != Forked(child)
    ensures At(AfterAll(After(sp, Op.Fork(parent), Forked(child), kernel), events), l) == At(sp, l.(slot := parent))
    decreases |events|
  {
    if events != [] {
      var rest := events[..|events| - 1];
      var e := events[|events| - 1];
      ChildKeepsMemory(sp, parent, child, kernel, rest, l);
      Isolated(AfterAll(After(sp, Op.Fork(parent), Forked(child), kernel), rest), e.op, e.r, e.kernel, l);
    }
  }

  /** On the states of a run: a child finds what its parent found at the fork, until it does something itself. */
  lemma {:induction false} ChildFinds(states: seq<State>, events: seq<Event>, ops: seq<Op>, j: nat, k: nat, l: Loc)
    requires |events| == |ops| && |states| == |ops| + 1 && forall i: nat :: i < |ops| ==> RunAt(states, events, ops, i)
    requires j < k <= |ops| && ops[j].Fork? && events[j].r == Forked(l.slot)
    requires forall i: nat :: j < i < k ==> Actor(ops[i]) != l.slot
    ensures Look(states[k].mem, l) == Look(states[j].mem, l.(slot := ops[j].parent)) && Running(states[k].tasks, l.slot)
    decreases k
  {
    hide Ok, Look, Refuses, Inv;
    assert RunAt(states, events, ops, k - 1);
    if j + 1 < k {
      ChildFinds(states, events, ops, j, k - 1, l);
      var m := states[k - 1].mem;
      if Allowed(states[k - 1], ops[k - 1]) { OthersFind(m, states[k].mem, ops[k - 1], events[k - 1].r); }
    } else {
      var m := states[j].mem;
      assert At(SpacesOf(states[k].mem), l) == Look(states[k].mem, l);
      assert At(After(SpacesOf(m), ops[j], events[j].r, m.phys), l) == Look(m, l.(slot := ops[j].parent));
    }
  }

  // Only a store looks at the first megabyte.
  lemma KernelUnused(sp: Spaces, op: Op, r: Result, k1: seq<Page>, k2: seq<Page>)
    requires !op.Store?
    ensures After(sp, op, r, k1) == After(sp, op, r, k2)
  {
    forall l: Loc ensures ViewAfter(sp, op, r, k1, l) == ViewAfter(sp, op, r, k2, l) {}
  }

  // One of the `n` highest pages of a task.
  predicate IsArg(slot: nat, n: nat, l: Loc) {
    l.slot == slot && l.i == DIRS - 1 && WORDS <= l.t + n && l.t < WORDS
  }

  /** Frames collected on top of the held set `base`, with their contents. */
  ghost predicate PagesHeld(m: Mem, base: set<nat>, pages: seq<nat>, args: seq<Page>) {
    && |pages| == |args| && Sequences.Distinct(pages) && base + Sequences.Members(pages) <= m.held
    && (forall k :: 0 <= k < |pages| ==> pages[k] !in base && Content(m, pages[k]) == args[k])
  }

  lemma SameViews(m: Mem, n: Mem)
    requires forall l: Loc :: Look(n, l) == Look(m, l)
    ensures SpacesOf(n) == SpacesOf(m)
  {
  }

  lemma PageCount(m: Mem, base: set<nat>, pages: seq<nat>, args: seq<Page>)
    requires PagesHeld(m, base, pages, args)
    ensures |pages| == |args| == |Sequences.Members(pages)|
    ensures base + Sequences.Members(pages) - base == Sequences.Members(pages)
  {
  }

  lemma StillHeld(m: Mem, n: Mem, base: set<nat>, pages: seq<nat>, args: seq<Page>)
    requires PagesHeld(m, base, pages, args) && n.held == m.held
    requires forall f: nat :: f in n.held ==> Content(n, f) == Content(m, f)
    ensures PagesHeld(n, base, pages, args)
  {
    forall k | 0 <= k < |pages| ensures pages[k] in n.held { assert pages[k] in pages; }
  }

  lemma NothingHeld(m: Mem, args: seq<Page>)
    ensures PagesHeld(m, m.held, [], args[|args|..]) && m.held == m.held + Sequences.Members([])
  {
  }

  // The i-th page is one of those from the i-th on, and the others are those behind it.
  lemma HeldFrom(m: Mem, base: set<nat>, pages: seq<nat>, args: seq<Page>, i: nat)
    requires PagesHeld(m, base, pages, args) && i < |pages|
    ensures pages[i] in base + Sequences.Members(pages[i..])
    ensures base + Sequences.Members(pages[i..]) - {pages[i]} == base + Sequences.Members(pages[i + 1..])
  {
    hide Sequences.Members, Content;
    var p, rest := pages[i], pages[i + 1..];
    assert pages[i..] == [p] + rest;
    forall j | 0 <= j < |rest| ensures rest[j] != p {
      var k := i + 1 + j;
      assert rest[j] == pages[k];
    }
    assert p !in base && p !in rest;
    assert forall x: nat :: x in [p] + rest <==> x == p || x in rest;
  }

  lemma Freed(m: Mem, n: Mem, f: nat)
    requires n == Release(m, f)
    ensures n.held == m.held - {f} && forall d :: Dir(n, d) == Dir(m, d)
    ensures forall l: Loc :: Entry(n, l) == Entry(m, l) && Look(n, l) == Look(m, l)
  {
    SameLooks(m, n);
  }

  /** One page more. */
  lemma Collected(m: Mem, n: Mem, base: set<nat>, pages: seq<nat>, args: seq<Page>, page: nat, arg: Page)
    requires PagesHeld(m, base, pages, args) && m.held == base + Sequences.Members(pages) && page !in m.held
    requires n.held == m.held + {page} && Content(n, page) == arg && forall g: nat :: g != page ==> Content(n, g) == Content(m, g)
    ensures PagesHeld(n, base, [page] + pages, [arg] + args) && n.held == base + Sequences.Members([page] + pages)
  {
    hide Sequences.Members, Content;
    var ps, qs := [page] + pages, [arg] + args;
    assert page !in pages;
    Sequences.PrependMembers(pages, page);
    forall k | 0 <= k < |ps| ensures ps[k] !in base && Content(n, ps[k]) == qs[k] {
      if k > 0 {
        var j := k - 1;
        assert ps[k] == pages[j] && qs[k] == args[j] && pages[j] in pages;
      }
    }
  }

  lemma HeldAt(m: Mem, base: set<nat>, pages: seq<nat>, args: seq<Page>, k: nat)
    requires k < |pages| == |args| && PagesHeld(m, base, pages[..k + 1], args[..k + 1])
    ensures pages[k] in m.held && pages[k] !in base && Content(m, pages[k]) == args[k]
  {
    assert pages[..k + 1][k] == pages[k] && args[..k + 1][k] == args[k];
  }

  // The k-th page is not held any more, or nothing changed.
  lemma HeldBefore(m: Mem, n: Mem, base: set<nat>, pages: seq<nat>, args: seq<Page>, k: nat)
    requires k < |pages| == |args| && PagesHeld(m, base, pages[..k + 1], args[..k + 1])
    requires pages[..k + 1] == pages[..k] + [pages[k]] && (n == m || n.held == m.held - {pages[k]})
    requires forall g: nat :: g in n.held ==> Content(n, g) == Content(m, g)
    ensures PagesHeld(n, base, pages[..k], args[..k]) && base <= n.held
    ensures m.held == base + Sequences.Members(pages[..k + 1]) && n.held == m.held - {pages[k]} ==>
      n.held == base + Sequences.Members(pages[..k])
  {
    hide Content, Sequences.Members;
    LastPage(m, base, pages, args, k);
    var ps, qs := pages[..k + 1], pages[..k];
    forall j | 0 <= j < k ensures qs[j] !in base && qs[j] in n.held && Content(n, qs[j]) == args[..k][j] {
      assert qs[j] in qs && ps[j] == qs[j] && ps[j] in ps && args[..k][j] == args[..k + 1][j];
    }
  }

  lemma LastPage(m: Mem, base: set<nat>, pages: seq<nat>, args: seq<Page>, k: nat)
    requires k < |pages| == |args| && PagesHeld(m, base, pages[..k + 1], args[..k + 1]) && pages[..k + 1] == pages[..k] + [pages[k]]
    ensures pages[k] !in base && pages[k] !in pages[..k] && Sequences.Distinct(pages[..k])
  {
    hide Content, Sequences.Members;
    var ps := pages[..k + 1];
    assert ps[k] == pages[k];
    forall j | 0 <= j < k ensures pages[..k][j] != pages[k] { assert ps[j] == pages[..k][j]; }
  }

  /** The arguments from the k-th on are mapped, or nothing changed because there is no frame for the page table. */
  ghost predicate PlacedFrom(m: Mem, n: Mem, slot: nat, args: seq<Page>, k: nat, r: Result) {
    && OnlyDir(m, n, DIRS * slot + DIRS - 1)
    && (k == |args| ==> n == m && r == Done)
    && (r == Done && k < |args| ==> Dir(n, DIRS * slot + DIRS - 1).present && Free(m) != {})
    && (r == Lost ==> n == m && Free(m) == {} && k < |args|)
    && forall l: Loc :: Look(n, l) == if r == Done && IsArg(slot, |args|, l) && l.t + |args| - WORDS >= k then Own(args[l.t + |args| - WORDS])
                                      else Look(m, l)
  }

  lemma NothingPlaced(m: Mem, slot: nat, args: seq<Page>)
    ensures PlacedFrom(m, m, slot, args, |args|, Done)
  {
  }

  lemma NextFree(m: Mem, n: Mem, slot: nat, args: seq<Page>, k: nat, r: Result, l: Loc)
    requires PlacedFrom(m, n, slot, args, k + 1, r) && k < |args| <= MAX_ARG_PAGES && l == Loc(slot, DIRS - 1, WORDS - |args| + k)
    requires forall j: Loc :: j.slot == slot ==> Look(m, j) == Absent
    ensures Look(n, l) == Absent && !Entry(n, l).present
  {
  }

  lemma PlaceStep(m: Mem, c: Mem, n: Mem, slot: nat, args: seq<Page>, k: nat, r: Result, l: Loc, placed: bool)
    requires PlacedFrom(m, c, slot, args, k + 1, r) && (r == Done || r == Lost)
    requires k < |args| <= MAX_ARG_PAGES && l == Loc(slot, DIRS - 1, WORDS - |args| + k)
    requires OnlyDir(c, n, DirOf(l))
    requires if placed
      then Dir(n, DirOf(l)).present && (Dir(c, DirOf(l)).present || Free(c) != {})
           && forall j: Loc :: Look(n, j) == if j == l then Own(args[k]) else Look(c, j)
      else n == c && !Dir(c, DirOf(l)).present && Free(c) == {}
    requires (forall j: Loc :: j.slot == slot ==> Look(m, j) == Absent) && !Dir(m, DirOf(l)).present
    ensures PlacedFrom(m, n, slot, args, k, if placed then r else Lost)
  {
    hide Look;
  }

  lemma Placed(m: Mem, n: Mem, slot: nat, args: seq<Page>, r: Result)
    requires PlacedFrom(m, n, slot, args, 0, r) && (r == Done || r == Lost)
    ensures r == if args != [] && Free(m) == {} then Lost else Done
    ensures r == Lost || args == [] ==> n == m
    ensures OnlyDir(m, n, DIRS * slot + DIRS - 1)
    ensures forall l: Loc :: Look(n, l) == if r == Done && IsArg(slot, |args|, l) then Own(args[l.t + |args| - WORDS]) else Look(m, l)
  {
  }

  lemma TasksStay(m: Mem, n: Mem, tasks: seq<Task>)
    requires TasksOk(m, tasks) && m.held <= n.held && forall d :: Dir(n, d) == Dir(m, d)
    ensures TasksOk(n, tasks)
  {
    forall s | 0 < s < NR_TASKS ensures TaskOk(n, s, tasks[s]) {
      assert TaskOk(m, s, tasks[s]);
    }
  }

  lemma StillTasks(m: Mem, n: Mem, tasks: seq<Task>, slot: nat)
    requires TasksOk(m, tasks) && 0 < slot < NR_TASKS && tasks[slot].Task? && tasks[slot].dirs == DIRS
    requires OnlyDir(m, n, DIRS * slot + DIRS - 1)
    requires Structures(tasks) <= n.held
    ensures TasksOk(n, tasks)
  {
    forall s | 0 < s < NR_TASKS && tasks[s].Task? ensures tasks[s].page in n.held { StructureOf(tasks, tasks[s].page); }
    TasksAfter(m, n, tasks, slot, tasks[slot]);
    assert tasks[slot := tasks[slot]] == tasks;
  }

  /** Views that match the specification point by point make equal spaces. */
  lemma SameSpaces(m: Mem, n: Mem, op: Op, r: Result, kernel: seq<Page>)
    requires forall l: Loc :: Look(n, l) == ViewAfter(SpacesOf(m), op, r, kernel, l)
    ensures SpacesOf(n) == After(SpacesOf(m), op, r, kernel)
  {
  }

  lemma RefusedSpaces(m: Mem, op: Op, kernel: seq<Page>)
    ensures SpacesOf(m) == After(SpacesOf(m), op, Refused, kernel)
  {
  }

  lemma StoredView(m: Mem, l: Loc, off: nat, w: Word)
    requires Inv(m) && Entry(m, l).present && off < WORDS
    ensures Stored(Look(m, l), off, w, m.phys) == Own(PrivateView(m, l).page[off := w])
  {
    assert Entry(m, l).frame < |m.phys|;
  }

  /** A task that got a page where it may have one. */
  lemma Grown(m: Mem, n: Mem, tasks: seq<Task>, l: Loc)
    requires TasksOk(m, tasks) && UserLoc(l) && tasks[l.slot].Task? && l.i < tasks[l.slot].dirs
    requires n.held == m.held && OnlyDir(m, n, DirOf(l))
    ensures TasksOk(n, tasks)
  {
    assert TaskOk(m, l.slot, tasks[l.slot]);
    TasksAfter(m, n, tasks, l.slot, tasks[l.slot]);
    assert tasks[l.slot := tasks[l.slot]] == tasks;
  }

  /** What keeps the task table in order when task `s` becomes `t`. */
  lemma TasksAfter(m: Mem, n: Mem, tasks: seq<Task>, s: nat, t: Task)
    requires TasksOk(m, tasks) && 0 < s < NR_TASKS && OtherDirs(m, n, s) && TaskOk(n, s, t)
    requires forall r :: 0 < r < NR_TASKS && r != s && tasks[r].Task? ==> tasks[r].page in n.held && (t.Task? ==> tasks[r].page != t.page)
    ensures TasksOk(n, tasks[s := t])
  {
    forall r | 0 < r < NR_TASKS && r != s ensures TaskOk(n, r, tasks[r]) {
      assert TaskOk(m, r, tasks[r]);
    }
  }

  /** A fork that failed after taking `page` leaves no trace. */
  lemma ForkUndone(m: Mem, c: Mem, tasks: seq<Task>, child: nat, page: nat)
    requires Inv(m) && Inv(c) && TasksOk(m, tasks) && 0 < child < NR_TASKS && tasks[child].NoTask? && page in c.held
    requires Managed(m, page) && m.count[page - LOW] == 0 && page !in m.held && SameReferences(Alloc(m, page), c)
    requires forall l: Loc :: Look(c, l) == Look(m, l) && Entry(Alloc(m, page), l) == Entry(m, l)
    requires forall d :: Dir(Alloc(m, page), d) == Dir(m, d)
    ensures var n := Release(c, page);
      Inv(n) && SameReferences(m, n) && n.count == m.count && TasksOk(n, tasks) && SpacesOf(n) == SpacesOf(m)
  {
    hide KernelOk, TablesOk, PagesOk, Aligned, Exclusive, Counts, HeldOk, Look;
    var n := Release(c, page);
    ReleaseOk(c, page);
    SameLooks(c, n);
    CountersDetermined(m, n);
    forall s | 0 < s < NR_TASKS ensures TaskOk(n, s, tasks[s]) {
      assert TaskOk(m, s, tasks[s]);
    }
  }

  lemma ParentOk(m: Mem, tasks: seq<Task>, parent: nat, child: nat)
    requires TasksOk(m, tasks) && Running(tasks, parent) && 0 < child < NR_TASKS && tasks[child].NoTask?
    ensures tasks[parent].dirs <= DIRS && parent != child && (parent == 0 ==> tasks[parent].dirs == 1) && parent < NR_TASKS
    ensures NoTables(m, child, DIRS) && |tasks| == NR_TASKS
  {
    assert TaskOk(m, child, tasks[child]);
    if parent > 0 { assert TaskOk(m, parent, tasks[parent]); }
  }

  /** A fork that worked: the child has a structure and finds what its parent finds. */
  lemma ForkedOk(m: Mem, a: Mem, n: Mem, tasks: seq<Task>, parent: nat, child: nat, page: nat, dirs: nat)
    requires TasksOk(m, tasks) && Running(tasks, parent) && 0 < child < NR_TASKS && tasks[child].NoTask? && dirs == tasks[parent].dirs
    requires page !in m.held && n.held == a.held == m.held + {page}
    requires forall d :: Dir(a, d) == Dir(m, d)
    requires forall d: nat :: !(DIRS * child <= d < DIRS * child + dirs) ==> Dir(n, d) == Dir(a, d)
    requires forall l: Loc :: Look(a, l) == Look(m, l)
    requires forall l: Loc :: Look(n, l) == Look(a, if l.slot == child && l.i < dirs then l.(slot := parent) else l)
    ensures TasksOk(n, tasks[child := Task(page, dirs)])
    ensures SpacesOf(n) == After(SpacesOf(m), Op.Fork(parent), Forked(child), [])
  {
    hide Look, After, SpacesOf;
    ParentOk(m, tasks, parent, child);
    assert TaskOk(m, child, tasks[child]) && (parent > 0 ==> TaskOk(m, parent, tasks[parent]));
    forall r | 0 < r < NR_TASKS && tasks[r].Task? ensures tasks[r].page in m.held { assert TaskOk(m, r, tasks[r]); }
    TasksAfter(m, n, tasks, child, Task(page, dirs));
    ForkedSpaces(m, a, n, parent, child, dirs);
  }

  /** What exec makes of the views: the old address space is gone, the arguments are there or lost. */
  lemma ExecSpaces(m: Mem, v: Mem, n: Mem, slot: nat, args: seq<Page>, r: Result)
    requires r == Done || r == Lost
    requires forall l: Loc :: Look(v, l) == if l.slot == slot then Absent else Look(m, l)
    requires forall l: Loc :: Look(n, l) == if r == Done && IsArg(slot, |args|, l) then Own(args[l.t + |args| - WORDS]) else Look(v, l)
    ensures SpacesOf(n) == After(SpacesOf(m), Op.Exec(slot, args), r, [])
  {
    hide Look;
    forall l: Loc ensures Look(n, l) == ViewAfter(SpacesOf(m), Op.Exec(slot, args), r, [], l) {}
  }

  lemma ForkedSpaces(m: Mem, a: Mem, n: Mem, parent: nat, child: nat, dirs: nat)
    requires forall l: Loc :: Look(a, l) == Look(m, l)
    requires forall l: Loc :: Look(n, l) == Look(a, if l.slot == child && l.i < dirs then l.(slot := parent) else l)
    requires Within(m, child, 0) && (if parent == 0 then dirs == 1 else Within(m, parent, dirs)) && child != 0
    ensures SpacesOf(n) == After(SpacesOf(m), Op.Fork(parent), Forked(child), [])
  {
    hide Look, Within;
    OutsideIsAbsent(m, child, 0);
    OutsideIsAbsent(m, parent, dirs);
    forall l: Loc ensures Look(n, l) == ViewAfter(SpacesOf(m), Op.Fork(parent), Forked(child), [], l) {}
  }

  lemma {:induction false} TablesKept(m: Mem, n: Mem, slot: nat, dirs: nat)
    requires forall d: nat :: DIRS * slot <= d < DIRS * slot + dirs ==> Dir(n, d) == Dir(m, d)
    ensures Tables(n, slot, dirs) == Tables(m, slot, dirs)
  {
    if dirs > 0 { TablesKept(m, n, slot, dirs - 1); }
  }

  lemma {:induction false} NoTablesNone(m: Mem, slot: nat, dirs: nat)
    ensures Tables(m, slot, dirs) == 0 <==> NoTables(m, slot, dirs)
  {
    if dirs > 0 {
      var last := DIRS * slot + dirs - 1;
      NoTablesNone(m, slot, dirs - 1);
      if Dir(m, last).present { assert !NoTables(m, slot, dirs); }
    }
  }

  /** With the pages back and all mappings as before, the counters are as before. */
  lemma Returned(m: Mem, n: Mem)
    requires Inv(m) && Inv(n) && n.held == m.held && n.first == m.first && |n.phys| == |m.phys|
    requires forall d :: Dir(n, d) == Dir(m, d)
    requires forall l: Loc :: Entry(n, l) == Entry(m, l)
    ensures n.count == m.count
  {
    CountersDetermined(m, n);
  }

  /** Giving up an address space frees something exactly if it has a page table. */
  lemma VacatedFree(m: Mem, n: Mem, slot: nat, dirs: nat)
    requires Inv(m) && Inv(n) && n.first == m.first && |n.phys| == |m.phys| && n.held == m.held && 0 < slot < NR_TASKS && dirs <= DIRS
    requires Within(m, slot, dirs)
    requires forall d: nat :: Dir(n, d) == if DIRS * slot <= d < DIRS * slot + dirs && Dir(m, d).present then ZERO else Dir(m, d)
    requires forall l: Loc :: Entry(n, l) == if l.slot == slot && l.i < dirs then ZERO else Entry(m, l)
    ensures NoTables(n, slot, DIRS)
    ensures Free(n) == {} <==> Free(m) == {} && Tables(m, slot, DIRS) == 0
  {
    hide KernelOk, PagesOk, Aligned, Exclusive, HeldOk, Counts;
    NoTablesNone(m, slot, DIRS);
    if Tables(m, slot, DIRS) == 0 {
      forall l: Loc ensures Entry(n, l) == Entry(m, l) {}
      Returned(m, n);
    } else {
      var d: nat :| DIRS * slot <= d < DIRS * slot + DIRS && Dir(m, d).present;
      TableFreed(m, n, d);
    }
    if f: nat :| f in Free(m) { StaysFree(m, n, f); }
  }

  lemma TableFreed(m: Mem, n: Mem, d: nat)
    requires Inv(m) && Inv(n) && n.first == m.first && |n.phys| == |m.phys| && n.held == m.held
    requires HasTable(m, d) && !Dir(n, d).present
    requires forall e: nat :: Dir(n, e).present ==> Dir(n, e) == Dir(m, e)
    requires forall l: Loc :: Entry(n, l).present ==> Entry(n, l) == Entry(m, l)
    ensures Free(n) != {}
  {
    var f := Dir(m, d).frame;
    TableCounted(m, d);
    assert f !in n.held && !IsTable(n, f);
    assert Owners(m, f) == 1;
    hide KernelOk, TablesOk, PagesOk, Aligned, Exclusive, HeldOk, Entry;
    forall l: Loc ensures l !in Refs(n, f) {
      InRefs(m, f, l);
      InRefs(n, f, l);
    }
    assert Refs(n, f) == {} && Owners(n, f) == 0 && Managed(n, f);
    assert n.count[f - LOW] == 0;
    assert f - LOW in Free(n);
  }

  lemma StaysFree(m: Mem, n: Mem, k: nat)
    requires Inv(m) && Inv(n) && n.first == m.first && |n.phys| == |m.phys| && n.held == m.held && k in Free(m)
    requires forall d: nat :: Dir(n, d).present ==> Dir(n, d) == Dir(m, d)
    requires forall l: Loc :: Entry(n, l).present ==> Entry(n, l) == Entry(m, l)
    ensures k in Free(n)
  {
    hide Entry, KernelOk, TablesOk, PagesOk, Aligned, Exclusive, HeldOk;
    var f: nat := k + LOW;
    assert m.count[f - LOW] == 0 && Managed(m, f);
    NobodyOwns(m, n, f);
    assert n.count[f - LOW] == 0;
  }

  lemma NobodyOwns(m: Mem, n: Mem, f: nat)
    requires Owners(m, f) == 0 && n.held == m.held
    requires forall d: nat :: Dir(n, d).present ==> Dir(n, d) == Dir(m, d)
    requires forall l: Loc :: Entry(n, l).present ==> Entry(n, l) == Entry(m, l)
    ensures Owners(n, f) == 0
  {
    forall l: Loc ensures l !in Refs(n, f) {
      InRefs(m, f, l);
      InRefs(n, f, l);
    }
    assert Refs(n, f) == {};
  }

  /** A task that has any page mapped, such as the one its code runs on, has a page table, and exec does not lose its arguments. */
  lemma MappedKeepsArguments(m: Mem, l: Loc, n: nat)
    requires UserLoc(l) && Look(m, l) != Absent
    ensures !Loses(m, l.slot, n)
  {
    assert HasTable(m, DirOf(l));
    NoTablesNone(m, l.slot, DIRS);
  }

  // ---------- what leaks ----------

  /** The frames that lost arguments took. */
  ghost function ArgsLost(events: seq<Event>): nat {
    if events == [] then 0
    else
      var e := events[|events| - 1];
      ArgsLost(events[..|events| - 1]) + if e.op.Exec? && e.r == Lost then |e.op.args| else 0
  }

  lemma StructureOf(tasks: seq<Task>, f: nat)
    ensures f in Structures(tasks) <==> exists s :: 0 < s < |tasks| && tasks[s].Task? && tasks[s].page == f
  {
  }

  lemma StructuresAdded(tasks: seq<Task>, c: nat, t: Task)
    requires 0 < c < |tasks| && tasks[c].NoTask? && t.Task?
    ensures Structures(tasks[c := t]) == Structures(tasks) + {t.page}
  {
    var u := tasks[c := t];
    forall f: nat ensures f in Structures(u) <==> f in Structures(tasks) || f == t.page {
      if s :| 0 < s < |tasks| && tasks[s].Task? && tasks[s].page == f { assert u[s] == tasks[s]; }
      assert u[c] == t;
    }
  }

  lemma StructuresRemoved(tasks: seq<Task>, c: nat)
    requires 0 < c < |tasks| && tasks[c].Task?
    requires forall s :: 0 < s < |tasks| && s != c && tasks[s].Task? ==> tasks[s].page != tasks[c].page
    ensures Structures(tasks[c := NoTask]) == Structures(tasks) - {tasks[c].page}
  {
    var u := tasks[c := NoTask];
    forall f: nat ensures f in Structures(u) <==> f in Structures(tasks) && f != tasks[c].page {
      if s :| 0 < s < |tasks| && tasks[s].Task? && tasks[s].page == f && s != c { assert u[s] == tasks[s]; }
    }
  }

  lemma StructuresKept(tasks: seq<Task>, c: nat, dirs: nat)
    requires 0 < c < |tasks| && tasks[c].Task?
    ensures Structures(tasks[c := tasks[c].(dirs := dirs)]) == Structures(tasks)
  {
    var u := tasks[c := tasks[c].(dirs := dirs)];
    forall f: nat ensures f in Structures(u) <==> f in Structures(tasks) {
      if s :| 0 < s < |tasks| && tasks[s].Task? && tasks[s].page == f { assert u[s].Task? && u[s].page == f; }
    }
  }

  lemma LeakStep(s: State, t: State, op: Op, r: Result)
    requires Ok(s) && Follows(s, t, op, r)
    ensures |Leaked(t)| == |Leaked(s)| + if op.Exec? && r == Lost then |op.args| else 0
  {
    hide Inv, SpacesOf, After, TaskOk, Structures, Refuses, Loses, AllRun, Look;
    if Allowed(s, op) {
      StructuresHeld(s);
      if op.Fork? && r.Forked? {
        StructuresAdded(s.tasks, r.child, t.tasks[r.child]);
        assert Leaked(t) == Leaked(s);
      } else if op.Exit? {
        StructuresRemoved(s.tasks, op.slot);
        StructureOf(s.tasks, s.tasks[op.slot].page);
        assert Leaked(t) == Leaked(s);
      } else if op.Exec? && r != Refused {
        StructuresKept(s.tasks, op.slot, DIRS);
        if r == Lost { assert Leaked(t) == Leaked(s) + (t.mem.held - s.mem.held); }
      }
    }
  }

  lemma StructuresHeld(st: State)
    requires Ok(st)
    ensures Structures(st.tasks) <= st.mem.held
  {
    forall s | 0 < s < |st.tasks| && st.tasks[s].Task? ensures st.tasks[s].page in st.mem.held { assert TaskOk(st.mem, s, st.tasks[s]); }
  }

  /** Over a run frames leak exactly as exec loses them. */
  lemma {:induction false} LeaksExactly(states: seq<State>, events: seq<Event>, ops: seq<Op>, k: nat)
    requires k <= |events| <= |ops| && |states| == |events| + 1 && forall j: nat :: j < k ==> RunAt(states, events, ops, j)
    ensures |Leaked(states[k])| == |Leaked(states[0])| + ArgsLost(events[..k])
    decreases k
  {
    hide Ok, Follows, Leaked;
    if k > 0 {
      LeaksExactly(states, events, ops, k - 1);
      assert RunAt(states, events, ops, k - 1);
      LeakStep(states[k - 1], states[k], ops[k - 1], events[k - 1].r);
      assert events[..k][..k - 1] == events[..k - 1];
    }
  }

  /** If nothing has leaked, every counter is the number of references: page table entries, the directory entry of a
      page table, and the task that has the frame for its structure. */
  lemma CountersAreReferences(st: State, f: nat)
    requires Ok(st) && Leaked(st) == {} && Managed(st.mem, f)
    ensures st.mem.count[f - LOW] == |Refs(st.mem, f)| + (if IsTable(st.mem, f) then 1 else 0)
                                     + (if exists s :: 0 < s < NR_TASKS && st.tasks[s].Task? && st.tasks[s].page == f then 1 else 0)
  {
    hide KernelOk, TablesOk, PagesOk, Aligned, Exclusive, HeldOk;
    StructuresHeld(st);
    StructureOf(st.tasks, f);
    assert f in st.mem.held && f !in Structures(st.tasks) ==> f in Leaked(st);
  }
}
