/**
  What a task finds in its memory, word by word: what it stored last, whatever
  forks, shares, faults and exits happened since, and what each operation leaves
  where it acts.
 */
module TaskLaws {
  import opened PageTables
  import opened PageSteps
  import opened Memory
  import opened Tasks

  lemma ViewIs(s: State, t: State, op: Op, r: Result, l: Loc)
    requires Follows(s, t, op, r) && Allowed(s, op)
    ensures Look(t.mem, l) == ViewAfter(SpacesOf(s.mem), op, r, s.mem.phys, l)
    ensures At(SpacesOf(s.mem), l) == Look(s.mem, l)
  {
    assert At(SpacesOf(t.mem), l) == Look(t.mem, l);
    hide Look, ViewAfter;
  }

  /** A store puts the word into the task's own page, or into its own copy of a page of the kernel, and changes no
      other word and no other page. */
  lemma StoreActs(s: State, t: State, at: Loc, off: nat, w: Word, r: Result, l: Loc)
    requires Ok(s) && Follows(s, t, Op.Store(at, off, w), r) && Allowed(s, Op.Store(at, off, w)) && r != Refused
    ensures l != at ==> Look(t.mem, l) == Look(s.mem, l)
    ensures Look(s.mem, at).Own? ==> Look(t.mem, at) == Own(Look(s.mem, at).page[off := w])
    ensures Look(s.mem, at).LowFrame? ==>
              var f := Look(s.mem, at).frame; f < |s.mem.phys| && Look(t.mem, at) == Own(s.mem.phys[f][off := w])
  {
    ViewIs(s, t, Op.Store(at, off, w), r, l);
    ViewIs(s, t, Op.Store(at, off, w), r, at);
    if Look(s.mem, at).LowFrame? { StoredView(s.mem, at, off, w); }
    hide Ok, Refuses, Follows;
  }

  /** After a fault there is a page of zeros, the page that was read, or the other task's page at the same place; other
      pages are as before. */
  lemma FaultActs(s: State, t: State, op: Op, r: Result, at: Loc, l: Loc)
    requires Follows(s, t, op, r) && Allowed(s, op) && r != Refused
    requires op == Touch(at) || (op.Load? && op.l == at) || (op.Borrow? && op.l == at)
    ensures l != at ==> Look(t.mem, l) == Look(s.mem, l)
    ensures op.Touch? ==> Look(t.mem, at).Own? && forall k :: 0 <= k < WORDS ==> Look(t.mem, at).page[k] == ZERO
    ensures op.Load? ==> Look(t.mem, at) == Own(op.content)
    ensures op.Borrow? ==> Look(t.mem, at) == Look(s.mem, Loc(op.other, at.i, at.t))
  {
    ViewIs(s, t, op, r, l);
    ViewIs(s, t, op, r, at);
    if op.Borrow? { ViewIs(s, t, op, r, Loc(op.other, at.i, at.t)); }
    hide Refuses, Follows;
  }

  /** fork gives the child what the parent has and takes nothing from anyone; exit leaves the task nothing. */
  lemma ForkActs(s: State, t: State, parent: nat, child: nat, l: Loc)
    requires Follows(s, t, Op.Fork(parent), Forked(child)) && Allowed(s, Op.Fork(parent))
    ensures Look(t.mem, l) == Look(s.mem, if l.slot == child then Loc(parent, l.i, l.t) else l)
  {
    ViewIs(s, t, Op.Fork(parent), Forked(child), l);
    if l.slot == child { ViewIs(s, t, Op.Fork(parent), Forked(child), Loc(parent, l.i, l.t)); }
    hide Refuses, Follows;
  }

  lemma ExitActs(s: State, t: State, slot: nat, r: Result, l: Loc)
    requires Follows(s, t, Op.Exit(slot), r) && Allowed(s, Op.Exit(slot))
    ensures Look(t.mem, l) == if l.slot == slot then Absent else Look(s.mem, l)
  {
    ViewIs(s, t, Op.Exit(slot), r, l);
  }

  /** exec leaves the argument pages, in order, as the last pages of the last directory entry, and nothing else; or
      nothing at all, if the arguments were lost. */
  lemma ExecActs(s: State, t: State, slot: nat, args: seq<Page>, r: Result, l: Loc, j: nat)
    requires Follows(s, t, Op.Exec(slot, args), r) && Allowed(s, Op.Exec(slot, args)) && r != Refused
    ensures l.slot != slot ==> Look(t.mem, l) == Look(s.mem, l)
    ensures l.slot == slot && r == Done && j < |args| && l.i == DIRS - 1 && l.t == WORDS - |args| + j ==> Look(t.mem, l) == Own(args[j])
    ensures l.slot == slot && (r != Done || l.i != DIRS - 1 || l.t < WORDS - |args| || l.t >= WORDS) ==> Look(t.mem, l) == Absent
  {
    ViewIs(s, t, Op.Exec(slot, args), r, l);
    hide Refuses, Follows;
  }

  // ---------- over whole runs ----------

  ghost predicate Finds(st: State, l: Loc, off: nat, w: Word) {
    && Running(st.tasks, l.slot) && Look(st.mem, l).Own? && off < WORDS && Look(st.mem, l).page[off] == w
  }

  /** What takes a word from a task: a store in its place, an exec or an exit, by the task itself. */
  predicate Overwrites(op: Op, l: Loc, off: nat) {
    match op
    case Store(at, o, _) => at == l && o == off
    case Exec(slot, _) => slot == l.slot
    case Exit(slot) => slot == l.slot
    case _ => false
  }

  lemma StillFinds(s: State, t: State, op: Op, r: Result, l: Loc, off: nat, w: Word)
    requires Ok(s) && Follows(s, t, op, r) && Finds(s, l, off, w) && !Overwrites(op, l, off)
    ensures Finds(t, l, off, w)
  {
    hide Ok, Refuses, Look;
    if Allowed(s, op) {
      ViewIs(s, t, op, r, l);
      if r != Refused && op.Store? && op.l == l { StoreActs(s, t, l, op.off, op.w, r, l); }
    }
  }

  /** A task finds in its memory what it stored there last, whatever it and the other tasks did in between. */
  lemma {:induction false} LastStoreFound(states: seq<State>, events: seq<Event>, ops: seq<Op>, j: nat, k: nat, l: Loc, off: nat, w: Word)
    requires |events| == |ops| && |states| == |ops| + 1 && forall i: nat :: i < |ops| ==> RunAt(states, events, ops, i)
    requires j < k <= |ops| && ops[j] == Op.Store(l, off, w) && events[j].r == Done
    requires forall i: nat :: j < i < k ==> !Overwrites(ops[i], l, off)
    ensures Finds(states[k], l, off, w)
    decreases k
  {
    hide Ok, Refuses, Look, Finds, Overwrites, Follows;
    assert RunAt(states, events, ops, k - 1);
    if j + 1 < k {
      LastStoreFound(states, events, ops, j, k - 1, l, off, w);
      StillFinds(states[k - 1], states[k], ops[k - 1], events[k - 1].r, l, off, w);
    } else {
      JustStored(states[j], states[k], l, off, w);
    }
  }

  lemma JustStored(s: State, t: State, l: Loc, off: nat, w: Word)
    requires Ok(s) && Follows(s, t, Op.Store(l, off, w), Done)
    ensures Finds(t, l, off, w)
  {
    hide Ok, Refuses, Look;
    StoreActs(s, t, l, off, w, Done, l);
  }

  /** And a child finds what its parent stored before the fork, until it overwrites it. */
  lemma {:induction false} ChildFindsStore(states: seq<State>, events: seq<Event>, ops: seq<Op>, j: nat, f: nat, k: nat, l: Loc, off: nat,
      w: Word)
    requires |events| == |ops| && |states| == |ops| + 1 && forall i: nat :: i < |ops| ==> RunAt(states, events, ops, i)
    requires j < f < k <= |ops| && ops[j] == Op.Store(l, off, w) && events[j].r == Done
    requires ops[f] == Op.Fork(l.slot) && events[f].r.Forked?
    requires forall i: nat :: j < i < f ==> !Overwrites(ops[i], l, off)
    requires forall i: nat :: f < i < k ==> !Overwrites(ops[i], Loc(events[f].r.child, l.i, l.t), off)
    ensures Finds(states[k], Loc(events[f].r.child, l.i, l.t), off, w)
    decreases k
  {
    hide Ok, Refuses, Look, Finds, Overwrites, Follows;
    assert RunAt(states, events, ops, k - 1);
    var mine := Loc(events[f].r.child, l.i, l.t);
    if f + 1 < k {
      ChildFindsStore(states, events, ops, j, f, k - 1, l, off, w);
      StillFinds(states[k - 1], states[k], ops[k - 1], events[k - 1].r, mine, off, w);
    } else {
      LastStoreFound(states, events, ops, j, f, l, off, w);
      JustForked(states[f], states[k], l, events[f].r.child, off, w);
    }
  }

  lemma JustForked(s: State, t: State, l: Loc, child: nat, off: nat, w: Word)
    requires Follows(s, t, Op.Fork(l.slot), Forked(child)) && Finds(s, l, off, w)
    ensures Finds(t, Loc(child, l.i, l.t), off, w)
  {
    hide Refuses, Look;
    ForkActs(s, t, l.slot, child, Loc(child, l.i, l.t));
  }
}
