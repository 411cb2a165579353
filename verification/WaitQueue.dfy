/**
  sleep_on and wake_up (linux-0.11/kernel/sched.c): a wait queue is one pointer,
  and the rest of it lives in a local variable of each sleeper.
 */
module WaitQueue {
  import opened Sequences

  // Who has to wake a sleeper: a queue head, or the task that slept after it.
  datatype Waker = Nobody | Queue(q: nat) | Task(u: nat)

  /** `tmp[t]` is the saved pointer of a task inside sleep_on. `waker` and the times of going to sleep are for the proof. */
  datatype State = State(asleep: seq<bool>, inside: seq<bool>, tmp: seq<int>, head: seq<int>,
                         waker: seq<Waker>, since: seq<nat>, now: nat)

  datatype Step = SleepOn(t: nat, q: nat) | WakeUp(q: nat) | Resume(t: nat)

  ghost predicate Sized(st: State) {
    |st.asleep| == |st.inside| == |st.tmp| == |st.waker| == |st.since|
  }

  // ---------- the invariant ----------

  predicate Points(st: State, w: Waker, t: nat)
    requires Sized(st)
  {
    (w.Queue? && w.q < |st.head| && st.head[w.q] == t) || (w.Task? && w.u < |st.tmp| && st.inside[w.u] && st.tmp[w.u] == t)
  }

  /** Each sleeper has its waker, and nobody else has one. */
  ghost predicate TaskOk(st: State, t: nat)
    requires Sized(st) && t < |st.asleep|
  {
    && (st.asleep[t] ==> st.inside[t] && Points(st, st.waker[t], t))
    && (st.inside[t] ==> st.since[t] < st.now)
    && (st.inside[t] && st.tmp[t] != NULL ==>
          0 <= st.tmp[t] < |st.asleep| && st.asleep[st.tmp[t]] && st.waker[st.tmp[t]] == Task(t) && st.since[st.tmp[t]] < st.since[t])
  }

  ghost predicate HeadOk(st: State, q: nat)
    requires Sized(st) && q < |st.head|
  {
    st.head[q] != NULL ==> 0 <= st.head[q] < |st.asleep| && st.asleep[st.head[q]] && st.waker[st.head[q]] == Queue(q)
  }

  ghost predicate Inv(st: State) {
    && Sized(st)
    && (forall t: nat :: t < |st.asleep| ==> TaskOk(st, t))
    && (forall q: nat :: q < |st.head| ==> HeadOk(st, q))
  }

  /** Exactly one pointer leads to a sleeper. */
  lemma UniqueWaker(st: State, t: nat)
    requires Inv(st) && t < |st.asleep|
    ensures st.asleep[t] <==> exists w :: Points(st, w, t)
    ensures forall v, w :: Points(st, v, t) && Points(st, w, t) ==> v == w
  {
    assert TaskOk(st, t);
    forall w | Points(st, w, t) ensures st.asleep[t] && w == st.waker[t] {
      match w
      case Queue(q) => assert HeadOk(st, q);
      case Task(u) => assert TaskOk(st, u);
    }
  }

  // ---------- the steps ----------

  predicate Enabled(st: State, s: Step)
    requires Sized(st)
  {
    match s
    case SleepOn(t, q) => 0 < t < |st.asleep| && q < |st.head| && !st.inside[t]
    case WakeUp(q) => q < |st.head|
    case Resume(t) => t < |st.asleep| && st.inside[t] && !st.asleep[t]
  }

  function Next(st: State, s: Step): State
    requires Inv(st) && Enabled(st, s)
  {
    match s
    case SleepOn(t, q) =>
      assert HeadOk(st, q);
      var w := if st.head[q] != NULL then st.waker[st.head[q] := Task(t)] else st.waker;
      st.(asleep := st.asleep[t := true], inside := st.inside[t := true], tmp := st.tmp[t := st.head[q]],
          head := st.head[q := t], waker := w[t := Queue(q)], since := st.since[t := st.now], now := st.now + 1)
    case WakeUp(q) =>
      assert HeadOk(st, q);
      if st.head[q] == NULL then st
      else st.(asleep := st.asleep[st.head[q] := false], head := st.head[q := NULL])
    case Resume(t) =>
      assert TaskOk(st, t);
      st.(inside := st.inside[t := false], asleep := if st.tmp[t] != NULL then st.asleep[st.tmp[t] := false] else st.asleep)
  }

  lemma NextKeeps(st: State, s: Step)
    requires Inv(st) && Enabled(st, s)
    ensures Inv(Next(st, s))
  {
    match s
    case SleepOn(t, q) => SleepOnKeeps(st, t, q);
    case WakeUp(q) => WakeUpKeeps(st, q);
    case Resume(t) => ResumeKeeps(st, t);
  }

  lemma SleepOnKeeps(st: State, t: nat, q: nat)
    requires Inv(st) && Enabled(st, SleepOn(t, q))
    ensures Inv(Next(st, SleepOn(t, q)))
  {
    var st' := Next(st, SleepOn(t, q));
    assert HeadOk(st, q) && TaskOk(st, t);
    assert st.head[q] != NULL ==> TaskOk(st, st.head[q]);
    forall u: nat | u < |st'.asleep| ensures TaskOk(st', u) {
      assert TaskOk(st, u);
      assert st.inside[u] && st.tmp[u] != NULL ==> TaskOk(st, st.tmp[u]);
    }
    forall p: nat | p < |st'.head| ensures HeadOk(st', p) { assert HeadOk(st, p); }
  }

  lemma WakeUpKeeps(st: State, q: nat)
    requires Inv(st) && Enabled(st, WakeUp(q))
    ensures Inv(Next(st, WakeUp(q)))
  {
    var st' := Next(st, WakeUp(q));
    assert HeadOk(st, q);
    forall u: nat | u < |st'.asleep| ensures TaskOk(st', u) {
      assert TaskOk(st, u);
      assert st.inside[u] && st.tmp[u] != NULL ==> TaskOk(st, st.tmp[u]);
    }
    forall p: nat | p < |st'.head| ensures HeadOk(st', p) { assert HeadOk(st, p); }
  }

  lemma ResumeKeeps(st: State, t: nat)
    requires Inv(st) && Enabled(st, Resume(t))
    ensures Inv(Next(st, Resume(t)))
  {
    var st' := Next(st, Resume(t));
    assert TaskOk(st, t);
    forall u: nat | u < |st'.asleep| ensures TaskOk(st', u) {
      assert TaskOk(st, u);
      assert st.inside[u] && st.tmp[u] != NULL ==> TaskOk(st, st.tmp[u]);
    }
    forall p: nat | p < |st'.head| ensures HeadOk(st', p) { assert HeadOk(st, p); }
  }

  // ---------- nobody is forgotten ----------

  /** A task and those behind it, latest sleeper first. */
  function Chain(st: State, t: nat): (c: seq<nat>)
    requires Inv(st) && t < |st.asleep| && st.inside[t]
    ensures c != [] && c[0] == t
    decreases st.since[t]
  {
    assert TaskOk(st, t);
    if st.tmp[t] == NULL then [t]
    else
      assert TaskOk(st, st.tmp[t]);
      [t] + Chain(st, st.tmp[t])
  }

  // A task that a wake_up or a resumption reaches next.
  ghost predicate Root(st: State, r: nat)
    requires Sized(st)
  {
    r < |st.asleep| && st.inside[r] && ((!st.asleep[r]) || (st.waker[r].Queue?))
  }

  lemma {:induction false} ChainUp(st: State, r: nat, u: nat, t: nat)
    requires Inv(st) && r < |st.asleep| && st.inside[r] && u < |st.asleep| && st.inside[u] && st.tmp[u] == t
    requires u in Chain(st, r)
    ensures t in Chain(st, r)
    decreases st.since[r]
  {
    assert TaskOk(st, r) && TaskOk(st, u);
    if r != u {
      assert st.tmp[r] != NULL;
      assert TaskOk(st, st.tmp[r]);
      ChainUp(st, st.tmp[r], u, t);
    } else {
      assert TaskOk(st, t);
    }
  }

  /** Every sleeper is behind a queue head or behind a task that is already runnable. */
  lemma {:induction false} NeverStranded(st: State, t: nat) returns (r: nat)
    requires Inv(st) && t < |st.asleep| && st.inside[t]
    ensures Root(st, r) && t in Chain(st, r)
    decreases st.now - st.since[t]
  {
    assert TaskOk(st, t);
    if !st.asleep[t] || st.waker[t].Queue? {
      r := t;
    } else {
      var u := st.waker[t].u;
      assert TaskOk(st, u);
      r := NeverStranded(st, u);
      ChainUp(st, r, u, t);
    }
  }

  // ---------- one wake_up frees all ----------

  /** The first of `c` may run on, and the others sleep behind it in this order. */
  ghost predicate Draining(st: State, c: seq<nat>)
    requires Inv(st)
  {
    c != [] ==> c[0] < |st.asleep| && st.inside[c[0]] && !st.asleep[c[0]] && Chain(st, c[0]) == c
  }

  lemma {:induction false} ChainKept(st: State, s: Step, t: nat)
    requires Inv(st) && Enabled(st, s) && t < |st.asleep| && st.inside[t]
    requires s.Resume? ==> s.t != t
    ensures Inv(Next(st, s)) && Next(st, s).inside[t] && Chain(Next(st, s), t) == Chain(st, t)
    decreases st.since[t]
  {
    NextKeeps(st, s);
    assert TaskOk(st, t);
    if st.tmp[t] != NULL {
      assert TaskOk(st, st.tmp[t]);
      ChainKept(st, s, st.tmp[t]);
    }
  }

  /** wake_up sets the whole queue draining. */
  lemma WakeUpDrains(st: State, q: nat)
    requires Inv(st) && q < |st.head| && st.head[q] != NULL
    ensures 0 <= st.head[q] < |st.asleep| && st.inside[st.head[q]]
    ensures Inv(Next(st, WakeUp(q))) && Draining(Next(st, WakeUp(q)), Chain(st, st.head[q]))
  {
    assert HeadOk(st, q);
    assert TaskOk(st, st.head[q]);
    NextKeeps(st, WakeUp(q));
    ChainKept(st, WakeUp(q), st.head[q]);
  }

  /** Whatever anyone does, a draining queue stays as it is or gets one shorter, by its first task running on. */
  lemma DrainStep(st: State, s: Step, c: seq<nat>)
    requires Inv(st) && Enabled(st, s) && Draining(st, c)
    ensures Inv(Next(st, s)) && Draining(Next(st, s), if c != [] && s == Resume(c[0]) then c[1..] else c)
    ensures c != [] ==> Enabled(st, Resume(c[0]))
    ensures forall i :: 1 <= i < |c| ==> !Enabled(st, Resume(c[i]))
  {
    NextKeeps(st, s);
    if c != [] {
      assert TaskOk(st, c[0]);
      RestAsleep(st, c[0]);
      if s != Resume(c[0]) {
        ChainKept(st, s, c[0]);
        StaysAwake(st, s, c[0]);
      } else if |c| > 1 {
        assert TaskOk(st, st.tmp[c[0]]);
        assert c == [c[0]] + Chain(st, st.tmp[c[0]]);
        assert Chain(st, c[1]) == c[1..] && c[1] == st.tmp[c[0]];
        ChainKept(st, s, c[1]);
      }
    }
  }

  ghost predicate AsleepBehind(st: State, c: seq<nat>) {
    forall i :: 1 <= i < |c| ==> c[i] < |st.asleep| && st.asleep[c[i]]
  }

  lemma {:induction false} RestAsleep(st: State, t: nat)
    requires Inv(st) && t < |st.asleep| && st.inside[t]
    ensures AsleepBehind(st, Chain(st, t))
    decreases st.since[t]
  {
    assert TaskOk(st, t);
    if st.tmp[t] != NULL {
      assert TaskOk(st, st.tmp[t]);
      RestAsleep(st, st.tmp[t]);
    }
  }

  lemma StaysAwake(st: State, s: Step, t: nat)
    requires Inv(st) && Enabled(st, s) && t < |st.asleep| && st.inside[t] && !st.asleep[t]
    ensures |Next(st, s).asleep| == |st.asleep| && !Next(st, s).asleep[t]
  {
    assert TaskOk(st, t);
    if s.Resume? { assert TaskOk(st, s.t); }
    if s.WakeUp? { assert HeadOk(st, s.q); }
  }

  // ---------- whole runs ----------

  /** The state after any steps; one that is not enabled does nothing. */
  function After(st: State, steps: seq<Step>): (t: State)
    requires Inv(st)
    ensures Inv(t)
  {
    if steps == [] then st
    else
      var u := After(st, steps[..|steps| - 1]);
      var s := steps[|steps| - 1];
      if Enabled(u, s) then
        NextKeeps(u, s);
        Next(u, s)
      else u
  }

  /** How many of the tasks that were asleep have run on, in the order they are due. */
  function Resumed(steps: seq<Step>, c: seq<nat>): (n: nat)
    ensures n <= |c|
  {
    if steps == [] then 0
    else
      var n := Resumed(steps[..|steps| - 1], c);
      if n < |c| && steps[|steps| - 1] == Resume(c[n]) then n + 1 else n
  }

  ghost predicate Runnable(st: State, t: nat) {
    t < |st.asleep| && !st.asleep[t]
  }

  // Task `t` was awake at some time.
  ghost predicate Woke(st: State, steps: seq<Step>, t: nat)
    requires Inv(st)
  {
    Runnable(After(st, steps), t) || (steps != [] && Woke(st, steps[..|steps| - 1], t))
  }

  lemma DrainOne(st: State, s: Step, c: seq<nat>)
    requires Inv(st) && Draining(st, c)
    ensures After(st, [s]) == if Enabled(st, s) then Next(st, s) else st
    ensures Draining(After(st, [s]), if c != [] && s == Resume(c[0]) then c[1..] else c)
  {
    assert [s][..0] == [] && After(st, []) == st;
    if c != [] { FirstEnabled(st, c); }
    if Enabled(st, s) { DrainStep(st, s, c); }
  }

  lemma FirstEnabled(st: State, c: seq<nat>)
    requires Inv(st) && Draining(st, c) && c != []
    ensures Enabled(st, Resume(c[0])) && Runnable(st, c[0])
  {
  }

  /** After a wake_up, at every point of any run: as many resumptions as there have been, so many of the sleepers
      it found have been awake, and one more; the next one due can run. So all are awake after as many resumptions
      as there were sleepers. */
  lemma {:induction false} OneWakeUpFreesAll(st: State, steps: seq<Step>, c: seq<nat>)
    requires Inv(st) && Draining(st, c)
    ensures Draining(After(st, steps), c[Resumed(steps, c)..])
    ensures forall i :: 0 <= i <= Resumed(steps, c) && i < |c| ==> Woke(st, steps, c[i])
    decreases |steps|
  {
    hide Inv, Draining, Enabled, Next, Runnable;
    if steps != [] {
      var before, s := steps[..|steps| - 1], steps[|steps| - 1];
      OneWakeUpFreesAll(st, before, c);
      var u, n := After(st, before), Resumed(before, c);
      DrainOne(u, s, c[n..]);
      assert n < |c| ==> c[n..][0] == c[n] && c[n..][1..] == c[n + 1..];
      assert After(st, steps) == After(u, [s]);
    }
    var rest := c[Resumed(steps, c)..];
    if rest != [] { FirstEnabled(After(st, steps), rest); }
  }

  // ---------- the code ----------

  class WaitQueues {
    const asleep: array<bool>
    const inside: array<bool>
    const tmp: array<int>
    const head: array<int>
    ghost var waker: seq<Waker>
    ghost var since: seq<nat>
    ghost var now: nat

    ghost function S(): State
      reads this, asleep, inside, tmp, head
    {
      State(asleep[..], inside[..], tmp[..], head[..], waker, since, now)
    }

    ghost predicate Valid()
      reads this, asleep, inside, tmp, head
    {
      asleep != inside && tmp != head && Inv(S())
    }

    constructor (tasks: nat, queues: nat)
      ensures Valid() && head.Length == queues && asleep.Length == tasks
      ensures forall t: nat :: t < tasks ==> !asleep[t] && !inside[t]
      ensures fresh(asleep) && fresh(inside) && fresh(tmp) && fresh(head)
    {
      asleep := new bool[tasks](i => false);
      inside := new bool[tasks](i => false);
      tmp := new int[tasks](i => NULL);
      head := new int[queues](i => NULL);
      waker, since, now := seq(tasks, _ => Nobody), seq(tasks, _ => 0), 0;
    }

    /** sleep_on up to its call of schedule; false for its panic on task 0. */
    method SleepOn(t: nat, q: nat) returns (ok: bool)
      requires Valid() && t < asleep.Length && q < head.Length && !inside[t]
      modifies this, asleep, inside, tmp, head
      ensures Valid() && ok == (t != 0) && S() == if ok then Next(old(S()), Step.SleepOn(t, q)) else old(S())
    {
      ghost var st := S();
      ok := t != 0;
      if ok {
        NextKeeps(st, Step.SleepOn(t, q));
        assert HeadOk(st, q);
        if head[q] != NULL { waker := waker[head[q] := Task(t)]; }
        waker := waker[t := Queue(q)];
        since := since[t := now];
        now := now + 1;
        tmp[t] := head[q];
        head[q] := t;
        asleep[t] := true;
        inside[t] := true;
        hide Inv;
        assert S() == Next(st, Step.SleepOn(t, q));
      }
    }

    /** sleep_on from its return from schedule. */
    method Resume(t: nat)
      requires Valid() && t < asleep.Length && inside[t] && !asleep[t]
      modifies asleep, inside
      ensures Valid() && S() == Next(old(S()), Step.Resume(t))
    {
      ghost var st := S();
      NextKeeps(st, Step.Resume(t));
      assert TaskOk(st, t);
      if tmp[t] != NULL { asleep[tmp[t]] := false; }
      inside[t] := false;
      hide Inv;
      assert S() == Next(st, Step.Resume(t));
    }

    method WakeUp(q: nat)
      requires Valid() && q < head.Length
      modifies asleep, head
      ensures Valid() && S() == Next(old(S()), Step.WakeUp(q))
    {
      ghost var st := S();
      NextKeeps(st, Step.WakeUp(q));
      assert HeadOk(st, q);
      if head[q] != NULL {
        asleep[head[q]] := false;
        head[q] := NULL;
      }
      hide Inv;
      assert S() == Next(st, Step.WakeUp(q));
    }
  }
}
