/**
  Pipes (linux-0.11/fs/pipe.c): a page used as a ring, and processes that switch
  only where they sleep. Both directions sleep on one queue, and always right after
  a wake_up, so that never more than one process sleeps.
 */
module Pipe {
  import FileTree

  type Byte = FileTree.Byte

  const PAGE: nat := 4096
  const ROOM: nat := PAGE - 1          // one byte is always left unused
  const NULL: int := -1

  /** Where a process stands in its read or write, and how that ended. */
  datatype Proc =
    | Outside
    | Reading(want: nat, got: seq<Byte>)
    | Writing(data: seq<Byte>, done: nat)
    | HasRead(got: seq<Byte>)
    | HasWritten(done: nat, broken: bool)

  /** `ends` is the inode's use count: 2 while both ends are open. */
  datatype State = State(content: seq<Byte>, ends: nat, procs: seq<Proc>, asleep: seq<bool>)

  datatype Step =
    | StartRead(i: nat, want: nat)
    | StartWrite(i: nat, data: seq<Byte>)
    | Continue(i: nat)
    | Close

  // ---------- what each step does ----------

  function Min(a: int, b: int): int {
    if a <= b then a else b
  }

  function Awake(n: nat): seq<bool> {
    seq(n, _ => false)
  }

  ghost predicate Ready(st: State) {
    |st.asleep| == |st.procs|
  }

  predicate Runs(st: State, i: nat)
    requires |st.asleep| == |st.procs|
  {
    i < |st.procs| && !st.asleep[i]
  }

  function TakeCount(st: State, i: nat): (k: nat)
    requires i < |st.procs| && st.procs[i].Reading? && |st.procs[i].got| <= st.procs[i].want
    ensures k <= |st.content|
  {
    Min(st.procs[i].want - |st.procs[i].got|, |st.content|)
  }

  /** A reader takes what it can; it sleeps only on an empty pipe that may still be written to. */
  function Reads(st: State, i: nat): State
    requires Ready(st) && i < |st.procs| && st.procs[i].Reading? && |st.procs[i].got| <= st.procs[i].want
  {
    var p, k := st.procs[i], TakeCount(st, i);
    var got := p.got + st.content[..k];
    if |got| == p.want || st.ends != 2 then
      st.(content := st.content[k..], procs := st.procs[i := HasRead(got)], asleep := Awake(|st.procs|))
    else
      st.(content := st.content[k..], procs := st.procs[i := Reading(p.want, got)], asleep := Awake(|st.procs|)[i := true])
  }

  function PutCount(st: State, i: nat): (k: nat)
    requires i < |st.procs| && st.procs[i].Writing? && st.procs[i].done <= |st.procs[i].data| && |st.content| <= ROOM
    ensures k <= |st.procs[i].data| - st.procs[i].done && |st.content| + k <= ROOM
  {
    Min(|st.procs[i].data| - st.procs[i].done, ROOM - |st.content|)
  }

  /** A writer puts what fits; it sleeps only on a full pipe that may still be read. */
  function Writes(st: State, i: nat): State
    requires Ready(st) && i < |st.procs| && st.procs[i].Writing? && st.procs[i].done <= |st.procs[i].data| && |st.content| <= ROOM
  {
    var p, k := st.procs[i], PutCount(st, i);
    var content := st.content + p.data[p.done..p.done + k];
    if p.done + k == |p.data| then
      st.(content := content, procs := st.procs[i := HasWritten(p.done + k, false)], asleep := Awake(|st.procs|))
    else if st.ends != 2 then
      st.(content := content, procs := st.procs[i := HasWritten(p.done + k, true)], asleep := Awake(|st.procs|))
    else
      st.(content := content, procs := st.procs[i := Writing(p.data, p.done + k)], asleep := Awake(|st.procs|)[i := true])
  }

  ghost predicate ProcOk(st: State, i: nat)
    requires Ready(st) && i < |st.procs|
  {
    var p := st.procs[i];
    && (p.Reading? ==> |p.got| <= p.want)
    && (p.Writing? ==> p.done <= |p.data|)
    && (st.asleep[i] ==> st.ends == 2 && if p.Reading? then st.content == [] else p.Writing? && |st.content| == ROOM)
  }

  ghost predicate OneSleeper(asleep: seq<bool>) {
    forall i: nat, j: nat :: i < |asleep| && j < |asleep| && asleep[i] && asleep[j] ==> i == j
  }

  /** At most 4095 bytes wait, nobody sleeps while there is something for it to do, and never two sleep at a time. */
  ghost predicate Inv(st: State) {
    && Ready(st) && st.ends <= 2 && |st.content| <= ROOM && OneSleeper(st.asleep)
    && forall i: nat :: i < |st.procs| ==> ProcOk(st, i)
  }

  /** A step that does not apply does nothing. */
  function Next(st: State, s: Step): State
    requires Inv(st)
  {
    match s
    case StartRead(i, want) =>
      if i < |st.procs| && !st.procs[i].Reading? && !st.procs[i].Writing? then st.(procs := st.procs[i := Reading(want, [])]) else st
    case StartWrite(i, data) =>
      if i < |st.procs| && !st.procs[i].Reading? && !st.procs[i].Writing? then st.(procs := st.procs[i := Writing(data, 0)]) else st
    case Continue(i) =>
      assert i < |st.procs| ==> ProcOk(st, i);
      if !Runs(st, i) then st
      else if st.procs[i].Reading? then Reads(st, i)
      else if st.procs[i].Writing? then Writes(st, i)
      else st
    case Close =>
      if st.ends == 0 then st else st.(ends := st.ends - 1, asleep := Awake(|st.procs|))
  }

  lemma NextKeeps(st: State, s: Step)
    requires Inv(st)
    ensures Inv(Next(st, s))
  {
    var t := Next(st, s);
    forall i: nat | i < |t.procs| ensures ProcOk(t, i) {
      assert ProcOk(st, i);
    }
  }

  /** One stretch of a reader: it takes all it may of what waits, returns when it has enough or an end is closed, so
      short only with the pipe empty, and sleeps otherwise. Whoever slept is awake. */
  lemma ReadsExactly(st: State, i: nat)
    requires Inv(st) && Runs(st, i) && st.procs[i].Reading?
    ensures var p, t := st.procs[i], Next(st, Continue(i));
            var k := if p.want - |p.got| <= |st.content| then p.want - |p.got| else |st.content|;
      && 0 <= k && t.content == st.content[k..] && t.ends == st.ends
      && t.procs == st.procs[i := if |p.got| + k == p.want || st.ends != 2 then HasRead(p.got + st.content[..k])
                                  else Reading(p.want, p.got + st.content[..k])]
      && (|p.got| + k < p.want ==> t.content == [])
      && |t.asleep| == |st.asleep|
      && forall j: nat :: j < |t.asleep| ==> (t.asleep[j] <==> j == i && |p.got| + k < p.want && st.ends == 2)
  {
    assert ProcOk(st, i);
  }

  /** One stretch of a writer: it puts all that fits, and stops short only with 4095 bytes waiting: for good if an end is
      closed, asleep otherwise. */
  lemma WritesExactly(st: State, i: nat)
    requires Inv(st) && Runs(st, i) && st.procs[i].Writing?
    ensures var p, t := st.procs[i], Next(st, Continue(i));
            var k := if |p.data| - p.done <= 4095 - |st.content| then |p.data| - p.done else 4095 - |st.content|;
      && 0 <= k && p.done + k <= |p.data| && t.content == st.content + p.data[p.done..p.done + k] && t.ends == st.ends
      && t.procs == st.procs[i := if p.done + k == |p.data| then HasWritten(p.done + k, false)
                                  else if st.ends != 2 then HasWritten(p.done + k, true) else Writing(p.data, p.done + k)]
      && (p.done + k < |p.data| ==> |t.content| == 4095)
      && |t.asleep| == |st.asleep|
      && forall j: nat :: j < |t.asleep| ==> (t.asleep[j] <==> j == i && p.done + k < |p.data| && st.ends == 2)
  {
    assert ProcOk(st, i);
  }

  lemma ProcAt(st: State, i: nat)
    requires Inv(st) && i < |st.procs|
    ensures Ready(st) && ProcOk(st, i)
  {
  }

  /** A process that is not at it already begins to read or write from nothing, and closing an end wakes all. */
  lemma CallsExactly(st: State, i: nat, want: nat, data: seq<Byte>)
    requires Inv(st) && i < |st.procs| && !st.procs[i].Reading? && !st.procs[i].Writing?
    ensures Next(st, StartRead(i, want)) == st.(procs := st.procs[i := Reading(want, [])])
    ensures Next(st, StartWrite(i, data)) == st.(procs := st.procs[i := Writing(data, 0)])
    ensures st.ends > 0 ==> var t := Next(st, Close);
      t.ends == st.ends - 1 && t.content == st.content && t.procs == st.procs && forall j :: 0 <= j < |t.asleep| ==> !t.asleep[j]
  {
  }

  // ---------- first in, first out ----------

  function Taken(st: State, s: Step): seq<Byte>
    requires Inv(st)
  {
    assert s.Continue? && s.i < |st.procs| ==> ProcOk(st, s.i);
    if s.Continue? && Runs(st, s.i) && st.procs[s.i].Reading? then st.content[..TakeCount(st, s.i)] else []
  }

  function Put(st: State, s: Step): seq<Byte>
    requires Inv(st)
  {
    assert s.Continue? && s.i < |st.procs| ==> ProcOk(st, s.i);
    if s.Continue? && Runs(st, s.i) && st.procs[s.i].Writing? then
      var p := st.procs[s.i];
      p.data[p.done..p.done + PutCount(st, s.i)]
    else []
  }

  function After(st: State, steps: seq<Step>): (t: State)
    requires Inv(st)
    ensures Inv(t)
  {
    if steps == [] then st
    else
      var u := After(st, steps[..|steps| - 1]);
      NextKeeps(u, steps[|steps| - 1]);
      Next(u, steps[|steps| - 1])
  }

  function AllTaken(st: State, steps: seq<Step>): seq<Byte>
    requires Inv(st)
  {
    if steps == [] then []
    else
      var before := steps[..|steps| - 1];
      AllTaken(st, before) + Taken(After(st, before), steps[|steps| - 1])
  }

  function AllPut(st: State, steps: seq<Step>): seq<Byte>
    requires Inv(st)
  {
    if steps == [] then []
    else
      var before := steps[..|steps| - 1];
      AllPut(st, before) + Put(After(st, before), steps[|steps| - 1])
  }

  lemma StepConserves(st: State, s: Step)
    requires Inv(st)
    ensures st.content + Put(st, s) == Taken(st, s) + Next(st, s).content
  {
    assert s.Continue? && s.i < |st.procs| ==> ProcOk(st, s.i);
    assert st.content + [] == st.content && [] + st.content == st.content;
  }

  /** Under any interleaving, what was taken and what still waits are what was put, in order. */
  lemma {:induction false} FirstInFirstOut(st: State, steps: seq<Step>)
    requires Inv(st)
    ensures st.content + AllPut(st, steps) == AllTaken(st, steps) + After(st, steps).content
    ensures |After(st, steps).content| <= ROOM
    decreases |steps|
  {
    if steps != [] {
      var before, s := steps[..|steps| - 1], steps[|steps| - 1];
      FirstInFirstOut(st, before);
      var u := After(st, before);
      StepConserves(u, s);
      Regroup(st.content, AllPut(st, before), Put(u, s), AllTaken(st, before), u.content, Taken(u, s), Next(u, s).content);
    }
  }

  lemma Regroup(c: seq<Byte>, p: seq<Byte>, p': seq<Byte>, t: seq<Byte>, d: seq<Byte>, t': seq<Byte>, e: seq<Byte>)
    requires c + p == t + d && d + p' == t' + e
    ensures c + (p + p') == (t + t') + e
  {
    assert c + (p + p') == (c + p) + p';
    assert (t + d) + p' == t + (d + p');
    assert t + (t' + e) == (t + t') + e;
  }

  predicate ByTwo(s: Step, r: nat, w: nat) {
    s == Continue(r) || s == Continue(w) || s == Close
  }

  function GotSoFar(p: Proc): seq<Byte> {
    if p.Reading? || p.HasRead? then p.got else []
  }

  function DoneSoFar(p: Proc): nat {
    if p.Writing? || p.HasWritten? then p.done else 0
  }

  ghost predicate Between(st: State, r: nat, w: nat, data: seq<Byte>, want: nat) {
    && r < |st.procs| && w < |st.procs| && r != w
    && (st.procs[r].HasRead? || (st.procs[r].Reading? && st.procs[r].want == want))
    && (st.procs[w].HasWritten? || (st.procs[w].Writing? && st.procs[w].data == data))
    && var got, done := GotSoFar(st.procs[r]), DoneSoFar(st.procs[w]);
      |got| <= done <= |data| && |got| <= want && got == data[..|got|] && st.content == data[|got|..done]
      && (st.procs[r].HasRead? ==> |got| == want || st.ends != 2)
      && (st.procs[w].HasWritten? ==> if st.procs[w].broken then st.ends != 2 else done == |data|)
  }

  /** With one reader and one writer, whoever runs when: what the reader has is the beginning of what the writer
      was given; it ends short only if an end was closed. */
  lemma {:induction false} ReaderGetsPrefix(st: State, steps: seq<Step>, r: nat, w: nat, data: seq<Byte>, want: nat)
    requires Inv(st) && Between(st, r, w, data, want)
    requires forall s :: s in steps ==> ByTwo(s, r, w)
    ensures Between(After(st, steps), r, w, data, want)
    decreases |steps|
  {
    if steps != [] {
      var before, s := steps[..|steps| - 1], steps[|steps| - 1];
      assert s in steps;
      ReaderGetsPrefix(st, before, r, w, data, want);
      BetweenKept(After(st, before), s, r, w, data, want);
    }
  }

  lemma BetweenKept(st: State, s: Step, r: nat, w: nat, data: seq<Byte>, want: nat)
    requires Inv(st) && Between(st, r, w, data, want) && ByTwo(s, r, w)
    ensures Between(Next(st, s), r, w, data, want)
  {
    if s == Continue(r) { ReaderKeepsBetween(st, r, w, data, want); }
    if s == Continue(w) { WriterKeepsBetween(st, r, w, data, want); }
  }

  lemma ReaderKeepsBetween(st: State, r: nat, w: nat, data: seq<Byte>, want: nat)
    requires Inv(st) && Between(st, r, w, data, want)
    ensures Between(Next(st, Continue(r)), r, w, data, want)
  {
    assert ProcOk(st, r);
    var got, done := GotSoFar(st.procs[r]), DoneSoFar(st.procs[w]);
    if Runs(st, r) && st.procs[r].Reading? {
      var k := TakeCount(st, r);
      assert data[..|got|] + data[|got|..done][..k] == data[..|got| + k];
      assert data[|got|..done][k..] == data[|got| + k..done];
    }
  }

  lemma WriterKeepsBetween(st: State, r: nat, w: nat, data: seq<Byte>, want: nat)
    requires Inv(st) && Between(st, r, w, data, want)
    ensures Between(Next(st, Continue(w)), r, w, data, want)
  {
    assert ProcOk(st, w);
    var got, done := GotSoFar(st.procs[r]), DoneSoFar(st.procs[w]);
    if Runs(st, w) && st.procs[w].Writing? {
      var k := PutCount(st, w);
      assert data[|got|..done] + data[done..done + k] == data[|got|..done + k];
    }
  }

  // ---------- the ring ----------

  // The low twelve bits.
  function Wrap(x: int): (w: nat)
    ensures w < PAGE && (w == x + PAGE || w == x || w == x - PAGE || x + PAGE < 0 || x >= 2 * PAGE)
  {
    x % PAGE
  }

  function Ring(page: seq<Byte>, tail: nat, n: nat): (c: seq<Byte>)
    requires |page| == PAGE
    ensures |c| == n
  {
    seq(n, j requires 0 <= j < n => page[Wrap(tail + j)])
  }

  lemma RingTake(page: seq<Byte>, tail: nat, n: nat, k: nat)
    requires |page| == PAGE && tail < PAGE && k <= n <= ROOM && tail + k <= PAGE
    ensures Ring(page, tail, n)[..k] == page[tail..tail + k]
    ensures Ring(page, tail, n)[k..] == Ring(page, Wrap(tail + k), n - k)
  {
    hide Wrap;
    forall j | 0 <= j < k ensures Ring(page, tail, n)[..k][j] == page[tail..tail + k][j] {
      assert Wrap(tail + j) == tail + j;
    }
    forall j | 0 <= j < n - k ensures Ring(page, tail, n)[k..][j] == Ring(page, Wrap(tail + k), n - k)[j] {
      assert Wrap(tail + (k + j)) == Wrap(Wrap(tail + k) + j);
    }
  }

  lemma RingPut(page: seq<Byte>, page': seq<Byte>, tail: nat, n: nat, head: nat, k: nat, data: seq<Byte>)
    requires |page| == |page'| == PAGE && tail < PAGE && head == Wrap(tail + n) && |data| == k
    requires n + k <= ROOM && head + k <= PAGE
    requires page' == page[..head] + data + page[head + k..]
    ensures Ring(page', tail, n + k) == Ring(page, tail, n) + data
  {
    hide Wrap;
    forall j | 0 <= j < n + k ensures Ring(page', tail, n + k)[j] == (Ring(page, tail, n) + data)[j] {
      var x := Wrap(tail + j);
      if j < n {
        assert !(head <= x < head + k) by { Elsewhere(tail, n, k, j); }
      } else {
        assert x == head + (j - n);
      }
    }
  }

  lemma Elsewhere(tail: nat, n: nat, k: nat, j: nat)
    requires tail < PAGE && j < n && n + k <= ROOM && Wrap(tail + n) + k <= PAGE
    ensures var x, head := Wrap(tail + j), Wrap(tail + n); x < head || head + k <= x
  {
    hide Wrap;
    assert tail + n < 2 * PAGE;
  }

  class Pipe {
    const page: array<Byte>
    var head: nat
    var tail: nat
    var ends: nat
    var wait: int                     // i_wait: the head of the queue
    const procs: array<Proc>
    const asleep: array<bool>

    function Size(): (n: nat)
      reads this
    {
      Wrap(head - tail)
    }

    ghost predicate Shape()
      reads this
    {
      page.Length == PAGE && head < PAGE && tail < PAGE
    }

    ghost function S(): State
      requires Shape()
      reads this, page, procs, asleep
    {
      State(Ring(page[..], tail, Size()), ends, procs[..], asleep[..])
    }

    // The queue head leads to the one sleeper.
    ghost predicate Queued()
      reads this, asleep
    {
      forall j: nat :: j < asleep.Length ==> (asleep[j] <==> j == wait)
    }

    ghost predicate Valid()
      reads this, page, procs, asleep
    {
      Shape() && Queued() && Inv(S())
    }

    /** A new pipe with both ends open. */
    constructor (processes: nat)
      ensures Valid() && S().content == [] && ends == 2 && procs.Length == processes
      ensures forall i: nat :: i < processes ==> procs[i] == Outside
      ensures fresh(page) && fresh(procs) && fresh(asleep)
    {
      page := new Byte[PAGE](i => 0);
      procs := new Proc[processes](i => Outside);
      asleep := new bool[processes](i => false);
      head, tail, ends, wait := 0, 0, 2, NULL;
    }

    /** wake_up: the first of the queue may run on, and it was the only one. */
    method WakeUp()
      requires Queued()
      modifies this`wait, asleep
      ensures Queued() && wait == NULL && asleep[..] == Awake(asleep.Length)
    {
      if 0 <= wait < asleep.Length { asleep[wait] := false; }
      wait := NULL;
    }

    /** sleep_on: the pointer it saves is always NULL, so nobody is left to be woken when it returns. */
    method SleepOn(i: nat)
      requires Queued() && wait == NULL && i < asleep.Length && asleep[..] == Awake(asleep.Length)
      modifies this`wait, asleep
      ensures Queued() && asleep[..] == Awake(asleep.Length)[i := true]
    {
      wait := i;
      asleep[i] := true;
    }

    // Process `i` wakes whoever waits, and returns or goes to sleep.
    method Leave(i: nat, p: Proc, sleeps: bool)
      requires Shape() && Queued() && i < procs.Length == asleep.Length
      modifies this`wait, procs, asleep
      ensures Shape() && Queued()
      ensures S() == old(S()).(procs := old(procs[..])[i := p],
                               asleep := if sleeps then Awake(procs.Length)[i := true] else Awake(procs.Length))
    {
      hide Wrap, Ring;
      WakeUp();
      procs[i] := p;
      if sleeps { SleepOn(i); }
    }

    /** read_pipe from where it was called or woken to where it returns or sleeps. */
    method ReadPipe(i: nat)
      requires Valid() && Runs(S(), i) && procs[i].Reading?
      modifies this`tail, this`wait, procs, asleep
      ensures Valid() && ProcOk(old(S()), i) && S() == Reads(old(S()), i)
    {
      hide Inv, Wrap, Ring, OneSleeper;
      ghost var st := S();
      assert ProcOk(st, i) by { ProcAt(st, i); }
      NextKeeps(st, Continue(i));
      var want, got := procs[i].want, procs[i].got;
      var bytes := TakeMost(want - |got|);
      assert |bytes| == TakeCount(st, i) && S() == st.(content := st.content[|bytes|..]);
      hide Awake, Min, TakeCount, ProcOk;
      got := got + bytes;
      if |got| == want || ends != 2 {
        Leave(i, HasRead(got), false);
      } else {
        Leave(i, Reading(want, got), true);
      }
    }

    // Chunk after chunk until there is nothing more to take.
    method TakeMost(count: nat) returns (read: seq<Byte>)
      requires Shape()
      modifies this`tail
      ensures Shape() && |read| == Min(count, |old(S().content)|)
      ensures read == old(S().content)[..|read|] && S().content == old(S().content)[|read|..]
    {
      hide Wrap, Ring;
      ghost var c := S().content;
      assert c == c[0..];
      read := [];
      while |read| < count && Size() > 0
        invariant Shape() && |read| <= count && |read| <= |c| && read == c[..|read|] && S().content == c[|read|..]
        decreases count - |read|
      {
        var bytes := TakeChunk(count - |read|);
        assert c[..|read|] + c[|read|..][..|bytes|] == c[..|read| + |bytes|];
        assert c[|read|..][|bytes|..] == c[|read| + |bytes|..];
        read := read + bytes;
      }
    }

    // As much as is there and asked for, up to the end of the page.
    method TakeChunk(count: nat) returns (bytes: seq<Byte>)
      requires Shape() && count > 0 && Size() > 0
      modifies this`tail
      ensures Shape() && 1 <= |bytes| <= count && |bytes| <= |old(S().content)|
      ensures bytes == old(S().content)[..|bytes|] && S().content == old(S().content)[|bytes|..]
    {
      hide Wrap;
      var chars := PAGE - tail;
      if chars > count { chars := count; }
      if chars > Size() { chars := Size(); }
      RingTake(page[..], tail, Size(), chars);
      bytes := CopyOut(tail, chars);
      tail := Wrap(tail + chars);
    }

    method CopyOut(first: nat, n: nat) returns (bytes: seq<Byte>)
      requires first + n <= page.Length
      ensures bytes == page[first..first + n]
    {
      var at, chars := first, n;
      bytes := [];
      while chars > 0
        invariant 0 <= chars && first <= at && at + chars == first + n && bytes == page[first..at]
      {
        bytes := bytes + [page[at]];
        at, chars := at + 1, chars - 1;
      }
    }

    method CopyIn(first: nat, data: seq<Byte>)
      requires first + |data| <= page.Length
      modifies page
      ensures page[..] == old(page[..first]) + data + old(page[first + |data|..])
    {
      var at, chars := first, |data|;
      while chars > 0
        invariant 0 <= chars && first <= at && at + chars == first + |data|
        invariant page[..] == old(page[..first]) + data[..at - first] + old(page[at..])
      {
        page[at] := data[at - first];
        at, chars := at + 1, chars - 1;
      }
    }

    /** write_pipe from where it was called or woken to where it returns or sleeps. */
    method WritePipe(i: nat)
      requires Valid() && Runs(S(), i) && procs[i].Writing?
      modifies this`head, this`wait, page, procs, asleep
      ensures Valid() && ProcOk(old(S()), i) && S() == Writes(old(S()), i)
    {
      ghost var st := S();
      assert ProcOk(st, i) && |st.content| <= ROOM;
      NextKeeps(st, Continue(i));
      hide Inv, Wrap, Ring;
      var data := procs[i].data;
      var written := PutMost(data, procs[i].done);
      assert written == procs[i].done + PutCount(st, i) && S() == st.(content := st.content + data[procs[i].done..written]);
      hide Awake, Min, PutCount, ProcOk;
      if written == |data| {
        Leave(i, HasWritten(written, false), false);
      } else if ends != 2 {
        Leave(i, HasWritten(written, true), false);
      } else {
        Leave(i, Writing(data, written), true);
      }
    }

    // Chunk after chunk until nothing more is left or fits.
    method PutMost(data: seq<Byte>, done: nat) returns (written: nat)
      requires Shape() && done <= |data| && Size() <= ROOM
      modifies this`head, page
      ensures Shape() && written == done + Min(|data| - done, ROOM - |old(S().content)|) && written <= |data|
      ensures S().content == old(S().content) + data[done..written]
    {
      hide Wrap, Ring;
      ghost var c := S().content;
      written := done;
      assert c + data[done..done] == c;
      while written < |data| && Size() < ROOM
        invariant Shape() && done <= written <= |data| && S().content == c + data[done..written] && |S().content| <= ROOM
        decreases |data| - written
      {
        var n := PutChunk(data, written);
        assert c + data[done..written] + data[written..written + n] == c + data[done..written + n];
        written := written + n;
      }
    }

    // As much as is given and fits, up to the end of the page.
    method PutChunk(data: seq<Byte>, done: nat) returns (n: nat)
      requires Shape() && done < |data| && Size() < ROOM
      modifies this`head, page
      ensures Shape() && 1 <= n <= |data| - done && |old(S().content)| + n <= ROOM
      ensures S().content == old(S().content) + data[done..done + n]
    {
      hide Wrap;
      n := PAGE - head;
      if n > |data| - done { n := |data| - done; }
      if n > ROOM - Size() { n := ROOM - Size(); }
      ghost var before, size := page[..], Size();
      CopyIn(head, data[done..done + n]);
      RingPut(before, page[..], tail, size, head, n, data[done..done + n]);
      head := Wrap(head + n);
    }

    /** One end is closed: iput on the pipe's inode. */
    method Close()
      requires Valid()
      modifies this`ends, this`wait, asleep
      ensures Valid() && S() == Next(old(S()), Step.Close)
    {
      NextKeeps(S(), Step.Close);
      if ends > 0 {
        WakeUp();
        ends := ends - 1;
      }
    }

    method Do(s: Step)
      requires Valid()
      modifies this, page, procs, asleep
      ensures Valid() && S() == Next(old(S()), s)
    {
      ghost var st := S();
      NextKeeps(st, s);
      match s
      case StartRead(i, want) =>
        if i < procs.Length && !procs[i].Reading? && !procs[i].Writing? { procs[i] := Reading(want, []); }
      case StartWrite(i, data) =>
        if i < procs.Length && !procs[i].Reading? && !procs[i].Writing? { procs[i] := Writing(data, 0); }
      case Continue(i) =>
        if i < procs.Length && !asleep[i] {
          if procs[i].Reading? { ReadPipe(i); } else if procs[i].Writing? { WritePipe(i); }
        }
      case Close => Close();
    }

    /** Any interleaving of readers and writers: bytes come out in the order they went in. */
    method Run(steps: seq<Step>)
      requires Valid()
      modifies this, page, procs, asleep
      ensures Valid() && S() == After(old(S()), steps)
      ensures old(S().content) + AllPut(old(S()), steps) == AllTaken(old(S()), steps) + S().content
    {
      ghost var st := S();
      for j := 0 to |steps|
        invariant Valid() && S() == After(st, steps[..j])
      {
        Do(steps[j]);
        assert steps[..j + 1][..j] == steps[..j];
      }
      assert steps[..|steps|] == steps;
      FirstInFirstOut(st, steps);
    }
  }
}
