/**
  The process table of MyFS (kernel/proc.c): flag fields, and sender queues
  threaded through the table by index. Each method is one kernel entry and is
  proved to do what IpcModel says.
 */
module ProcTable {
  import opened Wrappers
  import opened Sequences
  import opened IpcModel

  const INTERRUPT: int := -10

  datatype Proc = Proc(sending: bool, receiving: bool, sendto: int, recvfrom: int, hasMsg: bool, hasInt: bool,
                       qSending: int, nextSending: int)

  datatype SendResult = Delivered | BlockedSending | DeadlockPanic

  datatype ReceiveResult = GotMessage | GotInterrupt | BlockedReceiving

  function AnyTask(n: nat): int { n + 10 }

  function NoTask(n: nat): int { n + 20 }

  // The code a source has in p_recvfrom.
  function Code(src: Source, n: nat): int {
    match src
    case Any => AnyTask(n)
    case Interrupt => INTERRUPT
    case From(pid) => pid
  }

  function Link(q: seq<nat>, k: nat): int {
    if k < |q| then q[k] else NULL
  }

  ghost predicate Fields(p: Proc, s: Status, pending: bool, n: nat) {
    && p.sending == s.Sending? && p.receiving == s.Receiving? && p.hasMsg == !s.Ready? && p.hasInt == pending
    && p.sendto == (if s.Sending? then s.to else NoTask(n))
    && p.recvfrom == (if s.Receiving? then Code(s.src, n) else NoTask(n))
    && (!s.Sending? ==> p.nextSending == NULL)
  }

  // The k-th process of a queue points to the next one.
  ghost predicate LinkOk(procs: seq<Proc>, q: seq<nat>, k: nat)
    requires k < |q|
  {
    q[k] < |procs| && procs[q[k]].nextSending == Link(q, k + 1)
  }

  ghost predicate Linked(procs: seq<Proc>, d: nat, q: seq<nat>)
    requires d < |procs|
  {
    && procs[d].qSending == Link(q, 0)
    && forall k: nat :: k < |q| ==> LinkOk(procs, q, k)
  }

  /** The table and the message buffers represent the abstract state. */
  ghost predicate Represents(procs: seq<Proc>, buffers: seq<Mail>, st: Ipc) {
    && Sized(st) && |procs| == |st.status| && buffers == st.buffer
    && (forall i: nat :: i < |procs| ==> Fields(procs[i], st.status[i], st.pending[i], |procs|))
    && (forall i: nat :: i < |procs| ==> Linked(procs, i, st.queue[i]))
    && (forall i: nat :: i < |procs| && st.status[i].Sending? ==> buffers[i] == Message(i, st.status[i].body))
    && (forall i: nat :: i < |procs| && st.status[i].Receiving? && st.status[i].src.From? ==> st.status[i].src.pid < |procs|)
  }

  class ProcTable {
    const procs: array<Proc>
    const buffers: array<Mail>
    const ticks: array<int>
    const priority: array<int>
    ghost var st: Ipc

    ghost predicate Valid()
      reads this, procs, buffers
    {
      Represents(procs[..], buffers[..], st) && Inv(st)
    }

    constructor (n: nat, prio: nat -> int)
      ensures Valid() && fresh(procs) && fresh(buffers) && fresh(ticks) && ticks != priority && st == Boot(n)
      ensures ticks.Length == priority.Length == n && forall i: nat :: i < n ==> ticks[i] == priority[i] == prio(i)
    {
      ticks := new int[n](i requires i >= 0 => prio(i));
      priority := new int[n](i requires i >= 0 => prio(i));
      procs := new Proc[n](i => Proc(false, false, NoTask(n), NoTask(n), false, false, NULL, NULL));
      buffers := new Mail[n](i => Nothing);
      st := Boot(n);
      new;
      BootOk(n);
      assert buffers[..] == st.buffer;
    }

    /** Does `dest` wait, directly or through other senders, for `src`? */
    method Deadlock(src: nat, dest: nat) returns (b: bool)
      requires Valid() && src < procs.Length && dest < procs.Length && src != dest
      ensures b <==> Reaches(st, dest, src)
    {
      var p: int := dest;
      assert Finishes(st, p);
      ghost var k: nat :| Ends(st, p, k);
      assert Leads(st, dest, dest, 0);
      while procs[p].sending
        invariant 0 <= p < procs.Length && p != src && k >= 0 && Ends(st, p, k)
        invariant Reaches(st, dest, src) <==> Reaches(st, p, src)
        decreases k
      {
        ReachesNext(st, p, src);
        if procs[p].sendto == src {
          assert Leads(st, src, src, 0);
          return true;
        }
        p := procs[p].sendto;
        k := k - 1;
      }
      NotSending(st, p, src);
      b := false;
    }

    predicate Runnable(p: nat)
      reads procs
    {
      p < procs.Length && !procs[p].sending && !procs[p].receiving
    }

    // The first of the runnable processes below `n` that have the most ticks, if any has one.
    ghost predicate Greatest(p: nat, most: int, n: nat)
      reads procs, ticks
      requires ticks.Length == procs.Length && n <= procs.Length
    {
      && (forall q: nat :: q < n && Runnable(q) ==> ticks[q] <= most)
      && (most > 0 ==> p < n && Runnable(p) && ticks[p] == most && forall q: nat :: q < p && Runnable(q) ==> ticks[q] < most)
    }

    /** Picks the runnable process with the most ticks, handing out new ticks first
        if no runnable process has any left. */
    method Schedule() returns (ready: nat)
      requires ticks.Length == priority.Length == procs.Length && ticks != priority
      requires exists p: nat :: Runnable(p) && (priority[p] > 0 || ticks[p] > 0)
      modifies ticks
      ensures Runnable(ready) && Greatest(ready, ticks[ready], procs.Length) && ticks[ready] > 0
      ensures if exists p: nat :: Runnable(p) && old(ticks[p]) > 0 then ticks[..] == old(ticks[..])
              else forall p: nat :: p < procs.Length ==> ticks[p] == if Runnable(p) then priority[p] else old(ticks[p])
    {
      ready := 0;
      var greatest := 0;
      ghost var refilled := false;
      while greatest == 0
        invariant greatest >= 0 && Greatest(ready, greatest, if greatest == 0 then 0 else procs.Length)
        invariant !refilled ==> ticks[..] == old(ticks[..])
        invariant refilled ==> (forall p: nat :: Runnable(p) ==> old(ticks[p]) <= 0)
        invariant refilled ==> forall p: nat :: p < procs.Length ==> ticks[p] == if Runnable(p) then priority[p] else old(ticks[p])
        decreases if greatest == 0 then (if refilled then 1 else 2) else 0
      {
        for p := 0 to procs.Length
          invariant greatest >= 0 && Greatest(ready, greatest, p)
        {
          if !procs[p].sending && !procs[p].receiving {
            if ticks[p] > greatest {
              greatest := ticks[p];
              ready := p;
            }
          }
        }
        if greatest == 0 {
          ghost var before := ticks[..];
          for p := 0 to procs.Length
            invariant forall q: nat :: q < procs.Length ==> ticks[q] == if q < p && Runnable(q) then priority[q] else before[q]
          {
            if !procs[p].sending && !procs[p].receiving {
              ticks[p] := priority[p];
            }
          }
          refilled := true;
        }
      }
    }

    /** SEND by a runnable process. */
    method MsgSend(sender: nat, dest: nat, m: Body) returns (r: SendResult)
      requires Valid() && sender < procs.Length && dest < procs.Length && sender != dest && st.status[sender] == Ready
      modifies this, procs, buffers
      ensures Valid()
      ensures r == DeadlockPanic <==> Reaches(old(st), dest, sender)
      ensures r != DeadlockPanic ==> (r == Delivered <==> Waits(old(st), dest, sender))
      ensures st == Step(old(st), Snd(sender, dest, m))
    {
      hide Acyclic, Fifo, NoLostWakeup, ExactlyOnce, QueuesOk;
      var stuck := Deadlock(sender, dest);
      if stuck { return DeadlockPanic; }
      StepKeeps(st, Snd(sender, dest, m));
      WaitsByCode(procs[..], buffers[..], st, sender, dest);
      ghost var table, mail := procs[..], buffers[..];
      buffers[sender] := Message(sender, m);
      if procs[dest].receiving && (procs[dest].recvfrom == sender || procs[dest].recvfrom == AnyTask(procs.Length)) {
        buffers[dest] := buffers[sender];
        procs[dest] := procs[dest].(hasMsg := false, receiving := false, recvfrom := NoTask(procs.Length));
        DeliveredRep(table, mail, st, sender, dest, m);
        r := Delivered;
      } else {
        procs[sender] := procs[sender].(sending := true, sendto := dest, hasMsg := true);
        SameLinks(table, procs[..], st);
        Append(dest, sender);
        BlockedRep(table, mail, procs[..], st, sender, dest, m);
        r := BlockedSending;
      }
      st := Send(st, sender, dest, m);
    }

    /** Links `sender` behind the last process of the queue of `dest`. */
    method Append(dest: nat, sender: nat)
      requires dest < procs.Length && sender < procs.Length && dest < |st.queue|
      requires Linked(procs[..], dest, st.queue[dest])
      modifies procs
      ensures procs[..] == Appended(old(procs[..]), dest, sender, st.queue[dest])
    {
      ghost var table := procs[..];
      ghost var q := st.queue[dest];
      if procs[dest].qSending != NULL {
        var p := procs[dest].qSending;
        ghost var k: nat := 0;
        assert LinkOk(table, q, 0);
        while procs[p].nextSending != NULL
          invariant k < |q| && 0 <= p < procs.Length && p == q[k] && procs[..] == table && LinkOk(table, q, k)
          decreases |q| - k
        {
          p := procs[p].nextSending;
          k := k + 1;
          assert LinkOk(table, q, k);
        }
        assert LinkOk(procs[..], q, k);
        procs[p] := procs[p].(nextSending := sender);
      } else {
        procs[dest] := procs[dest].(qSending := sender);
      }
      procs[sender] := procs[sender].(nextSending := NULL);
    }

    /** RECEIVE by a runnable process. */
    method MsgReceive(who: nat, src: Source) returns (r: ReceiveResult)
      requires Valid() && who < procs.Length && st.status[who] == Ready && src != From(who)
      requires src.From? ==> src.pid < procs.Length
      modifies this, procs, buffers
      ensures Valid()
      ensures r == GotInterrupt <==> old(st).pending[who] && (src == Any || src == Interrupt)
      ensures r == GotMessage ==> Choice(old(st), who, src).Some?
      ensures r == BlockedReceiving ==> Choice(old(st), who, src).None?
      ensures st == Step(old(st), Rcv(who, src))
    {
      hide Acyclic, Fifo, NoLostWakeup, ExactlyOnce, QueuesOk;
      StepKeeps(st, Rcv(who, src));
      assert Fields(procs[who], st.status[who], st.pending[who], procs.Length);
      ghost var table, mail := procs[..], buffers[..];
      if procs[who].hasInt && (src == Any || src == Interrupt) {
        buffers[who] := HardInt;
        procs[who] := procs[who].(hasInt := false);
        FieldsOnly(table, mail, procs[..], buffers[..], st, Receive(st, who, src), who);
        st := Receive(st, who, src);
        return GotInterrupt;
      }
      var from, prev := NULL, NULL;
      match src {
        case Any =>
          from := procs[who].qSending;
          assert Linked(procs[..], who, st.queue[who]);
        case Interrupt =>
        case From(s) =>
          assert Fields(procs[s], st.status[s], st.pending[s], procs.Length);
          if procs[s].sending && procs[s].sendto == who {
            from := s;
            prev := Predecessor(who, s);
          }
      }
      if from != NULL {
        QueuedIsSending(st, who, from);
        TakeMessage(who, from, prev);
        r := GotMessage;
      } else {
        procs[who] := procs[who].(receiving := true, hasMsg := true, recvfrom := Code(src, procs.Length));
        FieldsOnly(table, mail, procs[..], buffers[..], st, Receive(st, who, src), who);
        r := BlockedReceiving;
      }
      st := Receive(st, who, src);
    }

    /** Unlinks a queued sender, copies its message and makes it runnable. */
    method TakeMessage(who: nat, from: nat, prev: int)
      requires Represents(procs[..], buffers[..], st) && QueuesOk(st) && who < procs.Length && st.status[who] == Ready
      requires from in st.queue[who] && from < procs.Length && st.status[from].Sending?
      requires var k := IndexOf(st.queue[who], from); prev == if k == 0 then NULL else st.queue[who][k - 1]
      modifies procs, buffers
      ensures Represents(procs[..], buffers[..], Fetch(st, who, from))
    {
      hide QueuesOk;
      ghost var table, mail := procs[..], buffers[..];
      FirstOrBehind(table, st, who, from, prev);
      if from == procs[who].qSending {
        procs[who] := procs[who].(qSending := procs[from].nextSending);
      } else {
        procs[prev] := procs[prev].(nextSending := procs[from].nextSending);
      }
      procs[from] := procs[from].(nextSending := NULL);
      buffers[who] := buffers[from];
      procs[from] := procs[from].(hasMsg := false, sendto := NoTask(procs.Length), sending := false);
      FetchedRep(table, mail, procs[..], st, who, from, prev);
    }

    /** The process queued just before `s`, or none if it is first. */
    method Predecessor(who: nat, s: nat) returns (prev: int)
      requires Valid() && who < procs.Length && s in st.queue[who]
      ensures var k := IndexOf(st.queue[who], s); prev == if k == 0 then NULL else st.queue[who][k - 1]
    {
      ghost var q := st.queue[who];
      ghost var at := IndexOf(q, s);
      assert Linked(procs[..], who, q);
      prev := NULL;
      var p := procs[who].qSending;
      ghost var k: nat := 0;
      while p != NULL
        invariant k <= at && p == q[k] && prev == if k == 0 then NULL else q[k - 1]
        decreases at - k
      {
        if p == s {
          IndexUnique(q, s, k);
          return;
        }
        assert LinkOk(procs[..], q, k);
        assert k != at;
        prev := p;
        p := procs[p].nextSending;
        k := k + 1;
      }
    }

    /** An interrupt for a process. */
    method InformInt(p: nat)
      requires Valid() && p < procs.Length
      modifies this, procs, buffers
      ensures Valid() && st == Step(old(st), Irq(p))
    {
      hide Acyclic, Fifo, NoLostWakeup, ExactlyOnce, QueuesOk;
      StepKeeps(st, Irq(p));
      assert Fields(procs[p], st.status[p], st.pending[p], procs.Length);
      ghost var table, mail := procs[..], buffers[..];
      if procs[p].receiving && (procs[p].recvfrom == INTERRUPT || procs[p].recvfrom == AnyTask(procs.Length)) {
        buffers[p] := HardInt;
        procs[p] := procs[p].(hasMsg := false, hasInt := false, receiving := false, recvfrom := NoTask(procs.Length));
      } else {
        procs[p] := procs[p].(hasInt := true);
      }
      FieldsOnly(table, mail, procs[..], buffers[..], st, Inform(st, p), p);
      st := Inform(st, p);
    }
  }

  lemma QueuedIsSending(st: Ipc, d: nat, s: nat)
    requires Sized(st) && QueuesOk(st) && d < |st.status|
    ensures s in st.queue[d] <==> s < |st.status| && st.status[s].Sending? && st.status[s].to == d
  {
  }

  lemma IndexUnique(q: seq<nat>, s: nat, k: nat)
    requires s in q && k <= IndexOf(q, s) && q[k] == s
    ensures k == IndexOf(q, s)
  {
    var at := IndexOf(q, s);
    forall j | 0 <= j < at ensures q[j] != s {
      assert q[..at][j] in q[..at];
    }
  }

  /** One process's fields and buffer changed, and no link. */
  lemma FieldsOnly(t: seq<Proc>, mail: seq<Mail>, u: seq<Proc>, mail': seq<Mail>, st: Ipc, su: Ipc, p: nat)
    requires Represents(t, mail, st) && p < |t| && |u| == |t| && Sized(su) && mail' == su.buffer
    requires |su.status| == |st.status| && su.queue == st.queue
    requires forall i :: 0 <= i < |t| && i != p ==> u[i] == t[i] && su.status[i] == st.status[i] && su.pending[i] == st.pending[i] && mail'[i] == mail[i]
    requires u[p].qSending == t[p].qSending && u[p].nextSending == t[p].nextSending
    requires Fields(u[p], su.status[p], su.pending[p], |t|)
    requires su.status[p].Sending? ==> su.status[p] == st.status[p] && mail'[p] == mail[p]
    requires su.status[p].Receiving? && su.status[p].src.From? ==> su.status[p].src.pid < |t|
    ensures Represents(u, mail', su)
  {
    forall i: nat | i < |t| ensures Fields(u[i], su.status[i], su.pending[i], |u|) {
      assert Fields(t[i], st.status[i], st.pending[i], |t|);
    }
    SameLinks(t, u, st);
  }

  /** The table with `s`, queued behind `prev`, taken out of the queue of `r`. */
  ghost function Unlinked(t: seq<Proc>, r: nat, s: nat, prev: int): seq<Proc>
    requires r < |t| && s < |t| && (prev == NULL || 0 <= prev < |t|)
  {
    var u := if prev == NULL then t[r := t[r].(qSending := t[s].nextSending)]
             else t[prev := t[prev].(nextSending := t[s].nextSending)];
    u[s := u[s].(nextSending := NULL)]
  }

  /** A queue without the two processes whose links changed. */
  lemma OtherQueue(t: seq<Proc>, u: seq<Proc>, i: nat, q: seq<nat>, a: int, b: int)
    requires |u| == |t| && i < |t| && Linked(t, i, q) && u[i].qSending == t[i].qSending
    requires forall j :: 0 <= j < |t| && j != a && j != b ==> u[j].nextSending == t[j].nextSending
    requires (forall x :: x in q ==> x != a && x != b)
    ensures Linked(u, i, q)
  {
    forall k: nat | k < |q| ensures LinkOk(u, q, k) {
      assert q[k] in q && LinkOk(t, q, k);
    }
  }

  lemma QueueMembers(st: Ipc, i: nat, d: nat)
    requires Sized(st) && QueuesOk(st) && i < |st.status| && d < |st.status|
    ensures i != d ==> forall x: nat :: x in st.queue[i] ==> x !in st.queue[d]
    ensures forall x: nat :: x in st.queue[i] ==> x < |st.status| && st.status[x].Sending? && st.status[x].to == i
    ensures Distinct(st.queue[d])
  {
    forall x: nat | x in st.queue[i] ensures x < |st.status| && st.status[x].Sending? && st.status[x].to == i {
      QueuedIsSending(st, i, x);
    }
    forall x: nat | x in st.queue[d] && i != d ensures x !in st.queue[i] {
      QueuedIsSending(st, i, x);
      QueuedIsSending(st, d, x);
    }
  }

  lemma UnlinkedQueue(t: seq<Proc>, r: nat, q: seq<nat>, k: nat, prev: int)
    requires r < |t| && k < |q| && Linked(t, r, q) && Distinct(q)
    requires prev == if k == 0 then NULL else q[k - 1]
    ensures q[k] < |t| && (prev == NULL || 0 <= prev < |t|)
    ensures Linked(Unlinked(t, r, q[k], prev), r, q[..k] + q[k + 1..])
  {
    var w := q[..k] + q[k + 1..];
    assert LinkOk(t, q, k);
    assert k > 0 ==> LinkOk(t, q, k - 1);
    var u := Unlinked(t, r, q[k], prev);
    assert u[r].qSending == Link(w, 0);
    hide Distinct, Unlinked;
    forall j: nat | j < |w| ensures LinkOk(u, w, j) {
      if j < k {
        LinkKept(t, r, q, k, j, prev);
        assert w[j] == q[j];
        if j + 1 < k { assert w[j + 1] == q[j + 1]; } else if k + 1 < |q| { assert w[k] == q[k + 1]; }
      } else {
        LinkKept(t, r, q, k, j + 1, prev);
        assert w[j] == q[j + 1];
        if j + 1 < |w| { assert w[j + 1] == q[j + 2]; }
      }
    }
  }

  lemma LinkKept(t: seq<Proc>, r: nat, q: seq<nat>, k: nat, x: nat, prev: int)
    requires r < |t| && k < |q| && x < |q| && x != k && Linked(t, r, q) && Distinct(q)
    requires prev == if k == 0 then NULL else q[k - 1]
    ensures q[k] < |t| && q[x] < |t| && (prev == NULL || 0 <= prev < |t|)
    ensures Unlinked(t, r, q[k], prev)[q[x]].nextSending == Link(q, if x + 1 == k then k + 1 else x + 1)
  {
    assert LinkOk(t, q, x) && LinkOk(t, q, k);
    assert q[x] != q[k];
    if k > 0 {
      assert LinkOk(t, q, k - 1);
      if x != k - 1 { assert q[x] != q[k - 1]; }
    }
  }

  lemma UnlinkedLinks(t: seq<Proc>, st: Ipc, r: nat, s: nat, prev: int)
    requires Sized(st) && QueuesOk(st) && |t| == |st.status| && r < |t| && s in st.queue[r]
    requires forall i: nat :: i < |t| ==> Linked(t, i, st.queue[i])
    requires var k := IndexOf(st.queue[r], s); prev == if k == 0 then NULL else st.queue[r][k - 1]
    ensures s < |t| && (prev == NULL || 0 <= prev < |t|)
    ensures forall i: nat :: i < |t| ==> Linked(Unlinked(t, r, s, prev), i, if i == r then Dequeue(st.queue[i], s) else st.queue[i])
  {
    hide QueuesOk, Linked;
    var q := st.queue[r];
    QueueMembers(st, r, r);
    UnlinkedQueue(t, r, q, IndexOf(q, s), prev);
    if prev != NULL { assert prev in q; }
    forall i: nat | i < |t| && i != r ensures Linked(Unlinked(t, r, s, prev), i, st.queue[i]) {
      QueueMembers(st, i, r);
      OtherQueue(t, Unlinked(t, r, s, prev), i, st.queue[i], s, prev);
    }
  }

  lemma FirstOrBehind(t: seq<Proc>, st: Ipc, r: nat, s: nat, prev: int)
    requires Sized(st) && QueuesOk(st) && |t| == |st.status| && r < |t| && s in st.queue[r] && Linked(t, r, st.queue[r])
    requires var k := IndexOf(st.queue[r], s); prev == if k == 0 then NULL else st.queue[r][k - 1]
    ensures s == t[r].qSending <==> prev == NULL
    ensures prev == NULL || 0 <= prev < |t|
  {
    QueueMembers(st, r, r);
    if prev != NULL {
      assert prev in st.queue[r];
    }
  }

  lemma FetchedRep(t: seq<Proc>, mail: seq<Mail>, u: seq<Proc>, st: Ipc, r: nat, s: nat, prev: int)
    requires Represents(t, mail, st) && QueuesOk(st) && r < |t| && s < |t| && s in st.queue[r] && st.status[r] == Ready
    requires var k := IndexOf(st.queue[r], s); prev == if k == 0 then NULL else st.queue[r][k - 1]
    requires prev == NULL || 0 <= prev < |t|
    requires var v := Unlinked(t, r, s, prev); u == v[s := v[s].(hasMsg := false, sendto := NoTask(|t|), sending := false)]
    ensures Represents(u, mail[r := mail[s]], Fetch(st, r, s))
  {
    hide QueuesOk, Linked;
    var v := Unlinked(t, r, s, prev);
    QueuedIsSending(st, r, s);
    var n := Fetch(st, r, s);
    UnlinkedLinks(t, st, r, s, prev);
    SameLinks(v, u, n);
    QueueMembers(st, r, r);
    if prev != NULL { assert prev in st.queue[r]; }
    forall i: nat | i < |t| ensures Fields(u[i], n.status[i], n.pending[i], |t|) {
      assert Fields(t[i], st.status[i], st.pending[i], |t|);
    }
  }

  lemma SameLinks(t: seq<Proc>, u: seq<Proc>, st: Ipc)
    requires |u| == |t| == |st.queue|
    requires forall i :: 0 <= i < |t| ==> u[i].qSending == t[i].qSending && u[i].nextSending == t[i].nextSending
    requires forall i: nat :: i < |t| ==> Linked(t, i, st.queue[i])
    ensures forall i: nat :: i < |t| ==> Linked(u, i, st.queue[i])
  {
    forall i: nat | i < |t| ensures Linked(u, i, st.queue[i]) {
      assert Linked(t, i, st.queue[i]);
      forall k: nat | k < |st.queue[i]| ensures LinkOk(u, st.queue[i], k) {
        assert LinkOk(t, st.queue[i], k);
      }
    }
  }

  /** The table with `sender` linked behind queue `q` of `dest`. */
  ghost function Appended(t: seq<Proc>, dest: nat, sender: nat, q: seq<nat>): (u: seq<Proc>)
    requires dest < |t| && sender < |t|
    ensures |u| == |t|
  {
    var u := if q == [] then t[dest := t[dest].(qSending := sender)]
             else if q[|q| - 1] < |t| then t[q[|q| - 1] := t[q[|q| - 1]].(nextSending := sender)]
             else t;
    u[sender := u[sender].(nextSending := NULL)]
  }

  lemma WaitsByCode(t: seq<Proc>, mail: seq<Mail>, st: Ipc, s: nat, d: nat)
    requires Represents(t, mail, st) && s < |t| && d < |t|
    ensures Waits(st, d, s) <==> t[d].receiving && (t[d].recvfrom == s || t[d].recvfrom == AnyTask(|t|))
  {
    assert Fields(t[d], st.status[d], st.pending[d], |t|);
  }

  lemma DeliveredRep(t: seq<Proc>, mail: seq<Mail>, st: Ipc, s: nat, d: nat, m: Body)
    requires Represents(t, mail, st) && s < |t| && d < |t| && s != d && Waits(st, d, s) && st.status[s] == Ready
    ensures Represents(t[d := t[d].(hasMsg := false, receiving := false, recvfrom := NoTask(|t|))],
                       mail[s := Message(s, m)][d := Message(s, m)], Send(st, s, d, m))
  {
    var u := t[d := t[d].(hasMsg := false, receiving := false, recvfrom := NoTask(|t|))];
    forall i: nat | i < |t| ensures Linked(u, i, st.queue[i]) {
      assert Linked(t, i, st.queue[i]);
      forall k: nat | k < |st.queue[i]| ensures LinkOk(u, st.queue[i], k) {
        assert LinkOk(t, st.queue[i], k);
      }
    }
  }

  lemma AppendedQueue(t: seq<Proc>, d: nat, s: nat, q: seq<nat>)
    requires d < |t| && s < |t| && s !in q && Linked(t, d, q) && Distinct(q)
    ensures Linked(Appended(t, d, s, q), d, q + [s])
  {
    var u := Appended(t, d, s, q);
    if q != [] { assert LinkOk(t, q, |q| - 1); }
    forall k: nat | k < |q + [s]| ensures LinkOk(u, q + [s], k) {
      if k < |q| { assert q[k] in q && LinkOk(t, q, k); }
      if k < |q| - 1 { assert q[k] != q[|q| - 1]; }
    }
    if q != [] { assert q[0] in q; }
  }

  /** The links after `s` was appended: its new place is in no other queue. */
  lemma BlockedLinks(t: seq<Proc>, u: seq<Proc>, st: Ipc, s: nat, d: nat)
    requires Sized(st) && QueuesOk(st) && |t| == |st.status| && s < |t| && d < |t| && st.status[s] == Ready
    requires forall i: nat :: i < |t| ==> Linked(t, i, st.queue[i])
    requires Linked(t, d, st.queue[d]) && u == Appended(t, d, s, st.queue[d])
    ensures forall i: nat :: i < |t| ==> Linked(u, i, if i == d then st.queue[i] + [s] else st.queue[i])
  {
    hide QueuesOk;
    var q := st.queue[d];
    QueueMembers(st, d, d);
    AppendedQueue(t, d, s, q);
    if q != [] { assert q[|q| - 1] in q; }
    hide Linked;
    forall i: nat | i < |t| && i != d ensures Linked(u, i, st.queue[i]) {
      QueueMembers(st, i, d);
      OtherQueue(t, u, i, st.queue[i], s, if q == [] then NULL else q[|q| - 1]);
    }
  }

  lemma BlockedRep(t: seq<Proc>, mail: seq<Mail>, u: seq<Proc>, st: Ipc, s: nat, d: nat, m: Body)
    requires Represents(t, mail, st) && QueuesOk(st) && s < |t| && d < |t| && s != d && st.status[s] == Ready
    requires var b := t[s := t[s].(sending := true, sendto := d, hasMsg := true)];
      Linked(b, d, st.queue[d]) && u == Appended(b, d, s, st.queue[d])
    ensures Represents(u, mail[s := Message(s, m)], Blocked(st, s, d, m))
  {
    var b := t[s := t[s].(sending := true, sendto := d, hasMsg := true)];
    var q := st.queue[d];
    var n := Blocked(st, s, d, m);
    assert Fields(t[s], st.status[s], st.pending[s], |t|);
    SameLinks(t, b, st);
    BlockedLinks(b, u, st, s, d);
    if q != [] { assert q[|q| - 1] in q; }
    hide Linked, QueuesOk;
    forall i: nat | i < |t| ensures Fields(u[i], n.status[i], n.pending[i], |t|) {
      assert Fields(t[i], st.status[i], st.pending[i], |t|);
    }
    forall i: nat | i < |t| ensures Linked(u, i, n.queue[i]) {
      assert Linked(u, i, if i == d then q + [s] else st.queue[i]);
    }
  }

  lemma ReachesNext(st: Ipc, p: nat, src: nat)
    requires Sized(st) && p < |st.status| && src < |st.status| && st.status[p].Sending? && p != src
    ensures Reaches(st, p, src) <==> Reaches(st, st.status[p].to, src)
  {
    if Reaches(st, p, src) {
      var k: nat :| Leads(st, p, src, k);
      assert Leads(st, st.status[p].to, src, k - 1);
    }
    if Reaches(st, st.status[p].to, src) {
      var k: nat :| Leads(st, st.status[p].to, src, k);
      assert Leads(st, p, src, k + 1);
    }
  }

  lemma NotSending(st: Ipc, p: nat, src: nat)
    requires Sized(st) && p < |st.status| && !st.status[p].Sending? && p != src
    ensures !Reaches(st, p, src)
  {
    forall k: nat ensures !Leads(st, p, src, k) {}
  }
}
