/**
  What the message kernel of MyFS promises (kernel/proc.c): blocking send and
  receive between any number of processes, queues of blocked senders, detection
  of send cycles, and one pending interrupt per process.
 */
module IpcModel {
  import opened Wrappers
  import opened Sequences

  type Body = int

  // Whom a receiver is willing to hear.
  datatype Source = Any | Interrupt | From(pid: nat)

  datatype Status = Ready | Sending(to: nat, body: Body) | Receiving(src: Source)

  // The contents of a process's message buffer.
  datatype Mail = Nothing | Message(from: nat, body: Body) | HardInt

  // One transfer, for the history.
  datatype Letter = Letter(from: nat, to: nat, body: Body)

  /** `since` says when each process last blocked on a send; `sent` and
      `received` are the messages ever handed in and handed over. */
  datatype Ipc = Ipc(status: seq<Status>, queue: seq<seq<nat>>, pending: seq<bool>, buffer: seq<Mail>,
                     since: seq<nat>, now: nat, sent: seq<Letter>, received: seq<Letter>)

  ghost predicate Sized(st: Ipc) {
    && |st.queue| == |st.pending| == |st.buffer| == |st.since| == |st.status|
    && forall i :: 0 <= i < |st.status| && st.status[i].Sending? ==> st.status[i].to < |st.status|
  }

  // ---------- the graph of blocked senders ----------

  /** Following exactly `k` blocked sends from `i` leads to `j`. */
  ghost predicate Leads(st: Ipc, i: nat, j: nat, k: nat)
    requires Sized(st) && i < |st.status|
    decreases k
  {
    if k == 0 then i == j else st.status[i].Sending? && Leads(st, st.status[i].to, j, k - 1)
  }

  ghost predicate Reaches(st: Ipc, i: nat, j: nat)
    requires Sized(st) && i < |st.status|
  {
    exists k: nat :: Leads(st, i, j, k)
  }

  /** The chain of blocked sends from `i` stops within `k` steps. */
  ghost predicate Ends(st: Ipc, i: nat, k: nat)
    requires Sized(st) && i < |st.status|
    decreases k
  {
    st.status[i].Sending? ==> k > 0 && Ends(st, st.status[i].to, k - 1)
  }

  ghost predicate Finishes(st: Ipc, i: nat)
    requires Sized(st) && i < |st.status|
  {
    exists k: nat :: Ends(st, i, k)
  }

  ghost predicate Acyclic(st: Ipc)
    requires Sized(st)
  {
    forall i: nat :: i < |st.status| ==> Finishes(st, i)
  }

  ghost predicate Cycle(st: Ipc)
    requires Sized(st)
  {
    exists i: nat, k: nat :: i < |st.status| && k > 0 && Leads(st, i, i, k)
  }

  lemma {:induction false} LeadsOn(st: Ipc, i: nat, j: nat, l: nat, k: nat, n: nat)
    requires Sized(st) && i < |st.status| && j < |st.status| && Leads(st, i, j, k) && Leads(st, j, l, n)
    ensures Leads(st, i, l, k + n)
    decreases k
  {
    if k > 0 { LeadsOn(st, st.status[i].to, j, l, k - 1, n); }
  }

  lemma {:induction false} EndsCarries(st: Ipc, i: nat, j: nat, k: nat, n: nat)
    requires Sized(st) && i < |st.status| && j < |st.status| && Ends(st, i, k) && Leads(st, i, j, n)
    ensures n <= k && Ends(st, j, k - n)
    decreases n
  {
    if n > 0 { EndsCarries(st, st.status[i].to, j, k - 1, n - 1); }
  }

  /** Chains that end do not close. */
  lemma {:induction false} AcyclicHasNoCycle(st: Ipc)
    requires Sized(st) && Acyclic(st)
    ensures !Cycle(st)
  {
    if Cycle(st) {
      var i: nat, n: nat :| i < |st.status| && n > 0 && Leads(st, i, i, n);
      assert Finishes(st, i);
      var k: nat :| Ends(st, i, k);
      LoopForever(st, i, n, k);
    }
  }

  lemma {:induction false} LoopForever(st: Ipc, i: nat, n: nat, k: nat)
    requires Sized(st) && i < |st.status| && n > 0 && Leads(st, i, i, n) && Ends(st, i, k)
    ensures false
    decreases k
  {
    EndsCarries(st, i, i, k, n);
    LoopForever(st, i, n, k - n);
  }

  // ---------- the operations ----------

  predicate Waits(st: Ipc, d: nat, s: nat)
    requires d < |st.status|
  {
    st.status[d] == Receiving(Any) || st.status[d] == Receiving(From(s))
  }

  /** The state in which `s` is blocked sending to `d`. */
  function Blocked(st: Ipc, s: nat, d: nat, m: Body): Ipc
    requires Sized(st) && s < |st.status| && d < |st.status|
  {
    st.(status := st.status[s := Sending(d, m)], queue := st.queue[d := st.queue[d] + [s]],
        buffer := st.buffer[s := Message(s, m)], since := st.since[s := st.now], now := st.now + 1, sent := st.sent + [Letter(s, d, m)])
  }

  /** SEND: the caller is runnable, and the deadlock check passed. */
  function Send(st: Ipc, s: nat, d: nat, m: Body): Ipc
    requires Sized(st) && s < |st.status| && d < |st.status|
  {
    if Waits(st, d, s) then
      st.(status := st.status[d := Ready], buffer := st.buffer[s := Message(s, m)][d := Message(s, m)],
          sent := st.sent + [Letter(s, d, m)], received := st.received + [Letter(s, d, m)])
    else Blocked(st, s, d, m)
  }

  function Dequeue(q: seq<nat>, s: nat): seq<nat>
    requires s in q
  {
    var k := IndexOf(q, s);
    q[..k] + q[k + 1..]
  }

  /** RECEIVE of the message that `s` is blocked with. */
  function Fetch(st: Ipc, r: nat, s: nat): Ipc
    requires Sized(st) && r < |st.status| && s < |st.status| && st.status[s].Sending? && s in st.queue[r]
  {
    st.(status := st.status[s := Ready], queue := st.queue[r := Dequeue(st.queue[r], s)],
        buffer := st.buffer[r := Message(s, st.status[s].body)],
        received := st.received + [Letter(s, r, st.status[s].body)])
  }

  // The sender RECEIVE takes now, if any.
  function Choice(st: Ipc, r: nat, src: Source): Option<nat>
    requires Sized(st) && r < |st.status|
  {
    match src
    case Any => if st.queue[r] != [] then Some(st.queue[r][0]) else None
    case Interrupt => None
    case From(s) => if s < |st.status| && st.status[s].Sending? && st.status[s].to == r then Some(s) else None
  }

  lemma ChoiceIsQueued(st: Ipc, r: nat, src: Source)
    requires Sized(st) && QueuesOk(st) && r < |st.status| && Choice(st, r, src).Some?
    ensures var s := Choice(st, r, src).value; s < |st.status| && st.status[s].Sending? && st.status[s].to == r && s in st.queue[r]
  {
    if src.Any? {
      assert st.queue[r][0] in st.queue[r];
    } else {
      assert src.pid in st.queue[r];
    }
  }

  ghost function Receive(st: Ipc, r: nat, src: Source): Ipc
    requires Sized(st) && QueuesOk(st) && r < |st.status|
  {
    if st.pending[r] && (src == Any || src == Interrupt) then
      st.(pending := st.pending[r := false], buffer := st.buffer[r := HardInt])
    else
      match Choice(st, r, src)
      case Some(s) =>
        ChoiceIsQueued(st, r, src);
        Fetch(st, r, s)
      case None => st.(status := st.status[r := Receiving(src)])
  }

  /** An interrupt for process `p`. */
  function Inform(st: Ipc, p: nat): Ipc
    requires Sized(st) && p < |st.status|
  {
    if st.status[p] == Receiving(Interrupt) || st.status[p] == Receiving(Any) then
      st.(status := st.status[p := Ready], pending := st.pending[p := false], buffer := st.buffer[p := HardInt])
    else st.(pending := st.pending[p := true])
  }

  // ---------- the invariant ----------

  ghost predicate QueuesOk(st: Ipc)
    requires Sized(st)
  {
    && (forall d: nat, s: nat {:trigger s in st.queue[d]} :: d < |st.status| ==>
          (s in st.queue[d] <==> s < |st.status| && st.status[s].Sending? && st.status[s].to == d))
    && (forall d, i, j :: 0 <= d < |st.status| && 0 <= i < j < |st.queue[d]| ==> st.queue[d][i] != st.queue[d][j])
  }

  ghost predicate Ordered(st: Ipc, q: seq<nat>) {
    && (forall k :: 0 <= k < |q| ==> q[k] < |st.since|)
    && forall i, j :: 0 <= i < j < |q| ==> st.since[q[i]] < st.since[q[j]]
  }

  /** Each queue is in the order in which its members blocked. */
  ghost predicate Fifo(st: Ipc)
    requires Sized(st) && QueuesOk(st)
  {
    && (forall d :: 0 <= d < |st.status| ==> Ordered(st, st.queue[d]))
    && (forall s :: 0 <= s < |st.status| && st.status[s].Sending? ==> st.since[s] < st.now)
  }

  /** Nobody waits for what has already come. */
  ghost predicate NoLostWakeup(st: Ipc)
    requires Sized(st)
  {
    forall r :: 0 <= r < |st.status| && st.status[r].Receiving? ==>
      && (st.status[r].src != Interrupt && st.queue[r] != [] ==> st.status[r].src.From? && st.status[r].src.pid !in st.queue[r])
      && (st.pending[r] ==> st.status[r].src.From?)
  }

  // The bodies that went from `a` to `b`, in order.
  function Between(log: seq<Letter>, a: nat, b: nat): seq<Body> {
    if log == [] then []
    else
      var l := log[|log| - 1];
      Between(log[..|log| - 1], a, b) + if l.from == a && l.to == b then [l.body] else []
  }

  function InFlight(st: Ipc, a: nat, b: nat): seq<Body> {
    if a < |st.status| && st.status[a].Sending? && st.status[a].to == b then [st.status[a].body] else []
  }

  /** Every message sent was received exactly once, in order, or is the one its sender is blocked with. */
  ghost predicate ExactlyOnce(st: Ipc) {
    forall a: nat, b: nat :: Between(st.sent, a, b) == Between(st.received, a, b) + InFlight(st, a, b)
  }

  ghost predicate Inv(st: Ipc) {
    Sized(st) && Acyclic(st) && QueuesOk(st) && Fifo(st) && NoLostWakeup(st) && ExactlyOnce(st)
  }

  // ---------- the deadlock check is exact ----------

  lemma {:induction false} EndsMore(st: Ipc, i: nat, k: nat, n: nat)
    requires Sized(st) && i < |st.status| && Ends(st, i, k) && k <= n
    ensures Ends(st, i, n)
    decreases k
  {
    if st.status[i].Sending? { EndsMore(st, st.status[i].to, k - 1, n - 1); }
  }

  /** A chain that never meets `s` is the same after `s` blocked. */
  lemma {:induction false} ChainAvoids(st: Ipc, s: nat, d: nat, m: Body, i: nat, k: nat)
    requires Sized(st) && s < |st.status| && d < |st.status| && i < |st.status| && Ends(st, i, k) && !Reaches(st, i, s)
    ensures Ends(Blocked(st, s, d, m), i, k)
    decreases k
  {
    assert i != s by { if i == s { assert Leads(st, i, s, 0); } }
    if st.status[i].Sending? {
      var j := st.status[i].to;
      if Reaches(st, j, s) {
        var n: nat :| Leads(st, j, s, n);
        assert Leads(st, i, s, n + 1);
      }
      ChainAvoids(st, s, d, m, j, k - 1);
    }
  }

  lemma {:induction false} ChainGoesOn(st: Ipc, s: nat, d: nat, m: Body, i: nat, k: nat, n: nat)
    requires Sized(st) && s < |st.status| && d < |st.status| && i < |st.status| && st.status[s] == Ready
    requires Ends(st, i, k) && Ends(Blocked(st, s, d, m), d, n)
    ensures Ends(Blocked(st, s, d, m), i, k + 1 + n)
    decreases k
  {
    if i == s {
      EndsMore(Blocked(st, s, d, m), d, n, k + n);
    } else if st.status[i].Sending? {
      ChainGoesOn(st, s, d, m, st.status[i].to, k - 1, n);
    }
  }

  lemma {:induction false} BlockedIsAcyclic(st: Ipc, s: nat, d: nat, m: Body)
    requires Sized(st) && Acyclic(st) && s < |st.status| && d < |st.status| && st.status[s] == Ready && !Reaches(st, d, s)
    ensures Acyclic(Blocked(st, s, d, m))
  {
    assert Finishes(st, d);
    var n: nat :| Ends(st, d, n);
    ChainAvoids(st, s, d, m, d, n);
    forall i: nat | i < |st.status| ensures Finishes(Blocked(st, s, d, m), i) {
      assert Finishes(st, i);
      var k: nat :| Ends(st, i, k);
      ChainGoesOn(st, s, d, m, i, k, n);
    }
  }

  lemma {:induction false} PathStays(st: Ipc, s: nat, d: nat, m: Body, i: nat, k: nat)
    requires Sized(st) && s < |st.status| && d < |st.status| && i < |st.status| && st.status[s] == Ready && Leads(st, i, s, k)
    ensures Leads(Blocked(st, s, d, m), i, s, k)
    decreases k
  {
    if k > 0 { PathStays(st, s, d, m, st.status[i].to, k - 1); }
  }

  /** Blocking on `d` closes a cycle exactly when `d` already waits, through others, for `s`. */
  lemma {:induction false} DeadlockExact(st: Ipc, s: nat, d: nat, m: Body)
    requires Sized(st) && Acyclic(st) && s < |st.status| && d < |st.status| && st.status[s] == Ready
    ensures Cycle(Blocked(st, s, d, m)) <==> Reaches(st, d, s)
  {
    if Reaches(st, d, s) {
      var k: nat :| Leads(st, d, s, k);
      PathStays(st, s, d, m, d, k);
      assert Leads(Blocked(st, s, d, m), s, s, k + 1);
    } else {
      BlockedIsAcyclic(st, s, d, m);
      AcyclicHasNoCycle(Blocked(st, s, d, m));
    }
  }

  /** Every blocked sender waits, directly or through others, for a process that is not sending. */
  lemma {:induction false} ChainHead(st: Ipc, i: nat, k: nat) returns (h: nat)
    requires Sized(st) && i < |st.status| && Ends(st, i, k)
    ensures h < |st.status| && !st.status[h].Sending? && Reaches(st, i, h)
    decreases k
  {
    if st.status[i].Sending? {
      h := ChainHead(st, st.status[i].to, k - 1);
      var n: nat :| Leads(st, st.status[i].to, h, n);
      assert Leads(st, i, h, n + 1);
    } else {
      h := i;
      assert Leads(st, i, i, 0);
    }
  }

  lemma {:induction false} FewerSenders(st: Ipc, t: Ipc, i: nat, k: nat)
    requires Sized(st) && Sized(t) && |t.status| == |st.status| && i < |st.status|
    requires forall j :: 0 <= j < |t.status| && t.status[j].Sending? ==> t.status[j] == st.status[j]
    requires Ends(st, i, k)
    ensures Ends(t, i, k)
    decreases k
  {
    if t.status[i].Sending? { FewerSenders(st, t, t.status[i].to, k - 1); }
  }

  lemma {:induction false} StaysAcyclic(st: Ipc, t: Ipc)
    requires Sized(st) && Sized(t) && |t.status| == |st.status| && Acyclic(st)
    requires forall j :: 0 <= j < |t.status| && t.status[j].Sending? ==> t.status[j] == st.status[j]
    ensures Acyclic(t)
  {
    forall i: nat | i < |t.status| ensures Finishes(t, i) {
      assert Finishes(st, i);
      var k: nat :| Ends(st, i, k);
      FewerSenders(st, t, i, k);
    }
  }

  // ---------- every operation keeps the invariant ----------

  lemma BetweenOne(log: seq<Letter>, l: Letter, a: nat, b: nat)
    ensures Between(log + [l], a, b) == Between(log, a, b) + if l.from == a && l.to == b then [l.body] else []
  {
    assert (log + [l])[..|log|] == log;
  }

  ghost predicate QueueOk(st: Ipc, d: nat)
    requires Sized(st) && d < |st.status|
  {
    && (forall s: nat :: s in st.queue[d] <==> s < |st.status| && st.status[s].Sending? && st.status[s].to == d)
    && (forall i, j :: 0 <= i < j < |st.queue[d]| ==> st.queue[d][i] != st.queue[d][j])
    && Ordered(st, st.queue[d])
  }

  lemma QueueByQueue(st: Ipc)
    requires Sized(st)
    ensures QueuesOk(st) && (forall d :: 0 <= d < |st.status| ==> Ordered(st, st.queue[d])) <==>
            forall d: nat :: d < |st.status| ==> QueueOk(st, d)
  {
    if forall d: nat :: d < |st.status| ==> QueueOk(st, d) {
      forall d: nat | d < |st.status| ensures Ordered(st, st.queue[d]) {
        assert QueueOk(st, d);
      }
      forall d: nat, s: nat | d < |st.status|
        ensures s in st.queue[d] <==> s < |st.status| && st.status[s].Sending? && st.status[s].to == d
      {
        assert QueueOk(st, d);
      }
      forall d: nat, i, j | d < |st.status| && 0 <= i < j < |st.queue[d]| ensures st.queue[d][i] != st.queue[d][j] {
        assert QueueOk(st, d);
      }
    }
  }

  lemma BlockedQueue(st: Ipc, s: nat, d: nat, m: Body, e: nat)
    requires Sized(st) && e < |st.status| && QueueOk(st, e) && s < |st.status| && d < |st.status| && st.status[s] == Ready
    requires forall x :: 0 <= x < |st.status| && st.status[x].Sending? ==> st.since[x] < st.now
    ensures QueueOk(Blocked(st, s, d, m), e)
  {
    var t := Blocked(st, s, d, m);
    var q := st.queue[e];
    assert s !in q;
    forall k | 0 <= k < |q| ensures t.since[q[k]] == st.since[q[k]] < st.now {
      assert q[k] in q;
    }
    if e == d {
      assert t.queue[e] == q + [s];
      assert forall x :: x in t.queue[e] <==> x in q || x == s;
    } else {
      assert t.queue[e] == q;
    }
  }

  lemma BlockedQueues(st: Ipc, s: nat, d: nat, m: Body)
    requires Sized(st) && QueuesOk(st) && Fifo(st) && s < |st.status| && d < |st.status| && st.status[s] == Ready
    ensures QueuesOk(Blocked(st, s, d, m)) && Fifo(Blocked(st, s, d, m))
  {
    hide QueueOk;
    QueueByQueue(st);
    forall e: nat | e < |st.status| ensures QueueOk(Blocked(st, s, d, m), e) {
      BlockedQueue(st, s, d, m, e);
    }
    QueueByQueue(Blocked(st, s, d, m));
  }

  lemma DequeueKeepsOrder(st: Ipc, q: seq<nat>, s: nat)
    requires s in q && forall i, j :: 0 <= i < j < |q| ==> q[i] != q[j]
    ensures forall x :: x in Dequeue(q, s) <==> x in q && x != s
    ensures forall i, j :: 0 <= i < j < |Dequeue(q, s)| ==> Dequeue(q, s)[i] != Dequeue(q, s)[j]
    ensures Ordered(st, q) ==> Ordered(st, Dequeue(q, s))
  {
    var k := IndexOf(q, s);
    forall x | x in q && x != s ensures x in Dequeue(q, s) {
      var i :| 0 <= i < |q| && q[i] == x;
      assert Dequeue(q, s)[if i < k then i else i - 1] == x;
    }
  }

  lemma FetchQueues(st: Ipc, r: nat, s: nat)
    requires Sized(st) && QueuesOk(st) && Fifo(st) && r < |st.status| && s < |st.status| && s in st.queue[r]
    ensures QueuesOk(Fetch(st, r, s)) && Fifo(Fetch(st, r, s))
  {
    var t := Fetch(st, r, s);
    QueueByQueue(st);
    DequeueKeepsOrder(st, st.queue[r], s);
    forall e: nat | e < |st.status| ensures QueueOk(t, e) {
      assert QueueOk(st, e);
    }
    QueueByQueue(t);
  }

  /** Only statuses of receivers change: queues stay as they are. */
  lemma SameQueues(st: Ipc, t: Ipc)
    requires Sized(st) && QueuesOk(st) && Fifo(st) && Sized(t) && |t.status| == |st.status|
    requires t.queue == st.queue && t.since == st.since && t.now == st.now
    requires forall i :: 0 <= i < |st.status| && (st.status[i].Sending? || t.status[i].Sending?) ==> t.status[i] == st.status[i]
    ensures QueuesOk(t) && Fifo(t)
  {
    QueueByQueue(st);
    forall e: nat | e < |st.status| ensures QueueOk(t, e) {
      assert QueueOk(st, e);
    }
    QueueByQueue(t);
  }

  lemma SendDelivers(st: Ipc, s: nat, d: nat, m: Body)
    requires Inv(st) && s < |st.status| && d < |st.status| && s != d && st.status[s] == Ready && Waits(st, d, s)
    ensures Inv(Send(st, s, d, m))
  {
    var t := Send(st, s, d, m);
    StaysAcyclic(st, t);
    SameQueues(st, t);
    forall a: nat, b: nat ensures Between(t.sent, a, b) == Between(t.received, a, b) + InFlight(t, a, b) {
      BetweenOne(st.sent, Letter(s, d, m), a, b);
      BetweenOne(st.received, Letter(s, d, m), a, b);
      assert Between(st.sent, a, b) == Between(st.received, a, b) + InFlight(st, a, b);
    }
  }

  lemma SendBlocks(st: Ipc, s: nat, d: nat, m: Body)
    requires Inv(st) && s < |st.status| && d < |st.status| && s != d && st.status[s] == Ready && !Reaches(st, d, s)
    requires !Waits(st, d, s)
    ensures Inv(Blocked(st, s, d, m))
  {
    hide Acyclic, Fifo;
    var t := Blocked(st, s, d, m);
    BlockedIsAcyclic(st, s, d, m);
    BlockedQueues(st, s, d, m);
    forall a: nat, b: nat ensures Between(t.sent, a, b) == Between(t.received, a, b) + InFlight(t, a, b) {
      BetweenOne(st.sent, Letter(s, d, m), a, b);
      assert Between(st.sent, a, b) == Between(st.received, a, b) + InFlight(st, a, b);
    }
  }

  lemma FetchKeeps(st: Ipc, r: nat, s: nat)
    requires Inv(st) && r < |st.status| && s < |st.status| && s in st.queue[r] && st.status[r] == Ready
    ensures Inv(Fetch(st, r, s))
  {
    hide Acyclic, Fifo;
    var t := Fetch(st, r, s);
    StaysAcyclic(st, t);
    FetchQueues(st, r, s);
    forall a: nat, b: nat ensures Between(t.sent, a, b) == Between(t.received, a, b) + InFlight(t, a, b) {
      BetweenOne(st.received, Letter(s, r, st.status[s].body), a, b);
      assert Between(st.sent, a, b) == Between(st.received, a, b) + InFlight(st, a, b);
    }
  }

  lemma ReceiveKeeps(st: Ipc, r: nat, src: Source)
    requires Inv(st) && r < |st.status| && st.status[r] == Ready
    ensures Inv(Receive(st, r, src))
  {
    var t := Receive(st, r, src);
    if st.pending[r] && (src == Any || src == Interrupt) {
      KeepsRest(st, t);
    } else if Choice(st, r, src).Some? {
      FetchKeeps(st, r, Choice(st, r, src).value);
    } else {
      KeepsRest(st, t);
    }
  }

  /** Nothing moved between senders and receivers. */
  lemma KeepsRest(st: Ipc, t: Ipc)
    requires Inv(st) && Sized(t) && |t.status| == |st.status| && NoLostWakeup(t)
    requires t.queue == st.queue && t.since == st.since && t.now == st.now && t.sent == st.sent && t.received == st.received
    requires forall i :: 0 <= i < |st.status| && (st.status[i].Sending? || t.status[i].Sending?) ==> t.status[i] == st.status[i]
    ensures Inv(t)
  {
    StaysAcyclic(st, t);
    SameQueues(st, t);
    forall a: nat, b: nat ensures Between(t.sent, a, b) == Between(t.received, a, b) + InFlight(t, a, b) {
      assert InFlight(t, a, b) == InFlight(st, a, b);
    }
  }

  lemma InformKeeps(st: Ipc, p: nat)
    requires Inv(st) && p < |st.status|
    ensures Inv(Inform(st, p))
  {
    KeepsRest(st, Inform(st, p));
  }

  // ---------- whole runs ----------

  function Boot(n: nat): Ipc {
    Ipc(seq(n, _ => Ready), seq(n, _ => []), seq(n, _ => false), seq(n, _ => Nothing), seq(n, _ => 0), 0, [], [])
  }

  lemma {:induction false} BootOk(n: nat)
    ensures Inv(Boot(n))
  {
    forall i: nat | i < n ensures Finishes(Boot(n), i) {
      assert Ends(Boot(n), i, 0);
    }
  }

  datatype Call = Snd(s: nat, d: nat, body: Body) | Rcv(r: nat, src: Source) | Irq(p: nat)

  /** One kernel entry. Calls that the kernel's assertions refuse, and sends that
      it answers with a deadlock panic, change nothing. */
  ghost function Step(st: Ipc, c: Call): Ipc
    requires Inv(st)
  {
    match c
    case Snd(s, d, body) =>
      if s < |st.status| && d < |st.status| && s != d && st.status[s] == Ready && !Reaches(st, d, s) then Send(st, s, d, body) else st
    case Rcv(r, src) =>
      if r < |st.status| && st.status[r] == Ready && src != From(r) then Receive(st, r, src) else st
    case Irq(p) => if p < |st.status| then Inform(st, p) else st
  }

  lemma StepKeeps(st: Ipc, c: Call)
    requires Inv(st)
    ensures Inv(Step(st, c)) && |Step(st, c).status| == |st.status|
  {
    match c
    case Snd(s, d, body) =>
      if s < |st.status| && d < |st.status| && s != d && st.status[s] == Ready && !Reaches(st, d, s) {
        if Waits(st, d, s) { SendDelivers(st, s, d, body); } else { SendBlocks(st, s, d, body); }
      }
    case Rcv(r, src) =>
      if r < |st.status| && st.status[r] == Ready { ReceiveKeeps(st, r, src); }
    case Irq(p) =>
      if p < |st.status| { InformKeeps(st, p); }
  }

  /** The state that a list of kernel entries leads to, whoever makes them with whatever arguments. */
  ghost function After(n: nat, calls: seq<Call>): (st: Ipc)
    ensures Inv(st) && |st.status| == n
    decreases |calls|
  {
    if calls == [] then
      BootOk(n);
      Boot(n)
    else
      var before := After(n, calls[..|calls| - 1]);
      StepKeeps(before, calls[|calls| - 1]);
      Step(before, calls[|calls| - 1])
  }

  /** In every reachable state of every number of processes: no send cycle, queues
      that list exactly the blocked senders in blocking order, nobody waiting for
      what has come, and every message received once, in order, or still held by
      its blocked sender. */
  lemma AlwaysInv(n: nat, calls: seq<Call>)
    ensures var st := After(n, calls);
      && Inv(st) && !Cycle(st)
      && (forall d: nat, s: nat :: d < n && s < n ==> (s in st.queue[d] <==> st.status[s].Sending? && st.status[s].to == d))
      && (forall a: nat, b: nat :: Between(st.sent, a, b) == Between(st.received, a, b) + InFlight(st, a, b))
  {
    AcyclicHasNoCycle(After(n, calls));
  }

  /** RECEIVE from anyone takes the sender that has been blocked longest, with its message. */
  lemma AnyTakesOldest(st: Ipc, r: nat, s: nat)
    requires Inv(st) && r < |st.status| && s < |st.status| && !st.pending[r]
    requires st.status[s].Sending? && st.status[s].to == r
    ensures var t := Receive(st, r, Any);
      exists w: nat :: w < |st.status| && st.status[w].Sending? && st.status[w].to == r && st.since[w] <= st.since[s]
        && t.status == st.status[w := Ready] && t.buffer[r] == Message(w, st.status[w].body)
        && (forall x :: x in t.queue[r] <==> x in st.queue[r] && x != w)
  {
    assert s in st.queue[r];
    var w := st.queue[r][0];
    assert w in st.queue[r];
    assert Ordered(st, st.queue[r]);
    var k :| 0 <= k < |st.queue[r]| && st.queue[r][k] == s;
    assert st.since[w] <= st.since[s];
    DequeueKeepsOrder(st, st.queue[r], w);
  }

  /** When nobody is blocked sending, everything sent has been received, in order. */
  lemma QuiescentDelivered(st: Ipc, a: nat, b: nat)
    requires Inv(st) && forall i :: 0 <= i < |st.status| ==> !st.status[i].Sending?
    ensures Between(st.received, a, b) == Between(st.sent, a, b)
  {
    assert Between(st.sent, a, b) == Between(st.received, a, b) + InFlight(st, a, b);
  }

  /** The kernel asserts that no interrupt is pending for a process that blocks in RECEIVE. That fails exactly if one
      is pending and the process waits for one named process that has nothing for it. */
  lemma BlockedPendingExact(st: Ipc, r: nat, src: Source)
    requires Inv(st) && r < |st.status| && st.status[r] == Ready && src != From(r)
    ensures var t := Receive(st, r, src);
      (t.status[r] == Receiving(src) && t.pending[r] <==> st.pending[r] && src.From? && Choice(st, r, src).None?)
  {
    if Choice(st, r, src).Some? {
      ChoiceIsQueued(st, r, src);
    }
  }

  /** A process that is interrupted and then waits for another one is such a case. */
  lemma BlockedPendingExample()
    ensures Inv(Boot(2))
    ensures var t := Step(Boot(2), Irq(0)); Inv(t) && Step(t, Rcv(0, From(1))).status[0] == Receiving(From(1))
                                            && Step(t, Rcv(0, From(1))).pending[0]
  {
    BootOk(2);
    StepKeeps(Boot(2), Irq(0));
  }
}
