/**
  What a caller of the message kernel sees: who is runnable with what in its
  buffer after each call, and that over any run every interrupt is delivered at
  most once, and by the next call that is willing to take it.
 */
module IpcLaws {
  import opened IpcModel

  // ---------- one call ----------

  /** A receiver that waits for the sender, or for anyone, gets the message at once; otherwise the sender waits, behind
      those that wait already. */
  lemma SendExactly(st: Ipc, s: nat, d: nat, m: Body)
    requires Inv(st) && s < |st.status| && d < |st.status| && s != d && st.status[s] == Ready && !Reaches(st, d, s)
    ensures var t := Step(st, Snd(s, d, m));
      if st.status[d].Receiving? && (st.status[d].src == Any || st.status[d].src == From(s)) then
        && t.status == st.status[d := Ready] && t.buffer == st.buffer[s := Message(s, m)][d := Message(s, m)]
        && t.queue == st.queue && t.pending == st.pending
      else
        && t.status == st.status[s := Sending(d, m)] && t.buffer == st.buffer[s := Message(s, m)]
        && t.queue == st.queue[d := st.queue[d] + [s]] && t.pending == st.pending
  {
    hide Inv;
  }

  /** RECEIVE takes a pending interrupt first if it is willing to, then a sender of its choice, and else waits. */
  lemma ReceiveExactly(st: Ipc, r: nat, src: Source)
    requires Inv(st) && r < |st.status| && st.status[r] == Ready && src != From(r)
    ensures st.pending[r] && !src.From? ==>
              Step(st, Rcv(r, src)) == st.(pending := st.pending[r := false], buffer := st.buffer[r := HardInt])
    ensures src.From? && src.pid < |st.status| && st.status[src.pid].Sending? && st.status[src.pid].to == r ==>
              var t := Step(st, Rcv(r, src));
              && t.status == st.status[src.pid := Ready] && t.pending == st.pending
              && t.buffer == st.buffer[r := Message(src.pid, st.status[src.pid].body)]
              && |t.queue| == |st.queue| && (forall x :: x in t.queue[r] <==> x in st.queue[r] && x != src.pid)
              && (forall d :: 0 <= d < |st.queue| && d != r ==> t.queue[d] == st.queue[d])
    ensures src.From? && (src.pid >= |st.status| || !st.status[src.pid].Sending? || st.status[src.pid].to != r) ==>
              Step(st, Rcv(r, src)) == st.(status := st.status[r := Receiving(src)])
    ensures src == Interrupt && !st.pending[r] ==> Step(st, Rcv(r, src)) == st.(status := st.status[r := Receiving(src)])
    ensures src == Any && !st.pending[r] && (forall s: nat :: s < |st.status| && st.status[s].Sending? ==> st.status[s].to != r) ==>
              Step(st, Rcv(r, src)) == st.(status := st.status[r := Receiving(src)])
  {
    if src.Any? && st.queue[r] != [] { assert st.queue[r][0] in st.queue[r]; }
    if src.From? && Choice(st, r, src).Some? {
      assert src.pid in st.queue[r];
      DequeueKeepsOrder(st, st.queue[r], src.pid);
    }
    hide Inv, Dequeue;
  }

  /** An interrupt wakes a process that waits for it or for anyone; for any other it is kept. */
  lemma InformExactly(st: Ipc, p: nat)
    requires Inv(st) && p < |st.status|
    ensures var t := Step(st, Irq(p));
      if st.status[p].Receiving? && !st.status[p].src.From? then
        t == st.(status := st.status[p := Ready], pending := st.pending[p := false], buffer := st.buffer[p := HardInt])
      else t == st.(pending := st.pending[p := true])
  {
    hide Inv;
  }

  // ---------- interrupts over whole runs ----------

  /** Call number `k` hands an interrupt to `r`: `r` asked for one, or waited for one, and now runs with it. */
  ghost predicate Gets(n: nat, calls: seq<Call>, k: nat, r: nat) {
    k < |calls| && r < n &&
    var st, t := After(n, calls[..k]), After(n, calls[..k + 1]);
    t.status[r] == Ready && t.buffer[r] == HardInt &&
    if calls[k].Rcv? then calls[k].r == r && calls[k].src != From(r) && st.status[r] == Ready
    else calls[k] == Irq(r) && st.status[r].Receiving?
  }

  ghost predicate Undelivered(n: nat, calls: seq<Call>, i: nat, r: nat) {
    i < |calls| && calls[i] == Irq(r) && forall k: nat :: i <= k < |calls| ==> !Gets(n, calls, k, r)
  }

  lemma AfterOne(n: nat, calls: seq<Call>, k: nat)
    requires k < |calls|
    ensures After(n, calls[..k + 1]) == Step(After(n, calls[..k]), calls[k])
  {
    assert calls[..k + 1][..k] == calls[..k];
  }

  /** What one call does to a pending interrupt: handed over, raised, or left. */
  lemma PendingAfter(st: Ipc, c: Call, r: nat)
    requires Inv(st) && r < |st.status|
    ensures var t := Step(st, c);
            var gets := c.Rcv? && c.r == r && c.src != From(r) && st.status[r] == Ready;
            var wakes := c == Irq(r) && st.status[r].Receiving?;
            var got := |t.status| == |t.buffer| == |st.status| && t.status[r] == Ready && t.buffer[r] == HardInt && (gets || wakes);
      && |t.pending| == |st.pending| && |st.pending| == |st.status|
      && (t.pending[r] <==> !got && (st.pending[r] || c == Irq(r)))
      && (got ==> st.pending[r] || c == Irq(r))
  {
    if c.Rcv? && c.r < |st.status| && Choice(st, c.r, c.src).Some? { ChoiceIsQueued(st, c.r, c.src); }
    hide Inv, Reaches, Dequeue, QueuesOk;
  }

  lemma PendingStep(n: nat, calls: seq<Call>, k: nat, r: nat)
    requires k < |calls| && r < n
    ensures After(n, calls[..k + 1]).pending[r] <==>
              !Gets(n, calls, k, r) && (After(n, calls[..k]).pending[r] || calls[k] == Irq(r))
    ensures Gets(n, calls, k, r) ==> After(n, calls[..k]).pending[r] || calls[k] == Irq(r)
  {
    AfterOne(n, calls, k);
    hide Inv, Step, After;
    PendingAfter(After(n, calls[..k]), calls[k], r);
  }

  /** An interrupt is pending exactly if one was raised and none has been handed over since. */
  lemma {:induction false} PendingSince(n: nat, calls: seq<Call>, r: nat)
    requires r < n
    ensures After(n, calls).pending[r] <==> exists i: nat :: Undelivered(n, calls, i, r)
    decreases |calls|
  {
    hide After, Gets;
    if calls == [] {
      BootPending(n, r);
    } else {
      var k := |calls| - 1;
      var before := calls[..k];
      PendingSince(n, before, r);
      PendingStep(n, calls, k, r);
      assert calls[..k + 1] == calls;
      forall j: nat | j < k ensures Gets(n, calls, j, r) <==> Gets(n, before, j, r) { SameGets(n, calls, k, j, r); }
      if i: nat :| Undelivered(n, before, i, r) {
        assert !Gets(n, calls, k, r) ==> Undelivered(n, calls, i, r);
      }
      if calls[k] == Irq(r) && !Gets(n, calls, k, r) { assert Undelivered(n, calls, k, r); }
      if i: nat :| Undelivered(n, calls, i, r) {
        assert !Gets(n, calls, k, r);
        assert i < k ==> Undelivered(n, before, i, r);
      }
    }
  }

  lemma BootPending(n: nat, r: nat)
    requires r < n
    ensures !After(n, []).pending[r]
  {
  }

  // What was handed over does not depend on what came later.
  lemma SameGets(n: nat, calls: seq<Call>, k: nat, j: nat, r: nat)
    requires j < k <= |calls|
    ensures Gets(n, calls, j, r) <==> Gets(n, calls[..k], j, r)
  {
    assert calls[..k][..j] == calls[..j] && calls[..k][..j + 1] == calls[..j + 1];
    hide After;
  }

  /** No interrupt is handed over twice: between two that a process gets, or with the second, one is raised for it. */
  lemma {:induction false} DeliveredOnce(n: nat, calls: seq<Call>, first: nat, last: nat, r: nat)
    requires first < last && Gets(n, calls, first, r) && Gets(n, calls, last, r)
    ensures exists i: nat :: first < i <= last && calls[i] == Irq(r)
  {
    assert last < |calls| && r < n;
    hide After, Gets;
    PendingStep(n, calls, last, r);
    if calls[last] != Irq(r) {
      var before := calls[..last];
      PendingSince(n, before, r);
      var i: nat :| Undelivered(n, before, i, r);
      SameGets(n, calls, last, first, r);
      assert i > first && calls[i] == Irq(r);
    }
  }

  /** An interrupt that was raised and not handed over yet is what the next RECEIVE from the hardware or from anyone gets. */
  lemma NextReceiveGets(n: nat, calls: seq<Call>, i: nat, r: nat, src: Source)
    requires r < n && Undelivered(n, calls, i, r) && After(n, calls).status[r] == Ready && !src.From?
    ensures Gets(n, calls + [Rcv(r, src)], |calls|, r)
    ensures var t := After(n, calls + [Rcv(r, src)]); t.status == After(n, calls).status && t.queue == After(n, calls).queue
  {
    var more := calls + [Rcv(r, src)];
    AfterOne(n, more, |calls|);
    assert more[..|calls|] == calls && more[..|calls| + 1] == more;
    PendingSince(n, calls, r);
    ReceiveExactly(After(n, calls), r, src);
  }

  /** With no such interrupt, RECEIVE from anyone gets the message of the sender that has waited longest. */
  lemma NextReceiveHears(n: nat, calls: seq<Call>, r: nat, s: nat)
    requires r < n && s < n && After(n, calls).status[r] == Ready && forall i: nat :: !Undelivered(n, calls, i, r)
    requires After(n, calls).status[s].Sending? && After(n, calls).status[s].to == r
    ensures var st, t := After(n, calls), After(n, calls + [Rcv(r, Any)]);
      exists w: nat :: w < n && st.status[w].Sending? && st.status[w].to == r && st.since[w] <= st.since[s]
        && t.status == st.status[w := Ready] && t.buffer[r] == Message(w, st.status[w].body)
  {
    hide Inv, Receive;
    var more := calls + [Rcv(r, Any)];
    AfterOne(n, more, |calls|);
    assert more[..|calls|] == calls && more[..|calls| + 1] == more;
    PendingSince(n, calls, r);
    AnyTakesOldest(After(n, calls), r, s);
  }
}
