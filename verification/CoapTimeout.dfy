/** How a transaction ends: without an answer after its last retransmission and not before, and with
    an answer at once. */
module CoapTimeout {
  import opened CoapTransactions
  import opened CoapHistories

  /** The first wait of an open transaction. */
  function FirstWait(p: Pool, i: nat): nat
    requires i < |p.slots| && p.slots[i].id < |p.log| && |p.log[p.slots[i].id]| >= 2 && p.log[p.slots[i].id][1].Waits?
  {
    p.log[p.slots[i].id][1].ticks
  }

  function ExpireTimes(p: Pool, i: nat, n: nat): (q: Pool)
    requires i < |p.slots|
    ensures |q.slots| == |p.slots|
    decreases n
  {
    if n == 0 then p else ExpireTimes(Expire(p, i), i, n - 1)
  }

  /** The transaction in buffer `i` is open, and its first wait was `first`. */
  predicate Waiting(p: Pool, i: nat, id: nat, first: nat) {
    && i < |p.slots| && p.slots[i].used && !p.slots[i].created && p.slots[i].confirmable
    && p.slots[i].counter < MAX_RETRANSMIT && p.slots[i].interval == first * Pow2(p.slots[i].counter)
    && id == p.slots[i].id < |p.log| && p.log[id] == Attempts(p.slots[i].counter, first)
  }

  lemma OpenIsWaiting(p: Pool, i: nat)
    requires Valid(p) && i < |p.slots| && p.slots[i].used && !p.slots[i].created
    ensures var id := p.slots[i].id;
            id < |p.log| && |p.log[id]| >= 2 && p.log[id][1].Waits? && Waiting(p, i, id, FirstWait(p, i))
  {
    assert InOrder(p, p.slots[i]);
  }

  /** An expiry before the last one: the message goes out again, with a wait twice as long. */
  lemma ExpiresAgain(p: Pool, i: nat, id: nat, first: nat)
    requires Waiting(p, i, id, first) && p.slots[i].counter + 1 < MAX_RETRANSMIT
    ensures var q := Expire(p, i);
            Waiting(q, i, id, first) && |q.log| == |p.log|
            && q.slots[i].callback == p.slots[i].callback && q.slots[i].counter == p.slots[i].counter + 1
  {
    var k := p.slots[i].counter;
    NextInterval(first, k + 1);
    assert Attempts(k, first) + [Sent] + [Waits(first * Pow2(k + 1))] == Attempts(k + 1, first);
  }

  /** The last one: the message goes out for the last time, and the transaction is over. */
  lemma ExpiresLast(p: Pool, i: nat, id: nat, first: nat)
    requires Waiting(p, i, id, first) && p.slots[i].counter + 1 == MAX_RETRANSMIT
    ensures var q := Expire(p, i);
            |q.log| == |p.log| && !q.slots[i].used
                && q.log[id] == AllAttempts(first) + Ending(p.slots[i].callback, false)
  {
    var t := Ticked(p, i);
    EndLog(t.(log := t.log[id := t.log[id] + [Sent]]), i, false);
  }

  lemma {:induction false} GivenUpAfter(p: Pool, i: nat, n: nat, id: nat, first: nat)
    requires Waiting(p, i, id, first) && n <= MAX_RETRANSMIT - p.slots[i].counter
    ensures var q := ExpireTimes(p, i, n);
            |q.log| == |p.log|
            && if n < MAX_RETRANSMIT - p.slots[i].counter
                then q.slots[i].used && q.log[id] == Attempts(p.slots[i].counter + n, first)
               else !q.slots[i].used && q.log[id] == AllAttempts(first) + Ending(p.slots[i].callback, false)
    decreases n
  {
    if n > 0 {
      if p.slots[i].counter + 1 < MAX_RETRANSMIT {
        ExpiresAgain(p, i, id, first);
        GivenUpAfter(Expire(p, i), i, n - 1, id, first);
      } else {
        ExpiresLast(p, i, id, first);
      }
    }
  }

  /** Without an answer a transaction that was sent stays open until its timer has expired as often as
      retransmissions are left and once more; it has then been sent five times, is freed, and its
      callback, if it has one, is called with NULL. */
  lemma GivenUpInTheEnd(p: Pool, i: nat, n: nat)
    requires Valid(p) && i < |p.slots| && p.slots[i].used && !p.slots[i].created
             && n <= MAX_RETRANSMIT - p.slots[i].counter
    ensures var id, q := p.slots[i].id, ExpireTimes(p, i, n);
            id < |p.log| == |q.log| && |p.log[id]| >= 2 && p.log[id][1].Waits?
            && if n < MAX_RETRANSMIT - p.slots[i].counter
               then q.slots[i].used && q.log[id] == Attempts(p.slots[i].counter + n, FirstWait(p, i))
               else !q.slots[i].used && q.log[id] == AllAttempts(FirstWait(p, i)) + Ending(p.slots[i].callback, false)
  {
    OpenIsWaiting(p, i);
    GivenUpAfter(p, i, n, p.slots[i].id, FirstWait(p, i));
  }

  /** An answer ends the first listed transaction with its message id at once, whether it has been sent
      or not: it is freed, and its callback, if it has one, is called with the answer. Without such a
      transaction nothing happens. */
  lemma AnsweredAtOnce(p: Pool, mid: nat)
    requires Valid(p)
    ensures var j, q := FindMid(p, mid, 0), Reply(p, mid);
            if j == |p.list| then q == p && forall i :: 0 <= i < |p.slots| && p.slots[i].used ==> p.slots[i].mid != mid
            else
              var i := p.list[j];
              i < |p.slots| && p.slots[i].used && p.slots[i].mid == mid && p.slots[i].id < |p.log| == |q.log|
              && q.list == Remove(p.list, i) && !q.slots[i].used
              && q.log[p.slots[i].id] == p.log[p.slots[i].id] + Ending(p.slots[i].callback, true)
  {
    var j := FindMid(p, mid, 0);
    FindsMid(p, mid, 0);
    if j < |p.list| {
      var i := p.list[j];
      ListedIsUsed(p, j);
      assert InOrder(p, p.slots[i]);
      EndLog(p, i, true);
    } else {
      forall i: nat | i < |p.slots| && p.slots[i].used ensures p.slots[i].mid != mid {
        assert i in p.list;
      }
    }
  }

  lemma {:induction false} FindsMid(p: Pool, mid: nat, j: nat)
    requires ListsUsed(p) && j <= |p.list|
    ensures forall k :: j <= k < FindMid(p, mid, j) ==> p.list[k] < |p.slots| && p.slots[p.list[k]].mid != mid
    ensures FindMid(p, mid, j) < |p.list| ==>
            p.list[FindMid(p, mid, j)] < |p.slots| && p.slots[p.list[FindMid(p, mid, j)]].mid == mid
    decreases |p.list| - j
  {
    if j < |p.list| {
      ListedIsUsed(p, j);
      if p.slots[p.list[j]].mid != mid {
        FindsMid(p, mid, j + 1);
      }
    }
  }
}
