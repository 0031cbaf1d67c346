/** The histories of transactions: which ones a run can bring about, and when one is disturbed. */
module CoapHistories {
  import opened CoapTransactions

  // ----- One transaction -----

  lemma {:induction false} AttemptsBegin(k: nat, first: nat)
    ensures |Attempts(k, first)| == 2 * k + 2 && Attempts(k, first)[0] == Sent && Attempts(k, first)[1] == Waits(first)
  {
    if k > 0 {
      AttemptsBegin(k - 1, first);
    }
  }

  lemma NextInterval(first: nat, k: nat)
    ensures first * Pow2(0) == first
    ensures k > 0 ==> first * Pow2(k - 1) * 2 == first * Pow2(k)
  {
  }

  /** Other transactions are as they were, when only the one in buffer `i` has changed. */
  lemma OthersInOrder(p: Pool, q: Pool, i: nat)
    requires Listed(p) && i < |p.slots| == |q.slots| && p.slots[i].used && |q.log| == |p.log|
    requires forall j :: 0 <= j < |p.slots| && j != i ==> q.slots[j] == p.slots[j] && InOrder(p, p.slots[j])
    requires forall id :: 0 <= id < |p.log| && id != p.slots[i].id ==> q.log[id] == p.log[id]
    ensures forall j :: 0 <= j < |p.slots| && j != i ==> InOrder(q, q.slots[j])
  {
    forall j | 0 <= j < |p.slots| && j != i ensures InOrder(q, q.slots[j]) {
      if p.slots[j].used {
        DistinctIds(p.slots, i, j);
      }
    }
  }

  /** A transaction that stays in its buffer. */
  lemma StayKeeps(p: Pool, i: nat, s: Slot, h: seq<Effect>)
    requires ValidBut(p, i) && s.used && s.id == p.slots[i].id && s.callback == p.slots[i].callback
             && (Open(h, s) || Unsent(h, s))
    ensures Valid(p.(slots := p.slots[i := s], log := p.log[s.id := h]))
  {
    var q := p.(slots := p.slots[i := s], log := p.log[s.id := h]);
    SlotKeepsListed(p, i, s, q.log);
    OthersInOrder(p, q, i);
    assert q.slots[i].used && q.slots[i].id == s.id;
    forall id: nat | id < |q.log| ensures IsLive(q, id) || Over(q.log[id], q.held[id]) {
      if IsLive(p, id) {
        LiveStays(p, q, i, id);
      }
    }
  }

  /** A transaction that ends. */
  lemma EndKeeps(p: Pool, i: nat, s: Slot, h: seq<Effect>)
    requires ValidBut(p, i) && !s.used && !s.armed && s.callback == p.slots[i].callback && Over(h, p.slots[i].callback)
    ensures Valid(p.(slots := p.slots[i := s], list := Remove(p.list, i), log := p.log[p.slots[i].id := h]))
  {
    var q := p.(slots := p.slots[i := s], list := Remove(p.list, i), log := p.log[p.slots[i].id := h]);
    FreeKeepsListed(p, i, s, q.log);
    OthersInOrder(p, q, i);
    forall id: nat | id < |q.log| ensures IsLive(q, id) || Over(q.log[id], q.held[id]) {
      if IsLive(p, id) {
        LiveStays(p, q, i, id);
      }
    }
  }

  /** The log after the end of the transaction in buffer `i`. */
  lemma EndLog(p: Pool, i: nat, replied: bool)
    requires i < |p.slots| && p.slots[i].id < |p.log|
    ensures var id := p.slots[i].id;
            Call(Clear(p, i), id, p.slots[i].callback, replied)
            == p.(slots := p.slots[i := p.slots[i].(used := false, armed := false)], list := Remove(p.list, i),
                  log := p.log[id := p.log[id] + Ending(p.slots[i].callback, replied)])
  {
    var id := p.slots[i].id;
    assert p.log[id] + [Freed] + [Called(0, replied)] == p.log[id] + [Freed, Called(0, replied)];
    match p.slots[i].callback
    case Nobody =>
    case By(owner) => assert p.log[id] + [Freed] + [Called(owner, replied)]
        == p.log[id] + [Freed, Called(owner, replied)];
  }

  // ----- Events -----

  lemma LiveInNew(p: Pool, i: nat, mid: nat, id: nat)
    requires i < |p.slots| && !p.slots[i].used && IsLive(p, id)
    ensures IsLive(New(p, i, mid), id)
  {
    var j :| 0 <= j < |p.slots| && p.slots[j].used && p.slots[j].id == id;
    assert New(p, i, mid).slots[j] == p.slots[j];
  }

  /** A new transaction; its buffer's last user is over. */
  lemma NewKeeps(p: Pool, i: nat, mid: nat)
    requires Valid(p) && i < |p.slots| && !p.slots[i].used
    ensures Valid(New(p, i, mid))
  {
    var q := New(p, i, mid);
    NewKeepsListed(p, i, mid);
    assert q.slots[i].used && q.slots[i].id == |p.log|;
    forall id: nat | id < |q.log| ensures IsLive(q, id) || Over(q.log[id], q.held[id]) {
      if IsLive(p, id) {
        LiveInNew(p, i, mid, id);
      }
    }
  }

  lemma RegisterKeeps(p: Pool, i: nat)
    requires Valid(p) && i < |p.slots| && p.slots[i].used
    ensures Valid(Register(p, i))
  {
    var q := Register(p, i);
    RegisterKeepsListed(p, i);
    forall j | 0 <= j < |q.slots| ensures InOrder(q, q.slots[j]) {
      assert InOrder(p, p.slots[j]);
    }
    assert q.slots[i].used && q.slots[i].id == p.slots[i].id;
    forall id: nat | id < |q.log| ensures IsLive(q, id) || Over(q.log[id], q.held[id]) {
      if IsLive(p, id) {
        LiveStays(p, q, i, id);
      }
    }
  }

  /** Another history for a transaction that is between two states. */
  lemma StillValidBut(p: Pool, i: nat, s: Slot, h: seq<Effect>)
    requires ValidBut(p, i) && s.used && s.id == p.slots[i].id && s.callback == p.slots[i].callback
    ensures ValidBut(p.(slots := p.slots[i := s], log := p.log[s.id := h]), i)
  {
    var q := p.(slots := p.slots[i := s], log := p.log[s.id := h]);
    SlotKeepsListed(p, i, s, q.log);
    OthersInOrder(p, q, i);
    assert q.slots[i].used && q.slots[i].id == s.id;
    forall id: nat | id < |q.log| ensures IsLive(q, id) || Over(q.log[id], q.held[id]) {
      if IsLive(p, id) {
        LiveStays(p, q, i, id);
      }
    }
  }

  lemma SlotOnly(p: Pool, i: nat, s: Slot)
    requires ValidBut(p, i) && s.used && s.id == p.slots[i].id && s.callback == p.slots[i].callback
    ensures ValidBut(p.(slots := p.slots[i := s]), i)
  {
    assert p.log[s.id := p.log[s.id]] == p.log;
    StillValidBut(p, i, s, p.log[s.id]);
  }

  lemma SendAgain(p: Pool, i: nat, first: nat)
    requires ValidBut(p, i) && Pending(p, i) && p.slots[i].confirmable && p.slots[i].counter < MAX_RETRANSMIT
             && !p.slots[i].created
    ensures Valid(Send(p, i, first)) && Send(p, i, first).list == p.list
  {
    var s, id := p.slots[i], p.slots[i].id;
    var interval := if s.counter == 0 then first else s.interval * 2;
    var h := p.log[id] + [Sent] + [Waits(interval)];
    var start := if s.counter == 0 then first else p.log[id][1].ticks;
    NextInterval(start, s.counter);
    AttemptsBegin(s.counter, start);
    assert h == Attempts(s.counter, start) by {
      assert s.counter == 0 ==> h == [] + [Sent, Waits(interval)];
      assert h == p.log[id] + [Sent, Waits(interval)];
    }
    StayKeeps(p, i, s.(interval := interval, armed := true), h);
  }

  /** Sending keeps the invariant: the transaction stays open with a doubled wait, or ends. */
  lemma SendKeeps(p: Pool, i: nat, first: nat)
    requires ValidBut(p, i) && Pending(p, i) && !p.slots[i].created
    ensures Valid(Send(p, i, first))
  {
    var s, id := p.slots[i], p.slots[i].id;
    var h := p.log[id] + [Sent];
    var q := p.(log := p.log[id := h]);
    assert p.slots[i := s] == p.slots;
    StillValidBut(p, i, s, h);
    if !s.confirmable {
      assert h == [Sent];
      EndKeeps(q, i, s.(used := false, armed := false), h + [Freed]);
    } else if s.counter < MAX_RETRANSMIT {
      SendAgain(p, i, first);
    } else {
      var start := p.log[id][1].ticks;
      assert h == AllAttempts(start);
      EndLog(q, i, false);
      EndKeeps(q, i, s.(used := false, armed := false), h + Ending(s.callback, false));
    }
  }

  /** The owner sends its transaction. */
  lemma TransmitKeeps(p: Pool, i: nat, confirmable: bool, first: nat)
    requires Valid(p)
    ensures Valid(Transmit(p, i, confirmable, first))
  {
    if AtOwner(p, i) {
      assert InOrder(p, p.slots[i]);
      var q := Written(p, i, confirmable);
      SlotOnly(p, i, q.slots[i]);
      SendKeeps(q, i, first);
    }
  }

  lemma DiscardKeeps(p: Pool, i: nat)
    requires Valid(p)
    ensures Valid(Discard(p, i))
  {
    if AtOwner(p, i) {
      assert InOrder(p, p.slots[i]);
      assert [] + [Freed] == [Freed];
      EndKeeps(p, i, p.slots[i].(used := false, armed := false), [Freed]);
    }
  }

  /** A reply ends a transaction, sent or not. */
  lemma ReplyKeeps(p: Pool, mid: nat)
    requires Valid(p)
    ensures Valid(Reply(p, mid))
  {
    var j := FindMid(p, mid, 0);
    if j < |p.list| {
      var i := p.list[j];
      ListedIsUsed(p, j);
      var s, h := p.slots[i], p.log[p.slots[i].id];
      assert InOrder(p, s);
      EndLog(p, i, true);
      if Unsent(h, s) {
        assert h + Ending(s.callback, true) == Ending(s.callback, true);
      }
      EndKeeps(p, i, s.(used := false, armed := false), h + Ending(s.callback, true));
    }
  }

  /** A timer that was running has expired. */
  lemma ExpireKeeps(p: Pool, i: nat)
    requires Valid(p) && i < |p.slots| && p.slots[i].used && p.slots[i].armed
    ensures Valid(Expire(p, i))
  {
    var s := p.slots[i].(counter := p.slots[i].counter + 1);
    assert InOrder(p, p.slots[i]);
    SlotOnly(p, i, s);
    SendKeeps(Ticked(p, i), i, 0);
  }

  // ----- Timers and unsent transactions -----

  /** The check comes to an unsent transaction whose buffer holds a confirmable message, that of its
      last user. */
  predicate Wakes(p: Pool, j: nat, expired: set<nat>)
    decreases |p.list| - j
  {
    if j >= |p.list| || p.list[j] >= |p.slots| then false
    else
      var s := p.slots[p.list[j]];
      if !IsExpired(p, p.list[j], expired) then Wakes(p, j + 1, expired)
      else if !s.armed && s.confirmable then true
      else
        var q := Expire(p, p.list[j]);
        q.list == p.list && Wakes(q, j + 1, expired)
  }

  /** What a check does to an unsent transaction: as its timer is not running, it is taken for one that
      has expired. The old message in its buffer is sent, and if that is confirmable, the transaction
      counts a retransmission that never was and waits for twice the last user's interval; otherwise
      it is freed before its owner has sent it. */
  lemma UnsentExpires(p: Pool, i: nat)
    requires Valid(p) && i < |p.slots| && p.slots[i].used && p.slots[i].created
    ensures var s, q, id := p.slots[i], Expire(p, i), p.slots[i].id;
            id < |p.log| == |q.log|
            && if s.confirmable
               then q.slots[i] == s.(counter := 1, interval := s.interval * 2, armed := true)
                   && q.log[id] == [Sent, Waits(s.interval * 2)]
               else !q.slots[i].used && q.log[id] == [Sent, Freed] && Valid(q)
  {
    var s, q, id := p.slots[i], Expire(p, i), p.slots[i].id;
    assert InOrder(p, s);
    if s.confirmable {
      assert [] + [Sent] + [Waits(s.interval * 2)] == [Sent, Waits(s.interval * 2)];
    } else {
      assert [] + [Sent] + [Freed] == [Sent, Freed];
      EndKeeps(p, i, s.(counter := 1, used := false, armed := false), [Sent, Freed]);
      assert q == p.(slots := p.slots[i := s.(counter := 1, used := false, armed := false)], list := Remove(p.list, i),
                     log := p.log[id := [Sent, Freed]]);
    }
  }

  /** A transaction that was woken before its owner sent it. */
  predicate Woken(p: Pool, i: nat) {
    i < |p.slots| && p.slots[i].used && p.slots[i].created && p.slots[i].counter > 0
  }

  lemma WokenIsInvalid(p: Pool, i: nat)
    requires Woken(p, i)
    ensures !Valid(p)
  {
    assert InOrder(p, p.slots[i]) ==> false;
  }

  /** The rest of the check does not set it right. */
  lemma {:induction false} WokenStays(p: Pool, j: nat, expired: set<nat>, i: nat, r: Pool)
    requires Woken(p, i) && r == Check(p, j, expired) && forall k :: j <= k < |p.list| ==> p.list[k] != i
    ensures Woken(r, i)
    decreases |p.list| - j
  {
    if j < |p.list| && p.list[j] < |p.slots| {
      if !IsExpired(p, p.list[j], expired) {
        WokenStays(p, j + 1, expired, i, r);
      } else {
        var q := Expire(p, p.list[j]);
        assert q.slots[i] == p.slots[i];
        if q.list == p.list {
          WokenStays(q, j + 1, expired, i, r);
        }
      }
    }
  }

  /** A check keeps the invariant exactly if it does not wake an unsent transaction. */
  lemma {:induction false} CheckKeeps(p: Pool, j: nat, expired: set<nat>, r: Pool)
    requires Valid(p) && r == Check(p, j, expired)
    ensures Valid(r) <==> !Wakes(p, j, expired)
    decreases |p.list| - j
  {
    if j < |p.list| {
      var i := p.list[j];
      ListedIsUsed(p, j);
      assert InOrder(p, p.slots[i]);
      if !IsExpired(p, i, expired) {
        CheckKeeps(p, j + 1, expired, r);
      } else {
        var q := Expire(p, i);
        ExpireKeepsListed(p, i);
        if p.slots[i].armed {
          ExpireKeeps(p, i);
          if q.list == p.list {
            CheckKeeps(q, j + 1, expired, r);
          }
        } else {
          UnsentExpires(p, i);
          if p.slots[i].confirmable {
            assert forall k :: j < k < |p.list| ==> p.list[k] != p.list[j];
            WokenStays(q, j + 1, expired, i, r);
            WokenIsInvalid(r, i);
          } else {
            assert q.list != p.list;
          }
        }
      }
    }
  }

  /** A check while no transaction is unsent. */
  lemma {:induction false} QuietCheck(p: Pool, j: nat, expired: set<nat>)
    requires Listed(p) && forall i :: 0 <= i < |p.slots| && p.slots[i].used ==> p.slots[i].armed
    ensures !Wakes(p, j, expired)
    decreases |p.list| - j
  {
    if j < |p.list| {
      ListedIsUsed(p, j);
      if !IsExpired(p, p.list[j], expired) {
        QuietCheck(p, j + 1, expired);
      } else {
        var q := Expire(p, p.list[j]);
        ExpireKeepsListed(p, p.list[j]);
        if q.list == p.list {
          QuietCheck(q, j + 1, expired);
        }
      }
    }
  }

  // ----- Runs -----

  /** The event wakes no unsent transaction. */
  predicate Undisturbed(p: Pool, e: Event) {
    e.Timer? ==> !Wakes(p, 0, e.expired)
  }

  lemma StepKeeps(p: Pool, e: Event)
    requires Valid(p)
    ensures Valid(Step(p, e)) <==> Undisturbed(p, e)
  {
    match e
    case Creation(mid, registers) =>
      var i := FreeSlot(p.slots, 0);
      if i < |p.slots| {
        NewKeeps(p, i, mid);
        RegisterKeeps(New(p, i, mid), i);
      }
    case Sending(i, confirmable, first) => TransmitKeeps(p, i, confirmable, first);
    case Discarding(i) => DiscardKeeps(p, i);
    case Answer(mid) => ReplyKeeps(p, mid);
    case Timer(expired) => CheckKeeps(p, 0, expired, Check(p, 0, expired));
  }

  /** The invariant holds after every event of the run. */
  ghost predicate AllValid(events: seq<Event>) {
    Valid(Run(events)) && (events != [] ==> AllValid(events[..|events| - 1]))
  }

  /** Every event of the run is undisturbed when it happens. */
  predicate AllUndisturbed(events: seq<Event>) {
    events != [] ==>
      AllUndisturbed(events[..|events| - 1]) && Undisturbed(Run(events[..|events| - 1]), events[|events| - 1])
  }

  lemma InitialIsValid()
    ensures Valid(Initial())
  {
  }

  /** Over every interleaving of creations, transmissions, discards, answers and timer expiries: at all
      times every open transaction has been sent once more than it has been retransmitted, at doubling
      waits, and every transaction that is over went through one of the legal histories with its
      callback called at the end, exactly if no check wakes an unsent transaction. */
  lemma {:induction false} RunIsValid(events: seq<Event>)
    ensures AllValid(events) <==> AllUndisturbed(events)
    decreases |events|
  {
    if events == [] {
      InitialIsValid();
    } else {
      RunIsValid(events[..|events| - 1]);
      if AllValid(events[..|events| - 1]) {
        StepKeeps(Run(events[..|events| - 1]), events[|events| - 1]);
      }
    }
  }

  /** A check is undisturbed if it takes place while no transaction is unsent, as one does in a process
      that sends or discards what it creates before it goes on to the next event. */
  lemma BetweenEvents(p: Pool, expired: set<nat>)
    requires Valid(p) && forall i :: 0 <= i < |p.slots| && p.slots[i].used ==> !p.slots[i].created
    ensures Undisturbed(p, Timer(expired))
  {
    forall i | 0 <= i < |p.slots| && p.slots[i].used ensures p.slots[i].armed {
      assert InOrder(p, p.slots[i]);
    }
    QuietCheck(p, 0, expired);
  }

  lemma {:induction false} WakesLast(p: Pool, j: nat)
    requires j < |p.list|
             && forall k :: j <= k < |p.list| ==>
                      p.list[k] < |p.slots| && (p.slots[p.list[k]].armed <==> k + 1 < |p.list|)
    ensures Wakes(p, j, {}) <==> p.slots[p.list[|p.list| - 1]].confirmable
    decreases |p.list| - j
  {
    if j + 1 < |p.list| {
      WakesLast(p, j + 1);
    }
  }

  /** A check after a creation and before the transmission wakes the new transaction exactly if the old
      message in its buffer is confirmable, as a zeroed one is, although no timer has expired. */
  lemma EarlyCheck(p: Pool, mid: nat, registers: bool)
    requires Valid(p) && FreeSlot(p.slots, 0) < |p.slots|
    requires forall i :: 0 <= i < |p.slots| && p.slots[i].used ==> !p.slots[i].created
    ensures Undisturbed(Create(p, mid, registers), Timer({})) <==> !p.slots[FreeSlot(p.slots, 0)].confirmable
  {
    var i, q := FreeSlot(p.slots, 0), Create(p, mid, registers);
    assert i !in p.list;
    NotListed(p.list, i);
    assert q.list == p.list + [i] && !q.slots[i].armed by {
      assert InOrder(p, p.slots[i]);
    }
    forall k | 0 <= k < |p.list| ensures q.list[k] < |q.slots| && q.slots[q.list[k]].armed {
      ListedIsUsed(p, k);
      assert InOrder(p, p.slots[p.list[k]]);
    }
    WakesLast(q, 0);
  }

  lemma {:induction false} NotListed(list: seq<nat>, x: nat)
    requires x !in list
    ensures Remove(list, x) == list
  {
    if list != [] {
      NotListed(list[1..], x);
    }
  }
}
