/** What the histories tell: how often a transaction is sent and freed, and whose callbacks are called. */
module CoapCallbacks {
  import opened CoapTransactions
  import opened CoapHistories

  // ----- Counting -----

  function CountSent(h: seq<Effect>): nat {
    if h == [] then 0 else CountSent(h[..|h| - 1]) + if h[|h| - 1] == Sent then 1 else 0
  }

  function CountFreed(h: seq<Effect>): nat {
    if h == [] then 0 else CountFreed(h[..|h| - 1]) + if h[|h| - 1] == Freed then 1 else 0
  }

  /** The calls of callbacks in a history. */
  function CallsOf(h: seq<Effect>): seq<Effect> {
    if h == [] then [] else CallsOf(h[..|h| - 1]) + if h[|h| - 1].Called? then [h[|h| - 1]] else []
  }

  lemma OneMore(h: seq<Effect>, e: Effect)
    ensures CountSent(h + [e]) == CountSent(h) + if e == Sent then 1 else 0
    ensures CountFreed(h + [e]) == CountFreed(h) + if e == Freed then 1 else 0
    ensures CallsOf(h + [e]) == CallsOf(h) + if e.Called? then [e] else []
  {
    assert (h + [e])[..|h|] == h;
  }

  lemma {:induction false} CallsIn(h: seq<Effect>, e: Effect)
    requires e.Called?
    ensures e in h <==> e in CallsOf(h)
  {
    if h != [] {
      CallsIn(h[..|h| - 1], e);
      assert h == h[..|h| - 1] + [h[|h| - 1]];
    }
  }

  lemma {:induction false} AttemptsCount(k: nat, first: nat)
    ensures CountSent(Attempts(k, first)) == k + 1 && CountFreed(Attempts(k, first)) == 0
            && CallsOf(Attempts(k, first)) == []
  {
    var before := if k == 0 then [] else Attempts(k - 1, first);
    if k > 0 {
      AttemptsCount(k - 1, first);
    }
    var wait := Waits(first * Pow2(k));
    OneMore(before, Sent);
    OneMore(before + [Sent], wait);
    assert Attempts(k, first) == before + [Sent] + [wait];
  }

  /** The calls at the end of a transaction. */
  function Calls(held: Owner, replied: bool): seq<Effect> {
    match held
    case Nobody => []
    case By(owner) => [Called(owner, replied)]
  }

  lemma EndingCount(begin: seq<Effect>, held: Owner, replied: bool)
    requires CountFreed(begin) == 0 && CallsOf(begin) == []
    ensures var h := begin + Ending(held, replied);
            CountSent(h) == CountSent(begin) && CountFreed(h) == 1 && CallsOf(h) == Calls(held, replied)
  {
    OneMore(begin, Freed);
    if held.By? {
      OneMore(begin + [Freed], Called(held.id, replied));
      assert begin + Ending(held, replied) == begin + [Freed] + [Called(held.id, replied)];
    }
  }

  lemma SilentCount(h: seq<Effect>)
    requires Silent(h)
    ensures CountSent(h) <= 1 && CountFreed(h) == 1 && CallsOf(h) == []
  {
    OneMore([], Sent);
    OneMore([], Freed);
    OneMore([] + [Sent], Freed);
    assert [] + [Sent] + [Freed] == [Sent, Freed] && [] + [Freed] == [Freed];
  }

  /** A transaction that is over was sent at most five times and freed exactly once. Unless it ended
      silently, it has called the callback that its buffer held, with NULL exactly after the fifth
      transmission. */
  lemma OverBounds(h: seq<Effect>, held: Owner)
    requires Over(h, held)
    ensures CountSent(h) <= MAX_RETRANSMIT + 1 && CountFreed(h) == 1
    ensures CallsOf(h) == if Silent(h) then [] else Calls(held, CountSent(h) <= MAX_RETRANSMIT)
  {
    if Silent(h) {
      SilentCount(h);
    } else if h == Ending(held, true) {
      assert [] + Ending(held, true) == Ending(held, true);
      EndingCount([], held, true);
    } else if k: nat, first: nat :| k < MAX_RETRANSMIT && h == Attempts(k, first) + Ending(held, true) {
      AttemptsCount(k, first);
      EndingCount(Attempts(k, first), held, true);
    } else {
      var first: nat :| h == AllAttempts(first) + Ending(held, false);
      AttemptsCount(MAX_RETRANSMIT - 1, first);
      OneMore(Attempts(MAX_RETRANSMIT - 1, first), Sent);
      EndingCount(AllAttempts(first), held, false);
    }
  }

  /** In every undisturbed run, every transaction has been sent at most five times; it has been freed
      once if it is no longer in its buffer, and has then called the callback that its buffer held,
      unless it ended silently; before that it has called none. */
  lemma RunBounds(events: seq<Event>, id: nat)
    requires AllUndisturbed(events) && id < |Run(events).log|
    ensures var p := Run(events);
            |p.held| == |p.log| && CountSent(p.log[id]) <= MAX_RETRANSMIT + 1
            && CountFreed(p.log[id]) == (if IsLive(p, id) then 0 else 1)
            && CallsOf(p.log[id]) == if IsLive(p, id) || Silent(p.log[id]) then []
                                     else Calls(p.held[id], CountSent(p.log[id]) <= MAX_RETRANSMIT)
  {
    var p := Run(events);
    RunIsValid(events);
    if IsLive(p, id) {
      var i :| 0 <= i < |p.slots| && p.slots[i].used && p.slots[i].id == id;
      assert InOrder(p, p.slots[i]);
      if Open(p.log[id], p.slots[i]) {
        AttemptsCount(p.slots[i].counter, p.log[id][1].ticks);
      }
    } else {
      OverBounds(p.log[id], p.held[id]);
    }
  }

  // ----- Whose callbacks are called -----

  /** The buffer of the transaction held a callback that another one had registered. */
  predicate Foreign(held: seq<Owner>, id: nat) {
    id < |held| && held[id].By? && held[id].id != id
  }

  ghost predicate NoneForeign(held: seq<Owner>) {
    forall id :: 0 <= id < |held| ==> !Foreign(held, id)
  }

  /** The creation does not leave the callback of the buffer's last user to a transaction without one. */
  predicate Clean(p: Pool, e: Event) {
    e.Creation? && !e.registers ==>
      var i := FreeSlot(p.slots, 0); i < |p.slots| ==> p.slots[i].callback == Nobody
  }

  /** What a transaction holds is decided by its creation: its own callback if it registers one, and
      otherwise the one that is left in its buffer. */
  lemma CreationHolds(p: Pool, mid: nat, registers: bool)
    requires Listed(p)
    ensures var i := FreeSlot(p.slots, 0);
            Create(p, mid, registers).held
            == if i >= |p.slots| then p.held else p.held + [if registers then By(|p.log|) else p.slots[i].callback]
  {
  }

  lemma {:induction false} CheckKeepsHeld(p: Pool, j: nat, expired: set<nat>, r: Pool)
    requires r == Check(p, j, expired)
    ensures r.held == p.held
    decreases |p.list| - j
  {
    if j < |p.list| && p.list[j] < |p.slots| {
      if !IsExpired(p, p.list[j], expired) {
        CheckKeepsHeld(p, j + 1, expired, r);
      } else {
        var q := Expire(p, p.list[j]);
        if q.list == p.list {
          CheckKeepsHeld(q, j + 1, expired, r);
        }
      }
    }
  }

  /** No other event changes it. */
  lemma HeldStays(p: Pool, e: Event)
    requires !e.Creation?
    ensures Step(p, e).held == p.held
  {
    if e.Timer? {
      CheckKeepsHeld(p, 0, e.expired, Check(p, 0, e.expired));
    }
  }

  lemma OneMoreHeld(held: seq<Owner>, x: Owner)
    ensures NoneForeign(held + [x]) <==> NoneForeign(held) && (x.By? ==> x.id == |held|)
  {
    var n, more := |held|, held + [x];
    if NoneForeign(more) {
      assert !Foreign(more, n);
      forall id | 0 <= id < n ensures !Foreign(held, id) {
        assert !Foreign(more, id);
      }
    }
    if NoneForeign(held) && (x.By? ==> x.id == n) {
      forall id | 0 <= id < |more| ensures !Foreign(more, id) {
        assert id < n ==> !Foreign(held, id);
      }
    }
  }

  /** An event brings a foreign callback to a transaction exactly if it is not clean. */
  lemma StepForeign(p: Pool, e: Event)
    requires Listed(p)
    ensures NoneForeign(Step(p, e).held) <==> NoneForeign(p.held) && Clean(p, e)
  {
    if e.Creation? {
      var i := FreeSlot(p.slots, 0);
      CreationHolds(p, e.mid, e.registers);
      if i < |p.slots| {
        var x := if e.registers then By(|p.log|) else p.slots[i].callback;
        OneMoreHeld(p.held, x);
        assert (x.By? ==> x.id == |p.held|) <==> e.registers || x == Nobody;
      }
    } else {
      HeldStays(p, e);
    }
  }

  /** Every event of the run is clean when it happens. */
  predicate CleanRun(events: seq<Event>) {
    events != [] ==> CleanRun(events[..|events| - 1]) && Clean(Run(events[..|events| - 1]), events[|events| - 1])
  }

  /** No transaction of a run holds the callback of another one exactly if every creation is clean. */
  lemma {:induction false} RunForeign(events: seq<Event>)
    ensures NoneForeign(Run(events).held) <==> CleanRun(events)
    decreases |events|
  {
    if events != [] {
      RunForeign(events[..|events| - 1]);
      RunIsListed(events[..|events| - 1]);
      StepForeign(Run(events[..|events| - 1]), events[|events| - 1]);
    }
  }

  /** The transaction has called a callback that another one had registered. */
  ghost predicate CalledForeign(p: Pool, id: nat) {
    id < |p.log| && exists e :: e in p.log[id] && e.Called? && e.owner != id
  }

  /** In every undisturbed run a transaction has called another one's callback exactly if its buffer
      held it at the creation and the transaction is over by a reply or by giving up. */
  lemma ForeignCalls(events: seq<Event>, id: nat)
    requires AllUndisturbed(events) && id < |Run(events).log|
    ensures var p := Run(events);
            CalledForeign(p, id) <==> Foreign(p.held, id) && !IsLive(p, id) && !Silent(p.log[id])
  {
    var p := Run(events);
    RunBounds(events, id);
    forall e: Effect | e.Called? ensures e in p.log[id] <==> e in CallsOf(p.log[id]) {
      CallsIn(p.log[id], e);
    }
    if Foreign(p.held, id) && !IsLive(p, id) && !Silent(p.log[id]) {
      var e := Called(p.held[id].id, CountSent(p.log[id]) <= MAX_RETRANSMIT);
      assert e in CallsOf(p.log[id]);
      assert e in p.log[id] && e.owner != id;
    }
  }

  /** In a clean and undisturbed run a callback is called only for the transaction that registered it,
      and at most once. */
  lemma CallbacksAreOwn(events: seq<Event>, id: nat)
    requires AllUndisturbed(events) && CleanRun(events) && id < |Run(events).log|
    ensures !CalledForeign(Run(events), id) && |CallsOf(Run(events).log[id])| <= 1
  {
    RunForeign(events);
    RunBounds(events, id);
    ForeignCalls(events, id);
  }
}
