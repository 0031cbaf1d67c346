/** Which transaction an event concerns: the buffer a new one gets, the one that a reply is taken for, and
    the ones that a check sends again. */
module CoapOrder {
  import opened CoapTransactions
  import opened CoapHistories
  import opened CoapTimeout

  // ----- The list is in the order of creation -----

  /** The transactions are listed in the order in which they were created. */
  ghost predicate ByAge(slots: seq<Slot>, list: seq<nat>) {
    (forall j :: 0 <= j < |list| ==> list[j] < |slots|)
    && forall j, k :: 0 <= j < k < |list| ==> slots[list[j]].id < slots[list[k]].id
  }

  /** What an event does to the list that is not the creation of a transaction: nothing is added or moved. */
  ghost predicate OnlyRemoves(p: Pool, q: Pool) {
    |q.slots| == |p.slots| && (forall i :: 0 <= i < |p.slots| ==> q.slots[i].id == p.slots[i].id)
    && Listed(p) && Listed(q) && (ByAge(p.slots, p.list) ==> ByAge(q.slots, q.list))
  }

  /** All of these are younger than the transaction in buffer `x`. */
  ghost predicate Younger(slots: seq<Slot>, x: nat, list: seq<nat>) {
    x < |slots| && forall y: nat :: y in list ==> y < |slots| && slots[x].id < slots[y].id
  }

  lemma ByAgeCons(slots: seq<Slot>, x: nat, rest: seq<nat>)
    ensures ByAge(slots, [x] + rest) <==> ByAge(slots, rest) && Younger(slots, x, rest)
  {
    var l := [x] + rest;
    assert l[0] == x && forall j :: 0 < j < |l| ==> l[j] == rest[j - 1];
    if ByAge(slots, l) {
      assert forall j :: 0 <= j < |rest| ==> rest[j] == l[j + 1];
    }
    if ByAge(slots, rest) && Younger(slots, x, rest) {
      forall j, k | 0 <= j < k < |l| ensures slots[l[j]].id < slots[l[k]].id {
        assert l[k] in rest;
      }
    }
  }

  lemma {:induction false} RemoveByAge(slots: seq<Slot>, list: seq<nat>, x: nat)
    requires ByAge(slots, list)
    ensures ByAge(slots, Remove(list, x))
    ensures forall y :: y in Remove(list, x) ==> y in list
  {
    if list != [] {
      assert list == [list[0]] + list[1..];
      ByAgeCons(slots, list[0], list[1..]);
      if list[0] != x {
        RemoveByAge(slots, list[1..], x);
        ByAgeCons(slots, list[0], Remove(list[1..], x));
      }
    }
  }

  lemma SameAges(a: seq<Slot>, b: seq<Slot>, list: seq<nat>)
    requires ByAge(a, list) && |b| == |a| && forall i :: 0 <= i < |a| ==> b[i].id == a[i].id
    ensures ByAge(b, list)
  {
  }

  lemma SendRemoves(p: Pool, i: nat, first: nat)
    requires Listed(p) && i < |p.slots| && p.slots[i].used
    ensures OnlyRemoves(p, Send(p, i, first))
  {
    SendKeepsListed(p, i, first);
    var q := Send(p, i, first);
    forall k | 0 <= k < |p.slots| ensures q.slots[k].id == p.slots[k].id {
      assert k != i ==> q.slots[k] == p.slots[k];
    }
    if ByAge(p.slots, p.list) {
      RemoveByAge(p.slots, p.list, i);
      SameAges(p.slots, q.slots, q.list);
    }
  }

  lemma ExpireRemoves(p: Pool, i: nat)
    requires Listed(p) && i < |p.slots| && p.slots[i].used
    ensures OnlyRemoves(p, Expire(p, i))
  {
    SlotKeepsListed(p, i, Ticked(p, i).slots[i], p.log);
    SendRemoves(Ticked(p, i), i, 0);
  }

  lemma {:induction false} CheckRemoves(p: Pool, j: nat, expired: set<nat>, r: Pool)
    requires Listed(p) && r == Check(p, j, expired)
    ensures OnlyRemoves(p, r)
    decreases |p.list| - j
  {
    if j < |p.list| {
      ListedIsUsed(p, j);
      if !IsExpired(p, p.list[j], expired) {
        CheckRemoves(p, j + 1, expired, r);
      } else {
        var q := Expire(p, p.list[j]);
        ExpireRemoves(p, p.list[j]);
        if q.list == p.list {
          CheckRemoves(q, j + 1, expired, r);
        }
      }
    }
  }

  lemma ReplyRemoves(p: Pool, mid: nat)
    requires Listed(p)
    ensures OnlyRemoves(p, Reply(p, mid))
  {
    ReplyKeepsListed(p, mid);
    var j := FindMid(p, mid, 0);
    if j < |p.list| {
      ListedIsUsed(p, j);
      if ByAge(p.slots, p.list) {
        RemoveByAge(p.slots, p.list, p.list[j]);
      }
    }
  }

  lemma RemoveAbsent(list: seq<nat>, x: nat)
    requires x !in list
    ensures Remove(list, x) == list
  {
  }

  lemma YoungestLast(slots: seq<Slot>, list: seq<nat>, i: nat, s: Slot)
    requires ByAge(slots, list) && i < |slots| && i !in list
    requires forall j :: 0 <= j < |list| ==> slots[list[j]].id < s.id
    ensures ByAge(slots[i := s], list + [i])
  {
    var l := list + [i];
    forall j, k | 0 <= j < k < |l| ensures slots[i := s][l[j]].id < slots[i := s][l[k]].id {
      assert l[j] == list[j] && l[j] != i;
      assert k < |list| ==> l[k] == list[k] && l[k] != i;
    }
  }

  lemma ListedBefore(p: Pool)
    requires Listed(p)
    ensures forall j :: 0 <= j < |p.list| ==> p.list[j] < |p.slots| && p.slots[p.list[j]].id < |p.log|
  {
    forall j | 0 <= j < |p.list| ensures p.list[j] < |p.slots| && p.slots[p.list[j]].id < |p.log| {
      ListedIsUsed(p, j);
    }
  }

  /** A new transaction goes to the end of the list. */
  lemma CreationIsLast(p: Pool, mid: nat, registers: bool)
    requires Listed(p) && ByAge(p.slots, p.list)
    ensures var q, i := Create(p, mid, registers), FreeSlot(p.slots, 0);
            ByAge(q.slots, q.list)
            && if i == |p.slots| then q == p else q.list == p.list + [i] && q.slots[i].id == |p.log|
  {
    var q, i := Create(p, mid, registers), FreeSlot(p.slots, 0);
    if i < |p.slots| {
      assert i !in p.list;
      RemoveAbsent(p.list, i);
      ListedBefore(p);
      YoungestLast(p.slots, p.list, i, q.slots[i]);
      assert q.slots == p.slots[i := q.slots[i]];
    }
  }

  lemma SendingByAge(p: Pool, i: nat, confirmable: bool, first: nat)
    requires Listed(p) && ByAge(p.slots, p.list)
    ensures ByAge(Transmit(p, i, confirmable, first).slots, Transmit(p, i, confirmable, first).list)
  {
    if AtOwner(p, i) {
      SlotKeepsListed(p, i, Written(p, i, confirmable).slots[i], p.log);
      SendRemoves(Written(p, i, confirmable), i, first);
    }
  }

  lemma StepByAge(p: Pool, e: Event)
    requires Listed(p) && ByAge(p.slots, p.list)
    ensures ByAge(Step(p, e).slots, Step(p, e).list)
  {
    match e
    case Creation(mid, registers) => CreationIsLast(p, mid, registers);
    case Sending(i, confirmable, first) => SendingByAge(p, i, confirmable, first);
    case Discarding(i) => RemoveByAge(p.slots, p.list, i);
    case Answer(mid) => ReplyRemoves(p, mid);
    case Timer(expired) => CheckRemoves(p, 0, expired, Check(p, 0, expired));
  }

  /** In every run the transactions are listed in the order of their creation. */
  lemma {:induction false} RunByAge(events: seq<Event>)
    ensures ByAge(Run(events).slots, Run(events).list)
    decreases |events|
  {
    if events != [] {
      var p := Run(events[..|events| - 1]);
      RunIsListed(events[..|events| - 1]);
      RunByAge(events[..|events| - 1]);
      StepByAge(p, events[|events| - 1]);
    }
  }

  /** So a reply is taken for the oldest open transaction with its message id, if there is one. */
  lemma OldestIsAnswered(events: seq<Event>, mid: nat)
    ensures var p := Run(events);
            var j := FindMid(p, mid, 0);
            (j == |p.list| <==> forall i :: 0 <= i < |p.slots| && p.slots[i].used ==> p.slots[i].mid != mid)
            && (j < |p.list| ==>
                  var i := p.list[j];
                  i < |p.slots| && p.slots[i].used && p.slots[i].mid == mid && Reply(p, mid).list == Remove(p.list, i)
                  && forall k :: 0 <= k < |p.slots| && p.slots[k].used && p.slots[k].mid == mid ==>
                       p.slots[i].id <= p.slots[k].id)
  {
    var p := Run(events);
    var j := FindMid(p, mid, 0);
    RunIsListed(events);
    RunByAge(events);
    FindsMid(p, mid, 0);
    if j < |p.list| {
      ListedIsUsed(p, j);
    }
    forall k: nat | k < |p.slots| && p.slots[k].used && p.slots[k].mid == mid
      ensures j < |p.list| && p.slots[p.list[j]].id <= p.slots[k].id
    {
      assert k in p.list;
      var l :| 0 <= l < |p.list| && p.list[l] == k;
      assert l >= j;
    }
  }

  /** A new transaction gets the first buffer that is free; there are four of them. */
  lemma {:induction false} FirstFree(slots: seq<Slot>, i: nat)
    requires i <= |slots|
    ensures forall k :: i <= k < FreeSlot(slots, i) ==> slots[k].used
    ensures FreeSlot(slots, i) < |slots| ==> !slots[FreeSlot(slots, i)].used
    decreases |slots| - i
  {
    if i < |slots| {
      FirstFree(slots, i + 1);
    }
  }

  lemma {:induction false} FourBuffers(events: seq<Event>)
    ensures |Run(events).slots| == 4 && |Run(events).list| <= 4
  {
    RunIsListed(events);
    var p := Run(events);
    forall k | 0 <= k < |p.list| ensures p.list[k] < 4 {
      ListedIsUsed(p, k);
    }
    AtMost(p.list, 4);
  }

  lemma {:induction false} AtMost(list: seq<nat>, n: nat)
    requires NoDuplicates(list) && forall k :: 0 <= k < |list| ==> list[k] < n
    ensures |list| <= n
    decreases n
  {
    if list != [] {
      assert list[0] < n;
      var shorter := Remove(list, n - 1);
      RemoveFrom(list, n - 1);
      forall k | 0 <= k < |shorter| ensures shorter[k] < n - 1 {
        assert shorter[k] in shorter;
        assert shorter[k] in list;
      }
      RemoveLength(list, n - 1);
      AtMost(shorter, n - 1);
    }
  }

  lemma {:induction false} RemoveLength(list: seq<nat>, x: nat)
    ensures |list| - 1 <= |Remove(list, x)| <= |list|
  {
    if list != [] && list[0] != x {
      RemoveLength(list[1..], x);
    }
  }

  // ----- The walk of a check -----

  /** The next transmission of the transaction is its last. */
  predicate Ends(s: Slot) {
    !s.confirmable || s.counter + 1 >= 4
  }

  /** The position from `j` on at which the walk ends: that of the first expired transaction that ends. */
  function LastVisited(p: Pool, j: nat, expired: set<nat>): nat
    requires ListsUsed(p) && j <= |p.list|
    decreases |p.list| - j
  {
    if j == |p.list| then j
    else
      ListedIsUsed(p, j);
      if IsExpired(p, p.list[j], expired) && Ends(p.slots[p.list[j]]) then j else LastVisited(p, j + 1, expired)
  }

  lemma {:induction false} LastVisitedIs(p: Pool, j: nat, expired: set<nat>)
    requires ListsUsed(p) && j <= |p.list|
    ensures j <= LastVisited(p, j, expired) <= |p.list|
    ensures forall k :: j <= k < LastVisited(p, j, expired) ==>
              p.list[k] < |p.slots| && !(IsExpired(p, p.list[k], expired) && Ends(SlotAt(p, k)))
    ensures var last := LastVisited(p, j, expired);
            last < |p.list| ==>
              p.list[last] < |p.slots| && IsExpired(p, p.list[last], expired) && Ends(SlotAt(p, last))
    decreases |p.list| - j
  {
    if j < |p.list| {
      ListedIsUsed(p, j);
      LastVisitedIs(p, j + 1, expired);
    }
  }

  /** What an expiry does to the transaction in a buffer: it is sent again and waits twice as long, or it is
      sent for the last time and is over. */
  ghost predicate SentAgain(s: Slot, h: seq<Effect>, t: Slot, g: seq<Effect>) {
    if !Ends(s) then
      t == s.(counter := s.counter + 1, interval := 2 * s.interval, armed := true)
      && g == h + [Sent, Waits(2 * s.interval)]
    else
      t == s.(counter := s.counter + 1, used := false, armed := false)
      && g == h + if s.confirmable then [Sent] + Ending(s.callback, false) else [Sent, Freed]
  }

  lemma ExpirySends(p: Pool, i: nat)
    requires Listed(p) && i < |p.slots| && p.slots[i].used
    ensures var q, id := Expire(p, i), p.slots[i].id;
            id < |p.log| == |q.log| && |q.slots| == |p.slots| && SentAgain(p.slots[i], p.log[id], q.slots[i], q.log[id])
            && q.list == (if Ends(p.slots[i]) then Remove(p.list, i) else p.list)
            && (forall j :: 0 <= j < |p.slots| && j != i ==> q.slots[j] == p.slots[j])
            && (forall k :: 0 <= k < |p.log| && k != id ==> q.log[k] == p.log[k])
  {
    var s, id := p.slots[i], p.slots[i].id;
    var t := Ticked(p, i);
    assert id < |p.log|;
    var h := p.log[id] + [Sent];
    var r := t.(log := t.log[id := h]);
    if !s.confirmable {
      assert h + [Freed] == p.log[id] + [Sent, Freed];
      assert Expire(p, i) == Clear(r, i);
    } else if Ends(s) {
      EndLog(r, i, false);
      assert h + Ending(s.callback, false) == p.log[id] + ([Sent] + Ending(s.callback, false));
    } else {
      assert h + [Waits(2 * s.interval)] == p.log[id] + [Sent, Waits(2 * s.interval)];
    }
  }

  /** The transaction at position `k` of the list. */
  function SlotAt(p: Pool, k: nat): Slot
    requires ListsUsed(p) && k < |p.list|
  {
    ListedIsUsed(p, k);
    p.slots[p.list[k]]
  }

  /** It is as it was. */
  ghost predicate Kept(p: Pool, q: Pool, k: nat)
    requires Listed(p) && k < |p.list| && |q.slots| == |p.slots| && |q.log| == |p.log|
  {
    var s := SlotAt(p, k);
    q.slots[p.list[k]] == s && q.log[s.id] == p.log[s.id]
  }

  /** It is as it was, or sent again if its timer has expired and the walk from position `j` to `last` comes to
      it. */
  ghost predicate Handled(p: Pool, q: Pool, k: nat, j: nat, last: nat, expired: set<nat>)
    requires Listed(p) && k < |p.list| && |q.slots| == |p.slots| && |q.log| == |p.log|
  {
    var s := SlotAt(p, k);
    if j <= k <= last && IsExpired(p, p.list[k], expired)
    then SentAgain(s, p.log[s.id], q.slots[p.list[k]], q.log[s.id])
    else Kept(p, q, k)
  }

  ghost predicate AllHandled(p: Pool, q: Pool, j: nat, last: nat, expired: set<nat>)
    requires Listed(p)
  {
    |q.slots| == |p.slots| && |q.log| == |p.log|
    && forall k :: 0 <= k < |p.list| ==> Handled(p, q, k, j, last, expired)
  }

  /** One expiry touches no other listed transaction. */
  lemma OthersKept(p: Pool, j: nat, k: nat)
    requires Listed(p) && j < |p.list| && k < |p.list| && j != k && p.list[j] < |p.slots|
    ensures |Expire(p, p.list[j]).slots| == |p.slots| && |Expire(p, p.list[j]).log| == |p.log|
            && Kept(p, Expire(p, p.list[j]), k)
  {
    ListedIsUsed(p, j);
    ListedIsUsed(p, k);
    ExpirySends(p, p.list[j]);
    DistinctIds(p.slots, p.list[j], p.list[k]);
  }

  /** The end of the walk depends on the transactions from `j` on alone. */
  lemma {:induction false} SameEnd(p: Pool, q: Pool, j: nat, expired: set<nat>)
    requires ListsUsed(p) && ListsUsed(q) && q.list == p.list && j <= |p.list|
    requires forall k :: j <= k < |p.list| ==> SlotAt(q, k) == SlotAt(p, k)
    ensures LastVisited(q, j, expired) == LastVisited(p, j, expired)
    decreases |p.list| - j
  {
    if j < |p.list| {
      assert SlotAt(q, j) == SlotAt(p, j);
      SameEnd(p, q, j + 1, expired);
    }
  }

  /** The first transaction of the walk is sent again, and the others are handled after it. */
  lemma OneMoreHandled(p: Pool, m: Pool, q: Pool, j: nat, last: nat, expired: set<nat>)
    requires Listed(p) && j < |p.list| && p.list[j] < |p.slots| && IsExpired(p, p.list[j], expired)
    requires m == Expire(p, p.list[j])
    requires Listed(m) && m.list == p.list && j <= last && AllHandled(m, q, j + 1, last, expired)
    ensures AllHandled(p, q, j, last, expired)
  {
    ListedIsUsed(p, j);
    ExpirySends(p, p.list[j]);
    forall k | 0 <= k < |p.list| ensures Handled(p, q, k, j, last, expired) {
      assert Handled(m, q, k, j + 1, last, expired);
      if k != j {
        OthersKept(p, j, k);
        assert SlotAt(m, k) == SlotAt(p, k);
      }
    }
  }

  lemma {:induction false} WalkFrom(p: Pool, j: nat, expired: set<nat>, q: Pool)
    requires Listed(p) && j <= |p.list| && q == Check(p, j, expired)
    ensures AllHandled(p, q, j, LastVisited(p, j, expired), expired)
    decreases |p.list| - j
  {
    LastVisitedIs(p, j, expired);
    if j < |p.list| {
      ListedIsUsed(p, j);
      var i := p.list[j];
      if !IsExpired(p, i, expired) {
        WalkFrom(p, j + 1, expired, q);
        var last := LastVisited(p, j, expired);
        assert |q.slots| == |p.slots| && |q.log| == |p.log|;
        forall k | 0 <= k < |p.list| ensures Handled(p, q, k, j, last, expired) {
          assert Handled(p, q, k, j + 1, last, expired);
        }
      } else {
        var m := Expire(p, i);
        ExpirySends(p, i);
        ExpireKeepsListed(p, i);
        if Ends(p.slots[i]) {
          RemoveFrom(p.list, i);
          assert q == m && |m.slots| == |p.slots| && |m.log| == |p.log|;
          forall k | 0 <= k < |p.list| ensures Handled(p, q, k, j, j, expired) {
            if k != j {
              OthersKept(p, j, k);
            }
          }
        } else {
          forall k | j + 1 <= k < |p.list| ensures SlotAt(m, k) == SlotAt(p, k) {
            OthersKept(p, j, k);
          }
          SameEnd(p, m, j + 1, expired);
          WalkFrom(m, j + 1, expired, q);
          OneMoreHandled(p, m, q, j, LastVisited(p, j, expired), expired);
        }
      }
    }
  }

  /** A check sends again exactly the listed transactions whose timer has expired, from the oldest on, up to
      the first of them for which it is the last transmission: its removal ends the walk. The others stay
      as they are. */
  lemma CheckHandles(p: Pool, expired: set<nat>)
    requires Listed(p)
    ensures AllHandled(p, Check(p, 0, expired), 0, LastVisited(p, 0, expired), expired)
    ensures var last := LastVisited(p, 0, expired);
            last <= |p.list|
            && (last < |p.list| ==>
                  p.list[last] < |p.slots| && IsExpired(p, p.list[last], expired) && Ends(SlotAt(p, last)))
            && forall k :: 0 <= k < last ==>
                p.list[k] < |p.slots| && !(IsExpired(p, p.list[k], expired) && Ends(SlotAt(p, k)))
  {
    WalkFrom(p, 0, expired, Check(p, 0, expired));
    LastVisitedIs(p, 0, expired);
  }

  // ----- The waits -----

  /** A transaction that is never answered, event by event. */
  lemma FiveTransmissions(first: nat)
    ensures AllAttempts(first) == [Sent, Waits(first), Sent, Waits(2 * first), Sent, Waits(4 * first), Sent,
                                   Waits(8 * first), Sent]
  {
    assert Pow2(1) == 2 && Pow2(2) == 4 && Pow2(3) == 8;
    assert Attempts(0, first) == [Sent, Waits(first)];
    assert Attempts(1, first) == Attempts(0, first) + [Sent, Waits(first * 2)];
    assert Attempts(2, first) == Attempts(1, first) + [Sent, Waits(first * 4)];
    assert Attempts(3, first) == Attempts(2, first) + [Sent, Waits(first * 8)];
  }
}
