/** The retransmission layer: a pool of transaction buffers, the list of the transactions in them, and
    what becomes of each transaction. A transaction is created, and later sent or discarded by its
    owner; anything may happen in between. Time is left open: a timer may expire at any moment while
    it is armed. */
module CoapTransactions {
  const MAX_OPEN := 4
  const MAX_RETRANSMIT := 4

  /** The transaction that registered a callback, if any. */
  datatype Owner = Nobody | By(id: nat)

  /** A buffer of the pool. `id` tells the transactions apart that use it one after the other, and
      `created` says that the owner has not sent it yet; they are no fields of the source's. */
  datatype Slot = Slot(used: bool, mid: nat, counter: nat, confirmable: bool, interval: nat, armed: bool,
                       callback: Owner, id: nat, created: bool)

  /** What happens in the life of a transaction: its message is sent, its timer is set, its buffer is
      freed, or a callback is called, with the reply or without. */
  datatype Effect = Sent | Waits(ticks: nat) | Freed | Called(owner: nat, replied: bool)

  /** The pool, the list of transactions by their buffers, and for every transaction its history and
      the callback that its buffer held once it was created. */
  datatype Pool = Pool(slots: seq<Slot>, list: seq<nat>, log: seq<seq<Effect>>, held: seq<Owner>)

  /** Zeroed buffers; a zeroed message reads as a confirmable one. */
  const EMPTY_SLOT := Slot(false, 0, 0, true, 0, false, Nobody, 0, false)

  function Initial(): Pool {
    Pool(seq(MAX_OPEN, _ => EMPTY_SLOT), [], [], [])
  }

  // ----- The operations -----

  /** memb_alloc: the first buffer from `i` on that is not in use. */
  function FreeSlot(slots: seq<Slot>, i: nat): (r: nat)
    requires i <= |slots|
    ensures i <= r <= |slots|
    ensures r < |slots| ==> !slots[r].used
    decreases |slots| - i
  {
    if i == |slots| || !slots[i].used then i else FreeSlot(slots, i + 1)
  }

  /** list_remove. */
  function Remove(list: seq<nat>, x: nat): seq<nat> {
    if list == [] then [] else if list[0] == x then list[1..] else [list[0]] + Remove(list[1..], x)
  }

  function Note(log: seq<seq<Effect>>, id: nat, e: Effect): seq<seq<Effect>> {
    if id < |log| then log[id := log[id] + [e]] else log
  }

  /** coap_new_transaction in buffer `i`. What the buffer's last user left in the other fields stays. */
  function New(p: Pool, i: nat, mid: nat): Pool
    requires i < |p.slots|
  {
    Pool(p.slots[i := p.slots[i].(used := true, mid := mid, counter := 0, id := |p.log|, created := true)],
         Remove(p.list, i) + [i],
         p.log + [[]],
         p.held + [p.slots[i].callback])
  }

  /** The owner sets the callback of a transaction. */
  function Register(p: Pool, i: nat): Pool
    requires i < |p.slots|
  {
    var id := p.slots[i].id;
    p.(slots := p.slots[i := p.slots[i].(callback := By(id))],
       held := if id < |p.held| then p.held[id := By(id)] else p.held)
  }

  /** coap_clear_transaction. */
  function Clear(p: Pool, i: nat): Pool
    requires i < |p.slots|
  {
    p.(slots := p.slots[i := p.slots[i].(used := false, armed := false)], list := Remove(p.list, i),
       log := Note(p.log, p.slots[i].id, Freed))
  }

  function Call(p: Pool, id: nat, callback: Owner, replied: bool): Pool {
    match callback
    case Nobody => p
    case By(owner) => p.(log := Note(p.log, id, Called(owner, replied)))
  }

  /** coap_send_transaction; `first` is the random first interval. */
  function Send(p: Pool, i: nat, first: nat): Pool
    requires i < |p.slots|
  {
    var s := p.slots[i];
    var q := p.(log := Note(p.log, s.id, Sent));
    if !s.confirmable then Clear(q, i)
    else if s.counter < MAX_RETRANSMIT then
      var interval := if s.counter == 0 then first else s.interval * 2;
      q.(slots := q.slots[i := s.(interval := interval, armed := true)], log := Note(q.log, s.id, Waits(interval)))
    else Call(Clear(q, i), s.id, s.callback, false)
  }

  /** A new transaction, if a buffer is free; `registers` tells if a callback is set. */
  function Create(p: Pool, mid: nat, registers: bool): Pool {
    var i := FreeSlot(p.slots, 0);
    if i >= |p.slots| then p else if registers then Register(New(p, i, mid), i) else New(p, i, mid)
  }

  /** The owner has created the transaction in buffer `i` and not sent it yet. */
  predicate AtOwner(p: Pool, i: nat) {
    i < |p.slots| && p.slots[i].used && p.slots[i].created
  }

  /** The transaction with its message written. */
  function Written(p: Pool, i: nat, confirmable: bool): Pool
    requires i < |p.slots|
  {
    p.(slots := p.slots[i := p.slots[i].(confirmable := confirmable, created := false)])
  }

  /** The owner writes the message of its transaction and sends it. */
  function Transmit(p: Pool, i: nat, confirmable: bool, first: nat): Pool {
    if AtOwner(p, i) then Send(Written(p, i, confirmable), i, first) else p
  }

  /** The owner clears its transaction without having sent it. */
  function Discard(p: Pool, i: nat): Pool {
    if AtOwner(p, i) then Clear(p, i) else p
  }

  /** coap_get_transaction_by_mid: the position in the list from `j` on. */
  function FindMid(p: Pool, mid: nat, j: nat): (r: nat)
    requires j <= |p.list|
    ensures j <= r <= |p.list|
    decreases |p.list| - j
  {
    if j == |p.list| || (p.list[j] < |p.slots| && p.slots[p.list[j]].mid == mid) then j else FindMid(p, mid, j + 1)
  }

  /** A reply with a message id: its transaction is freed and its callback called. */
  function Reply(p: Pool, mid: nat): Pool {
    var j := FindMid(p, mid, 0);
    if j == |p.list| || p.list[j] >= |p.slots| then p
    else
      var i := p.list[j];
      Call(Clear(p, i), p.slots[i].id, p.slots[i].callback, true)
  }

  function Ticked(p: Pool, i: nat): Pool
    requires i < |p.slots|
  {
    p.(slots := p.slots[i := p.slots[i].(counter := p.slots[i].counter + 1)])
  }

  /** A timer has expired: the message is sent again. */
  function Expire(p: Pool, i: nat): Pool
    requires i < |p.slots|
  {
    Send(Ticked(p, i), i, 0)
  }

  /** etimer_expired, which holds of every timer that is not running; `expired` are the buffers whose
      running timers have expired. */
  predicate IsExpired(p: Pool, i: nat, expired: set<nat>)
    requires i < |p.slots|
  {
    i in expired || !p.slots[i].armed
  }

  /** coap_check_transactions from position `j` of the list on. The removal of a transaction ends the
      loop, as it clears the link the loop follows. */
  function Check(p: Pool, j: nat, expired: set<nat>): Pool
    decreases |p.list| - j
  {
    if j >= |p.list| || p.list[j] >= |p.slots| then p
    else
      if !IsExpired(p, p.list[j], expired) then Check(p, j + 1, expired)
      else
        var q := Expire(p, p.list[j]);
        if q.list == p.list then Check(q, j + 1, expired) else q
  }

  datatype Event =
    | Creation(mid: nat, registers: bool)
    | Sending(i: nat, confirmable: bool, first: nat)
    | Discarding(i: nat)
    | Answer(mid: nat)
    | Timer(expired: set<nat>)

  function Step(p: Pool, e: Event): Pool {
    match e
    case Creation(mid, registers) => Create(p, mid, registers)
    case Sending(i, confirmable, first) => Transmit(p, i, confirmable, first)
    case Discarding(i) => Discard(p, i)
    case Answer(mid) => Reply(p, mid)
    case Timer(expired) => Check(p, 0, expired)
  }

  function Run(events: seq<Event>): Pool {
    if events == [] then Initial() else Step(Run(events[..|events| - 1]), events[|events| - 1])
  }

  // ----- What a history may be -----

  function Pow2(k: nat): nat {
    if k == 0 then 1 else 2 * Pow2(k - 1)
  }

  /** The first transmission and `k` retransmissions, each followed by a wait twice as long as the
      one before. */
  function Attempts(k: nat, first: nat): seq<Effect> {
    (if k == 0 then [] else Attempts(k - 1, first)) + [Sent, Waits(first * Pow2(k))]
  }

  /** All attempts and the last transmission, which is not waited for. */
  function AllAttempts(first: nat): seq<Effect> {
    Attempts(MAX_RETRANSMIT - 1, first) + [Sent]
  }

  /** The end of a transaction by a reply or by giving up: it is freed, and the callback is called. */
  function Ending(callback: Owner, replied: bool): seq<Effect> {
    match callback
    case Nobody => [Freed]
    case By(owner) => [Freed, Called(owner, replied)]
  }

  /** The transaction is over and no callback was called: it was discarded, or sent once without
      being confirmable. */
  predicate Silent(h: seq<Effect>) {
    h == [Freed] || h == [Sent, Freed]
  }

  /** The transaction, whose buffer held the given callback, is over: silently; replied to before it
      was sent, or after at most three retransmissions; or given up after exactly four, with its last
      transmission not waited for. */
  ghost predicate Over(h: seq<Effect>, held: Owner) {
    || Silent(h)
    || h == Ending(held, true)
    || (exists k: nat, first: nat :: k < MAX_RETRANSMIT && h == Attempts(k, first) + Ending(held, true))
    || (exists first: nat :: h == AllAttempts(first) + Ending(held, false))
  }

  /** The transaction has been sent and is open. */
  predicate Open(h: seq<Effect>, s: Slot) {
    s.counter < MAX_RETRANSMIT && s.confirmable && s.armed && !s.created
    && |h| >= 2 && h[1].Waits? && h == Attempts(s.counter, h[1].ticks) && s.interval == h[1].ticks * Pow2(s.counter)
  }

  /** The transaction has been created, and nothing has happened to it. */
  predicate Unsent(h: seq<Effect>, s: Slot) {
    h == [] && s.counter == 0 && !s.armed && s.created
  }

  // ----- The invariants -----

  ghost predicate NoDuplicates(list: seq<nat>) {
    forall j, k :: 0 <= j < k < |list| ==> list[j] != list[k]
  }

  /** The buffers in use are exactly the listed ones, each listed once. */
  ghost predicate ListsUsed(p: Pool) {
    |p.slots| == MAX_OPEN && NoDuplicates(p.list) && forall i: nat :: i in p.list <==> i < |p.slots| && p.slots[i].used
  }

  ghost predicate Distinct(slots: seq<Slot>) {
    forall i, j :: 0 <= i < j < |slots| && slots[i].used && slots[j].used ==> slots[i].id != slots[j].id
  }

  /** Callbacks belong to transactions that there have been, and a buffer in use has the one it held. */
  ghost predicate CallbacksKnown(p: Pool) {
    && |p.held| == |p.log|
    && (forall i :: 0 <= i < |p.slots| && p.slots[i].callback.By? ==> p.slots[i].callback.id < |p.log|)
    && (forall i :: 0 <= i < |p.slots| && p.slots[i].used ==>
        p.slots[i].id < |p.log| && p.slots[i].callback == p.held[p.slots[i].id])
  }

  /** What no event disturbs. */
  ghost predicate Listed(p: Pool) {
    ListsUsed(p) && Distinct(p.slots) && CallbacksKnown(p)
  }

  /** The buffer is free, or its transaction is unsent or open. */
  predicate InOrder(p: Pool, s: Slot) {
    if s.used then s.id < |p.log| && (Unsent(p.log[s.id], s) || Open(p.log[s.id], s)) else !s.armed
  }

  ghost predicate IsLive(p: Pool, id: nat) {
    exists i :: 0 <= i < |p.slots| && p.slots[i].used && p.slots[i].id == id
  }

  ghost predicate OthersOver(p: Pool)
    requires |p.held| == |p.log|
  {
    forall id :: 0 <= id < |p.log| && !IsLive(p, id) ==> Over(p.log[id], p.held[id])
  }

  ghost predicate Valid(p: Pool) {
    Listed(p) && (forall i :: 0 <= i < |p.slots| ==> InOrder(p, p.slots[i])) && OthersOver(p)
  }

  /** The invariant, but for the transaction in buffer `i`. */
  ghost predicate ValidBut(p: Pool, i: nat) {
    && Listed(p) && OthersOver(p) && i < |p.slots| && p.slots[i].used
    && forall j :: 0 <= j < |p.slots| && j != i ==> InOrder(p, p.slots[j])
  }

  /** The transaction in buffer `i` is about to be sent for the first time or again. */
  predicate Pending(p: Pool, i: nat)
    requires i < |p.slots| && p.slots[i].id < |p.log|
  {
    var s, h := p.slots[i], p.log[p.slots[i].id];
    if s.counter == 0 then h == []
    else s.counter <= MAX_RETRANSMIT && s.confirmable && |h| >= 2 && h[1].Waits?
         && h == Attempts(s.counter - 1, h[1].ticks) && s.interval == h[1].ticks * Pow2(s.counter - 1)
  }

  // ----- Lists and labels -----

  lemma ConsDistinct(x: nat, list: seq<nat>)
    ensures NoDuplicates([x] + list) <==> x !in list && NoDuplicates(list)
  {
    var l := [x] + list;
    if NoDuplicates(l) {
      forall k | 0 <= k < |list| ensures list[k] != x {
        assert l[0] != l[k + 1];
      }
      forall j, k | 0 <= j < k < |list| ensures list[j] != list[k] {
        assert l[j + 1] != l[k + 1];
      }
    }
    if x !in list && NoDuplicates(list) {
      forall j, k | 0 <= j < k < |l| ensures l[j] != l[k] {
        assert l[k] == list[k - 1] && (j > 0 ==> l[j] == list[j - 1]);
      }
    }
  }

  lemma {:induction false} RemoveFrom(list: seq<nat>, x: nat)
    requires NoDuplicates(list)
    ensures NoDuplicates(Remove(list, x))
    ensures forall y: nat :: y in Remove(list, x) <==> y != x && y in list
    ensures x in list <==> |Remove(list, x)| != |list|
  {
    if list != [] {
      assert list == [list[0]] + list[1..];
      ConsDistinct(list[0], list[1..]);
      RemoveFrom(list[1..], x);
      if list[0] != x {
        ConsDistinct(list[0], Remove(list[1..], x));
      }
    }
  }

  lemma DistinctIds(slots: seq<Slot>, i: nat, j: nat)
    requires Distinct(slots) && i < |slots| && j < |slots| && i != j && slots[i].used && slots[j].used
    ensures slots[i].id != slots[j].id
  {
  }

  /** A transaction that is live in `p` but for the one in buffer `i` is live in `q`. */
  lemma LiveStays(p: Pool, q: Pool, i: nat, id: nat)
    requires |p.slots| == |q.slots| && i < |p.slots|
             && forall j :: 0 <= j < |p.slots| && j != i ==> q.slots[j] == p.slots[j]
    requires IsLive(p, id)
    ensures id == p.slots[i].id || IsLive(q, id)
  {
    var j :| 0 <= j < |p.slots| && p.slots[j].used && p.slots[j].id == id;
    assert j != i ==> q.slots[j].used && q.slots[j].id == id;
  }

  lemma AppendDistinct(list: seq<nat>, x: nat)
    requires NoDuplicates(list) && x !in list
    ensures NoDuplicates(list + [x]) && forall y: nat :: y in list + [x] <==> y in list || y == x
  {
  }

  // ----- What every event keeps -----

  /** A change of one buffer that keeps its transaction. */
  lemma SlotKeepsListed(p: Pool, i: nat, s: Slot, log: seq<seq<Effect>>)
    requires Listed(p) && i < |p.slots| && p.slots[i].used && |log| == |p.log|
    requires s.used && s.id == p.slots[i].id && s.callback == p.slots[i].callback
    ensures Listed(p.(slots := p.slots[i := s], log := log))
  {
  }

  /** The end of a transaction. */
  lemma FreeKeepsListed(p: Pool, i: nat, s: Slot, log: seq<seq<Effect>>)
    requires Listed(p) && i < |p.slots| && p.slots[i].used && |log| == |p.log|
    requires !s.used && s.callback == p.slots[i].callback
    ensures Listed(p.(slots := p.slots[i := s], list := Remove(p.list, i), log := log))
    ensures Remove(p.list, i) != p.list
  {
    RemoveFrom(p.list, i);
  }

  /** A new transaction. */
  lemma NewKeepsListed(p: Pool, i: nat, mid: nat)
    requires Listed(p) && i < |p.slots| && !p.slots[i].used
    ensures Listed(New(p, i, mid))
  {
    RemoveFrom(p.list, i);
    AppendDistinct(Remove(p.list, i), i);
  }

  lemma RegisterKeepsListed(p: Pool, i: nat)
    requires Listed(p) && i < |p.slots| && p.slots[i].used
    ensures Listed(Register(p, i))
  {
    forall j | 0 <= j < |p.slots| && j != i && p.slots[j].used ensures p.slots[j].id != p.slots[i].id {
      DistinctIds(p.slots, i, j);
    }
  }

  /** Sending lists or frees the transaction, and touches no other. */
  lemma SendKeepsListed(p: Pool, i: nat, first: nat)
    requires Listed(p) && i < |p.slots| && p.slots[i].used
    ensures var q := Send(p, i, first);
            Listed(q) && q.held == p.held && |q.log| == |p.log|
            && (q.slots[i].used ==> q.list == p.list) && (!q.slots[i].used ==> q.list == Remove(p.list, i) != p.list)
            && (forall j :: 0 <= j < |p.slots| && j != i ==> q.slots[j] == p.slots[j])
            && (forall id :: 0 <= id < |p.log| && id != p.slots[i].id ==> q.log[id] == p.log[id])
  {
    var s, q := p.slots[i], Send(p, i, first);
    if q.slots[i].used {
      SlotKeepsListed(p, i, q.slots[i], q.log);
    } else {
      FreeKeepsListed(p, i, s.(used := false, armed := false), q.log);
    }
  }

  lemma ExpireKeepsListed(p: Pool, i: nat)
    requires Listed(p) && i < |p.slots| && p.slots[i].used
    ensures Listed(Expire(p, i)) && |Expire(p, i).log| == |p.log|
    ensures Expire(p, i).slots[i].used <==> Expire(p, i).list == p.list
  {
    SlotKeepsListed(p, i, Ticked(p, i).slots[i], p.log);
    SendKeepsListed(Ticked(p, i), i, 0);
  }

  lemma ListedIsUsed(p: Pool, j: nat)
    requires ListsUsed(p) && j < |p.list|
    ensures p.list[j] < |p.slots| && p.slots[p.list[j]].used
  {
    assert p.list[j] in p.list;
  }

  lemma {:induction false} CheckKeepsListed(p: Pool, j: nat, expired: set<nat>, r: Pool)
    requires Listed(p) && r == Check(p, j, expired)
    ensures Listed(r)
    decreases |p.list| - j
  {
    if j < |p.list| {
      ListedIsUsed(p, j);
      if !IsExpired(p, p.list[j], expired) {
        CheckKeepsListed(p, j + 1, expired, r);
      } else {
        var q := Expire(p, p.list[j]);
        ExpireKeepsListed(p, p.list[j]);
        if q.list == p.list {
          CheckKeepsListed(q, j + 1, expired, r);
        }
      }
    }
  }

  lemma ReplyKeepsListed(p: Pool, mid: nat)
    requires Listed(p)
    ensures Listed(Reply(p, mid))
  {
    var j := FindMid(p, mid, 0);
    if j < |p.list| {
      var i := p.list[j];
      ListedIsUsed(p, j);
      FreeKeepsListed(p, i, p.slots[i].(used := false, armed := false), Reply(p, mid).log);
    }
  }

  lemma StepKeepsListed(p: Pool, e: Event)
    requires Listed(p)
    ensures Listed(Step(p, e))
  {
    match e
    case Creation(mid, registers) =>
      var i := FreeSlot(p.slots, 0);
      if i < |p.slots| {
        NewKeepsListed(p, i, mid);
        RegisterKeepsListed(New(p, i, mid), i);
      }
    case Sending(i, confirmable, first) =>
      if AtOwner(p, i) {
        SlotKeepsListed(p, i, Written(p, i, confirmable).slots[i], p.log);
        SendKeepsListed(Written(p, i, confirmable), i, first);
      }
    case Discarding(i) =>
      if AtOwner(p, i) {
        FreeKeepsListed(p, i, p.slots[i].(used := false, armed := false), Discard(p, i).log);
      }
    case Answer(mid) => ReplyKeepsListed(p, mid);
    case Timer(expired) => CheckKeepsListed(p, 0, expired, Check(p, 0, expired));
  }

  /** In every run, whatever the interleaving: the buffers in use are exactly the listed ones, each
      listed once, with different transactions. */
  lemma {:induction false} RunIsListed(events: seq<Event>)
    ensures Listed(Run(events))
    decreases |events|
  {
    if events != [] {
      RunIsListed(events[..|events| - 1]);
      StepKeepsListed(Run(events[..|events| - 1]), events[|events| - 1]);
    }
  }
}
