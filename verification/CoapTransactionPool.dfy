/** The retransmission layer as an object: the pool of buffers and the list of open transactions,
    with the histories kept beside them. The methods carry out what CoapTransactions defines. */
module CoapTransactionPool {
  import opened CoapTransactions
  import opened CoapHistories

  class TransactionPool {
    const slots: array<Slot>
    var list: seq<nat>
    ghost var log: seq<seq<Effect>>
    ghost var held: seq<Owner>
    /** How many transactions there have been; it labels the next one. */
    var created: nat

    ghost predicate Shape()
      reads this
    {
      slots.Length == MAX_OPEN && created == |log|
    }

    ghost function View(): Pool
      reads this, slots
    {
      Pool(slots[..], list, log, held)
    }

    constructor ()
      ensures Shape() && View() == Initial() && Valid(View())
    {
      slots := new Slot[MAX_OPEN](_ => EMPTY_SLOT);
      list, log, held, created := [], [], [], 0;
      new;
      assert slots[..] == Initial().slots;
      InitialIsValid();
    }

    /** coap_new_transaction: the buffer, or -1. */
    method NewTransaction(mid: nat) returns (i: int)
      requires Shape()
      modifies this, slots
      ensures Shape()
      ensures var k := FreeSlot(old(slots[..]), 0);
              if k == MAX_OPEN then i == -1 && View() == old(View()) else i == k && View() == New(old(View()), k, mid)
    {
      i := 0;
      while i < slots.Length && slots[i].used
        invariant 0 <= i <= slots.Length && FreeSlot(slots[..], 0) == FreeSlot(slots[..], i)
      {
        i := i + 1;
      }
      if i == slots.Length {
        return -1;
      }
      held := held + [slots[i].callback];
      slots[i] := slots[i].(used := true, mid := mid, counter := 0, id := created, created := true);
      log, created := log + [[]], created + 1;
      RemoveListed(i);
      list := list + [i];
    }

    /** What an owner does to its new transaction: it sets its callback. */
    method SetCallback(i: nat)
      requires Shape() && i < MAX_OPEN
      modifies this, slots
      ensures Shape() && View() == Register(old(View()), i)
    {
      var id := slots[i].id;
      slots[i] := slots[i].(callback := By(id));
      held := if id < |held| then held[id := By(id)] else held;
    }

    /** list_remove. */
    method RemoveListed(i: nat)
      modifies `list
      ensures list == Remove(old(list), i)
    {
      var k := 0;
      while k < |list| && list[k] != i
        invariant 0 <= k <= |list| && Remove(list, i) == list[..k] + Remove(list[k..], i)
      {
        assert list[k..][1..] == list[k + 1..];
        assert list[..k] + ([list[k]] + Remove(list[k + 1..], i)) == list[..k + 1] + Remove(list[k + 1..], i);
        k := k + 1;
      }
      if k < |list| {
        assert list[k..][1..] == list[k + 1..];
        list := list[..k] + list[k + 1..];
      }
    }

    /** coap_clear_transaction. */
    method ClearTransaction(i: nat)
      requires Shape() && i < MAX_OPEN
      modifies this, slots
      ensures Shape() && View() == Clear(old(View()), i)
    {
      slots[i] := slots[i].(armed := false);
      RemoveListed(i);
      slots[i] := slots[i].(used := false);
      log := Note(log, slots[i].id, Freed);
    }

    /** coap_send_transaction; `first` is the random first interval. */
    method SendTransaction(i: nat, first: nat)
      requires Shape() && i < MAX_OPEN
      modifies this, slots
      ensures Shape() && View() == Send(old(View()), i, first)
    {
      var s := slots[i];
      log := Note(log, s.id, Sent);
      if s.confirmable {
        if s.counter < MAX_RETRANSMIT {
          var interval := if s.counter == 0 then first else s.interval * 2;
          slots[i] := s.(interval := interval, armed := true);
          log := Note(log, s.id, Waits(interval));
        } else {
          var callback := s.callback;
          ClearTransaction(i);
          if callback.By? {
            log := Note(log, s.id, Called(callback.id, false));
          }
        }
      } else {
        ClearTransaction(i);
      }
    }

    /** coap_get_transaction_by_mid: the buffer, or -1. */
    method GetByMid(mid: nat) returns (i: int)
      requires Shape() && forall k :: 0 <= k < |list| ==> list[k] < MAX_OPEN
      ensures var j := FindMid(View(), mid, 0); i == if j == |list| then -1 else list[j]
    {
      var j := 0;
      while j < |list|
        invariant 0 <= j <= |list| && FindMid(View(), mid, 0) == FindMid(View(), mid, j)
      {
        if slots[list[j]].mid == mid {
          return list[j];
        }
        j := j + 1;
      }
      i := -1;
    }

    /** The handling of a reply in coap_receive. */
    method HandleReply(mid: nat)
      requires Shape() && Valid(View())
      modifies this, slots
      ensures Shape() && View() == Reply(old(View()), mid) && Valid(View())
    {
      ReplyKeeps(View(), mid);
      ListedInPool();
      var i := GetByMid(mid);
      if i >= 0 {
        var callback, id := slots[i].callback, slots[i].id;
        ClearTransaction(i);
        if callback.By? {
          log := Note(log, id, Called(callback.id, true));
        }
      }
    }

    lemma ListedInPool()
      requires Shape() && ListsUsed(View())
      ensures forall k :: 0 <= k < |list| ==> list[k] < MAX_OPEN
    {
      forall k | 0 <= k < |list| ensures list[k] < MAX_OPEN {
        ListedIsUsed(View(), k);
      }
    }

    /** What the check does to a transaction whose timer has expired. */
    method Retransmit(i: nat)
      requires Shape() && Listed(View()) && i < MAX_OPEN && slots[i].used
      modifies this, slots
      ensures Shape() && View() == Expire(old(View()), i) && Listed(View())
    {
      ExpireKeepsListed(View(), i);
      slots[i] := slots[i].(counter := slots[i].counter + 1);
      SendTransaction(i, 0);
    }

    /** coap_check_transactions; `expired` are the buffers whose running timers have expired. */
    method CheckTransactions(expired: set<nat>)
      requires Shape() && Listed(View())
      modifies this, slots
      ensures Shape() && View() == Check(old(View()), 0, expired) && Listed(View())
      ensures old(Valid(View())) ==> (Valid(View()) <==> old(Undisturbed(View(), Timer(expired))))
    {
      ghost var start, goal := View(), Check(View(), 0, expired);
      if Valid(start) {
        CheckKeeps(start, 0, expired, goal);
      }
      var j := 0;
      while j < |list|
        invariant 0 <= j <= |list| && Shape() && Listed(View()) && goal == Check(View(), j, expired)
        decreases |list| - j
      {
        ListedIsUsed(View(), j);
        var i := list[j];
        if i in expired || !slots[i].armed {
          var before := list;
          Retransmit(i);
          if list != before {
            break;
          }
        }
        j := j + 1;
      }
    }
  }
}
