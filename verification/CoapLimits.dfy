/** Which messages have a wrong option count, in terms of the options that are set. */
module CoapLimits {
  import opened CoapOption
  import opened CoapText
  import opened CoapMessage
  import opened CoapRoundTrip

  /** The set option before `number`, or 0 if there is none. */
  predicate Precedes(options: Options, current: nat, number: nat) {
    (current == 0 || current in options) && (current < number || current == 0)
    && forall m :: m in options && m < number ==> m <= current
  }

  /** Option `n` is 15 or more and follows the set option before it, or the start of the message,
      at a distance of 14 or 15. */
  ghost predicate LongStepAt(options: Options, n: nat) {
    n in options && n >= 15 && (Precedes(options, n - 14, n) || Precedes(options, n - 15, n))
  }

  lemma {:induction false} StepsThrough(items: seq<Item>, rest: seq<Item>, number: nat, current: nat)
    requires items != [] && forall k :: 0 <= k < |items| ==> items[k].number == number
    ensures HasLongStep(items + rest, current) <==>
            (number >= 15 && 14 <= number - current <= 15) || HasLongStep(rest, number)
    decreases |items|
  {
    assert (items + rest)[0] == items[0];
    assert (items + rest)[1..] == items[1..] + rest;
    if |items| == 1 {
      assert items[1..] + rest == rest;
    } else {
      StepsThrough(items[1..], rest, number, number);
    }
  }

  lemma OnePredecessor(options: Options, a: nat, b: nat, number: nat)
    requires 0 !in options && Precedes(options, a, number) && Precedes(options, b, number)
    ensures a == b
  {
  }

  ghost predicate SomeLongStep(options: Options, number: nat) {
    exists n: nat :: n >= number && LongStepAt(options, n)
  }

  lemma NumbersInRange(p: Packet)
    requires WellTyped(p)
    ensures forall n :: n in p.options ==> 0 < n <= LAST_NUMBER
  {
    forall n | n in p.options ensures 0 < n <= LAST_NUMBER {
      assert Typed(n, p.options[n]);
    }
  }

  lemma StepHere(options: Options, number: nat, current: nat)
    requires 0 !in options && number in options && Precedes(options, current, number)
    ensures LongStepAt(options, number) <==> number >= 15 && 14 <= number - current <= 15
  {
    if LongStepAt(options, number) {
      if Precedes(options, number - 14, number) {
        OnePredecessor(options, current, number - 14, number);
      } else {
        OnePredecessor(options, current, number - 15, number);
      }
    }
  }

  lemma SomeHere(options: Options, number: nat)
    ensures SomeLongStep(options, number) <==> LongStepAt(options, number) || SomeLongStep(options, number + 1)
  {
  }

  lemma StepPresent(p: Packet, number: nat, current: nat)
    requires WellTyped(p) && number in p.options && number <= LAST_NUMBER
    ensures HasLongStep(ItemsFrom(p, number), current)
            <==> (number >= 15 && 14 <= number - current <= 15) || HasLongStep(ItemsFrom(p, number + 1), number)
  {
    var items, rest := ItemsOf(number, p.options[number]), ItemsFrom(p, number + 1);
    assert ItemsFrom(p, number) == items + rest;
    ItemsAreOf(number, p.options[number]);
    StepsThrough(items, rest, number, current);
  }

  lemma PrecedesNext(options: Options, current: nat, number: nat)
    requires Precedes(options, current, number)
    ensures Precedes(options, if number in options then number else current, number + 1)
  {
  }

  lemma SomeFrom(options: Options, number: nat, current: nat)
    requires 0 !in options && Precedes(options, current, number)
    ensures SomeLongStep(options, number)
            <==>
            (number in options && number >= 15 && 14 <= number - current <= 15) || SomeLongStep(options, number + 1)
  {
    SomeHere(options, number);
    if number in options {
      StepHere(options, number, current);
    }
  }

  lemma NoneBeyond(options: Options, number: nat)
    requires number > LAST_NUMBER && forall n :: n in options ==> 0 < n <= LAST_NUMBER
    ensures !SomeLongStep(options, number)
  {
  }

  lemma StepAbsent(p: Packet, number: nat)
    requires WellTyped(p) && number !in p.options && number <= LAST_NUMBER
    ensures ItemsFrom(p, number) == ItemsFrom(p, number + 1)
  {
  }

  lemma {:induction false} StepsFrom(p: Packet, number: nat, current: nat, long: bool)
    requires WellTyped(p) && 0 !in p.options && Precedes(p.options, current, number)
    requires long == HasLongStep(ItemsFrom(p, number), current)
    ensures long <==> SomeLongStep(p.options, number)
    decreases if number <= LAST_NUMBER then LAST_NUMBER + 1 - number else 0
  {
    if number > LAST_NUMBER {
      NumbersInRange(p);
      NoneBeyond(p.options, number);
    } else {
      var here := if number in p.options then number else current;
      PrecedesNext(p.options, current, number);
      SomeFrom(p.options, number, current);
      if number in p.options {
        StepPresent(p, number, current);
      } else {
        StepAbsent(p, number);
      }
      StepsFrom(p, number + 1, here, HasLongStep(ItemsFrom(p, number + 1), here));
    }
  }

  /** The option count of a message is one too high exactly if some set option from Uri-Query on
      follows the one before it, or the start, at a distance of 14 or 15. */
  lemma WrongCounts(p: Packet)
    requires WellTyped(p)
    ensures Claimed(ItemsIn(p), 0) == Emitted(ItemsIn(p), 0) + if SomeLongStep(p.options, 0) then 1 else 0
  {
    NumbersInRange(p);
    StepsFrom(p, 0, 0, HasLongStep(ItemsIn(p), 0));
    CountIsRight(ItemsIn(p), 0);
  }

  /** A request with nothing but a query is one of them: its payload is not found. */
  lemma LoneQuery(code: byte, mid: nat, query: text, payload: seq<byte>, after: seq<byte>)
    requires mid < 0x1_0000 && |payload| <= MAX_CHUNK
    ensures var p := Packet(0, code, mid, map[15 := Text(query)], payload);
            WellTyped(p) && (Serialize(p).Written? ==>
              var m := Parse(Serialize(p).bytes + after, |Serialize(p).bytes|);
              !(m.Message? && m.payloadAt == Serialize(p).payloadAt))
  {
    var p := Packet(0, code, mid, map[15 := Text(query)], payload);
    assert LongStepAt(p.options, 15) by {
      assert Precedes(p.options, 0, 15);
    }
    WrongCounts(p);
    CountIsRight(ItemsIn(p), 0);
    if Serialize(p).Written? {
      PayloadIsFound(p, after);
    }
  }
}
