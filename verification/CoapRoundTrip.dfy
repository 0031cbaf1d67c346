/** What parsing recovers of a message that was serialised. */
module CoapRoundTrip {
  import opened CoapOption
  import opened CoapText
  import opened CoapMessage

  function Then(a: Applied, rest: seq<Item>): Applied {
    match a
    case Refused(_) => a
    case Fine(o) => ApplyAll(o, rest)
  }

  lemma {:induction false} ApplyBoth(options: Options, first: seq<Item>, second: seq<Item>)
    ensures ApplyAll(options, first + second) == Then(ApplyAll(options, first), second)
    decreases |first|
  {
    if first == [] {
      assert first + second == second;
    } else {
      assert (first + second)[1..] == first[1..] + second;
      var step := Apply(options, first[0].number, first[0].value);
      if step.Fine? {
        ApplyBoth(step.options, first[1..], second);
      }
    }
  }

  // ----- What the options of one field are read back as -----

  /** The value a field is read back as. */
  function Reread(number: nat, v: Value): Value {
    match v
    case Text(t) =>
      if KindOf(number).KMulti? then Text(MergeAll([], Split(t, KindOf(number).separator), KindOf(number).separator))
      else v
    case Block(num, more, size) => Block(num, more, BlockSize(size))
    case _ => v
  }

  /** The fields that are read back as they are. */
  predicate Survives(number: nat, v: Value) {
    match v
    case Text(t) => KindOf(number).KMulti? ==> Canonical(t, KindOf(number).separator)
    case Block(num, more, size) => size in {16, 32, 64, 128, 256, 512, 1024, 2048}
    case _ => true
  }

  lemma RereadIsSame(number: nat, v: Value)
    requires Typed(number, v)
    ensures Reread(number, v) == v <==> Survives(number, v)
  {
    match v
    case Text(t) =>
      if KindOf(number).KMulti? {
        MergeUndoesSplit(t, KindOf(number).separator);
      }
    case Block(_, _, size) => SizesKept(size);
    case _ =>
  }

  lemma {:induction false} PartsMerge(options: Options, number: nat, merged: text, parts: seq<text>)
    requires KindOf(number).KMulti? && number in options && options[number] == Text(merged)
    ensures ApplyAll(options, EachPart(number, parts))
            == Fine(options[number := Text(MergeAll(merged, parts, KindOf(number).separator))])
    decreases |parts|
  {
    if parts == [] {
      assert options[number := Text(merged)] == options;
    } else {
      var more := Merge(merged, parts[0], KindOf(number).separator);
      PartsMerge(options[number := Text(more)], number, more, parts[1..]);
      assert EachPart(number, parts)[1..] == EachPart(number, parts[1..]);
    }
  }

  lemma TextReread(options: Options, number: nat, t: text)
    requires KindOf(number).KMulti? && number !in options
    ensures ApplyAll(options, EachPart(number, Split(t, KindOf(number).separator)))
            == Fine(options[number := Reread(number, Text(t))])
  {
    var separator := KindOf(number).separator;
    var parts := Split(t, separator);
    SplitIsNotEmpty(t, separator, 0, 0);
    var first := Merge([], parts[0], separator);
    PartsMerge(options[number := Text(first)], number, first, parts[1..]);
    assert EachPart(number, parts)[1..] == EachPart(number, parts[1..]);
    assert options[number := Text(first)][number := Reread(number, Text(t))]
           == options[number := Reread(number, Text(t))];
  }

  lemma OneReread(options: Options, number: nat, value: seq<byte>)
    ensures ApplyAll(options, [Item(number, value)]) == Apply(options, number, value)
  {
    var items := [Item(number, value)];
    assert items[1..] == [];
    var step := Apply(options, number, value);
    if step.Fine? {
      assert ApplyAll(step.options, []) == Fine(step.options);
    }
  }

  lemma ApplyNum(options: Options, number: nat, value: seq<byte>, ns: seq<nat>, x: nat)
    requires KindOf(number) == KNums && NumsIn(options, number) == ns && |ns| < MAX_ACCEPT
             && IntOf(value) == x < 0x1_0000
    ensures Apply(options, number, value) == Fine(options[number := Nums(ns + [x])])
  {
  }

  lemma AcceptOne(options: Options, number: nat, ns: seq<nat>, x: nat)
    requires KindOf(number) == KNums && NumsIn(options, number) == ns && |ns| < MAX_ACCEPT && x < 0x1_0000
    ensures ApplyAll(options, [Item(number, IntBytes(x))]) == Fine(options[number := Nums(ns + [x])])
  {
    var value := IntBytes(x);
    IntRoundTrip(x);
    ApplyNum(options, number, value, ns, x);
    OneReread(options, number, value);
  }

  lemma TwoNums(number: nat, x: nat, y: nat)
    ensures EachNum(number, [x]) == [Item(number, IntBytes(x))]
    ensures EachNum(number, [x, y]) == [Item(number, IntBytes(x))] + [Item(number, IntBytes(y))]
  {
    assert [x][1..] == [] && [x, y][1..] == [y];
    assert EachNum(number, [x, y]) == [Item(number, IntBytes(x))] + EachNum(number, [y]);
    assert [y][1..] == [];
  }

  lemma NumsReread(options: Options, number: nat, ns: seq<nat>)
    requires KindOf(number).KNums? && number !in options && Typed(number, Nums(ns))
    ensures ApplyAll(options, EachNum(number, ns)) == Fine(options[number := Nums(ns)])
  {
    var x, o := ns[0], options[number := Nums([ns[0]])];
    assert [] + [x] == [x];
    AcceptOne(options, number, [], x);
    if |ns| == 1 {
      assert ns == [x];
      TwoNums(number, x, x);
    } else {
      var y := ns[1];
      assert ns == [x, y] == [x] + [y];
      TwoNums(number, x, y);
      ApplyBoth(options, [Item(number, IntBytes(x))], [Item(number, IntBytes(y))]);
      AcceptOne(o, number, [x], y);
      assert o[number := Nums(ns)] == options[number := Nums(ns)];
    }
  }

  lemma NumReread(options: Options, number: nat, n: nat)
    requires Typed(number, Num(n))
    ensures ApplyAll(options, [Item(number, IntBytes(n))]) == Fine(options[number := Num(n)])
  {
    IntRoundTrip(n);
    OneReread(options, number, IntBytes(n));
  }

  lemma BlockFieldReread(options: Options, number: nat, num: nat, more: bool, size: nat)
    requires Typed(number, Block(num, more, size))
    ensures ApplyAll(options, [Item(number, IntBytes(BlockInt(num, more, size)))])
            == Fine(options[number := Block(num, more, BlockSize(size))])
  {
    var r := BlockInt(num, more, size);
    BlockReread(num, more, size);
    IntRoundTrip(r);
    OneReread(options, number, IntBytes(r));
  }

  /** The options written for a field that is not there yet are read back as one field. */
  lemma FieldReread(options: Options, number: nat, v: Value)
    requires Typed(number, v) && number !in options
    ensures ApplyAll(options, ItemsOf(number, v)) == Fine(options[number := Reread(number, v)])
  {
    match v
    case Num(n) => NumReread(options, number, n);
    case Opaque(b) => OneReread(options, number, b);
    case Text(t) =>
      if KindOf(number).KMulti? {
        TextReread(options, number, t);
      } else {
        OneReread(options, number, t);
      }
    case Nums(ns) => NumsReread(options, number, ns);
    case Block(num, more, size) => BlockFieldReread(options, number, num, more, size);
    case Present => OneReread(options, number, IntBytes(0));
  }

  /** The fields of a packet as they are read back. */
  function RereadAll(options: Options): Options {
    map n | n in options :: Reread(n, options[n])
  }

  /** The fields with numbers below `number`, as they are read back. */
  function RereadBelow(options: Options, number: nat): Options {
    map n | n in options && n < number :: Reread(n, options[n])
  }

  lemma RereadOneMore(options: Options, number: nat)
    ensures number !in RereadBelow(options, number)
    ensures number in options ==>
              RereadBelow(options, number)[number := Reread(number, options[number])]
                  == RereadBelow(options, number + 1)
    ensures number !in options ==> RereadBelow(options, number) == RereadBelow(options, number + 1)
  {
  }

  lemma AllBelow(p: Packet, number: nat)
    requires WellTyped(p) && number > LAST_NUMBER
    ensures RereadBelow(p.options, number) == RereadAll(p.options)
  {
    forall n | n in p.options ensures n < number {
      assert Typed(n, p.options[n]);
    }
  }

  lemma FieldRereadFirst(p: Packet, number: nat)
    requires WellTyped(p) && number <= LAST_NUMBER
    ensures ApplyAll(RereadBelow(p.options, number), ItemsFrom(p, number))
            == ApplyAll(RereadBelow(p.options, number + 1), ItemsFrom(p, number + 1))
  {
    RereadOneMore(p.options, number);
    var o, rest := RereadBelow(p.options, number), ItemsFrom(p, number + 1);
    if number in p.options {
      var v := p.options[number];
      FieldReread(o, number, v);
      ApplyBoth(o, ItemsOf(number, v), rest);
    } else {
      assert [] + rest == rest;
    }
  }

  lemma {:induction false} FieldsReread(p: Packet, number: nat)
    requires WellTyped(p)
    ensures ApplyAll(RereadBelow(p.options, number), ItemsFrom(p, number)) == Fine(RereadAll(p.options))
    decreases if number <= LAST_NUMBER then LAST_NUMBER + 1 - number else 0
  {
    if number > LAST_NUMBER {
      AllBelow(p, number);
    } else {
      FieldRereadFirst(p, number);
      FieldsReread(p, number + 1);
    }
  }

  // ----- Parsing what was written -----

  lemma ApplyHead(options: Options, item: Item, rest: seq<Item>)
    ensures ApplyAll(options, [item] + rest) == Then(Apply(options, item.number, item.value), rest)
  {
    assert ([item] + rest)[1..] == rest;
  }

  lemma SkipPost(options: Options, item: Item, current: nat, rest: seq<Item>)
    ensures ApplyAll(options, Fenced(item, current) + rest) == ApplyAll(options, [item] + rest)
  {
    if item.number - current > 15 {
      assert Fenced(item, current) + rest == [Item(FENCE_POST, [])] + ([item] + rest);
      ApplyHead(options, Item(FENCE_POST, []), [item] + rest);
    }
  }

  /** Fence posts have no effect. */
  lemma {:induction false} PostsAreSkipped(options: Options, items: seq<Item>, current: nat)
    requires Ascends(items, current)
    ensures ApplyAll(options, WithPosts(items, current)) == ApplyAll(options, items)
    decreases |items|
  {
    if items != [] {
      var item, rest := items[0], items[1..];
      SkipPost(options, item, current, WithPosts(rest, item.number));
      ApplyHead(options, item, WithPosts(rest, item.number));
      ApplyHead(options, item, rest);
      assert items == [item] + rest;
      var step := Apply(options, item.number, item.value);
      if step.Fine? {
        PostsAreSkipped(step.options, rest, item.number);
      }
    }
  }

  // ----- Whole messages -----

  /** The number of options fits its four bits and is right. */
  ghost predicate CountFits(p: Packet)
    requires WellTyped(p)
  {
    Claimed(ItemsIn(p), 0) <= 15 && !HasLongStep(ItemsIn(p), 0)
  }

  lemma HeaderBytes(p: Packet, rest: seq<byte>, count: nat)
    requires p.kind < 4 && p.mid < 0x1_0000
    ensures var b := FixedHeader(p, count) + rest;
            b[0] / 64 == 1 && b[0] % 16 == count % 16 && b[0] / 16 % 4 == p.kind && b[1] == p.code
            && b[2] as int * 256 + b[3] as int == p.mid
  {
  }

  lemma SliceAfter(a: seq<byte>, part: seq<byte>, rest: seq<byte>)
    ensures Holds(a + part + rest, |a|, part)
  {
  }

  lemma Concatenated(head: seq<byte>, options: seq<byte>, payload: seq<byte>, after: seq<byte>)
    ensures var b := (head + options + payload) + after;
            b == head + (options + (payload + after))
            && Holds(b, |head|, options) && Holds(b, |head| + |options|, payload)
  {
    var b := (head + options + payload) + after;
    assert b == head + options + (payload + after);
    SliceAfter(head, options, payload + after);
    assert b == (head + options) + payload + after;
    SliceAfter(head + options, payload, after);
  }

  /** Where the parts of a serialised message are. */
  lemma Layout(p: Packet, after: seq<byte>)
    requires WellTyped(p) && Serialize(p).Written?
    ensures var w, items := Serialize(p), ItemsIn(p);
            var b := w.bytes + after;
            w.payloadAt == HEADER_LENGTH + |Encode(items, 0)| <= MAX_HEADER_SIZE
                && |w.bytes| == w.payloadAt + |p.payload|
            && Holds(b, HEADER_LENGTH, Encode(items, 0)) && Holds(b, w.payloadAt, p.payload)
            && b[0] / 64 == 1 && b[0] % 16 == Claimed(items, 0) % 16 && b[0] / 16 % 4 == p.kind && b[1] == p.code
            && b[2] as int * 256 + b[3] as int == p.mid
  {
    var items := ItemsIn(p);
    var options := Encode(items, 0);
    Concatenated(FixedHeader(p, Claimed(items, 0)), options, p.payload, after);
    HeaderBytes(p, options + (p.payload + after), Claimed(items, 0));
  }

  /** Reading the options of a serialised message with the right count. */
  lemma ExactScan(p: Packet, after: seq<byte>)
    requires WellTyped(p) && Serialize(p).Written?
    ensures var w, items := Serialize(p), ItemsIn(p);
            ScanOptions(w.bytes + after, HEADER_LENGTH, 0, Emitted(items, 0))
                == Scan(WithPosts(items, 0), w.payloadAt, true)
  {
    Layout(p, after);
    ScanOfItems(Serialize(p).bytes + after, HEADER_LENGTH, ItemsIn(p), Serialize(p).payloadAt);
  }

  lemma ScanOfItems(b: seq<byte>, at: nat, items: seq<Item>, end: nat)
    requires Ascends(items, 0) && |Encode(items, 0)| <= MAX_LENGTH && Holds(b, at, Encode(items, 0))
             && end == at + |Encode(items, 0)|
    ensures ScanOptions(b, at, 0, Emitted(items, 0)) == Scan(WithPosts(items, 0), end, true)
  {
    var scan := (at: nat, current: nat, count: nat) => ScanOptions(b, at, current, count);
    ValuesFit(items, 0);
    ScanOptionsSteps(b);
    ScanItems(b, scan, at, 0, items, end, 0);
    assert scan(end, LastNumber(items, 0), 0) == Scan([], end, true);
    assert WithPosts(items, 0) + [] == WithPosts(items, 0);
  }

  lemma FieldsApplied(p: Packet)
    requires WellTyped(p)
    ensures ApplyAll(map[], WithPosts(ItemsIn(p), 0)) == Fine(RereadAll(p.options))
  {
    PostsAreSkipped(map[], ItemsIn(p), 0);
    FieldsReread(p, 0);
    assert RereadBelow(p.options, 0) == map[];
  }

  lemma FinishIs(p: Packet, after: seq<byte>, scan: Scan)
    requires WellTyped(p) && Serialize(p).Written? && scan.next == Serialize(p).payloadAt && scan.complete
    ensures var w := Serialize(p);
            Finish(w.bytes + after, |w.bytes|, scan, Fine(RereadAll(p.options)))
            == Message(p.(options := RereadAll(p.options)), w.payloadAt)
  {
    Layout(p, after);
  }

  /** A message with the right option count is read back: its type, code, message id and payload as
      they were, its payload where the header ends, and its fields as Reread says. */
  lemma MessageReread(p: Packet, after: seq<byte>)
    requires WellTyped(p) && Serialize(p).Written? && CountFits(p)
    ensures var w := Serialize(p);
            Parse(w.bytes + after, |w.bytes|) == Message(p.(options := RereadAll(p.options)), w.payloadAt)
  {
    var w, items := Serialize(p), ItemsIn(p);
    var b := w.bytes + after;
    assert b[0] % 16 == Emitted(items, 0) && b[0] / 64 == 1 && |b| >= HEADER_LENGTH by {
      Layout(p, after);
      CountIsRight(items, 0);
    }
    var scan := ScanOptions(b, HEADER_LENGTH, 0, b[0] % 16);
    ExactScan(p, after);
    FieldsApplied(p);
    FinishIs(p, after, scan);
    assert Parse(b, |w.bytes|) == Finish(b, |w.bytes|, scan, ApplyAll(map[], scan.items));
  }

  /** Scanning a wrong number of options ends elsewhere. */
  lemma WrongCountEndsElsewhere(b: seq<byte>, at: nat, right: nat, wrong: nat)
    requires wrong != right && ScanOptions(b, at, 0, right).complete
    ensures ScanOptions(b, at, 0, wrong).complete ==>
            ScanOptions(b, at, 0, wrong).next != ScanOptions(b, at, 0, right).next
  {
    if wrong < right {
      MoreTakeMore(b, at, 0, wrong, right - wrong);
    } else {
      MoreTakeMore(b, at, 0, right, wrong - right);
    }
  }

  /** The payload is found where the header ends exactly if the option count fits and is right. */
  lemma PayloadIsFound(p: Packet, after: seq<byte>)
    requires WellTyped(p) && Serialize(p).Written?
    ensures var w := Serialize(p);
            var m := Parse(w.bytes + after, |w.bytes|);
            (m.Message? && m.payloadAt == w.payloadAt) <==> CountFits(p)
  {
    var w, items := Serialize(p), ItemsIn(p);
    var b := w.bytes + after;
    if CountFits(p) {
      MessageReread(p, after);
    } else {
      assert b[0] % 16 != Emitted(items, 0) && |b| >= HEADER_LENGTH by {
        Layout(p, after);
        CountIsRight(items, 0);
      }
      var scan := ScanOptions(b, HEADER_LENGTH, 0, b[0] % 16);
      assert scan.complete ==> scan.next != w.payloadAt by {
        ExactScan(p, after);
        WrongCountEndsElsewhere(b, HEADER_LENGTH, Emitted(items, 0), b[0] % 16);
      }
    }
  }

  /** The message round trip: parsing recovers the packet, and its payload from where it was
      written, exactly if every field survives and the option count fits and is right. */
  lemma RoundTrip(p: Packet, after: seq<byte>)
    requires WellTyped(p) && Serialize(p).Written?
    ensures var w := Serialize(p);
            Parse(w.bytes + after, |w.bytes|) == Message(p, w.payloadAt)
            <==> CountFits(p) && forall n :: n in p.options ==> Survives(n, p.options[n])
  {
    PayloadIsFound(p, after);
    forall n | n in p.options ensures Reread(n, p.options[n]) == p.options[n] <==> Survives(n, p.options[n]) {
      RereadIsSame(n, p.options[n]);
    }
    if CountFits(p) {
      MessageReread(p, after);
      if forall n :: n in p.options ==> Survives(n, p.options[n]) {
        assert RereadAll(p.options) == p.options;
      } else {
        var n :| n in p.options && !Survives(n, p.options[n]);
        assert RereadAll(p.options)[n] != p.options[n];
      }
    }
  }
}
