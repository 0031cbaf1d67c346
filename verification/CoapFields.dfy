/** The options of the draft by their numbers: which options a field is written as, which field the
    options of a message set, and where their bytes are. */
module CoapFields {
  import opened CoapOption
  import opened CoapText
  import opened CoapMessage
  import opened CoapRoundTrip

  // ----- Texts and their parts -----

  /** The parts with `c` between them. */
  function Joined(parts: seq<text>, c: byte): text
    requires parts != []
    decreases |parts|
  {
    if |parts| == 1 then parts[0] else parts[0] + [c] + Joined(parts[1..], c)
  }

  /** No part is empty or holds `c`, and no part but the first begins with a slash. */
  ghost predicate Parts(parts: seq<text>, c: byte) {
    parts != [] && (forall k :: 0 <= k < |parts| ==> parts[k] != [] && c !in parts[k])
    && forall k :: 1 <= k < |parts| ==> parts[k][0] != 47
  }

  /** The components of a path. */
  ghost predicate Components(parts: seq<text>) {
    parts != [] && forall k :: 0 <= k < |parts| ==> parts[k] != [] && 47 !in parts[k]
  }

  lemma ComponentsAreParts(parts: seq<text>)
    requires Components(parts)
    ensures Parts(parts, 47)
  {
    forall k | 1 <= k < |parts| ensures parts[k][0] != 47 {
      assert parts[k][0] in parts[k];
    }
  }

  /** One option with the given number for each part. */
  function Numbered(number: nat, parts: seq<text>): seq<Item> {
    seq(|parts|, k requires 0 <= k < |parts| => Item(number, parts[k]))
  }

  lemma {:induction false} EachPartIsNumbered(number: nat, parts: seq<text>)
    ensures EachPart(number, parts) == Numbered(number, parts)
    decreases |parts|
  {
    if parts != [] {
      EachPartIsNumbered(number, parts[1..]);
    }
  }

  /** No separator up to `e`, where there is one. */
  lemma {:induction false} SplitSkips(s: text, c: byte, start: nat, j: nat, e: nat)
    requires start <= j <= e <= |s| && forall i :: j <= i < e ==> s[i] != c
    ensures SplitFrom(s, c, start, j) == SplitFrom(s, c, start, e)
    decreases e - j
  {
    if j < e {
      SplitSkips(s, c, start, j + 1, e);
    }
  }

  /** One part more that the split finds. */
  lemma SplitOnePart(s: text, c: byte, start: nat, j: nat, e: nat)
    requires start <= j <= e <= |s| && (forall i :: j <= i < e ==> s[i] != c) && (e == |s| || s[e] == c)
    requires e + 1 < |s| ==> s[e + 1] != 47
    ensures SplitFrom(s, c, start, j) == [s[start..e]] + if e + 1 < |s| then SplitFrom(s, c, e + 1, e + 2) else []
  {
    SplitSkips(s, c, start, j, e);
    assert SkipSlashes(s, e + 1) == e + 1 || e + 1 >= |s|;
  }

  lemma {:induction false} SplitAt(s: text, c: byte, start: nat, j: nat, parts: seq<text>)
    requires Parts(parts, c) && start <= |s| && s[start..] == Joined(parts, c) && start <= j <= start + 1
    ensures SplitFrom(s, c, start, j) == parts
    decreases |parts|
  {
    var e := start + |parts[0]|;
    if |parts| > 1 {
      var rest := Joined(parts[1..], c);
      FirstPart(s, start, parts[0], [c] + rest);
      SecondPart(s, e, c, rest);
      JoinedBegins(parts[1..], c);
      SplitOnePart(s, c, start, j, e);
      SplitAt(s, c, e + 1, e + 2, parts[1..]);
    } else {
      FirstPart(s, start, parts[0], []);
      SplitOnePart(s, c, start, j, e);
    }
  }

  lemma FirstPart(s: text, start: nat, part: text, rest: text)
    requires start <= |s| && s[start..] == part + rest
    ensures var e := start + |part|;
            e <= |s| && s[start..e] == part && s[e..] == rest && forall i :: start <= i < e ==> s[i] in part
  {
    var e := start + |part|;
    assert s[start..][..|part|] == part && s[start..][|part|..] == rest;
    forall i | start <= i < e ensures s[i] in part {
      assert s[i] == part[i - start];
    }
  }

  lemma SecondPart(s: text, e: nat, c: byte, rest: text)
    requires e <= |s| && s[e..] == [c] + rest && rest != []
    ensures e + 1 < |s| && s[e] == c && s[e + 1] == rest[0] && s[e + 1..] == rest
  {
    assert s[e..][0] == c && s[e..][1] == rest[0] && s[e..][1..] == rest;
  }

  lemma JoinedBegins(parts: seq<text>, c: byte)
    requires parts != [] && parts[0] != []
    ensures |Joined(parts, c)| > 0 && Joined(parts, c)[0] == parts[0][0]
  {
  }

  lemma SplitOfJoined(parts: seq<text>, c: byte)
    requires Parts(parts, c)
    ensures Split(Joined(parts, c), c) == parts
  {
    var s := Joined(parts, c);
    assert s[0..] == s;
    SplitAt(s, c, 0, 0, parts);
  }

  lemma {:induction false} MergeOfParts(merged: text, parts: seq<text>, c: byte)
    requires merged != [] && parts != []
    ensures MergeAll(merged, parts, c) == merged + [c] + Joined(parts, c)
    decreases |parts|
  {
    var more := merged + [c] + parts[0];
    if |parts| > 1 {
      MergeOfParts(more, parts[1..], c);
      assert more + [c] + Joined(parts[1..], c) == merged + [c] + (parts[0] + [c] + Joined(parts[1..], c));
    } else {
      assert MergeAll(merged, parts, c) == MergeAll(more, [], c);
    }
  }

  lemma MergeOfAll(parts: seq<text>, c: byte)
    requires parts != [] && parts[0] != []
    ensures MergeAll([], parts, c) == Joined(parts, c)
  {
    assert MergeAll([], parts, c) == MergeAll(parts[0], parts[1..], c);
    if |parts| > 1 {
      MergeOfParts(parts[0], parts[1..], c);
    }
  }

  // ----- Writing -----

  /** A path is written as its components, one option each: Location-Path with number 6, Uri-Path with
      number 9. */
  lemma PathsAreWritten(parts: seq<text>)
    requires Components(parts)
    ensures ItemsOf(6, Text(Joined(parts, 47))) == Numbered(6, parts)
    ensures ItemsOf(9, Text(Joined(parts, 47))) == Numbered(9, parts)
  {
    ComponentsAreParts(parts);
    SplitOfJoined(parts, 47);
    EachPartIsNumbered(6, parts);
    EachPartIsNumbered(9, parts);
  }

  /** A query is written as the parts between its ampersands: Location-Query with number 8, Uri-Query with
      number 15. */
  lemma QueriesAreWritten(parts: seq<text>)
    requires Parts(parts, 38)
    ensures ItemsOf(8, Text(Joined(parts, 38))) == Numbered(8, parts)
    ensures ItemsOf(15, Text(Joined(parts, 38))) == Numbered(15, parts)
  {
    SplitOfJoined(parts, 38);
    EachPartIsNumbered(8, parts);
    EachPartIsNumbered(15, parts);
  }

  // ----- Value types -----

  /** Which values the fields take, by number. */
  lemma ValuesByNumber(v: Value)
    ensures forall n :: n in {1, 7, 10} ==> (Typed(n, v) <==> v.Num? && v.n < 0x1_0000)
    ensures Typed(2, v) <==> v.Num? && v.n < 0x1_0000_0000
    ensures forall n :: n in {4, 11, 13} ==> (Typed(n, v) <==> v.Opaque? && |v.b| <= 8)
    ensures forall n :: n in {5, 6, 8, 9, 15} ==> (Typed(n, v) <==> v.Text?)
    ensures Typed(12, v) <==> v.Nums? && 1 <= |v.ns| <= 2 && forall k :: 0 <= k < |v.ns| ==> v.ns[k] < 0x1_0000
    ensures forall n :: n in {17, 19} ==> (Typed(n, v) <==> v.Block? && v.num < 0x10_0000 && 16 <= v.size <= 2048)
    ensures Typed(21, v) <==> v.Present?
    ensures forall n :: n !in {1, 2, 4, 5, 6, 7, 8, 9, 10, 11, 12, 13, 15, 17, 19, 21} ==> !Typed(n, v)
  {
  }

  /** How the fields are written that are not split, by number: as one option with the bytes of an integer,
      with the opaque bytes, with the text, or without a value, and Accept as up to two integers. */
  lemma WrittenByNumber(n: nat, v: Value)
    requires Typed(n, v)
    ensures n in {1, 2, 7, 10} ==> ItemsOf(n, v) == [Item(n, IntBytes(v.n))]
    ensures n in {4, 11, 13} ==> ItemsOf(n, v) == [Item(n, v.b)]
    ensures n == 5 ==> ItemsOf(n, v) == [Item(5, v.t)]
    ensures n == 12 ==> ItemsOf(n, v) == seq(|v.ns|, k requires 0 <= k < |v.ns| => Item(12, IntBytes(v.ns[k])))
    ensures n == 21 ==> ItemsOf(n, v) == [Item(21, [])]
  {
    if n == 12 {
      var x := v.ns[0];
      if |v.ns| == 1 {
        assert v.ns == [x];
        TwoNums(12, x, x);
      } else {
        assert v.ns == [x, v.ns[1]];
        TwoNums(12, x, v.ns[1]);
      }
    }
  }

  /** A block option holds the number of the block, one bit for more, and three for the size: 16 shifted
      to the left by these. */
  lemma BlockByNumber(n: nat, num: nat, more: bool, shift: nat)
    requires (n == 17 || n == 19) && num < 0x10_0000 && shift < 8
    ensures Typed(n, Block(num, more, Shift(16, shift)))
    ensures ItemsOf(n, Block(num, more, Shift(16, shift)))
            == [Item(n, IntBytes(num * 16 + (if more then 8 else 0) + shift))]
  {
    var size := Shift(16, shift);
    assert 16 <= size <= 2048 && Log2(size / 16) == shift by {
      ShiftValues();
      LogSteps(size / 16);
    }
    assert BlockInt(num, more, size) == num * 16 + (if more then 8 else 0) + shift;
  }

  /** What an option sets when a message is read, by number. */
  lemma ReadByNumber(options: Options, n: nat, value: seq<byte>)
    ensures n in {1, 7, 10} ==> Apply(options, n, value) == Fine(options[n := Num(IntOf(value) % 0x1_0000)])
    ensures n == 2 ==> Apply(options, n, value) == Fine(options[n := Num(IntOf(value))])
    ensures n in {4, 11, 13} ==>
              Apply(options, n, value) == Fine(options[n := Opaque(if |value| > 8 then value[..8] else value)])
    ensures n == 5 ==> Apply(options, n, value) == Fine(options[n := Text(value)])
    ensures n == 21 ==> Apply(options, n, value) == Fine(options[n := Present])
    ensures n == 14 ==> Apply(options, n, value) == Fine(options)
  {
    if n == 2 {
      assert IntOf(value) % 0x1_0000_0000 == IntOf(value);
    }
  }

  /** The number of a block, the bit for more and the size are read from one integer. */
  lemma BlockIsRead(options: Options, n: nat, value: seq<byte>)
    requires n == 17 || n == 19
    ensures var x := IntOf(value);
            Apply(options, n, value) == Fine(options[n := Block(x / 16, x / 8 % 2 == 1, Shift(16, x % 8))])
  {
  }

  /** Which options are refused: Proxy-Uri with 165, and those that are not in the draft with 130 if their
      number is odd; others of that kind are passed over. */
  lemma RefusedByNumber(options: Options, n: nat, value: seq<byte>)
    ensures Apply(options, n, value).Refused? <==> n == 3 || (n >= 23 && n % 2 == 1)
    ensures Apply(options, 3, value) == Refused(165)
    ensures n >= 23 && n % 2 == 1 ==> Apply(options, n, value) == Refused(130)
    ensures n in {0, 16, 18, 20} || (n >= 22 && n % 2 == 0) ==> Apply(options, n, value) == Fine(options)
  {
  }

  // ----- Reading several options -----

  /** The options with one number, in order. */
  function WithNumber(items: seq<Item>, number: nat): seq<Item>
    decreases |items|
  {
    if items == [] then []
    else (if items[0].number == number then [items[0]] else []) + WithNumber(items[1..], number)
  }

  function FieldIn(options: Options, number: nat): set<Value> {
    if number in options then {options[number]} else {}
  }

  /** An option sets no other field, and its effect on its own does not depend on others. */
  lemma ApplyIsLocal(o1: Options, o2: Options, n: nat, value: seq<byte>, number: nat)
    requires FieldIn(o1, number) == FieldIn(o2, number) && Apply(o1, n, value).Fine?
    ensures n != number ==> FieldIn(Apply(o1, n, value).options, number) == FieldIn(o1, number)
    ensures Apply(o2, n, value).Fine?
    ensures FieldIn(Apply(o1, n, value).options, number) == FieldIn(Apply(o2, n, value).options, number)
  {
    SameField(o1, o2, number);
  }

  lemma SameField(o1: Options, o2: Options, number: nat)
    requires FieldIn(o1, number) == FieldIn(o2, number)
    ensures number in o1 <==> number in o2
    ensures number in o1 ==> o1[number] == o2[number]
  {
    if number in o1 {
      assert o1[number] in FieldIn(o2, number);
    }
    if number in o2 {
      assert o2[number] in FieldIn(o1, number);
    }
  }

  /** The options with one number determine its field, whatever options are between them. */
  lemma {:induction false} FieldsAreIndependent(o1: Options, o2: Options, items: seq<Item>, number: nat)
    requires FieldIn(o1, number) == FieldIn(o2, number) && ApplyAll(o1, items).Fine?
    ensures ApplyAll(o2, WithNumber(items, number)).Fine?
    ensures FieldIn(ApplyAll(o1, items).options, number)
            == FieldIn(ApplyAll(o2, WithNumber(items, number)).options, number)
    decreases |items|
  {
    if items != [] {
      var item, rest := items[0], items[1..];
      var step := Apply(o1, item.number, item.value).options;
      ApplyIsLocal(o1, o2, item.number, item.value, number);
      if item.number == number {
        FieldsAreIndependent(step, Apply(o2, item.number, item.value).options, rest, number);
        ApplyHead(o2, item, WithNumber(rest, number));
      } else {
        FieldsAreIndependent(step, o2, rest, number);
        assert WithNumber(items, number) == [] + WithNumber(rest, number) == WithNumber(rest, number);
      }
    }
  }

  /** The parts that the options with one number carry are joined with the separator of that number: a slash
      for the paths, 6 and 9, and an ampersand for the queries, 8 and 15. */
  lemma PartsAreRead(items: seq<Item>, number: nat, parts: seq<text>)
    requires number in {6, 8, 9, 15} && WithNumber(items, number) == Numbered(number, parts)
    requires parts != [] && parts[0] != [] && ApplyAll(map[], items).Fine?
    ensures var o := ApplyAll(map[], items).options;
            number in o && o[number] == Text(Joined(parts, if number in {6, 9} then 47 else 38))
  {
    var c: byte := if number in {6, 9} then 47 else 38;
    FieldsAreIndependent(map[], map[], items, number);
    EachPartIsNumbered(number, parts);
    MergeOfAll(parts, c);
    assert KindOf(number) == KMulti(c);
    PartsMerge(map[][number := Text(parts[0])], number, parts[0], parts[1..]);
    ApplyHead(map[], Item(number, parts[0]), EachPart(number, parts[1..]));
    var o := ApplyAll(map[], items).options;
    assert FieldIn(o, number) == {Text(Joined(parts, c))};
    assert number in o && o[number] in FieldIn(o, number);
  }

  // ----- Whole messages -----

  lemma {:induction false} WithNumberOfBoth(a: seq<Item>, b: seq<Item>, number: nat)
    ensures WithNumber(a + b, number) == WithNumber(a, number) + WithNumber(b, number)
    decreases |a|
  {
    if a == [] {
      assert a + b == b;
    } else {
      assert (a + b)[1..] == a[1..] + b && (a + b)[0] == a[0];
      WithNumberOfBoth(a[1..], b, number);
      var head := if a[0].number == number then [a[0]] else [];
      assert WithNumber(a + b, number) == head + (WithNumber(a[1..], number) + WithNumber(b, number));
    }
  }

  lemma {:induction false} WithNumberOfSame(a: seq<Item>, n: nat, number: nat)
    requires forall k :: 0 <= k < |a| ==> a[k].number == n
    ensures WithNumber(a, number) == if n == number then a else []
    decreases |a|
  {
    if a != [] {
      WithNumberOfSame(a[1..], n, number);
    }
  }

  lemma {:induction false} OptionsOfField(p: Packet, from: nat, number: nat)
    requires WellTyped(p)
    ensures WithNumber(ItemsFrom(p, from), number) ==
            if from <= number <= LAST_NUMBER && number in p.options then ItemsOf(number, p.options[number]) else []
    decreases if from <= LAST_NUMBER then LAST_NUMBER + 1 - from else 0
  {
    if from <= LAST_NUMBER {
      OptionsOfField(p, from + 1, number);
      var here := if from in p.options then ItemsOf(from, p.options[from]) else [];
      WithNumberOfBoth(here, ItemsFrom(p, from + 1), number);
      if from in p.options {
        ItemsAreOf(from, p.options[from]);
      }
      WithNumberOfSame(here, from, number);
    }
  }

  /** The options of a message with one number are those of its field. */
  lemma OptionsOfMessage(p: Packet, number: nat)
    requires WellTyped(p)
    ensures WithNumber(ItemsIn(p), number) ==
            if number in p.options then ItemsOf(number, p.options[number]) else []
  {
    OptionsOfField(p, 0, number);
    if number in p.options {
      assert Typed(number, p.options[number]);
    }
  }

  /** The path of a request leaves it as the options 9 with its components, whatever else it holds, and is
      read from such options, whatever is between them; so is its query in the options 15. */
  lemma PathAndQuery(p: Packet, path: seq<text>, query: seq<text>, items: seq<Item>)
    requires WellTyped(p) && Components(path) && Parts(query, 38)
    ensures 9 in p.options && p.options[9] == Text(Joined(path, 47)) ==>
              WithNumber(ItemsIn(p), 9) == Numbered(9, path)
    ensures 15 in p.options && p.options[15] == Text(Joined(query, 38)) ==>
              WithNumber(ItemsIn(p), 15) == Numbered(15, query)
    ensures ApplyAll(map[], items).Fine? && WithNumber(items, 9) == Numbered(9, path) ==>
              9 in ApplyAll(map[], items).options
              && ApplyAll(map[], items).options[9] == Text(Joined(path, 47))
    ensures ApplyAll(map[], items).Fine? && WithNumber(items, 15) == Numbered(15, query) ==>
              15 in ApplyAll(map[], items).options
              && ApplyAll(map[], items).options[15] == Text(Joined(query, 38))
  {
    OptionsOfMessage(p, 9);
    OptionsOfMessage(p, 15);
    PathsAreWritten(path);
    QueriesAreWritten(query);
    if ApplyAll(map[], items).Fine? && WithNumber(items, 9) == Numbered(9, path) {
      PartsAreRead(items, 9, path);
    }
    if ApplyAll(map[], items).Fine? && WithNumber(items, 15) == Numbered(15, query) {
      PartsAreRead(items, 15, query);
    }
  }

  // ----- Bytes -----

  /** An option whose number is `delta` above the previous one: the distance in the high four bits, the length
      in the low four, or 15 there and the rest of it in a second byte. */
  function Segment(delta: nat, value: seq<byte>): seq<byte>
    requires delta < 16 && |value| <= 270
  {
    (if |value| < 15 then [16 * delta + |value|] else [16 * delta + 15, |value| - 15]) + value
  }

  ghost predicate Short(parts: seq<text>) {
    forall k :: 0 <= k < |parts| ==> |parts[k]| <= 270
  }

  /** The first part with its number, the others without a distance. */
  function Segments(delta: nat, parts: seq<text>): seq<byte>
    requires delta < 16 && Short(parts)
    decreases |parts|
  {
    if parts == [] then [] else Segment(delta, parts[0]) + Segments(0, parts[1..])
  }

  lemma {:induction false} EncodeParts(number: nat, current: nat, parts: seq<text>)
    requires current <= number <= 21 && number - current < 16 && Short(parts)
    ensures Ascends(EachPart(number, parts), current)
    ensures Encode(EachPart(number, parts), current) == Segments(number - current, parts)
    ensures number < 15 ==> Claimed(EachPart(number, parts), current) == |parts|
    ensures number < 15 ==> !HasLongStep(EachPart(number, parts), current)
    decreases |parts|
  {
    if parts != [] {
      EncodeParts(number, number, parts[1..]);
      PostsBefore(number, current);
      var items := EachPart(number, parts);
      assert items[1..] == EachPart(number, parts[1..]);
      var delta, value := number - current, parts[0];
      assert Header(delta, |value|) == if |value| < 15 then [16 * delta + |value|] else [16 * delta + 15, |value| - 15];
      assert EncodeItem(items[0], current) == Segment(delta, value);
    }
  }

  lemma {:induction false} OneField(p: Packet, n: nat, v: Value, from: nat)
    requires WellTyped(p) && p.options == map[n := v] && n <= LAST_NUMBER
    ensures Typed(n, v) && ItemsFrom(p, from) == if from <= n then ItemsOf(n, v) else []
    decreases if from <= LAST_NUMBER then LAST_NUMBER + 1 - from else 0
  {
    assert n in p.options;
    if from <= LAST_NUMBER {
      OneField(p, n, v, from + 1);
    }
  }

  /** Version 1, type and number of options, code, message id, options and payload. */
  function Datagram(p: Packet, count: nat, options: seq<byte>): seq<byte>
    requires p.kind < 4 && p.mid < 0x1_0000 && count <= 15
  {
    [64 + 16 * p.kind + count, p.code, p.mid / 256, p.mid % 256] + options + p.payload
  }

  /** A message with nothing but a path, byte by byte: the options are its components, the first with the
      number 9. Reading it gives the packet back. */
  lemma PathOnTheWire(p: Packet, parts: seq<text>, after: seq<byte>)
    requires WellTyped(p) && Components(parts) && |parts| <= 15 && p.options == map[9 := Text(Joined(parts, 47))]
    requires Short(parts) && 4 + |Segments(9, parts)| <= 47
    ensures var at := 4 + |Segments(9, parts)|;
            var bytes := Datagram(p, |parts|, Segments(9, parts));
            Serialize(p) == Written(bytes, at) && Parse(bytes + after, |bytes|) == Message(p, at)
  {
    var t := Joined(parts, 47);
    assert ItemsIn(p) == EachPart(9, parts) by {
      OneField(p, 9, Text(t), 0);
      PathsAreWritten(parts);
      EachPartIsNumbered(9, parts);
    }
    EncodeParts(9, 0, parts);
    assert Survives(9, p.options[9]) by {
      ComponentsAreParts(parts);
      SplitOfJoined(parts, 47);
      MergeOfAll(parts, 47);
      MergeUndoesSplit(t, 47);
    }
    OneFieldOnTheWire(p, 9, Text(t), Segments(9, parts), after);
  }

  /** A message with nothing but a Block1 option, which has a fence post before it. */
  lemma BlockOnTheWire(p: Packet, num: nat, more: bool, shift: nat, value: seq<byte>, after: seq<byte>)
    requires WellTyped(p) && num < 0x10_0000 && shift < 8 && p.options == map[19 := Block(num, more, Shift(16, shift))]
    requires value == IntBytes(num * 16 + (if more then 8 else 0) + shift)
    ensures |value| <= 3
    ensures var bytes := Datagram(p, 2, [0xE0, 0x50 + |value|] + value);
            Serialize(p) == Written(bytes, 6 + |value|)
            && Parse(bytes + after, |bytes|) == Message(p, 6 + |value|)
  {
    BlockItem(p, num, more, shift, value);
    LoneBlock(value);
    OneFieldOnTheWire(p, 19, Block(num, more, Shift(16, shift)), [0xE0, 0x50 + |value|] + value, after);
  }

  lemma BlockItem(p: Packet, num: nat, more: bool, shift: nat, value: seq<byte>)
    requires WellTyped(p) && num < 0x10_0000 && shift < 8 && p.options == map[19 := Block(num, more, Shift(16, shift))]
    requires value == IntBytes(num * 16 + (if more then 8 else 0) + shift)
    ensures |value| <= 3 && ItemsIn(p) == [Item(19, value)] && Survives(19, Block(num, more, Shift(16, shift)))
  {
    IntLength(num * 16 + (if more then 8 else 0) + shift, 3, 0x100_0000);
    ShiftValues();
    OneField(p, 19, Block(num, more, Shift(16, shift)), 0);
    BlockByNumber(19, num, more, shift);
  }

  /** The written bytes, in terms of the bytes of the options. */
  lemma SerializedIs(p: Packet, options: seq<byte>, count: nat)
    requires WellTyped(p) && options == Encode(ItemsIn(p), 0) && 4 + |options| <= 47
    requires count == Claimed(ItemsIn(p), 0) && count <= 15
    ensures Serialize(p) == Written(Datagram(p, count, options), 4 + |options|)
  {
    assert FixedHeader(p, count) == [64 + 16 * p.kind + count, p.code, p.mid / 256, p.mid % 256];
  }

  /** A message of one field that survives, in terms of the bytes of its options. */
  lemma OneFieldOnTheWire(p: Packet, n: nat, v: Value, options: seq<byte>, after: seq<byte>)
    requires WellTyped(p) && p.options == map[n := v] && n <= LAST_NUMBER && Survives(n, v)
    requires options == Encode(ItemsIn(p), 0) && 4 + |options| <= 47
    requires Claimed(ItemsIn(p), 0) <= 15 && !HasLongStep(ItemsIn(p), 0)
    ensures var at := 4 + |options|;
            var bytes := Datagram(p, Claimed(ItemsIn(p), 0), options);
            Serialize(p) == Written(bytes, at) && Parse(bytes + after, |bytes|) == Message(p, at)
  {
    SerializedIs(p, options, Claimed(ItemsIn(p), 0));
    RoundTrip(p, after);
  }

  lemma LoneBlock(value: seq<byte>)
    requires |value| <= 3
    ensures var items := [Item(19, value)];
            Ascends(items, 0) && Encode(items, 0) == [0xE0, 0x50 + |value|] + value && Claimed(items, 0) == 2
            && !HasLongStep(items, 0)
  {
    PostsBefore(19, 0);
    var items := [Item(19, value)];
    assert items[1..] == [];
    assert Encode(items, 0) == EncodeItem(items[0], 0);
  }

  /** The highest byte comes first. */
  lemma BytesOfInt(a: byte, b: byte, c: byte, d: byte)
    ensures IntOf([]) == 0 && IntOf([a]) == a && IntOf([a, b]) == 0x100 * a as int + b as int
    ensures IntOf([a, b, c]) == 0x1_0000 * a as int + 0x100 * b as int + c as int
    ensures IntOf([a, b, c, d]) == 0x100_0000 * a as int + 0x1_0000 * b as int + 0x100 * c as int + d as int
  {
    assert [a] == [] + [a] && [a, b] == [a] + [b] && [a, b, c] == [a, b] + [c] && [a, b, c, d] == [a, b, c] + [d];
    OneByteMore([], a, 0);
    OneByteMore([a], b, a);
    OneByteMore([a, b], c, 0x100 * a as int + b as int);
    OneByteMore([a, b, c], d, 0x1_0000 * a as int + 0x100 * b as int + c as int);
  }

  lemma OneByteMore(bytes: seq<byte>, x: byte, v: nat)
    requires IntOf(bytes) == v && v * 0x100 + x < 0x1_0000_0000
    ensures IntOf(bytes + [x]) == v * 0x100 + x
  {
    IntOfOneMore(bytes, x);
  }

  lemma {:induction false} IntLength(v: nat, n: nat, bound: nat)
    requires v < bound && n <= 3 && bound == if n == 3 then 0x100_0000 else if n == 2 then 0x1_0000
             else if n == 1 then 0x100 else 1
    ensures |IntBytes(v)| <= n
  {
    if v > 0 {
      IntLength(v / 256, n - 1, bound / 256);
    }
  }

  /** Another version than 1 is refused with 128; no more than 128 bytes of payload are read, and no more are
      set. */
  lemma MessageLimits(b: seq<byte>, dataLength: nat, p: Packet)
    requires |b| >= 4
    ensures b[0] / 0x40 != 1 ==> Parse(b, dataLength) == Rejected(128)
    ensures forall at: nat :: at <= dataLength < 0x1_0000 ==>
              PayloadLength(dataLength, at) == if dataLength - at > 128 then 128 else dataLength - at
    ensures WellTyped(p) ==> |p.payload| <= 128
  {
  }
}
