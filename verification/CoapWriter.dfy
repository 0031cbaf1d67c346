/** coap_serialize_message as it works on the packet buffer: each step writes at a position of the
    buffer and returns how far it came. */
module CoapWriter {
  import opened CoapOption
  import opened CoapText
  import opened CoapMessage

  /** `after` is `before` with `bytes` written at `at`. */
  predicate Wrote(before: seq<byte>, after: seq<byte>, at: nat, bytes: seq<byte>) {
    |after| == |before| && at + |bytes| <= |before| && after == before[..at] + bytes + before[at + |bytes|..]
  }

  lemma WroteBoth(a: seq<byte>, b: seq<byte>, c: seq<byte>, at: nat, first: seq<byte>, second: seq<byte>)
    requires Wrote(a, b, at, first) && Wrote(b, c, at + |first|, second)
    ensures Wrote(a, c, at, first + second)
  {
    var end := at + |first| + |second|;
    assert b[..at + |first|] == a[..at] + first;
    assert b[end..] == a[end..];
    assert c == a[..at] + (first + second) + a[end..];
  }

  lemma WroteNothing(a: seq<byte>, at: nat)
    requires at <= |a|
    ensures Wrote(a, a, at, [])
  {
  }

  // ----- Encoding field by field -----

  lemma {:induction false} AscendsBoth(items: seq<Item>, rest: seq<Item>, current: nat)
    requires Ascends(items + rest, current)
    ensures Ascends(items, current) && Ascends(rest, LastNumber(items, current))
    decreases |items|
  {
    if items == [] {
      assert items + rest == rest;
    } else {
      assert (items + rest)[1..] == items[1..] + rest;
      AscendsBoth(items[1..], rest, items[0].number);
    }
  }

  lemma {:induction false} EncodeBoth(items: seq<Item>, rest: seq<Item>, current: nat, last: nat)
    requires Ascends(items + rest, current) && Ascends(items, current) && Ascends(rest, last)
             && last == LastNumber(items, current)
    ensures Encode(items + rest, current) == Encode(items, current) + Encode(rest, last)
    decreases |items|
  {
    if items == [] {
      assert items + rest == rest;
    } else {
      assert (items + rest)[1..] == items[1..] + rest;
      EncodeStep(items, current);
      EncodeStep(items + rest, current);
      EncodeBoth(items[1..], rest, items[0].number, last);
    }
  }

  lemma {:induction false} ClaimedBoth(items: seq<Item>, rest: seq<Item>, current: nat, last: nat)
    requires Ascends(items + rest, current) && Ascends(items, current) && Ascends(rest, last)
             && last == LastNumber(items, current)
    ensures Claimed(items + rest, current) == Claimed(items, current) + Claimed(rest, last)
    decreases |items|
  {
    if items == [] {
      assert items + rest == rest;
    } else {
      assert (items + rest)[1..] == items[1..] + rest;
      ClaimedBoth(items[1..], rest, items[0].number, last);
    }
  }

  lemma {:induction false} LastOfField(items: seq<Item>, number: nat, current: nat)
    requires AllOf(items, number)
    ensures LastNumber(items, current) == number
    decreases |items|
  {
    if |items| > 1 {
      LastOfField(items[1..], number, number);
    }
  }

  lemma {:induction false} FieldAscends(items: seq<Item>, number: nat, current: nat)
    requires forall k :: 0 <= k < |items| ==> items[k].number == number
    requires current <= number <= LAST_NUMBER
    ensures Ascends(items, current)
    decreases |items|
  {
    if items != [] {
      FieldAscends(items[1..], number, number);
    }
  }

  /** The count of the options of one field: one each, and the supposed fence posts before them. */
  lemma {:induction false} ClaimedForField(items: seq<Item>, number: nat, current: nat)
    requires AllOf(items, number) && Ascends(items, current)
    ensures Claimed(items, current) == |items| + if number >= 15 then (number - current) / FENCE_POST else 0
    decreases |items|
  {
    if |items| > 1 {
      ClaimedForField(items[1..], number, number);
    } else {
      assert items[1..] == [];
    }
  }

  lemma {:induction false} PartsCount(number: nat, parts: seq<text>)
    ensures |EachPart(number, parts)| == |parts|
    decreases |parts|
  {
    if parts != [] {
      PartsCount(number, parts[1..]);
    }
  }

  // ----- The steps -----

  /** coap_log_2. */
  method LogOf(v: nat) returns (result: nat)
    ensures result == Log2(v)
  {
    var value: nat := v / 2;
    result := 1;
    while value > 0
      invariant result >= 1 && Log2(v) + 1 == result + if value == 0 then 0 else 1 + Log2(value)
    {
      value := value / 2;
      result := result + 1;
    }
    result := result - 1;
  }

  /** coap_set_option_header. */
  method SetHeader(delta: nat, length: nat, buffer: array<byte>, at: nat) returns (n: nat)
    requires at + |Header(delta, length)| <= buffer.Length
    modifies buffer
    ensures n == |Header(delta, length)| && Wrote(old(buffer[..]), buffer[..], at, Header(delta, length))
  {
    if length < LONG_LENGTH {
      buffer[at] := delta % 16 * 16 + length;
      n := 1;
    } else {
      buffer[at] := delta % 16 * 16 + LONG_LENGTH;
      buffer[at + 1] := (length - LONG_LENGTH) % 256;
      n := 2;
    }
  }

  /** memcpy of a value. */
  method Copy(value: seq<byte>, buffer: array<byte>, at: nat)
    requires at + |value| <= buffer.Length
    modifies buffer
    ensures Wrote(old(buffer[..]), buffer[..], at, value)
  {
    forall k | 0 <= k < |value| {
      buffer[at + k] := value[k];
    }
    assert forall k :: 0 <= k < buffer.Length ==>
           buffer[k] == if at <= k < at + |value| then value[k - at] else old(buffer[k]);
  }

  lemma PostStep(number: nat, now: nat, done: seq<byte>)
    requires number - now > 15
    ensures var delta := FENCE_POST - now % FENCE_POST;
            done + Posts(number, now) == (done + Header(delta, 0)) + Posts(number, now + delta)
            && PastPosts(number, now) == PastPosts(number, now + delta)
  {
    var delta := FENCE_POST - now % FENCE_POST;
    assert done + (Header(delta, 0) + Posts(number, now + delta))
           == (done + Header(delta, 0)) + Posts(number, now + delta);
  }

  /** coap_insert_option_fence_posts. */
  method InsertFencePosts(number: nat, current: nat, buffer: array<byte>, at: nat) returns (n: nat, now: nat)
    requires at + |Posts(number, current)| <= buffer.Length
    modifies buffer
    ensures n == |Posts(number, current)| && now == PastPosts(number, current)
    ensures Wrote(old(buffer[..]), buffer[..], at, Posts(number, current))
  {
    n, now := 0, current;
    ghost var original, all := buffer[..], Posts(number, current);
    ghost var done: seq<byte> := [];
    WroteNothing(buffer[..], at);
    while number - now > 15
      invariant n == |done| && all == done + Posts(number, now)
      invariant PastPosts(number, current) == PastPosts(number, now)
      invariant Wrote(original, buffer[..], at, done)
      decreases if number > now then number - now else 0
    {
      ghost var before := buffer[..];
      var delta := FENCE_POST - now % FENCE_POST;
      PostStep(number, now, done);
      var one := SetHeader(delta, 0, buffer, at + n);
      WroteBoth(original, before, buffer[..], at, done, Header(delta, 0));
      done := done + Header(delta, 0);
      n := n + one;
      now := now + delta;
    }
    assert done + [] == done;
  }

  lemma OneItem(item: Item, current: nat)
    requires current <= item.number <= LAST_NUMBER
    ensures PastPosts(item.number, current) <= item.number
    ensures Encode([item], current)
            == Posts(item.number, current) + Header(item.number - PastPosts(item.number, current), |item.value|)
                + item.value
  {
    PostsBefore(item.number, current);
    assert [item][1..] == [];
    assert Encode([item], current) == EncodeItem(item, current) + [];
  }

  /** coap_serialize_array_option without a separator: one option. */
  method SerializeArray(number: nat, current: nat, buffer: array<byte>, at: nat, value: seq<byte>) returns (n: nat)
    requires current <= number <= LAST_NUMBER
    requires at + |Encode([Item(number, value)], current)| <= buffer.Length
    modifies buffer
    ensures Wrote(old(buffer[..]), buffer[..], at, Encode([Item(number, value)], current))
    ensures n == |Encode([Item(number, value)], current)|
  {
    OneItem(Item(number, value), current);
    var i, now := InsertFencePosts(number, current, buffer, at);
    var h := WriteOption(number - now, buffer, at + i, value, old(buffer[..]), at, Posts(number, current));
    n := i + h;
  }

  /** The header and the value of an option, after the fence posts `posts` written at `start`. */
  method WriteOption(delta: nat, buffer: array<byte>, at: nat, value: seq<byte>,
                     ghost original: seq<byte>, ghost start: nat, ghost posts: seq<byte>) returns (n: nat)
    requires at + |Header(delta, |value|)| + |value| <= buffer.Length
    requires at == start + |posts| && Wrote(original, buffer[..], start, posts)
    modifies buffer
    ensures Wrote(original, buffer[..], start, posts + Header(delta, |value|) + value)
    ensures n == |Header(delta, |value|)| + |value|
  {
    ghost var before, header := buffer[..], Header(delta, |value|);
    var h := SetHeader(delta, |value|, buffer, at);
    ghost var between := buffer[..];
    WroteBoth(original, before, between, start, posts, header);
    Copy(value, buffer, at + h);
    ghost var head := posts + header;
    assert at + h == start + |head|;
    WroteBoth(original, between, buffer[..], start, head, value);
    n := h + |value|;
  }

  /** The bytes that coap_serialize_int_option writes for a value, one test per byte. */
  method BytesOf(value: nat) returns (b: seq<byte>)
    requires value < WORD
    ensures b == IntBytes(value)
  {
    b := [];
    if value >= 0x100_0000 {
      b := b + [value / 0x100_0000];
    }
    if value >= 0x1_0000 {
      b := b + [value / 0x1_0000 % 256];
    }
    if value >= 0x100 {
      b := b + [value / 0x100 % 256];
    }
    if value >= 1 {
      b := b + [value % 256];
    }
    FourBytesAreIntBytes(value);
  }

  /** coap_serialize_int_option. */
  method SerializeInt(number: nat, current: nat, buffer: array<byte>, at: nat, value: nat) returns (n: nat)
    requires current <= number <= LAST_NUMBER && value < WORD
    requires at + |Encode([Item(number, IntBytes(value))], current)| <= buffer.Length
    modifies buffer
    ensures Wrote(old(buffer[..]), buffer[..], at, Encode([Item(number, IntBytes(value))], current))
    ensures n == |Encode([Item(number, IntBytes(value))], current)|
  {
    var b := BytesOf(value);
    n := SerializeArray(number, current, buffer, at, b);
  }

  // ----- Fields with several options -----

  /** What is left to write: `done` has been written, and the options `rest` follow. */
  ghost predicate Remains(all: seq<byte>, done: seq<byte>, rest: seq<Item>, current: nat) {
    Ascends(rest, current) && all == done + Encode(rest, current)
  }

  lemma OneLess(all: seq<byte>, done: seq<byte>, item: Item, rest: seq<Item>, current: nat)
    requires current <= item.number <= LAST_NUMBER && Ascends(rest, item.number)
             && Remains(all, done, [item] + rest, current)
    ensures Remains(all, done + Encode([item], current), rest, item.number)
  {
    assert ([item] + rest)[1..] == rest;
    EncodeStep([item] + rest, current);
    OneItem(item, current);
    assert done + (EncodeItem(item, current) + Encode(rest, item.number))
           == (done + EncodeItem(item, current)) + Encode(rest, item.number);
  }

  /** Writes the next of the options that remain. */
  method WriteNext(number: nat, now: nat, buffer: array<byte>, at: nat, written: nat, value: seq<byte>,
                   ghost original: seq<byte>, ghost all: seq<byte>, ghost done: seq<byte>, ghost rest: seq<Item>)
    returns (one: nat, ghost more: seq<byte>)
    requires now <= number <= LAST_NUMBER && Ascends(rest, number) && at + |all| <= buffer.Length && written == |done|
    requires Wrote(original, buffer[..], at, done) && Remains(all, done, [Item(number, value)] + rest, now)
    modifies buffer
    ensures Wrote(original, buffer[..], at, more) && Remains(all, more, rest, number) && |more| == |done| + one
  {
    ghost var before := buffer[..];
    ghost var code := Encode([Item(number, value)], now);
    OneLess(all, done, Item(number, value), rest, now);
    one := SerializeArray(number, now, buffer, at + written, value);
    WroteBoth(original, before, buffer[..], at, done, code);
    more := done + code;
  }

  lemma SplitStep(t: text, separator: byte, start: nat, j: nat)
    requires start <= j <= |t|
    ensures var next := SkipSlashes(t, j + 1);
            SplitFrom(t, separator, start, j)
            == if j == |t| || t[j] == separator then [t[start..j]] + SplitFrom(t, separator, next, next + 1)
               else SplitFrom(t, separator, start, j + 1)
    ensures j == |t| || t[j] == separator ==>
              SplitFrom(t, separator, start, j)[1..]
                  == SplitFrom(t, separator, SkipSlashes(t, j + 1), SkipSlashes(t, j + 1) + 1)
  {
  }

  lemma PartsAscend(number: nat, parts: seq<text>, current: nat)
    requires current <= number <= LAST_NUMBER
    ensures Ascends(EachPart(number, parts), current)
  {
    PartsAreOf(number, parts);
    FieldAscends(EachPart(number, parts), number, current);
  }

  /** The parts `pending` of a text remain to be written after the `n` bytes `done`. */
  ghost predicate Splitting(original: seq<byte>, buffer: seq<byte>, at: nat, n: nat, all: seq<byte>, done: seq<byte>,
                            number: nat, pending: seq<text>, now: nat) {
    n == |done| && now <= number && Wrote(original, buffer, at, done)
        && Remains(all, done, EachPart(number, pending), now)
  }

  method WritePart(number: nat, now: nat, buffer: array<byte>, at: nat, n: nat, value: text,
                   ghost original: seq<byte>, ghost all: seq<byte>, ghost done: seq<byte>, ghost pending: seq<text>)
    returns (one: nat, ghost more: seq<byte>)
    requires number <= LAST_NUMBER && at + |all| <= buffer.Length && pending != [] && pending[0] == value
    requires Splitting(original, buffer[..], at, n, all, done, number, pending, now)
    modifies buffer
    ensures Splitting(original, buffer[..], at, n + one, all, more, number, pending[1..], number)
  {
    PartsAscend(number, pending[1..], number);
    one, more := WriteNext(number, now, buffer, at, n, value, original, all, done, EachPart(number, pending[1..]));
  }

  lemma SplittingBegins(buffer: seq<byte>, at: nat, all: seq<byte>, number: nat, parts: seq<text>, now: nat)
    requires at <= |buffer| && now <= number && Ascends(EachPart(number, parts), now)
             && all == Encode(EachPart(number, parts), now)
    ensures Splitting(buffer, buffer, at, 0, all, [], number, parts, now)
  {
    WroteNothing(buffer, at);
    assert [] + all == all;
  }

  lemma SplittingEnds(original: seq<byte>, buffer: seq<byte>, at: nat, n: nat, all: seq<byte>, done: seq<byte>,
                      number: nat, now: nat)
    requires Splitting(original, buffer, at, n, all, done, number, [], now)
    ensures n == |all| && Wrote(original, buffer, at, all)
  {
    assert done + [] == done;
  }

  /** The loop over the characters of a text, of whose options `all` is the encoding. */
  method SplitLoop(number: nat, current: nat, buffer: array<byte>, at: nat, t: text, separator: byte,
                   ghost all: seq<byte>)
    returns (n: nat, parts: nat)
    requires current <= number <= LAST_NUMBER && at + |all| <= buffer.Length
    requires Splitting(buffer[..], buffer[..], at, 0, all, [], number, Split(t, separator), current)
    modifies buffer
    ensures n == |all| && Wrote(old(buffer[..]), buffer[..], at, all) && parts == |Split(t, separator)|
  {
    ghost var original := buffer[..];
    ghost var done: seq<byte>, pending := [], Split(t, separator);
    n, parts := 0, 0;
    var now: nat, start: nat, j: nat := current, 0, 0;
    ghost var total := |pending|;
    while j <= |t|
      invariant start <= j && pending == SplitFrom(t, separator, start, j)
      invariant Splitting(original, buffer[..], at, n, all, done, number, pending, now)
      invariant total == parts + |pending|
      decreases |t| - j
    {
      SplitStep(t, separator, start, j);
      if j == |t| || t[j] == separator {
        var one;
        one, done := WritePart(number, now, buffer, at, n, t[start..j], original, all, done, pending);
        pending := pending[1..];
        n := n + one;
        parts := parts + 1;
        now := number;
        start := AfterSlashes(t, j + 1);
        j := start + 1;
      } else {
        j := j + 1;
      }
    }
    SplittingEnds(original, buffer[..], at, n, all, done, number, now);
  }

  /** coap_serialize_array_option with a separator; `parts` is the number of options it reports. */
  method SerializeSplit(number: nat, current: nat, buffer: array<byte>, at: nat, t: text, separator: byte)
    returns (n: nat, parts: nat)
    requires current <= number <= LAST_NUMBER && Ascends(EachPart(number, Split(t, separator)), current)
    requires at + |Encode(EachPart(number, Split(t, separator)), current)| <= buffer.Length
    modifies buffer
    ensures Wrote(old(buffer[..]), buffer[..], at, Encode(EachPart(number, Split(t, separator)), current))
    ensures n == |Encode(EachPart(number, Split(t, separator)), current)| && parts == |Split(t, separator)|
  {
    ghost var all := Encode(EachPart(number, Split(t, separator)), current);
    SplittingBegins(buffer[..], at, all, number, Split(t, separator), current);
    n, parts := SplitLoop(number, current, buffer, at, t, separator, all);
  }

  /** The loop that skips slashes. */
  method AfterSlashes(t: text, k: nat) returns (j: nat)
    ensures j == SkipSlashes(t, k)
  {
    j := k;
    while j < |t| && t[j] == SLASH
      invariant SkipSlashes(t, k) == SkipSlashes(t, j)
      decreases |t| - j
    {
      j := j + 1;
    }
  }

  lemma NumsAscend(number: nat, ns: seq<nat>, current: nat)
    requires current <= number <= LAST_NUMBER
    ensures Ascends(EachNum(number, ns), current)
  {
    NumsAreOf(number, ns);
    FieldAscends(EachNum(number, ns), number, current);
  }

  /** The loop over the Accept values. */
  method SerializeNums(number: nat, current: nat, buffer: array<byte>, at: nat, ns: seq<nat>) returns (n: nat)
    requires current <= number <= LAST_NUMBER && Ascends(EachNum(number, ns), current)
             && forall k :: 0 <= k < |ns| ==> ns[k] < WORD
    requires at + |Encode(EachNum(number, ns), current)| <= buffer.Length
    modifies buffer
    ensures Wrote(old(buffer[..]), buffer[..], at, Encode(EachNum(number, ns), current))
    ensures n == |Encode(EachNum(number, ns), current)|
  {
    ghost var original, all := buffer[..], Encode(EachNum(number, ns), current);
    ghost var done: seq<byte> := [];
    n := 0;
    var now: nat, i: nat := current, 0;
    WroteNothing(buffer[..], at);
    assert [] + all == all && ns[0..] == ns;
    while i < |ns|
      invariant i <= |ns| && now <= number
      invariant n == |done| && Wrote(original, buffer[..], at, done)
      invariant Remains(all, done, EachNum(number, ns[i..]), now)
    {
      assert ns[i..][1..] == ns[i + 1..];
      NumsAscend(number, ns[i + 1..], number);
      var b := BytesOf(ns[i]);
      var one;
      one, done := WriteNext(number, now, buffer, at, n, b, original, all, done, EachNum(number, ns[i + 1..]));
      n := n + one;
      now := number;
      i := i + 1;
    }
    assert done + [] == done;
  }

  /** The options of one field; `count` is what is added to the option count, fence posts apart. */
  method SerializeField(number: nat, current: nat, buffer: array<byte>, at: nat, v: Value) returns (n: nat, count: nat)
    requires Typed(number, v) && current <= number <= LAST_NUMBER && Ascends(ItemsOf(number, v), current)
    requires at + |Encode(ItemsOf(number, v), current)| <= buffer.Length
    modifies buffer
    ensures Wrote(old(buffer[..]), buffer[..], at, Encode(ItemsOf(number, v), current))
    ensures n == |Encode(ItemsOf(number, v), current)| && count == |ItemsOf(number, v)|
  {
    count := 1;
    match v
    case Num(x) => n := SerializeInt(number, current, buffer, at, x);
    case Opaque(b) => n := SerializeArray(number, current, buffer, at, b);
    case Text(t) =>
      if KindOf(number).KMulti? {
        PartsCount(number, Split(t, KindOf(number).separator));
        n, count := SerializeSplit(number, current, buffer, at, t, KindOf(number).separator);
      } else {
        n := SerializeArray(number, current, buffer, at, t);
      }
    case Nums(ns) =>
      NumsCount(number, ns);
      n := SerializeNums(number, current, buffer, at, ns);
      count := |ns|;
    case Block(num, more, size) =>
      var block := BlockValue(num, more, size);
      n := SerializeInt(number, current, buffer, at, block);
    case Present => n := SerializeInt(number, current, buffer, at, 0);
  }

  /** The value of a block option. */
  method BlockValue(num: nat, more: bool, size: nat) returns (block: nat)
    requires num <= 0xF_FFFF
    ensures block == BlockInt(num, more, size) < WORD
  {
    LowBits(num, more, Log2(size / 16) % 8);
    block := num * 16 % WORD;
    if more {
      block := block + 8;
    }
    var exponent := LogOf(size / 16);
    block := block + exponent % 8;
  }

  lemma {:induction false} NumsCount(number: nat, ns: seq<nat>)
    ensures |EachNum(number, ns)| == |ns|
    decreases |ns|
  {
    if ns != [] {
      NumsCount(number, ns[1..]);
    }
  }

  // ----- The whole message -----

  /** After the fields below `number`: what has been written and counted, and what remains. */
  ghost predicate Halfway(p: Packet, number: nat, current: nat, done: seq<byte>, count: nat)
    requires WellTyped(p)
  {
    var rest := ItemsFrom(p, number);
    current <= number && Remains(Encode(ItemsIn(p), 0), done, rest, current)
    && Ascends(rest, current) && Claimed(ItemsIn(p), 0) == count + Claimed(rest, current)
  }

  /** The options of a field and of those after it. */
  lemma FieldSplit(p: Packet, number: nat, current: nat)
    requires WellTyped(p) && number <= LAST_NUMBER && number in p.options && Ascends(ItemsFrom(p, number), current)
    ensures var items, rest := ItemsOf(number, p.options[number]), ItemsFrom(p, number + 1);
            ItemsFrom(p, number) == items + rest && AllOf(items, number) && LastNumber(items, current) == number
            && current <= number && Ascends(items, current) && Ascends(rest, number)
  {
    var items, rest := ItemsOf(number, p.options[number]), ItemsFrom(p, number + 1);
    ItemsAreOf(number, p.options[number]);
    LastOfField(items, number, current);
    AscendsBoth(items, rest, current);
    assert items[0] == (items + rest)[0];
  }

  lemma FieldBytes(all: seq<byte>, done: seq<byte>, items: seq<Item>, rest: seq<Item>, number: nat, current: nat)
    requires Ascends(items, current) && Ascends(rest, number) && LastNumber(items, current) == number
    requires Ascends(items + rest, current) && Remains(all, done, items + rest, current)
    ensures |done| + |Encode(items, current)| <= |all| && Remains(all, done + Encode(items, current), rest, number)
  {
    EncodeBoth(items, rest, current, number);
    Reassociate(all, done, Encode(items, current), Encode(rest, number));
  }

  lemma Reassociate(all: seq<byte>, done: seq<byte>, first: seq<byte>, second: seq<byte>)
    requires all == done + (first + second)
    ensures all == (done + first) + second && |done| + |first| <= |all|
  {
  }

  lemma FieldStep(p: Packet, number: nat, current: nat, done: seq<byte>, count: nat)
    requires WellTyped(p) && number <= LAST_NUMBER && number in p.options && Halfway(p, number, current, done, count)
    ensures var items := ItemsOf(number, p.options[number]);
            Ascends(items, current) && |done| + |Encode(items, current)| <= |Encode(ItemsIn(p), 0)|
            && Halfway(p, number + 1, number, done + Encode(items, current),
                       count + |items| + if number >= 15 then (number - current) / FENCE_POST else 0)
  {
    var items, rest := ItemsOf(number, p.options[number]), ItemsFrom(p, number + 1);
    FieldSplit(p, number, current);
    FieldBytes(Encode(ItemsIn(p), 0), done, items, rest, number, current);
    ClaimedBoth(items, rest, current, number);
    ClaimedForField(items, number, current);
  }

  lemma FieldSkip(p: Packet, number: nat, current: nat, done: seq<byte>, count: nat)
    requires WellTyped(p) && number <= LAST_NUMBER && number !in p.options && Halfway(p, number, current, done, count)
    ensures Halfway(p, number + 1, current, done, count)
  {
    assert ItemsFrom(p, number) == ItemsFrom(p, number + 1);
  }

  lemma FieldsBegin(p: Packet)
    requires WellTyped(p)
    ensures Halfway(p, 0, 0, [], 0)
  {
    assert [] + Encode(ItemsIn(p), 0) == Encode(ItemsIn(p), 0);
  }

  lemma FieldsEnd(p: Packet, current: nat, done: seq<byte>, count: nat)
    requires WellTyped(p) && Halfway(p, LAST_NUMBER + 1, current, done, count)
    ensures done == Encode(ItemsIn(p), 0) && count == Claimed(ItemsIn(p), 0)
  {
    assert done + [] == done;
  }

  /** The options of one field of a packet, if it is set, and the new count and number. */
  method SerializeSet(p: Packet, number: nat, current: nat, buffer: array<byte>, end: nat, count: nat,
                      ghost original: seq<byte>, ghost done: seq<byte>)
    returns (n: nat, total: nat, now: nat, ghost more: seq<byte>)
    requires WellTyped(p) && HEADER_LENGTH + |Encode(ItemsIn(p), 0)| <= buffer.Length
    requires number <= LAST_NUMBER && Halfway(p, number, current, done, count)
    requires end == HEADER_LENGTH + |done| && Wrote(original, buffer[..], HEADER_LENGTH, done)
    modifies buffer
    ensures Halfway(p, number + 1, now, more, total) && |more| == |done| + n
    ensures Wrote(original, buffer[..], HEADER_LENGTH, more)
  {
    if number !in p.options {
      FieldSkip(p, number, current, done, count);
      n, total, now, more := 0, count, current, done;
    } else {
      FieldStep(p, number, current, done, count);
      ghost var before, code := buffer[..], Encode(ItemsOf(number, p.options[number]), current);
      var k;
      n, k := SerializeField(number, current, buffer, end, p.options[number]);
      WroteBoth(original, before, buffer[..], HEADER_LENGTH, done, code);
      total, now, more :=
          count + k + (if number >= 15 then (number - current) / FENCE_POST else 0), number, done + code;
    }
  }

  /** The options of a packet, from the fourth byte on: the fields in the order of their numbers. */
  method SerializeOptions(p: Packet, buffer: array<byte>) returns (end: nat, count: nat)
    requires WellTyped(p) && HEADER_LENGTH + |Encode(ItemsIn(p), 0)| <= buffer.Length
    modifies buffer
    ensures Wrote(old(buffer[..]), buffer[..], HEADER_LENGTH, Encode(ItemsIn(p), 0))
    ensures end == HEADER_LENGTH + |Encode(ItemsIn(p), 0)| && count == Claimed(ItemsIn(p), 0)
  {
    ghost var original := buffer[..];
    ghost var done: seq<byte> := [];
    var current: nat, number: nat := 0, 0;
    end, count := HEADER_LENGTH, 0;
    WroteNothing(buffer[..], HEADER_LENGTH);
    FieldsBegin(p);
    while number <= LAST_NUMBER
      invariant number <= LAST_NUMBER + 1 && end == HEADER_LENGTH + |done|
      invariant Halfway(p, number, current, done, count) && Wrote(original, buffer[..], HEADER_LENGTH, done)
    {
      var n;
      n, count, current, done := SerializeSet(p, number, current, buffer, end, count, original, done);
      end := end + n;
      number := number + 1;
    }
    FieldsEnd(p, current, done, count);
  }

  /** coap_serialize_message: the length of the message, or 0 if its header is too long. */
  method SerializeMessage(p: Packet, buffer: array<byte>) returns (length: nat)
    requires WellTyped(p) && HEADER_LENGTH + |Encode(ItemsIn(p), 0)| + |p.payload| <= buffer.Length
    modifies buffer
    ensures Serialize(p).TooLong? ==> length == 0
    ensures Serialize(p).Written? ==>
            length == |Serialize(p).bytes| && Wrote(old(buffer[..]), buffer[..], 0, Serialize(p).bytes)
  {
    ghost var original, options := buffer[..], Encode(ItemsIn(p), 0);
    var end, count := SerializeOptions(p, buffer);
    if end > MAX_HEADER_SIZE {
      return 0;
    }
    ghost var first := buffer[..];
    Copy(p.payload, buffer, end);
    ghost var second := buffer[..];
    WroteBoth(original, first, second, HEADER_LENGTH, options, p.payload);
    var head := FixedHeader(p, count);
    Copy(head, buffer, 0);
    HeaderBefore(original, second, buffer[..], head, options + p.payload);
    length := end + |p.payload|;
    assert head + (options + p.payload) == head + options + p.payload;
  }

  /** Bytes written from the fourth on, and then the four before them. */
  lemma HeaderBefore(a: seq<byte>, b: seq<byte>, c: seq<byte>, head: seq<byte>, rest: seq<byte>)
    requires |head| == HEADER_LENGTH && Wrote(a, b, HEADER_LENGTH, rest) && Wrote(b, c, 0, head)
    ensures Wrote(a, c, 0, head + rest)
  {
    var end := HEADER_LENGTH + |rest|;
    assert b[HEADER_LENGTH..] == rest + a[end..];
    assert c == head + b[HEADER_LENGTH..];
    assert c == a[..0] + (head + rest) + a[end..];
  }
}
