/** The option format of draft-ietf-core-coap-07, section 3.2, as the codec writes and reads it:
    options in ascending order of their numbers, each with the difference to the previous number
    in four bits and its length in four or twelve, and fence posts where a difference would not
    fit. */
module CoapOption {
  type byte = x: int | 0 <= x < 256

  const FENCE_POST := 14
  const LONG_LENGTH := 15
  const MAX_LENGTH := 270
  const WORD := 0x1_0000_0000

  /** One option: its number and its value. */
  datatype Item = Item(number: nat, value: seq<byte>)

  // ----- Integers -----

  /** The bytes of an unsigned integer from its highest one that is not 0 on: none for 0. */
  function IntBytes(v: nat): seq<byte> {
    if v == 0 then [] else IntBytes(v / 256) + [v % 256]
  }

  /** How an integer of 32 bits is written: each byte unless it and those above it are 0. */
  function FourBytes(v: nat): seq<byte>
    requires v < WORD
  {
    (if v >= 0x100_0000 then [v / 0x100_0000] else [])
    + (if v >= 0x1_0000 then [v / 0x1_0000 % 256] else [])
    + (if v >= 0x100 then [v / 0x100 % 256] else [])
    + (if v >= 1 then [v % 256] else [])
  }

  /** coap_parse_int_option, in 32 bits. */
  function IntOf(b: seq<byte>): (v: nat)
    ensures v < WORD
  {
    if b == [] then 0 else (IntOf(b[..|b| - 1]) * 256 + b[|b| - 1]) % WORD
  }

  lemma IntOfOneMore(b: seq<byte>, x: byte)
    ensures IntOf(b + [x]) == (IntOf(b) * 256 + x) % WORD
  {
    assert (b + [x])[..|b|] == b;
  }

  lemma FourBytesStep(v: nat)
    requires 0 < v < WORD
    ensures FourBytes(v) == FourBytes(v / 256) + [v % 256]
  {
    var w := v / 256;
    assert w / 0x1_0000 == v / 0x100_0000 && w / 0x100 == v / 0x1_0000;
    assert w / 0x100 % 256 == v / 0x1_0000 % 256;
  }

  lemma {:induction false} FourBytesAreIntBytes(v: nat)
    requires v < WORD
    ensures FourBytes(v) == IntBytes(v)
  {
    if v > 0 {
      FourBytesStep(v);
      FourBytesAreIntBytes(v / 256);
    }
  }

  /** An integer is read back from its bytes. */
  lemma {:induction false} IntRoundTrip(v: nat)
    requires v < WORD
    ensures IntOf(IntBytes(v)) == v
  {
    if v > 0 {
      IntRoundTrip(v / 256);
      IntOfOneMore(IntBytes(v / 256), v % 256);
    }
  }

  // ----- Writing options -----

  /** coap_set_option_header. */
  function Header(delta: nat, length: nat): seq<byte> {
    if length < LONG_LENGTH then [delta % 16 * 16 + length]
    else [delta % 16 * 16 + LONG_LENGTH, (length - LONG_LENGTH) % 256]
  }

  /** The number after the fence posts that are needed before an option. */
  function PastPosts(number: nat, current: nat): nat
    decreases if number > current then number - current else 0
  {
    if number - current > 15 then PastPosts(number, current + FENCE_POST - current % FENCE_POST) else current
  }

  /** How many fence posts coap_insert_option_fence_posts writes. */
  function PostCount(number: nat, current: nat): nat
    decreases if number > current then number - current else 0
  {
    if number - current > 15 then 1 + PostCount(number, current + FENCE_POST - current % FENCE_POST) else 0
  }

  function Posts(number: nat, current: nat): seq<byte>
    decreases if number > current then number - current else 0
  {
    if number - current > 15
    then Header(FENCE_POST - current % FENCE_POST, 0) + Posts(number, current + FENCE_POST - current % FENCE_POST)
    else []
  }

  function EncodeItem(item: Item, current: nat): seq<byte>
    requires item.number >= PastPosts(item.number, current)
  {
    Posts(item.number, current) + Header(item.number - PastPosts(item.number, current), |item.value|) + item.value
  }

  /** The numbers ascend from `current` and stay in the range of the draft's options. */
  predicate Ascends(items: seq<Item>, current: nat) {
    items != [] ==> current <= items[0].number <= 21 && Ascends(items[1..], items[0].number)
  }

  lemma PostsBefore(number: nat, current: nat)
    requires current <= number <= 21
    ensures PastPosts(number, current) == if number - current > 15 then FENCE_POST else current
    ensures PostCount(number, current) == if number - current > 15 then 1 else 0
    ensures Posts(number, current) == if number - current > 15 then Header(FENCE_POST - current, 0) else []
    ensures number - current > 15 ==> current <= 5
  {
  }

  function Encode(items: seq<Item>, current: nat): seq<byte>
    requires Ascends(items, current)
  {
    if items == [] then []
    else
      PostsBefore(items[0].number, current);
      EncodeItem(items[0], current) + Encode(items[1..], items[0].number)
  }

  /** The options that are written, fence posts included. */
  function Emitted(items: seq<Item>, current: nat): nat
    requires Ascends(items, current)
  {
    if items == [] then 0 else 1 + PostCount(items[0].number, current) + Emitted(items[1..], items[0].number)
  }

  /** The option count that is written: for the options from Uri-Query on, the number of fence
      posts is taken to be a fourteenth of the difference. */
  function Claimed(items: seq<Item>, current: nat): nat
    requires Ascends(items, current)
  {
    if items == [] then 0
    else
      var number := items[0].number;
      1 + (if number >= 15 then (number - current) / FENCE_POST else 0) + Claimed(items[1..], number)
  }

  /** Some option from Uri-Query on follows its predecessor at a distance of 14 or 15. */
  predicate HasLongStep(items: seq<Item>, current: nat) {
    items != []
    && ((items[0].number >= 15 && 14 <= items[0].number - current <= 15) || HasLongStep(items[1..], items[0].number))
  }

  /** The option count is right exactly if no option follows its predecessor at a distance of 14 or
      15; otherwise it is one too high. */
  lemma {:induction false} CountIsRight(items: seq<Item>, current: nat)
    requires Ascends(items, current)
    ensures Claimed(items, current) == Emitted(items, current) + if HasLongStep(items, current) then 1 else 0
    ensures HasLongStep(items, current) ==> current <= 7
  {
    if items != [] {
      PostsBefore(items[0].number, current);
      CountIsRight(items[1..], items[0].number);
    }
  }

  // ----- Reading one option -----

  /** An option read at some position: its number, its value's place and the next position. */
  datatype Read = Read(number: nat, start: nat, next: nat) | Overrun

  /** The head of the loop of coap_parse_message; the number is kept in a byte. */
  function ReadOne(b: seq<byte>, at: nat, current: nat): (r: Read)
    ensures r.Read? ==> at < r.start <= r.next <= |b| && r.start <= at + 2 && r.next <= r.start + MAX_LENGTH
    ensures r.Read? ==> r.number <= 255 && r.number <= current + 15
  {
    if at >= |b| || (b[at] % 16 == LONG_LENGTH && at + 1 >= |b|) then Overrun
    else
      var number := (current + b[at] / 16) % 256;
      var start := if b[at] % 16 < LONG_LENGTH then at + 1 else at + 2;
      var length := if b[at] % 16 < LONG_LENGTH then b[at] % 16 else b[at + 1] + LONG_LENGTH;
      if start + length > |b| then Overrun else Read(number, start, start + length)
  }

  /** `part` is what `b` holds at `at`. */
  predicate Holds(b: seq<byte>, at: nat, part: seq<byte>) {
    at + |part| <= |b| && b[at..at + |part|] == part
  }

  lemma HoldsBoth(b: seq<byte>, at: nat, first: seq<byte>, second: seq<byte>)
    requires Holds(b, at, first + second)
    ensures Holds(b, at, first) && Holds(b, at + |first|, second)
  {
    assert b[at..at + |first + second|][..|first|] == first;
    assert b[at..at + |first + second|][|first|..] == second;
  }

  lemma ReadShort(b: seq<byte>, at: nat, current: nat, delta: nat, length: nat)
    requires delta <= 15 && current + delta <= 255 && length < LONG_LENGTH && at + 1 + length <= |b|
    requires b[at] == delta * 16 + length
    ensures ReadOne(b, at, current) == Read(current + delta, at + 1, at + 1 + length)
  {
    assert b[at] / 16 == delta && b[at] % 16 == length;
  }

  lemma ReadLong(b: seq<byte>, at: nat, current: nat, delta: nat, length: nat)
    requires delta <= 15 && current + delta <= 255 && LONG_LENGTH <= length <= MAX_LENGTH && at + 2 + length <= |b|
    requires b[at] == delta * 16 + LONG_LENGTH && b[at + 1] == length - LONG_LENGTH
    ensures ReadOne(b, at, current) == Read(current + delta, at + 2, at + 2 + length)
  {
    assert b[at] / 16 == delta && b[at] % 16 == LONG_LENGTH;
  }

  /** A header with its value is read back. */
  lemma ReadHeader(b: seq<byte>, at: nat, current: nat, delta: nat, value: seq<byte>)
    requires delta <= 15 && current + delta <= 255 && |value| <= MAX_LENGTH
    requires Holds(b, at, Header(delta, |value|) + value)
    ensures var h := |Header(delta, |value|)|;
            ReadOne(b, at, current) == Read(current + delta, at + h, at + h + |value|)
            && b[at + h..at + h + |value|] == value
  {
    var header := Header(delta, |value|);
    HoldsBoth(b, at, header, value);
    assert b[at] == b[at..at + |header|][0];
    if |value| < LONG_LENGTH {
      ReadShort(b, at, current, delta, |value|);
    } else {
      assert b[at + 1] == b[at..at + |header|][1];
      ReadLong(b, at, current, delta, |value|);
    }
  }

  /** The options found by the loop over `count` options, fence posts included; the scan is not
      complete if it leaves the buffer. */
  datatype Scan = Scan(items: seq<Item>, next: nat, complete: bool)

  function ScanOptions(b: seq<byte>, at: nat, current: nat, count: nat): Scan
    decreases count, |b|
  {
    if count == 0 then Scan([], at, true)
    else
      match ReadOne(b, at, current)
      case Overrun => Scan([], at, false)
      case Read(number, start, next) => After([Item(number, b[start..next])], ScanOptions(b, next, number, count - 1))
  }

  function After(items: seq<Item>, s: Scan): Scan {
    Scan(items + s.items, s.next, s.complete)
  }

  /** The options with the fence posts that are written before them. */
  function WithPosts(items: seq<Item>, current: nat): seq<Item>
    requires Ascends(items, current)
  {
    if items == [] then []
    else Fenced(items[0], current) + WithPosts(items[1..], items[0].number)
  }

  function LastNumber(items: seq<Item>, current: nat): nat
    decreases |items|
  {
    if items == [] then current else LastNumber(items[1..], items[0].number)
  }

  ghost predicate ShortValues(items: seq<Item>) {
    forall k :: 0 <= k < |items| ==> |items[k].value| <= MAX_LENGTH
  }

  // The lemmas below speak of any function that scans option by option, not of ScanOptions, whose
  // unfolding they do not need.
  type Scanner = (nat, nat, nat) -> Scan

  /** The option at `at` is `item`, and the next one is at `next`. */
  predicate Reads(b: seq<byte>, at: nat, current: nat, item: Item, next: nat) {
    var r := ReadOne(b, at, current);
    r.Read? && r.number == item.number && r.next == next && b[r.start..r.next] == item.value
  }

  ghost predicate ScansBySteps(b: seq<byte>, scan: Scanner) {
    forall at: nat, current: nat, count: nat, item: Item,
        next: nat {:trigger Reads(b, at, current, item, next), scan(at, current, count)} ::
      count > 0 && Reads(b, at, current, item, next) ==>
          scan(at, current, count) == After([item], scan(next, item.number, count - 1))
  }

  lemma ScanPlain(b: seq<byte>, scan: Scanner, at: nat, current: nat, delta: nat, item: Item, end: nat, count: nat)
    requires ScansBySteps(b, scan) && delta <= 15 && item.number == current + delta <= 255 && |item.value| <= MAX_LENGTH
    requires Holds(b, at, Header(delta, |item.value|) + item.value)
             && end == at + |Header(delta, |item.value|)| + |item.value|
    requires count > 0
    ensures scan(at, current, count) == After([item], scan(end, item.number, count - 1))
  {
    ReadHeader(b, at, current, delta, item.value);
    assert Reads(b, at, current, item, end);
  }

  lemma Chain(a: Scan, b: Scan, c: Scan, first: seq<Item>, second: seq<Item>)
    requires a == After(first, b) && b == After(second, c)
    ensures a == After(first + second, c)
  {
    assert first + (second + c.items) == (first + second) + c.items;
  }

  /** The options that reading `item` after `current` yields. */
  function Fenced(item: Item, current: nat): seq<Item> {
    if item.number - current > 15 then [Item(FENCE_POST, []), item] else [item]
  }

  lemma FencedBytes(b: seq<byte>, at: nat, item: Item, current: nat)
    requires current + 15 < item.number <= 21 && PastPosts(item.number, current) <= item.number
             && Holds(b, at, EncodeItem(item, current))
    ensures Holds(b, at, Header(FENCE_POST - current, 0) + [])
    ensures var plain := Header(item.number - FENCE_POST, |item.value|) + item.value;
            Holds(b, at + 1, plain) && |EncodeItem(item, current)| == 1 + |plain|
  {
    PostsBefore(item.number, current);
    var post := Header(FENCE_POST - current, 0);
    var plain := Header(item.number - FENCE_POST, |item.value|) + item.value;
    assert EncodeItem(item, current) == post + plain;
    HoldsBoth(b, at, post, plain);
    assert post + [] == post;
  }

  lemma ScanFenced(b: seq<byte>, scan: Scanner, at: nat, current: nat, item: Item, end: nat, count: nat)
    requires ScansBySteps(b, scan) && current + 15 < item.number <= 21 && |item.value| <= MAX_LENGTH
    requires PastPosts(item.number, current) <= item.number && Holds(b, at, EncodeItem(item, current))
    requires count >= 2 && end == at + |EncodeItem(item, current)|
    ensures scan(at, current, count) == After(Fenced(item, current), scan(end, item.number, count - 2))
  {
    var fence := Item(FENCE_POST, []);
    FencedBytes(b, at, item, current);
    PostsBefore(item.number, current);
    ScanPlain(b, scan, at, current, FENCE_POST - current, fence, at + 1, count);
    ScanPlain(b, scan, at + 1, FENCE_POST, item.number - FENCE_POST, item, end, count - 1);
    Chain(scan(at, current, count), scan(at + 1, FENCE_POST, count - 1), scan(end, item.number, count - 2), [fence],
          [item]);
  }

  /** Reading one option that was written, with the fence post before it if there is one. */
  lemma ScanItem(b: seq<byte>, scan: Scanner, at: nat, current: nat, item: Item, end: nat, count: nat)
    requires ScansBySteps(b, scan) && current <= item.number <= 21 && |item.value| <= MAX_LENGTH
    requires PastPosts(item.number, current) <= item.number && Holds(b, at, EncodeItem(item, current))
    requires count >= 1 + PostCount(item.number, current) && end == at + |EncodeItem(item, current)|
    ensures scan(at, current, count)
            == After(Fenced(item, current), scan(end, item.number, count - 1 - PostCount(item.number, current)))
  {
    PostsBefore(item.number, current);
    if item.number - current > 15 {
      ScanFenced(b, scan, at, current, item, end, count);
    } else {
      assert EncodeItem(item, current) == Header(item.number - current, |item.value|) + item.value;
      ScanPlain(b, scan, at, current, item.number - current, item, end, count);
    }
  }

  lemma EncodeStep(items: seq<Item>, current: nat)
    requires Ascends(items, current) && items != []
    ensures current <= items[0].number <= 21 && PastPosts(items[0].number, current) <= items[0].number
    ensures Encode(items, current) == EncodeItem(items[0], current) + Encode(items[1..], items[0].number)
    ensures Emitted(items, current) == 1 + PostCount(items[0].number, current) + Emitted(items[1..], items[0].number)
    ensures WithPosts(items, current) == Fenced(items[0], current) + WithPosts(items[1..], items[0].number)
    ensures LastNumber(items, current) == LastNumber(items[1..], items[0].number)
  {
    PostsBefore(items[0].number, current);
  }

  /** Reading all options that were written, and then `more` options: the options come back, with
      the fence posts. */
  lemma {:induction false} ScanItems(b: seq<byte>, scan: Scanner, at: nat, current: nat, items: seq<Item>, end: nat,
                                     more: nat)
    requires ScansBySteps(b, scan) && Ascends(items, current) && ShortValues(items)
    requires Holds(b, at, Encode(items, current)) && end == at + |Encode(items, current)|
    ensures scan(at, current, Emitted(items, current) + more)
            == After(WithPosts(items, current), scan(end, LastNumber(items, current), more))
    decreases |items|
  {
    var count := Emitted(items, current) + more;
    if items == [] {
      assert [] + scan(at, current, more).items == scan(at, current, more).items;
    } else {
      EncodeStep(items, current);
      var item, rest := items[0], items[1..];
      var code := EncodeItem(item, current);
      HoldsBoth(b, at, code, Encode(rest, item.number));
      ScanItem(b, scan, at, current, item, at + |code|, count);
      ScanItems(b, scan, at + |code|, item.number, rest, end, more);
      Chain(scan(at, current, count), scan(at + |code|, item.number, Emitted(rest, item.number) + more),
            scan(end, LastNumber(items, current), more), Fenced(item, current), WithPosts(rest, item.number));
    }
  }

  lemma ScanOptionsSteps(b: seq<byte>)
    ensures ScansBySteps(b, (at: nat, current: nat, count: nat) => ScanOptions(b, at, current, count))
  {
  }

  /** Each option takes at least one byte. */
  lemma {:induction false} OptionsTakeBytes(b: seq<byte>, at: nat, current: nat, count: nat)
    ensures ScanOptions(b, at, current, count).complete ==> ScanOptions(b, at, current, count).next >= at + count
    decreases count
  {
    if count > 0 {
      var r := ReadOne(b, at, current);
      if r.Read? {
        OptionsTakeBytes(b, r.next, r.number, count - 1);
      }
    }
  }

  /** Reading more options takes more bytes. */
  lemma {:induction false} MoreTakeMore(b: seq<byte>, at: nat, current: nat, count: nat, more: nat)
    ensures ScanOptions(b, at, current, count + more).complete ==>
              ScanOptions(b, at, current, count).complete
              && ScanOptions(b, at, current, count).next + more <= ScanOptions(b, at, current, count + more).next
    decreases count
  {
    if count == 0 {
      OptionsTakeBytes(b, at, current, more);
    } else {
      var r := ReadOne(b, at, current);
      if r.Read? {
        MoreTakeMore(b, r.next, r.number, count - 1, more);
      }
    }
  }

  lemma {:induction false} ValuesFit(items: seq<Item>, current: nat)
    requires Ascends(items, current) && |Encode(items, current)| <= MAX_LENGTH
    ensures ShortValues(items)
    decreases |items|
  {
    if items != [] {
      assert |Encode(items, current)| == |EncodeItem(items[0], current)| + |Encode(items[1..], items[0].number)| by {
        PostsBefore(items[0].number, current);
      }
      ValuesFit(items[1..], items[0].number);
    }
  }
}
