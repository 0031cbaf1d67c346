/** CoAP messages: the packet with its options, how it is written, and how it is parsed. The option
    fields of the packet are kept by option number; a field whose bit is not set is absent. */
module CoapMessage {
  import opened CoapOption
  import opened CoapText

  const HEADER_LENGTH := 4
  const MAX_HEADER_SIZE := 47
  const MAX_CHUNK := 128
  const ETAG_LENGTH := 8
  const MAX_ACCEPT := 2
  const BAD_REQUEST := 128
  const BAD_OPTION := 130
  const PROXYING_NOT_SUPPORTED := 165

  datatype Value =
    | Num(n: nat)
    | Opaque(b: seq<byte>)
    | Text(t: text)
    | Nums(ns: seq<nat>)
    | Block(num: nat, more: bool, size: nat)
    | Present

  datatype Kind = KNum(limit: nat) | KOpaque | KText | KMulti(separator: byte) | KNums | KBlock | KPresent | KProxy
      | KFence | KUnknown

  /** The options of the draft. */
  function KindOf(number: nat): Kind {
    match number
    case 1 => KNum(0x1_0000)  // Content-Type
    case 2 => KNum(WORD)      // Max-Age
    case 3 => KProxy          // Proxy-Uri
    case 4 => KOpaque         // ETag
    case 5 => KText           // Uri-Host
    case 6 => KMulti(SLASH)   // Location-Path
    case 7 => KNum(0x1_0000)  // Uri-Port
    case 8 => KMulti(AMPERSAND)  // Location-Query
    case 9 => KMulti(SLASH)   // Uri-Path
    case 10 => KNum(0x1_0000) // Observe
    case 11 => KOpaque        // Token
    case 12 => KNums          // Accept
    case 13 => KOpaque        // If-Match
    case 14 => KFence
    case 15 => KMulti(AMPERSAND)  // Uri-Query
    case 17 => KBlock         // Block2
    case 19 => KBlock         // Block1
    case 21 => KPresent       // If-None-Match
    case _ => KUnknown
  }

  type Options = map<nat, Value>

  datatype Packet = Packet(kind: nat, code: byte, mid: nat, options: Options, payload: seq<byte>)

  /** What the setters store under an option number. */
  predicate Typed(number: nat, v: Value) {
    match KindOf(number)
    case KNum(limit) => v.Num? && v.n < limit
    case KOpaque => v.Opaque? && |v.b| <= ETAG_LENGTH
    case KText => v.Text?
    case KMulti(_) => v.Text?
    case KNums => v.Nums? && 1 <= |v.ns| <= MAX_ACCEPT && forall k :: 0 <= k < |v.ns| ==> v.ns[k] < 0x1_0000
    case KBlock => v.Block? && v.num <= 0xF_FFFF && 16 <= v.size <= 2048
    case KPresent => v.Present?
    case _ => false
  }

  ghost predicate WellTyped(p: Packet) {
    p.kind < 4 && p.mid < 0x1_0000 && |p.payload| <= MAX_CHUNK
    && forall n :: n in p.options ==> Typed(n, p.options[n])
  }

  // ----- Blocks -----

  /** coap_log_2, rounding down; 0 for 0. */
  function Log2(v: nat): nat {
    if v < 2 then 0 else 1 + Log2(v / 2)
  }

  function Shift(v: nat, k: nat): nat {
    if k == 0 then v else 2 * Shift(v, k - 1)
  }

  function BlockInt(num: nat, more: bool, size: nat): nat {
    num * 16 % WORD + (if more then 8 else 0) + Log2(size / 16) % 8
  }

  /** The size that is read back: the size rounded down to 16 times a power of two. */
  function BlockSize(size: nat): nat {
    Shift(16, Log2(size / 16) % 8)
  }

  function BlockOf(r: nat): Value {
    Block(r / 16, r / 8 % 2 == 1, Shift(16, r % 8))
  }

  lemma LowBits(num: nat, more: bool, low: nat)
    requires num <= 0xF_FFFF && low < 8
    ensures var r := num * 16 % WORD + (if more then 8 else 0) + low;
            r < WORD && r / 16 == num && (r / 8 % 2 == 1 <==> more) && r % 8 == low
  {
    var r := 16 * num + (if more then 8 else 0) + low;
    assert r / 8 == 2 * num + if more then 1 else 0;
  }

  lemma BlockReread(num: nat, more: bool, size: nat)
    requires num <= 0xF_FFFF
    ensures BlockInt(num, more, size) < WORD && BlockOf(BlockInt(num, more, size)) == Block(num, more, BlockSize(size))
  {
    LowBits(num, more, Log2(size / 16) % 8);
  }

  lemma ShiftValues()
    ensures Shift(16, 0) == 16 && Shift(16, 1) == 32 && Shift(16, 2) == 64 && Shift(16, 3) == 128
    ensures Shift(16, 4) == 256 && Shift(16, 5) == 512 && Shift(16, 6) == 1024 && Shift(16, 7) == 2048
  {
  }

  /** Exactly the sizes that the block option can express are kept. */
  lemma SizesKept(size: nat)
    requires 16 <= size <= 2048
    ensures BlockSize(size) == size <==> size in {16, 32, 64, 128, 256, 512, 1024, 2048}
    ensures BlockSize(size) <= size < 2 * BlockSize(size)
  {
    LogSteps(size / 16);
    ShiftValues();
  }

  lemma {:induction false} LogSteps(q: nat)
    requires 1 <= q <= 128
    ensures Log2(q) == if q < 2 then 0 else if q < 4 then 1 else if q < 8 then 2 else if q < 16 then 3
            else if q < 32 then 4
                       else if q < 64 then 5 else if q < 128 then 6 else 7
  {
    if q >= 2 {
      LogSteps(q / 2);
    }
  }

  // ----- Writing -----

  function EachPart(number: nat, parts: seq<text>): seq<Item>
    decreases |parts|
  {
    if parts == [] then [] else [Item(number, parts[0])] + EachPart(number, parts[1..])
  }

  function EachNum(number: nat, ns: seq<nat>): seq<Item>
    decreases |ns|
  {
    if ns == [] then [] else [Item(number, IntBytes(ns[0]))] + EachNum(number, ns[1..])
  }

  /** The options written for one field. */
  function ItemsOf(number: nat, v: Value): seq<Item>
    requires Typed(number, v)
  {
    match v
    case Num(n) => [Item(number, IntBytes(n))]
    case Opaque(b) => [Item(number, b)]
    case Text(t) => if KindOf(number).KMulti? then EachPart(number, Split(t, KindOf(number).separator))
        else [Item(number, t)]
    case Nums(ns) => EachNum(number, ns)
    case Block(num, more, size) => [Item(number, IntBytes(BlockInt(num, more, size)))]
    case Present => [Item(number, IntBytes(0))]
  }

  const LAST_NUMBER := 21

  /** The options of a packet from `number` on, in the order in which they are written. */
  ghost function ItemsFrom(p: Packet, number: nat): seq<Item>
    requires WellTyped(p)
    decreases if number <= LAST_NUMBER then LAST_NUMBER + 1 - number else 0, p
  {
    if number > LAST_NUMBER then []
    else (if number in p.options then ItemsOf(number, p.options[number]) else []) + ItemsFrom(p, number + 1)
  }

  ghost predicate AllOf(items: seq<Item>, number: nat) {
    items != [] && forall k :: 0 <= k < |items| ==> items[k].number == number
  }

  lemma ItemsAreOf(number: nat, v: Value)
    requires Typed(number, v)
    ensures AllOf(ItemsOf(number, v), number)
  {
    match v
    case Num(n) =>
    case Opaque(b) =>
    case Text(t) =>
      if KindOf(number).KMulti? {
        SplitIsNotEmpty(t, KindOf(number).separator, 0, 0);
        PartsAreOf(number, Split(t, KindOf(number).separator));
      }
    case Nums(ns) => NumsAreOf(number, ns);
    case Block(num, more, size) =>
    case Present =>
  }

  lemma {:induction false} PartsAreOf(number: nat, parts: seq<text>)
    ensures parts != [] ==> AllOf(EachPart(number, parts), number)
    decreases |parts|
  {
    if parts != [] {
      PartsAreOf(number, parts[1..]);
    }
  }

  lemma {:induction false} NumsAreOf(number: nat, ns: seq<nat>)
    ensures ns != [] ==> AllOf(EachNum(number, ns), number)
    decreases |ns|
  {
    if ns != [] {
      NumsAreOf(number, ns[1..]);
    }
  }

  lemma {:induction false} AscendsWith(items: seq<Item>, rest: seq<Item>, number: nat, current: nat)
    requires forall k :: 0 <= k < |items| ==> items[k].number == number
    requires current <= number <= LAST_NUMBER && Ascends(rest, number)
    ensures Ascends(items + rest, current)
    decreases |items|
  {
    if items == [] {
      assert items + rest == rest;
    } else {
      AscendsWith(items[1..], rest, number, number);
      assert (items + rest)[1..] == items[1..] + rest;
    }
  }

  lemma {:induction false} ItemsAscend(p: Packet, number: nat, current: nat)
    requires WellTyped(p) && current <= number
    ensures Ascends(ItemsFrom(p, number), current)
    decreases if number <= LAST_NUMBER then LAST_NUMBER + 1 - number else 0
  {
    if number <= LAST_NUMBER {
      if number in p.options {
        ItemsAscend(p, number + 1, number);
        ItemsAreOf(number, p.options[number]);
        AscendsWith(ItemsOf(number, p.options[number]), ItemsFrom(p, number + 1), number, current);
      } else {
        ItemsAscend(p, number + 1, current);
        assert [] + ItemsFrom(p, number + 1) == ItemsFrom(p, number + 1);
      }
    }
  }

  ghost function ItemsIn(p: Packet): (items: seq<Item>)
    requires WellTyped(p)
    ensures Ascends(items, 0)
  {
    ItemsAscend(p, 0, 0);
    ItemsFrom(p, 0)
  }

  /** The first four bytes; the option count is kept in four bits. */
  function FixedHeader(p: Packet, count: nat): seq<byte>
    requires p.kind < 4 && p.mid < 0x1_0000
  {
    [64 + p.kind * 16 + count % 16, p.code, p.mid / 256, p.mid % 256]
  }

  datatype Written = Written(bytes: seq<byte>, payloadAt: nat) | TooLong

  /** coap_serialize_message. */
  ghost function Serialize(p: Packet): Written
    requires WellTyped(p)
  {
    var items := ItemsIn(p);
    var head := FixedHeader(p, Claimed(items, 0)) + Encode(items, 0);
    if |head| <= MAX_HEADER_SIZE then Written(head + p.payload, |head|) else TooLong
  }

  // ----- Parsing -----

  datatype Applied = Fine(options: Options) | Refused(code: nat)

  function TextIn(options: Options, number: nat): text {
    if number in options && options[number].Text? then options[number].t else []
  }

  function NumsIn(options: Options, number: nat): seq<nat> {
    if number in options && options[number].Nums? then options[number].ns else []
  }

  function Prefix(b: seq<byte>, n: nat): seq<byte> {
    if |b| <= n then b else b[..n]
  }

  /** The switch of coap_parse_message on one option. */
  function Apply(options: Options, number: nat, value: seq<byte>): Applied {
    match KindOf(number)
    case KNum(limit) => Fine(options[number := Num(if limit == 0 then 0 else IntOf(value) % limit)])
    case KOpaque => Fine(options[number := Opaque(Prefix(value, ETAG_LENGTH))])
    case KText => Fine(options[number := Text(value)])
    case KMulti(separator) => Fine(options[number := Text(Merge(TextIn(options, number), value, separator))])
    case KNums =>
      var ns := NumsIn(options, number);
      Fine(options[number := Nums(if |ns| < MAX_ACCEPT then ns + [IntOf(value) % 0x1_0000] else ns)])
    case KBlock => Fine(options[number := BlockOf(IntOf(value))])
    case KPresent => Fine(options[number := Present])
    case KProxy => Refused(PROXYING_NOT_SUPPORTED)
    case KFence => Fine(options)
    case KUnknown => if number % 2 == 1 then Refused(BAD_OPTION) else Fine(options)
  }

  /** The switch on several options in order. */
  function ApplyAll(options: Options, items: seq<Item>): Applied
    decreases |items|
  {
    if items == [] then Fine(options)
    else
      match Apply(options, items[0].number, items[0].value)
      case Refused(code) => Refused(code)
      case Fine(o) => ApplyAll(o, items[1..])
  }

  datatype Message = Message(packet: Packet, payloadAt: nat) | Rejected(code: nat) | Beyond

  /** The payload length, in 16 bits and at most a chunk. */
  function PayloadLength(dataLength: nat, at: nat): nat {
    var n := (dataLength - at) % 0x1_0000;
    if n > MAX_CHUNK then MAX_CHUNK else n
  }

  /** The end of coap_parse_message, after the options have been scanned and applied. */
  function Finish(b: seq<byte>, dataLength: nat, scan: Scan, applied: Applied): Message
    requires |b| >= HEADER_LENGTH
  {
    match applied
    case Refused(code) => Rejected(code)
    case Fine(options) =>
      var n := PayloadLength(dataLength, scan.next);
      if !scan.complete || scan.next + n > |b| then Beyond
      else Message(Packet(b[0] / 16 % 4, b[1], b[2] as int * 256 + b[3] as int, options, b[scan.next..scan.next + n]),
                   scan.next)
  }

  /** coap_parse_message on the first `dataLength` bytes of the buffer `b`. */
  function Parse(b: seq<byte>, dataLength: nat): Message {
    if |b| < HEADER_LENGTH then Beyond
    else if b[0] / 64 != 1 then Rejected(BAD_REQUEST)
    else
      var scan := ScanOptions(b, HEADER_LENGTH, 0, b[0] % 16);
      Finish(b, dataLength, scan, ApplyAll(map[], scan.items))
  }
}
