/** The internet checksum of tunslip (RFC 1071, section 2), the check of a received packet, and the two
    places that write checksums: the relay of DHCP answers and the identification filled in on the way
    to the serial line (RFC 1624, section 3). */
module Checksum {
  type byte = x: int | 0 <= x < 0x100
  type uint16 = x: int | 0 <= x < 0x1_0000

  const ONES := 0xffff
  const TCP := 6
  const UDP := 17
  const ICMP := 1
  // where the fields of struct ip lie
  const LENGTH := 2
  const ID := 4
  const OFFSET := 6
  const PROTOCOL := 9
  const SUM := 10
  const ADDRESSES := 12
  const UDP_SUM := 26
  const HEADERS := 28

  datatype ByteOrder = LittleEndian | BigEndian

  // ----- One's complement sums -----

  /** The sum of the big-endian words; a last odd byte is the high half of a word. */
  function WordSum(s: seq<byte>): nat {
    if |s| == 0 then 0 else if |s| == 1 then 256 * s[0] else 256 * s[0] + s[1] + WordSum(s[2..])
  }

  /** The 16-bit one's complement form of a sum: congruent to it modulo 65535, and zero only for zero. */
  function Folded(total: nat): uint16 {
    if total == 0 then 0 else (total - 1) % ONES + 1
  }

  /** One addition of the running sum, with the carry added back in. */
  function Plus(sum: uint16, t: uint16): uint16 {
    var s := (sum + t) % 0x1_0000;
    if s < t then s + 1 else s
  }

  lemma ModCongruent(a: nat, b: nat, k: int)
    requires a == b + k * ONES
    ensures a % ONES == b % ONES
  {
    var q := b / ONES;
    assert a == (q + k) * ONES + b % ONES;
    ModUnique(a, q + k, b % ONES);
  }

  lemma ModUnique(a: nat, q: int, r: nat)
    requires a == q * ONES + r && r < ONES
    ensures a % ONES == r
  {
  }

  lemma FoldedAt(total: nat)
    ensures Folded(total) % ONES == total % ONES
    ensures Folded(total) == 0 <==> total == 0
    ensures total <= ONES ==> Folded(total) == total
  {
    if total > 0 {
      ModCongruent(Folded(total), total, -((total - 1) / ONES));
    }
  }

  lemma FoldedPlus(sum: uint16, t: uint16, rest: nat)
    ensures Folded(Plus(sum, t) + rest) == Folded(sum + t + rest)
  {
    if sum + t >= 0x1_0000 {
      ModCongruent(sum + t + rest - 1, Plus(sum, t) + rest - 1, 1);
    }
  }

  // ----- Byte order -----

  function Swap(x: uint16): uint16 {
    256 * (x % 256) + x / 256
  }

  /** htons and ntohs. */
  function Htons(x: uint16, order: ByteOrder): uint16 {
    if order.BigEndian? then x else Swap(x)
  }

  lemma Halves(h: byte, l: byte)
    ensures (256 * h + l) / 256 == h && (256 * h + l) % 256 == l
  {
  }

  /** Swapping the bytes multiplies by 256 modulo 65535. */
  lemma SwapMultiplies(a: uint16)
    ensures Swap(a) == 256 * a - ONES * (a / 256)
    ensures Swap(Swap(a)) == a
    ensures Swap(ONES - a) == ONES - Swap(a)
  {
    var h, l := a / 256, a % 256;
    assert a == 256 * h + l;
    Halves(l, h);
    assert ONES - a == 256 * (255 - h) + (255 - l);
    Halves(255 - h, 255 - l);
  }

  lemma PlusCarries(a: uint16, b: uint16)
    ensures Plus(a, b) == a + b || Plus(a, b) == a + b - ONES
    ensures Plus(a, b) == 0 <==> a == 0 && b == 0
  {
  }

  lemma SameResidue(x: uint16, y: uint16, k: int)
    requires x == y + ONES * k && (x == 0 <==> y == 0)
    ensures x == y
  {
  }

  /** So it commutes with the addition. */
  lemma PlusSwaps(a: uint16, b: uint16)
    ensures Plus(Swap(a), Swap(b)) == Swap(Plus(a, b))
  {
    var c := Plus(a, b);
    SwapMultiplies(a);
    SwapMultiplies(b);
    SwapMultiplies(c);
    PlusCarries(a, b);
    PlusCarries(Swap(a), Swap(b));
    var j, k := if c == a + b then 0 else 256, if Plus(Swap(a), Swap(b)) == Swap(a) + Swap(b) then 0 else 1;
    SameResidue(Plus(Swap(a), Swap(b)), Swap(c), j + c / 256 - a / 256 - b / 256 - k);
  }

  // ----- Fields of a packet -----

  /** The big-endian word at offset i. */
  function Word(p: seq<byte>, i: nat): uint16
    requires i + 1 < |p|
  {
    var high: int := p[i];
    256 * high + p[i + 1]
  }

  function Put(p: seq<byte>, i: nat, w: uint16): (r: seq<byte>)
    requires i + 1 < |p|
    ensures |r| == |p|
  {
    p[i := w / 256][i + 1 := w % 256]
  }

  /** What a 16-bit field reads as on the host. */
  function HostWord(p: seq<byte>, i: nat, order: ByteOrder): uint16
    requires i + 1 < |p|
  {
    Htons(Word(p, i), order)
  }

  function HostPut(p: seq<byte>, i: nat, w: uint16, order: ByteOrder): (r: seq<byte>)
    requires i + 1 < |p|
    ensures |r| == |p|
  {
    Put(p, i, Htons(w, order))
  }

  /** ip_hl */
  function HeaderLength(p: seq<byte>): nat
    requires |p| > 0
  {
    4 * (p[0] % 16)
  }

  /** The 16-bit difference of the lengths. */
  function SegmentLength(p: seq<byte>, len: nat): uint16
    requires |p| > 0
  {
    (len - HeaderLength(p)) % 0x1_0000
  }

  /** The buffer holds a struct ip, the header, and the segment once the length field is right. */
  predicate InBuffer(p: seq<byte>, len: nat) {
    |p| >= HEADERS && HeaderLength(p) <= |p|
        && (Word(p, LENGTH) == len ==> HeaderLength(p) + SegmentLength(p, len) <= |p|)
  }

  // ----- check_ip -----

  function Segment(p: seq<byte>, len: nat): seq<byte>
    requires InBuffer(p, len) && Word(p, LENGTH) == len
  {
    p[HeaderLength(p)..HeaderLength(p) + SegmentLength(p, len)]
  }

  /** The pseudo header (protocol and length are added without a carry), then the segment. */
  function SegmentTotal(p: seq<byte>, len: nat): nat
    requires InBuffer(p, len) && Word(p, LENGTH) == len
  {
    (p[PROTOCOL] + SegmentLength(p, len)) % 0x1_0000 + WordSum(p[ADDRESSES..ADDRESSES + 8]) + WordSum(Segment(p, len))
  }

  function Check(p: seq<byte>, len: nat): int
    requires InBuffer(p, len)
  {
    if p[0] / 16 != 4 then -1
    else if Word(p, LENGTH) > len then -2
    else if Word(p, LENGTH) < len then -3
    else if WordSum(p[..HeaderLength(p)]) % ONES != 0 then -4
    else if p[PROTOCOL] == TCP then if SegmentTotal(p, len) % ONES != 0 then -5 else 0
    else if p[PROTOCOL] == UDP then if SegmentTotal(p, len) % ONES != 0 && Word(p, UDP_SUM) != 0 then -6 else 0
    else if p[PROTOCOL] == ICMP then if WordSum(Segment(p, len)) % ONES != 0 then -7 else 0
    else 0
  }

  // ----- Sums and single words -----

  /** Writing the word at an even offset changes the sum of the words by exactly the difference. */
  lemma {:induction false} WordSumPut(s: seq<byte>, i: nat, w: uint16)
    requires i % 2 == 0 && i + 1 < |s|
    ensures WordSum(Put(s, i, w)) == WordSum(s) - Word(s, i) + w
    decreases i
  {
    var t := Put(s, i, w);
    if i == 0 {
      assert t[2..] == s[2..];
    } else {
      assert t[2..] == Put(s[2..], i - 2, w);
      WordSumPut(s[2..], i - 2, w);
    }
  }

  /** What a word written at i adds to the sum of p[from..to]. */
  function Gain(p: seq<byte>, i: nat, w: uint16, from: nat, to: nat): int
    requires i + 1 < |p|
  {
    if from <= i && i + 2 <= to then w - Word(p, i) else 0
  }

  lemma SliceSum(p: seq<byte>, i: nat, w: uint16, from: nat, to: nat)
    requires i + 1 < |p| && from <= to <= |p| && i % 2 == from % 2 == 0 && (i + 2 <= to || to <= i)
    ensures WordSum(Put(p, i, w)[from..to]) == WordSum(p[from..to]) + Gain(p, i, w, from, to)
  {
    if from <= i && i + 2 <= to {
      assert Put(p, i, w)[from..to] == Put(p[from..to], i - from, w);
      WordSumPut(p[from..to], i - from, w);
    } else {
      assert Put(p, i, w)[from..to] == p[from..to];
    }
  }

  // ----- What the check detects -----

  /** The fields that decide how the check goes are the same. */
  predicate SameFields(p: seq<byte>, q: seq<byte>)
    requires |p| == |q| >= HEADERS
  {
    q[0] == p[0] && Word(q, LENGTH) == Word(p, LENGTH) && q[PROTOCOL] == p[PROTOCOL]
  }

  lemma ModShift(a: nat, d: int)
    requires a % ONES == 0 && a + d >= 0
    ensures (a + d) % ONES == d % ONES
  {
    var k, q := a / ONES, d / ONES;
    assert a + d == (k + q) * ONES + d % ONES;
    ModUnique(a + d, k + q, d % ONES);
  }

  /** The packet has a checksum over its segment. */
  predicate Guarded(p: seq<byte>)
    requires |p| >= HEADERS
  {
    p[PROTOCOL] == TCP || (p[PROTOCOL] == UDP && Word(p, UDP_SUM) != 0)
  }

  lemma GuardedCheck(p: seq<byte>, len: nat)
    requires InBuffer(p, len) && Guarded(p) && p[0] / 16 == 4 && Word(p, LENGTH) == len
    ensures Check(p, len) == 0 <==> WordSum(p[..HeaderLength(p)]) % ONES == 0 && SegmentTotal(p, len) % ONES == 0
  {
  }

  lemma ChangedFields(p: seq<byte>, len: nat, i: nat, w: uint16)
    requires InBuffer(p, len) && Word(p, LENGTH) == len && i % 2 == 0 && i + 2 <= len <= |p|
             && i !in {0, LENGTH, PROTOCOL - 1}
    ensures InBuffer(Put(p, i, w), len) && SameFields(p, Put(p, i, w))
  {
  }

  lemma HeaderIsEven(p: seq<byte>)
    requires |p| > 0
    ensures HeaderLength(p) % 4 == 0 && HeaderLength(p) <= 60
  {
  }

  lemma SumsAround(p: seq<byte>, i: nat, w: uint16, q: seq<byte>, d: int, hl: nat, len: nat)
    requires hl % 4 == 0 && 20 <= hl <= len <= |p| && i % 2 == 0 && i + 2 <= len && q == Put(p, i, w)
             && d == w - Word(p, i)
    ensures WordSum(q[..hl]) == WordSum(p[..hl]) + (if i < hl then d else 0)
    ensures WordSum(q[ADDRESSES..ADDRESSES + 8])
            == WordSum(p[ADDRESSES..ADDRESSES + 8]) + (if ADDRESSES <= i < ADDRESSES + 8 then d else 0)
    ensures WordSum(q[hl..len]) == WordSum(p[hl..len]) + (if i >= hl then d else 0)
  {
    assert q[0..hl] == q[..hl] && p[0..hl] == p[..hl];
    SliceSum(p, i, w, 0, hl);
    SliceSum(p, i, w, ADDRESSES, ADDRESSES + 8);
    SliceSum(p, i, w, hl, len);
  }

  /** The sums after a change of one word by `d`. */
  lemma ChangedSums(p: seq<byte>, len: nat, i: nat, w: uint16, q: seq<byte>, d: int)
    requires InBuffer(p, len) && Word(p, LENGTH) == len && 20 <= HeaderLength(p) <= len
    requires i % 2 == 0 && i + 2 <= len <= |p| && q == Put(p, i, w) && d == w - Word(p, i)
    requires InBuffer(q, len) && SameFields(p, q)
    ensures WordSum(q[..HeaderLength(p)]) == WordSum(p[..HeaderLength(p)]) + (if i < HeaderLength(p) then d else 0)
    ensures SegmentTotal(q, len)
            == SegmentTotal(p, len) + (if i >= HeaderLength(p) || ADDRESSES <= i < ADDRESSES + 8 then d else 0)
  {
    HeaderIsEven(p);
    assert SegmentLength(p, len) == len - HeaderLength(p);
    SumsAround(p, i, w, q, d, HeaderLength(p), len);
  }

  /** In an accepted TCP packet, or an accepted UDP packet with a checksum, a change of one word of the
      header or the segment goes unnoticed exactly if it is one between the two zeros of the arithmetic. */
  lemma ChangeIsDetected(p: seq<byte>, len: nat, i: nat, w: uint16)
    requires InBuffer(p, len) && len <= |p| && Check(p, len) == 0 && Guarded(p) && 20 <= HeaderLength(p) <= len
    requires i % 2 == 0 && i + 2 <= len && i !in {0, LENGTH, PROTOCOL - 1} && Guarded(Put(p, i, w))
    ensures InBuffer(Put(p, i, w), len)
    ensures Check(Put(p, i, w), len) == 0 <==> w == Word(p, i) || {w, Word(p, i)} == {0, ONES}
  {
    var d := w - Word(p, i);
    ChangedFields(p, len, i, w);
    ChangedSums(p, len, i, w, Put(p, i, w), d);
    GuardedCheck(p, len);
    GuardedCheck(Put(p, i, w), len);
    ModShift(WordSum(p[..HeaderLength(p)]), if i < HeaderLength(p) then d else 0);
    ModShift(SegmentTotal(p, len), if i >= HeaderLength(p) || ADDRESSES <= i < ADDRESSES + 8 then d else 0);
    Zeros(w, Word(p, i));
  }

  lemma Zeros(a: uint16, b: uint16)
    ensures (a - b) % ONES == 0 <==> a == b || {a, b} == {0, ONES}
  {
    if {a, b} == {0, ONES} {
      assert 0 in {a, b} && ONES in {a, b};
    }
  }

  // ----- Filling in the identification -----

  /** No identification, and the test of the don't-fragment flag passes. */
  predicate FillsIn(p: seq<byte>, order: ByteOrder)
    requires |p| >= HEADERS
  {
    HostWord(p, ID, order) == 0 && (HostWord(p, OFFSET, order) / 0x4000) % 2 == 1
  }

  lemma TopBits(h: byte, l: byte)
    ensures (256 * h + l) / 0x4000 == h / 0x40
  {
  }

  /** The flag is tested in host order: it is the don't-fragment bit, bit 6 of the first byte of the
      field, exactly if the host is big-endian or the second byte has the same bit. */
  lemma FlagTested(p: seq<byte>, order: ByteOrder)
    requires |p| >= HEADERS && Word(p, ID) == 0
    ensures FillsIn(p, BigEndian) <==> (p[OFFSET] / 0x40) % 2 == 1
    ensures FillsIn(p, LittleEndian) <==> (p[OFFSET + 1] / 0x40) % 2 == 1
    ensures (FillsIn(p, order) <==> FillsIn(p, BigEndian)) <==>
            (order.BigEndian? || (p[OFFSET] / 0x40) % 2 == (p[OFFSET + 1] / 0x40) % 2)
  {
    TopBits(p[OFFSET], p[OFFSET + 1]);
    TopBits(p[OFFSET + 1], p[OFFSET]);
    Halves(p[OFFSET], p[OFFSET + 1]);
  }

  /** The identification and the adjusted checksum as they are written, in host order. */
  function Stamped(p: seq<byte>, id: uint16, order: ByteOrder): (r: seq<byte>)
    requires |p| >= HEADERS
    ensures |r| == |p|
  {
    var nid := Htons(id, order);
    var q := HostPut(p, ID, nid, order);
    HostPut(q, SUM, Plus(HostWord(q, SUM, order), ONES - nid), order)
  }

  /** The host's byte order does not show in the packet. */
  lemma StampInNetworkOrder(p: seq<byte>, id: uint16, order: ByteOrder)
    requires |p| >= HEADERS
    ensures Stamped(p, id, order) == Put(Put(p, ID, id), SUM, Plus(Word(p, SUM), ONES - id))
  {
    var sum := Word(p, SUM);
    PlusSwaps(sum, ONES - id);
    SwapMultiplies(id);
    SwapMultiplies(Plus(sum, ONES - id));
  }

  lemma PutsSlice(p: seq<byte>, id: uint16, sum: uint16, from: nat, to: nat)
    requires |p| >= HEADERS && from % 2 == 0 && from <= to <= |p| && (to <= ID || ID + 2 <= to)
             && (to <= SUM || SUM + 2 <= to)
    ensures WordSum(Put(Put(p, ID, id), SUM, sum)[from..to])
            == WordSum(p[from..to]) + Gain(p, ID, id, from, to) + Gain(p, SUM, sum, from, to)
  {
    var q := Put(p, ID, id);
    SliceSum(p, ID, id, from, to);
    SliceSum(q, SUM, sum, from, to);
    assert Word(q, SUM) == Word(p, SUM);
  }

  lemma StampedSlice(p: seq<byte>, id: uint16, order: ByteOrder, from: nat, to: nat) returns (sum: uint16, k: int)
    requires |p| >= HEADERS && from % 2 == 0 && from <= to <= |p| && (to <= ID || ID + 2 <= to)
             && (to <= SUM || SUM + 2 <= to)
    ensures sum == Word(p, SUM) - id + k * ONES
    ensures WordSum(Stamped(p, id, order)[from..to])
            == WordSum(p[from..to]) + Gain(p, ID, id, from, to) + Gain(p, SUM, sum, from, to)
  {
    sum := Plus(Word(p, SUM), ONES - id);
    k := if sum == Word(p, SUM) - id then 0 else 1;
    PlusCarries(Word(p, SUM), ONES - id);
    StampInNetworkOrder(p, id, order);
    PutsSlice(p, id, sum, from, to);
  }

  /** No field that decides how the check goes is touched. */
  lemma StampedFields(p: seq<byte>, id: uint16, order: ByteOrder, len: nat)
    requires InBuffer(p, len)
    ensures InBuffer(Stamped(p, id, order), len) && SameFields(p, Stamped(p, id, order))
            && Word(Stamped(p, id, order), UDP_SUM) == Word(p, UDP_SUM)
    ensures Stamped(p, id, order)[ADDRESSES..ADDRESSES + 8] == p[ADDRESSES..ADDRESSES + 8]
  {
    StampInNetworkOrder(p, id, order);
  }

  lemma StampedPrefix(p: seq<byte>, id: uint16, order: ByteOrder, hl: nat)
    requires |p| >= HEADERS && hl <= |p| && hl % 4 == 0 && Word(p, ID) == 0 && WordSum(p[..hl]) % ONES == 0
    ensures WordSum(Stamped(p, id, order)[..hl]) % ONES == 0 <==> hl != 8 || id % ONES == 0
  {
    var q := Stamped(p, id, order);
    var sum, k := StampedSlice(p, id, order, 0, hl);
    assert p[0..hl] == p[..hl] && q[0..hl] == q[..hl];
    if hl == 8 {
      ModSum(WordSum(p[..hl]), id);
    } else {
      ModCongruent(WordSum(q[..hl]), WordSum(p[..hl]), if hl < 8 then 0 else k);
    }
  }

  lemma StampedHeader(p: seq<byte>, id: uint16, order: ByteOrder)
    requires |p| >= HEADERS && HeaderLength(p) <= |p| && Word(p, ID) == 0 && WordSum(p[..HeaderLength(p)]) % ONES == 0
    ensures WordSum(Stamped(p, id, order)[..HeaderLength(p)]) % ONES == 0 <==> HeaderLength(p) != 8 || id % ONES == 0
  {
    HeaderIsEven(p);
    StampedPrefix(p, id, order, HeaderLength(p));
  }

  lemma ModSum(a: nat, b: nat)
    requires a % ONES == 0
    ensures (a + b) % ONES == b % ONES
  {
    ModCongruent(a + b, b, a / ONES);
  }

  lemma StampedSegment(p: seq<byte>, id: uint16, order: ByteOrder, from: nat, to: nat) returns (m: int)
    requires |p| >= HEADERS && Word(p, ID) == 0 && from % 4 == 0 && from <= to <= |p| && SUM + 2 <= to
    requires from != 8 || id % ONES == 0
    ensures WordSum(Stamped(p, id, order)[from..to]) == WordSum(p[from..to]) + m * ONES
  {
    var sum, k := StampedSlice(p, id, order, from, to);
    if from <= 4 {
      m := k;
    } else if from == 8 {
      assert id == id / ONES * ONES;
      m := k - id / ONES;
    } else {
      m := 0;
    }
  }

  /** The sums decide, and they count modulo 65535. */
  lemma SumsDecide(p: seq<byte>, q: seq<byte>, len: nat, m: int)
    requires |p| == |q| && InBuffer(p, len) && Check(p, len) == 0 && SameFields(p, q)
             && Word(q, UDP_SUM) == Word(p, UDP_SUM)
    requires q[ADDRESSES..ADDRESSES + 8] == p[ADDRESSES..ADDRESSES + 8]
    requires WordSum(q[HeaderLength(p)..HeaderLength(p) + SegmentLength(p, len)]) == WordSum(Segment(p, len)) + m * ONES
    ensures Check(q, len) == 0 <==> WordSum(q[..HeaderLength(p)]) % ONES == 0
  {
    ModCongruent(WordSum(Segment(q, len)), WordSum(Segment(p, len)), m);
    ModCongruent(SegmentTotal(q, len), SegmentTotal(p, len), m);
  }

  lemma HeaderDecides(q: seq<byte>, len: nat)
    requires InBuffer(q, len) && WordSum(q[..HeaderLength(q)]) % ONES != 0
    ensures Check(q, len) != 0
  {
  }

  lemma SegmentEnd(words: nat, len: uint16)
    requires words < 16 && len >= SUM + 2
    ensures (4 * words) % 4 == 0 && SUM + 2 <= 4 * words + (len - 4 * words) % 0x1_0000
  {
    if 4 * words > len {
      assert (len - 4 * words) % 0x1_0000 == len - 4 * words + 0x1_0000;
    }
  }

  lemma StampShifts(p: seq<byte>, q: seq<byte>, id: uint16, order: ByteOrder, len: nat) returns (m: int)
    requires InBuffer(p, len) && Word(p, LENGTH) == len >= SUM + 2 && Word(p, ID) == 0 && q == Stamped(p, id, order)
    requires HeaderLength(p) != 8 || id % ONES == 0
    ensures WordSum(q[HeaderLength(p)..HeaderLength(p) + SegmentLength(p, len)]) == WordSum(Segment(p, len)) + m * ONES
  {
    var hl := HeaderLength(p);
    var to := hl + SegmentLength(p, len);
    SegmentEnd(p[0] % 16, len);
    m := StampedSegment(p, id, order, hl, to);
  }

  /** An accepted packet whose identification is filled in is still accepted, except if the header length
      given in it is 8, so that it covers the identification and not the checksum; then it is accepted
      exactly if the new identification is a zero of the arithmetic too. */
  lemma StampIsAccepted(p: seq<byte>, id: uint16, order: ByteOrder, len: nat)
    requires InBuffer(p, len) && Check(p, len) == 0 && Word(p, ID) == 0 && len >= SUM + 2
    ensures InBuffer(Stamped(p, id, order), len)
    ensures Check(Stamped(p, id, order), len) == 0 <==> HeaderLength(p) != 8 || id % ONES == 0
  {
    StampedFields(p, id, order, len);
    StampedHeader(p, id, order);
    if HeaderLength(p) == 8 && id % ONES != 0 {
      HeaderDecides(Stamped(p, id, order), len);
    } else {
      var m := StampShifts(p, Stamped(p, id, order), id, order, len);
      SumsDecide(p, Stamped(p, id, order), len, m);
    }
  }

  // ----- The relay of DHCP answers -----

  /** The fields relay_dhcp_to_client sets, the checksums still zero. */
  predicate Prepared(p: seq<byte>, len: nat) {
    HEADERS <= len <= |p| && p[0] == 0x45 && Word(p, LENGTH) == len && p[PROTOCOL] == UDP && Word(p, SUM) == 0
        && Word(p, UDP_SUM) == 0
  }

  function HeaderSum(p: seq<byte>): uint16
    requires |p| >= HEADERS
  {
    Folded(WordSum(p[..20]))
  }

  function SegmentSum(p: seq<byte>, len: nat): uint16
    requires HEADERS <= len <= |p|
  {
    Folded((UDP + (len - 20)) % 0x1_0000 + WordSum(p[ADDRESSES..ADDRESSES + 8]) + WordSum(p[20..len]))
  }

  /** The checksums as they are written, in host order; a sum that would read as no checksum is replaced. */
  function Sealed(p: seq<byte>, len: nat, order: ByteOrder): (r: seq<byte>)
    requires HEADERS <= len <= |p|
    ensures |r| == |p|
  {
    var q := HostPut(p, SUM, ONES - Htons(HeaderSum(p), order), order);
    var sum := SegmentSum(q, len);
    if sum != ONES then HostPut(q, UDP_SUM, ONES - Htons(sum, order), order) else HostPut(q, UDP_SUM, ONES, order)
  }

  lemma ComplementPut(p: seq<byte>, i: nat, x: uint16, order: ByteOrder)
    requires i + 1 < |p|
    ensures HostPut(p, i, ONES - Htons(x, order), order) == Put(p, i, ONES - x)
  {
    SwapMultiplies(x);
    SwapMultiplies(ONES - x);
  }

  /** The written UDP checksum, as a number. */
  function UdpSum(sum: uint16): uint16 {
    if sum == ONES then ONES else ONES - sum
  }

  lemma SealedInNetworkOrder(p: seq<byte>, len: nat, order: ByteOrder, q: seq<byte>)
    requires HEADERS <= len <= |p| && q == Put(p, SUM, ONES - HeaderSum(p))
    ensures Sealed(p, len, order) == Put(q, UDP_SUM, UdpSum(SegmentSum(q, len)))
  {
    ComplementPut(p, SUM, HeaderSum(p), order);
    ComplementPut(q, UDP_SUM, SegmentSum(q, len), order);
    ComplementPut(q, UDP_SUM, 0, order);
    assert Htons(0, order) == 0;
  }

  lemma SealedHeader(p: seq<byte>, u: uint16)
    requires |p| >= HEADERS && Word(p, SUM) == 0
    ensures WordSum(Put(Put(p, SUM, ONES - HeaderSum(p)), UDP_SUM, u)[..20]) % ONES == 0
  {
    var q := Put(p, SUM, ONES - HeaderSum(p));
    assert Put(q, UDP_SUM, u)[..20] == q[0..20] && p[..20] == p[0..20];
    SliceSum(p, SUM, ONES - HeaderSum(p), 0, 20);
    SumsToZero(WordSum(p[..20]), ONES - HeaderSum(p));
  }

  lemma SealedSegment(q: seq<byte>, len: nat, u: uint16)
    requires HEADERS <= len <= |q| && Word(q, UDP_SUM) == 0 && u == UdpSum(SegmentSum(q, len))
    ensures ((UDP + (len - 20)) % 0x1_0000 + WordSum(Put(q, UDP_SUM, u)[ADDRESSES..ADDRESSES + 8])
            + WordSum(Put(q, UDP_SUM, u)[20..len])) % ONES == 0
  {
    assert Put(q, UDP_SUM, u)[ADDRESSES..ADDRESSES + 8] == q[ADDRESSES..ADDRESSES + 8];
    SliceSum(q, UDP_SUM, u, 20, len);
    SumsToZero((UDP + (len - 20)) % 0x1_0000 + WordSum(q[ADDRESSES..ADDRESSES + 8]) + WordSum(q[20..len]), u);
  }

  lemma UdpAccepted(r: seq<byte>, len: nat)
    requires HEADERS <= len <= |r| && r[0] == 0x45 && Word(r, LENGTH) == len && r[PROTOCOL] == UDP
    requires WordSum(r[..20]) % ONES == 0
    requires ((UDP + (len - 20)) % 0x1_0000 + WordSum(r[ADDRESSES..ADDRESSES + 8]) + WordSum(r[20..len])) % ONES == 0
    ensures InBuffer(r, len) && Check(r, len) == 0
  {
    assert SegmentLength(r, len) == len - 20;
  }

  /** Every packet the relay finishes is accepted, and its UDP checksum never reads as absent. */
  lemma SealedIsAccepted(p: seq<byte>, len: nat, order: ByteOrder)
    requires Prepared(p, len)
    ensures InBuffer(Sealed(p, len, order), len)
    ensures Check(Sealed(p, len, order), len) == 0 && Word(Sealed(p, len, order), UDP_SUM) != 0
  {
    var q := Put(p, SUM, ONES - HeaderSum(p));
    var u := UdpSum(SegmentSum(q, len));
    var r := Put(q, UDP_SUM, u);
    SealedInNetworkOrder(p, len, order, q);
    SealedHeader(p, u);
    SealedSegment(q, len, u);
    UdpAccepted(r, len);
    assert Word(r, UDP_SUM) == u;
    FoldedAt((UDP + (len - 20)) % 0x1_0000 + WordSum(q[ADDRESSES..ADDRESSES + 8]) + WordSum(q[20..len]));
  }

  lemma SumsToZero(total: nat, c: uint16)
    requires c == ONES - Folded(total) || (c == ONES && Folded(total) == ONES)
    ensures (total + c) % ONES == 0
  {
    FoldedAt(total);
    if total > 0 {
      ModCongruent(total + c, 0, (total - 1) / ONES + (if c == ONES && Folded(total) == ONES then 2 else 1));
    }
  }
}
