/** The bytes that tunslip reads and writes, by their positions and values. */
module TunslipFormat {
  import opened Checksum
  import opened Slip

  // ----- Sums -----

  /** The sum of every other byte from `k` on. */
  function EveryOther(s: seq<byte>, k: nat): nat
    decreases |s| - k
  {
    if k >= |s| then 0 else s[k] + EveryOther(s, k + 2)
  }

  lemma {:induction false} EveryOtherShifts(s: seq<byte>, k: nat)
    requires |s| >= 2
    ensures EveryOther(s, k + 2) == EveryOther(s[2..], k)
    decreases |s| - k
  {
    if k + 2 < |s| {
      EveryOtherShifts(s, k + 2);
    }
  }

  /** The bytes at even positions are the high halves of the words. */
  lemma {:induction false} SumOfWords(s: seq<byte>)
    ensures WordSum(s) == 256 * EveryOther(s, 0) + EveryOther(s, 1)
    decreases |s|
  {
    if |s| >= 2 {
      SumOfWords(s[2..]);
      EveryOtherShifts(s, 0);
      EveryOtherShifts(s, 1);
      assert EveryOther(s, 0) == s[0] + EveryOther(s, 2);
      assert EveryOther(s, 1) == s[1] + EveryOther(s, 3);
    }
  }

  // ----- The check by bytes -----

  /** Two bytes, the high one first. */
  function Number(high: byte, low: byte): uint16 {
    256 * high as int + low as int
  }

  /** A packet for this program: version 4 with the right length, and a header that sums to zero. */
  ghost predicate HeaderPasses(p: seq<byte>, len: nat)
    requires InBuffer(p, len)
  {
    p[0] / 16 == 4 && Number(p[2], p[3]) == len && WordSum(p[..4 * (p[0] % 16)]) % 65535 == 0
  }

  /** What is summed for TCP and UDP: protocol and length in 16 bits, the two addresses, and the segment. */
  function SummedBytes(p: seq<byte>, protocol: nat, length: nat): nat
    requires |p| >= 28 && 4 * (p[0] % 16) + length <= |p|
  {
    (protocol + length) % 0x1_0000 + WordSum(p[12..20]) + WordSum(p[4 * (p[0] % 16)..4 * (p[0] % 16) + length])
  }

  lemma NumberIsWord(p: seq<byte>, i: nat)
    requires i + 1 < |p|
    ensures Word(p, i) == Number(p[i], p[i + 1])
    ensures Word(p, i) == 0 <==> p[i] == 0 && p[i + 1] == 0
  {
  }

  /** The code of the packet check, as the header decides it. */
  lemma CheckOfHeader(p: seq<byte>, len: nat)
    requires InBuffer(p, len)
    ensures p[0] / 16 != 4 <==> Check(p, len) == -1
    ensures p[0] / 16 == 4 && Number(p[2], p[3]) > len <==> Check(p, len) == -2
    ensures p[0] / 16 == 4 && Number(p[2], p[3]) < len <==> Check(p, len) == -3
    ensures p[0] / 16 == 4 && Number(p[2], p[3]) == len && WordSum(p[..4 * (p[0] % 16)]) % 65535 != 0 <==>
            Check(p, len) == -4
  {
    NumberIsWord(p, 2);
  }

  lemma TotalIsSummed(p: seq<byte>, len: nat, length: nat)
    requires InBuffer(p, len) && HeaderPasses(p, len) && length == (len - 4 * (p[0] % 16)) % 0x1_0000
    ensures 4 * (p[0] % 16) + length <= |p| && Word(p, LENGTH) == len
    ensures SegmentTotal(p, len) == SummedBytes(p, p[9], length)
    ensures Segment(p, len) == p[4 * (p[0] % 16)..4 * (p[0] % 16) + length]
  {
    NumberIsWord(p, 2);
    assert HeaderLength(p) == 4 * (p[0] % 16);
  }

  /** And as the segment decides it, by the protocol. */
  lemma CheckOfSegment(p: seq<byte>, len: nat, length: nat)
    requires InBuffer(p, len) && HeaderPasses(p, len) && length == (len - 4 * (p[0] % 16)) % 0x1_0000
    ensures 4 * (p[0] % 16) + length <= |p|
    ensures p[9] == 6 ==> Check(p, len) == if SummedBytes(p, 6, length) % 65535 == 0 then 0 else -5
    ensures p[9] == 17 ==>
              Check(p, len) == if SummedBytes(p, 17, length) % 65535 == 0 || (p[26] == 0 && p[27] == 0) then 0 else -6
    ensures p[9] == 1 ==>
              Check(p, len) == if WordSum(p[4 * (p[0] % 16)..4 * (p[0] % 16) + length]) % 65535 == 0 then 0 else -7
    ensures p[9] !in {1, 6, 17} ==> Check(p, len) == 0
  {
    TotalIsSummed(p, len, length);
    NumberIsWord(p, 26);
    assert HeaderLength(p) == 4 * (p[0] % 16);
  }

  // ----- The written bytes -----

  /** When an identification is filled in: the packet has none, and bit 6 is set in the byte of the flags, or on
      a little-endian host in the one behind it. */
  lemma FillsInByBytes(p: seq<byte>)
    requires |p| >= 28
    ensures FillsIn(p, BigEndian) <==> p[4] == 0 && p[5] == 0 && p[6] / 64 % 2 == 1
    ensures FillsIn(p, LittleEndian) <==> p[4] == 0 && p[5] == 0 && p[7] / 64 % 2 == 1
  {
    NumberIsWord(p, 4);
    if Word(p, ID) == 0 {
      FlagTested(p, BigEndian);
    } else {
      NotFilledIn(p, BigEndian);
      NotFilledIn(p, LittleEndian);
    }
  }

  lemma NotFilledIn(p: seq<byte>, order: ByteOrder)
    requires |p| >= 28 && Word(p, ID) != 0
    ensures !FillsIn(p, order)
  {
    SwapMultiplies(Word(p, ID));
    assert Swap(0) == 0;
  }

  /** Filling in the identification changes the bytes 4 and 5, which get it with the high byte first, and the
      checksum in the bytes 10 and 11. */
  lemma StampedBytes(p: seq<byte>, id: uint16, order: ByteOrder)
    requires |p| >= 28
    ensures var r := Stamped(p, id, order);
            && (forall k :: 0 <= k < |p| && k !in {4, 5, 10, 11} ==> r[k] == p[k])
            && Number(r[4], r[5]) == id
            && Number(r[10], r[11]) == Plus(Number(p[10], p[11]), 65535 - id)
  {
    var q, sum := Put(p, ID, id), Plus(Word(p, SUM), ONES - id);
    StampInNetworkOrder(p, id, order);
    WordIsPut(q, SUM, sum);
    WordIsPut(p, ID, id);
    NumberIsWord(p, SUM);
  }

  lemma WordIsPut(p: seq<byte>, i: nat, w: uint16)
    requires i + 1 < |p|
    ensures var r := Put(p, i, w);
            Number(r[i], r[i + 1]) == w && forall k :: 0 <= k < |p| && k != i && k != i + 1 ==> r[k] == p[k]
  {
  }

  /** The addition is that of the one's complement: the sum, or the sum less 65535 if it does not fit. */
  lemma PlusIsSum(a: uint16, b: uint16)
    ensures Plus(a, b) == if a + b < 65536 then a + b else a + b - 65535
  {
  }

  /** What the relay has finished adds up: the header, and the segment with its pseudo header. */
  lemma SealedSums(p: seq<byte>, len: nat, order: ByteOrder, r: seq<byte>)
    requires Prepared(p, len) && r == Sealed(p, len, order)
    ensures |r| == |p| && r[0] == p[0] == 0x45 && WordSum(r[..20]) % 65535 == 0
    ensures SummedBytes(r, 17, len - 20) % 65535 == 0 && !(r[26] == 0 && r[27] == 0)
  {
    SealedElsewhere(p, len, order);
    SealedIsAccepted(p, len, order);
    AcceptedUdp(r, len);
  }

  lemma AcceptedUdp(r: seq<byte>, len: nat)
    requires InBuffer(r, len) && Check(r, len) == 0 && r[0] == 0x45 && r[9] == 17 && Word(r, UDP_SUM) != 0
    requires HEADERS <= len < 0x1_0000
    ensures WordSum(r[..20]) % 65535 == 0 && len - 20 + 20 <= |r| && SummedBytes(r, 17, len - 20) % 65535 == 0
    ensures !(r[26] == 0 && r[27] == 0)
  {
    NumberIsWord(r, 26);
    CheckOfHeader(r, len);
    CheckOfSegment(r, len, len - 20);
  }

  /** The relay writes the two checksums and nothing else. */
  lemma SealedBytes(p: seq<byte>, len: nat, order: ByteOrder)
    requires Prepared(p, len)
    ensures var r := Sealed(p, len, order);
            && (forall k :: 0 <= k < |p| && k !in {10, 11, 26, 27} ==> r[k] == p[k])
            && r[0] == 0x45 && WordSum(r[..20]) % 65535 == 0 && SummedBytes(r, 17, len - 20) % 65535 == 0
            && !(r[26] == 0 && r[27] == 0)
  {
    SealedElsewhere(p, len, order);
    SealedSums(p, len, order, Sealed(p, len, order));
  }

  lemma SealedElsewhere(p: seq<byte>, len: nat, order: ByteOrder)
    requires HEADERS <= len <= |p|
    ensures forall k :: 0 <= k < |p| && k !in {10, 11, 26, 27} ==> Sealed(p, len, order)[k] == p[k]
  {
    var q := Put(p, SUM, ONES - HeaderSum(p));
    SealedInNetworkOrder(p, len, order, q);
    WordIsPut(p, SUM, ONES - HeaderSum(p));
    WordIsPut(q, UDP_SUM, UdpSum(SegmentSum(q, len)));
  }

  // ----- The codes of the serial line -----

  /** A frame is the packet with 219 220 for every 192 and 219 221 for every 219, and a 192 behind it; there is
      no other 192 in it. */
  lemma {:induction false} FrameCodes(s: seq<byte>)
    ensures Framed(s) == Stuffed(s) + [192] && 192 !in Stuffed(s)
    ensures Stuffed([192]) == [219, 220] && Stuffed([219]) == [219, 221]
    ensures |s| == 1 && s[0] !in {192, 219} ==> Stuffed(s) == s
    decreases |s|
  {
    assert [192][1..] == [] && [219][1..] == [];
    assert Stuffed([192]) == Escaped(192) + [] && Stuffed([219]) == Escaped(219) + [];
    if |s| == 1 {
      assert s == [s[0]] && Stuffed(s) == Escaped(s[0]) + [];
    }
    if s != [] {
      FrameCodes(s[1..]);
    }
  }

  /** Every byte is stuffed by itself. */
  lemma {:induction false} StuffedBoth(a: seq<byte>, b: seq<byte>)
    ensures Stuffed(a + b) == Stuffed(a) + Stuffed(b)
    decreases |a|
  {
    if a == [] {
      assert a + b == b;
    } else {
      assert (a + b)[1..] == a[1..] + b;
      StuffedBoth(a[1..], b);
    }
  }

  /** What the receiver does at an end mark: a frame that is not empty ends. */
  lemma ReceivesEnd(frame: seq<byte>, rest: seq<byte>)
    requires |frame| < 2000
    ensures Receive(frame, [192] + rest)
            == var r := Receive([], rest); Received(r.frame, r.rest, (if frame == [] then [] else [frame]) + r.frames)
  {
    assert ([192] + rest)[1..] == rest;
  }

  /** An escape mark takes the next byte for another one; without one it is put back. */
  lemma ReceivesEscape(frame: seq<byte>, c: byte, rest: seq<byte>)
    requires |frame| < 2000
    ensures Receive(frame, [219, c] + rest)
            == Receive(frame + [if c == 220 then 192 else if c == 221 then 219 else c], rest)
    ensures Receive(frame, [219]) == Received(frame, [219], [])
  {
    assert ([219, c] + rest)[2..] == rest;
  }

  /** Any other byte is stored; a buffer with 2000 bytes starts again. */
  lemma ReceivesOther(frame: seq<byte>, d: byte, rest: seq<byte>)
    requires |frame| <= 2000 && d !in {192, 219}
    ensures Receive(frame, [d] + rest) == Receive((if |frame| == 2000 then [] else frame) + [d], rest)
  {
    assert ([d] + rest)[1..] == rest;
  }
}
