/** tunslip at work: the checksum loop, the check of a packet, and the two directions of the serial line. */
module Tunslip {
  import opened Checksum
  import opened Slip

  // ----- Checksums -----

  /** ip4sum folds the carry back in at every word; what it returns is determined by the sum alone. */
  method Ip4Sum(start: uint16, p: array<byte>, from: nat, len: nat) returns (sum: uint16)
    requires from + len <= p.Length
    ensures sum == Folded(start + WordSum(p[from..from + len]))
  {
    var i, end := from, from + len;
    sum := start;
    while i < end - 1
      invariant from <= i <= end
      invariant Folded(sum + WordSum(p[i..end])) == Folded(start + WordSum(p[from..end]))
    {
      var high: int := p[i];
      var t: uint16 := 256 * high + p[i + 1];
      assert p[i..end][2..] == p[i + 2..end];
      FoldedPlus(sum, t, WordSum(p[i + 2..end]));
      sum := (sum + t) % 0x1_0000;
      if sum < t {
        sum := sum + 1;
      }
      i := i + 2;
    }
    if i < end {
      var high: int := p[i];
      var t: uint16 := 256 * high;
      FoldedPlus(sum, t, 0);
      sum := (sum + t) % 0x1_0000;
      if sum < t {
        sum := sum + 1;
      }
    }
    FoldedAt(sum);
  }

  lemma FoldedIsZero(total: nat)
    ensures Folded(total) == 0 || Folded(total) == ONES <==> total % ONES == 0
  {
    FoldedAt(total);
  }

  method CheckIp(p: array<byte>, len: nat) returns (code: int)
    requires InBuffer(p[..], len)
    ensures code == Check(p[..], len)
  {
    ghost var q := p[..];
    if p[0] / 16 != 4 {
      return -1;
    }
    if Word(p[..], LENGTH) > len {
      return -2;
    }
    if Word(p[..], LENGTH) < len {
      return -3;
    }
    var hl := 4 * (p[0] % 16);
    var sum := Ip4Sum(0, p, 0, hl);
    assert p[0..0 + hl] == q[..hl];
    FoldedIsZero(WordSum(q[..hl]));
    if sum != ONES && sum != 0 {
      return -4;
    }
    var segment := (len - hl) % 0x1_0000;
    assert p[hl..hl + segment] == Segment(q, len);
    if p[PROTOCOL] == TCP || p[PROTOCOL] == UDP {
      sum := CheckedSum(p, hl, segment);
      FoldedIsZero(SegmentTotal(q, len));
      if sum != ONES && sum != 0 {
        if p[PROTOCOL] == TCP {
          return -5;
        } else if Word(p[..], UDP_SUM) != 0 {
          return -6;
        }
      }
    } else if p[PROTOCOL] == ICMP {
      sum := Ip4Sum(0, p, hl, segment);
      FoldedIsZero(WordSum(Segment(q, len)));
      if sum != ONES && sum != 0 {
        return -7;
      }
    }
    return 0;
  }

  /** The sum over the pseudo header and the segment, one call after the other. */
  method CheckedSum(p: array<byte>, hl: nat, segment: uint16) returns (sum: uint16)
    requires HEADERS <= p.Length && hl + segment <= p.Length
    ensures sum == Folded((p[PROTOCOL] + segment) % 0x1_0000 + WordSum(p[ADDRESSES..ADDRESSES + 8])
            + WordSum(p[hl..hl + segment]))
  {
    var start := (p[PROTOCOL] + segment) % 0x1_0000;
    sum := Ip4Sum(start, p, ADDRESSES, 8);
    FoldedTwice(start + WordSum(p[ADDRESSES..ADDRESSES + 8]), WordSum(p[hl..hl + segment]));
    sum := Ip4Sum(sum, p, hl, segment);
  }

  lemma FoldedTwice(a: nat, b: nat)
    ensures Folded(Folded(a) + b) == Folded(a + b)
  {
    if a > 0 {
      ModCongruent(Folded(a) + b - 1, a + b - 1, -((a - 1) / ONES));
    }
  }

  // ----- The direction to the serial line -----

  /** The packet that goes out: an identification may be filled in. */
  function Outgoing(p: seq<byte>, id: uint16, order: ByteOrder): (q: seq<byte>)
    requires |p| >= HEADERS
    ensures |q| == |p|
  {
    if FillsIn(p, order) then Stamped(p, id, order) else p
  }

  lemma OutgoingInBuffer(p: seq<byte>, len: nat, id: uint16, order: ByteOrder)
    requires InBuffer(p, len)
    ensures InBuffer(Outgoing(p, id, order), len)
  {
    StampedFields(p, id, order, len);
  }

  /** An accepted packet goes out unless its header length is 8, and the packet that goes out is accepted. */
  lemma AcceptedGoesOut(p: seq<byte>, len: nat, id: uint16, order: ByteOrder)
    requires InBuffer(p, len) && Check(p, len) == 0 && len >= SUM + 2
    ensures InBuffer(Outgoing(p, id, order), len)
    ensures Check(Outgoing(p, id, order), len) == 0 <==> HeaderLength(p) != 8 || id % ONES == 0 || !FillsIn(p, order)
  {
    if FillsIn(p, order) {
      assert Word(p, ID) == 0 by {
        SwapMultiplies(Word(p, ID));
      }
      StampIsAccepted(p, id, order, len);
    }
  }

  /** A finished relay packet goes out unchanged. */
  lemma RelayGoesOut(p: seq<byte>, len: nat, id: uint16, order: ByteOrder)
    requires Prepared(p, len) && Word(p, OFFSET) == 0
    ensures Outgoing(Sealed(p, len, order), id, order) == Sealed(p, len, order)
    ensures InBuffer(Sealed(p, len, order), len) && Check(Sealed(p, len, order), len) == 0
  {
    SealedIsAccepted(p, len, order);
    SealedOffset(p, len, order);
    NothingFilledIn(Sealed(p, len, order), id, order);
  }

  lemma SealedOffset(p: seq<byte>, len: nat, order: ByteOrder)
    requires HEADERS <= len <= |p|
    ensures |Sealed(p, len, order)| == |p| && Word(Sealed(p, len, order), OFFSET) == Word(p, OFFSET)
  {
    SealedInNetworkOrder(p, len, order, Put(p, SUM, ONES - HeaderSum(p)));
  }

  lemma NothingFilledIn(p: seq<byte>, id: uint16, order: ByteOrder)
    requires |p| >= HEADERS && Word(p, OFFSET) == 0
    ensures Outgoing(p, id, order) == p
  {
  }

  /** What of a frame there is room for. */
  function Fitting(s: seq<byte>, room: nat): seq<byte> {
    if |s| <= room then s else s[..room]
  }

  lemma FittingPart(a: seq<byte>, b: seq<byte>, c: seq<byte>, room: nat)
    requires |a| <= room < |a| + |b|
    ensures Fitting(a + b + c, room) == a + Fitting(b, room - |a|)
  {
  }

  /** `out` is what the first bytes of a frame have become, and `rest` is still to be sent. */
  ghost predicate Sent(frame: seq<byte>, out: seq<byte>, rest: seq<byte>) {
    frame == out + Framed(rest)
  }

  lemma SentMore(frame: seq<byte>, out: seq<byte>, rest: seq<byte>, room: nat)
    requires rest != [] && Sent(frame, out, rest) && |out| <= room
    ensures Sent(frame, out + Escaped(rest[0]), rest[1..])
    ensures room < |out| + |Escaped(rest[0])| ==>
              |frame| > room && Fitting(frame, room) == out + Fitting(Escaped(rest[0]), room - |out|)
  {
    assert Framed(rest) == Escaped(rest[0]) + Framed(rest[1..]);
    assert frame == out + Escaped(rest[0]) + Framed(rest[1..]);
    if room < |out| + |Escaped(rest[0])| {
      FittingPart(out, Escaped(rest[0]), Framed(rest[1..]), room);
    }
  }

  lemma SentAll(frame: seq<byte>, out: seq<byte>, room: nat)
    requires Sent(frame, out, []) && |out| <= room
    ensures |frame| == |out| + 1
    ensures Fitting(frame, room) == out + if |out| == room then [] else [END]
  {
    assert frame == out + [END];
  }

  /** slip_buf with its cursors, and the counter of identifications. */
  class SerialWriter {
    const order: ByteOrder
    const buf: array<byte>
    var begin: nat
    var end: nat
    var ipId: uint16

    /** The buffer is empty exactly if nothing is pending, which is how slip_empty reads it. */
    ghost predicate Valid()
      reads this
    {
      buf.Length == BUFFER_SIZE && begin <= end <= BUFFER_SIZE && (begin == end ==> end == 0)
    }

    ghost function Pending(): seq<byte>
      requires Valid()
      reads this, buf
    {
      buf[begin..end]
    }

    constructor (byteOrder: ByteOrder, id: uint16)
      ensures Valid() && fresh(buf) && Pending() == [] && ipId == id && order == byteOrder
    {
      order := byteOrder;
      buf := new byte[BUFFER_SIZE];
      begin, end, ipId := 0, 0, id;
    }

    /** slip_send; the program stops when the buffer is full. */
    method Send(c: byte) returns (stopped: bool)
      requires Valid()
      modifies this`end, buf
      ensures Valid()
      ensures stopped <==> old(end) == BUFFER_SIZE
      ensures end == old(end) + (if stopped then 0 else 1)
      ensures Pending() == old(Pending()) + (if stopped then [] else [c])
    {
      if end >= BUFFER_SIZE {
        return true;
      }
      buf[end] := c;
      end := end + 1;
      return false;
    }

    /** slip_flushbuf when write takes n bytes, or none at all. */
    method FlushBuf(n: int) returns (written: seq<byte>)
      requires Valid() && -1 <= n <= end - begin
      modifies this`begin, this`end
      ensures Valid()
      ensures written + Pending() == old(Pending())
      ensures n >= 0 ==> |written| == n
      ensures end == 0 <==> Pending() == []
    {
      written := [];
      if end == 0 {
        return;
      }
      if n != -1 {
        written := buf[begin..begin + n];
        begin := begin + n;
        if begin == end {
          begin, end := 0, 0;
        }
      }
    }

    /** Stuffs the bytes of a packet into the output buffer, until it is full. */
    method SendPacket(p: array<byte>, len: nat) returns (stopped: bool)
      requires Valid() && p != buf && len <= p.Length
      modifies this`end, buf
      ensures Valid()
      ensures stopped <==> old(end) + |Framed(old(p[..len]))| > BUFFER_SIZE
      ensures Pending() == old(Pending()) + Fitting(Framed(old(p[..len])), BUFFER_SIZE - old(end))
    {
      ghost var s, before, room := p[..len], Pending(), BUFFER_SIZE - end;
      ghost var frame, out: seq<byte> := Framed(s), [];
      for i := 0 to len
        invariant Valid() && p[..len] == s && Sent(frame, out, s[i..])
        invariant Pending() == before + out && BUFFER_SIZE - end == room - |out|
      {
        stopped := SendNext(p[i], frame, out, s[i..], before);
        if stopped {
          return;
        }
        assert s[i..][1..] == s[i + 1..];
        out := out + Escaped(p[i]);
      }
      SentAll(frame, out, room);
      stopped := Send(END);
    }

    /** The next byte of a packet of which `out` has been sent. */
    method SendNext(b: byte, ghost frame: seq<byte>, ghost out: seq<byte>, ghost rest: seq<byte>,
                    ghost before: seq<byte>)
      returns (stopped: bool)
      requires Valid() && rest != [] && rest[0] == b && Sent(frame, out, rest) && Pending() == before + out
      modifies this`end, buf
      ensures Valid()
      ensures var room := BUFFER_SIZE - old(end) + |out|;
              if stopped then |frame| > room && Pending() == before + Fitting(frame, room)
              else Sent(frame, out + Escaped(b), rest[1..]) && Pending() == before + (out + Escaped(b))
                   && BUFFER_SIZE - end == room - |out + Escaped(b)|
    {
      SentMore(frame, out, rest, BUFFER_SIZE - end + |out|);
      stopped := SendByte(b);
    }

    /** One byte of a packet, escaped where it must be. */
    method SendByte(b: byte) returns (stopped: bool)
      requires Valid()
      modifies this`end, buf
      ensures Valid()
      ensures stopped <==> old(end) + |Escaped(b)| > BUFFER_SIZE
      ensures end == old(end) + |Fitting(Escaped(b), BUFFER_SIZE - old(end))|
      ensures Pending() == old(Pending()) + Fitting(Escaped(b), BUFFER_SIZE - old(end))
    {
      if b == END {
        stopped := SendTwo(ESC, ESC_END);
      } else if b == ESC {
        stopped := SendTwo(ESC, ESC_ESC);
      } else {
        stopped := Send(b);
      }
    }

    method SendTwo(b: byte, c: byte) returns (stopped: bool)
      requires Valid()
      modifies this`end, buf
      ensures Valid()
      ensures stopped <==> old(end) + 2 > BUFFER_SIZE
      ensures end == old(end) + |Fitting([b, c], BUFFER_SIZE - old(end))|
      ensures Pending() == old(Pending()) + Fitting([b, c], BUFFER_SIZE - old(end))
    {
      stopped := Send(b);
      if !stopped {
        stopped := Send(c);
      }
    }

    /** The identification and the checksum, as write_to_serial changes them in place. */
    method Stamp(p: array<byte>)
      requires p.Length >= HEADERS && p != buf
      modifies this`ipId, p
      ensures p[..] == Stamped(old(p[..]), old(ipId), order)
      ensures ipId == (old(ipId) + 1) % 0x1_0000
    {
      var nid := Htons(ipId, order);
      ipId := (ipId + 1) % 0x1_0000;
      PutHost(p, ID, nid, order);
      nid := ONES - nid;
      var sum := (HostWord(p[..], SUM, order) + nid) % 0x1_0000;
      if sum < nid {
        sum := sum + 1;
      }
      PutHost(p, SUM, sum, order);
    }

    /** write_to_serial: the packet is checked, may get an identification, is checked again, and goes
        out as one frame. */
    method WriteToSerial(p: array<byte>, len: nat) returns (code: int, stopped: bool)
      requires Valid() && p != buf && InBuffer(p[..], len) && len <= p.Length
      modifies this`end, this`ipId, buf, p
      ensures Valid()
      ensures InBuffer(Outgoing(old(p[..]), old(ipId), order), len)
      ensures var q := Outgoing(old(p[..]), old(ipId), order);
        code == if Check(old(p[..]), len) < 0 then Check(old(p[..]), len) else Check(q, len)
      ensures code == 0 ==> p[..] == Outgoing(old(p[..]), old(ipId), order)
      ensures stopped <==> code == 0 && old(end) + |Framed(p[..len])| > BUFFER_SIZE
      ensures Pending() == old(Pending()) + if code == 0 then Fitting(Framed(p[..len]), BUFFER_SIZE - old(end)) else []
    {
      ghost var before := p[..];
      stopped := false;
      OutgoingInBuffer(before, len, ipId, order);
      code := CheckIp(p, len);
      if code < 0 {
        return;
      }
      if FillsIn(p[..], order) {
        Stamp(p);
        code := CheckIp(p, len);
        if code < 0 {
          return;
        }
      }
      assert p[..len] == p[..][..len];
      stopped := SendPacket(p, len);
    }
  }

  method PutHost(p: array<byte>, i: nat, w: uint16, order: ByteOrder)
    requires i + 1 < p.Length
    modifies p
    ensures p[..] == HostPut(old(p[..]), i, w, order)
  {
    var n := Htons(w, order);
    p[i] := n / 256;
    p[i + 1] := n % 256;
  }

  method UdpSegmentSum(p: array<byte>, len: uint16) returns (sum: uint16)
    requires HEADERS <= len <= p.Length && p[PROTOCOL] == UDP
    ensures sum == SegmentSum(p[..], len)
  {
    ghost var q := p[..];
    assert q[ADDRESSES..ADDRESSES + 8] == p[ADDRESSES..ADDRESSES + 8] && q[20..len] == p[20..20 + (len - 20)];
    sum := CheckedSum(p, 20, len - 20);
  }

  lemma PutElsewhere(p: seq<byte>, i: nat, w: uint16, order: ByteOrder, j: nat)
    requires i + 1 < |p| && j < |p| && j != i && j != i + 1
    ensures HostPut(p, i, w, order)[j] == p[j]
  {
  }

  /** The checksums of relay_dhcp_to_client, from the fields that are already there. */
  method Seal(p: array<byte>, len: uint16, order: ByteOrder)
    requires HEADERS <= len <= p.Length && p[PROTOCOL] == UDP
    modifies p
    ensures p[..] == Sealed(old(p[..]), len, order)
  {
    ghost var before := p[..];
    var sum := Ip4Sum(0, p, 0, 20);
    assert p[0..20] == before[..20];
    PutHost(p, SUM, ONES - Htons(sum, order), order);
    assert p[..][PROTOCOL] == UDP by {
      PutElsewhere(before, SUM, ONES - Htons(sum, order), order, PROTOCOL);
    }
    sum := UdpSegmentSum(p, len);
    if sum != ONES {
      PutHost(p, UDP_SUM, ONES - Htons(sum, order), order);
    } else {
      PutHost(p, UDP_SUM, ONES, order);
    }
  }

  // ----- The direction from the serial line -----

  /** inbuf and inbufptr, which outlive a call. */
  class SerialReader {
    const inbuf: array<byte>
    var inbufptr: nat

    ghost predicate Valid()
      reads this
    {
      inbuf.Length == BUFFER_SIZE && inbufptr <= BUFFER_SIZE
    }

    ghost function Frame(): seq<byte>
      requires Valid()
      reads this, inbuf
    {
      inbuf[..inbufptr]
    }

    constructor ()
      ensures Valid() && fresh(inbuf) && Frame() == []
    {
      inbuf := new byte[BUFFER_SIZE];
      inbufptr := 0;
    }

    method Store(c: byte)
      requires Valid() && inbufptr < BUFFER_SIZE
      modifies this, inbuf
      ensures Valid() && Frame() == old(Frame()) + [c]
    {
      inbuf[inbufptr] := c;
      inbufptr := inbufptr + 1;
    }

    /** serial_to_tun: reads until the input is used up, or ends within an escape, which is put back. */
    method SerialToTun(input: seq<byte>) returns (rest: seq<byte>, frames: seq<seq<byte>>)
      requires Valid()
      modifies this, inbuf
      ensures Valid() && inbufptr < BUFFER_SIZE
      ensures Received(Frame(), rest, frames) == Receive(old(Frame()), input)
    {
      var pos := 0;
      frames := [];
      while true
        invariant Valid() && pos <= |input|
        invariant Then(Received([], [], frames), Receive(Frame(), input[pos..])) == Receive(old(Frame()), input)
        decreases |input| - pos
      {
        ghost var left := input[pos..];
        if inbufptr >= BUFFER_SIZE {
          inbufptr := 0;
        }
        if pos == |input| {
          return [], frames;
        }
        var c := input[pos];
        pos := pos + 1;
        if c == END {
          assert left[1..] == input[pos..];
          if inbufptr > 0 {
            frames := frames + [inbuf[..inbufptr]];
            inbufptr := 0;
          }
        } else {
          if c == ESC {
            if pos == |input| {
              return [ESC], frames;
            }
            c := Unescaped(input[pos]);
            pos := pos + 1;
            assert left[2..] == input[pos..];
          } else {
            assert left[1..] == input[pos..];
          }
          Store(c);
        }
      }
    }
  }
}
