/** SLIP framing (RFC 1055) as tunslip sends it and reads it back: a receiver that is called with
    whatever part of the line has arrived. */
module Slip {
  import opened Checksum

  const END: byte := 0xc0
  const ESC: byte := 0xdb
  const ESC_END: byte := 0xdc
  const ESC_ESC: byte := 0xdd
  const BUFFER_SIZE := 2000

  function Escaped(b: byte): seq<byte> {
    if b == END then [ESC, ESC_END] else if b == ESC then [ESC, ESC_ESC] else [b]
  }

  function Stuffed(s: seq<byte>): seq<byte> {
    if s == [] then [] else Escaped(s[0]) + Stuffed(s[1..])
  }

  function Framed(s: seq<byte>): seq<byte> {
    Stuffed(s) + [END]
  }

  function Unescaped(c: byte): byte {
    if c == ESC_END then END else if c == ESC_ESC then ESC else c
  }

  /** The unfinished frame, the input that was put back, and the frames that ended. */
  datatype Received = Received(frame: seq<byte>, rest: seq<byte>, frames: seq<seq<byte>>)

  /** A full buffer starts again from its beginning. */
  function Room(frame: seq<byte>): (r: seq<byte>) {
    if |frame| >= BUFFER_SIZE then [] else frame
  }

  function Ended(frame: seq<byte>): seq<seq<byte>> {
    if frame == [] then [] else [frame]
  }

  /** One call of serial_to_tun with the given input. */
  function Receive(frame: seq<byte>, input: seq<byte>): Received
    decreases |input|
  {
    var f := Room(frame);
    if input == [] then Received(f, [], [])
    else if input[0] == END then
      var r := Receive([], input[1..]);
      Received(r.frame, r.rest, Ended(f) + r.frames)
    else if input[0] == ESC then
      if |input| == 1 then Received(f, [ESC], []) else Receive(f + [Unescaped(input[1])], input[2..])
    else Receive(f + [input[0]], input[1..])
  }

  function Then(first: Received, second: Received): Received {
    Received(second.frame, second.rest, first.frames + second.frames)
  }

  lemma {:induction false} RoomTwice(frame: seq<byte>, input: seq<byte>)
    ensures Receive(Room(frame), input) == Receive(frame, input)
  {
  }

  /** Where the input is cut does not matter: a second call goes on where the first one stopped. */
  lemma {:induction false} ReceiveResumes(frame: seq<byte>, a: seq<byte>, b: seq<byte>)
    ensures Receive(frame, a + b)
            == Then(Receive(frame, a), Receive(Receive(frame, a).frame, Receive(frame, a).rest + b))
    decreases |a|
  {
    var f := Room(frame);
    if a == [] {
      assert a + b == b && [] + b == b;
      RoomTwice(frame, b);
    } else if a[0] == END {
      assert (a + b)[1..] == a[1..] + b;
      ReceiveResumes([], a[1..], b);
    } else if a[0] == ESC {
      if |a| == 1 {
        assert a == [ESC];
        RoomTwice(frame, a + b);
      } else {
        assert (a + b)[2..] == a[2..] + b;
        ReceiveResumes(f + [Unescaped(a[1])], a[2..], b);
      }
    } else {
      assert (a + b)[1..] == a[1..] + b;
      ReceiveResumes(f + [a[0]], a[1..], b);
    }
  }

  function Joined(chunks: seq<seq<byte>>): seq<byte> {
    if chunks == [] then [] else chunks[0] + Joined(chunks[1..])
  }

  /** A call for every chunk, each preceded by what the call before put back. */
  function ReceiveChunks(before: Received, chunks: seq<seq<byte>>): Received
    decreases |chunks|
  {
    if chunks == [] then before
    else ReceiveChunks(Then(before, Receive(before.frame, before.rest + chunks[0])), chunks[1..])
  }

  lemma {:induction false} ChunksFrom(frame: seq<byte>, done: seq<byte>, chunks: seq<seq<byte>>, before: Received,
                                      all: seq<byte>)
    requires before == Receive(frame, done) && all == done + Joined(chunks)
    ensures ReceiveChunks(before, chunks) == Receive(frame, all)
    decreases |chunks|
  {
    if chunks == [] {
      assert all == done;
    } else {
      var more := done + chunks[0];
      assert all == more + Joined(chunks[1..]);
      var after := Then(before, Receive(before.frame, before.rest + chunks[0]));
      assert after == Receive(frame, more) by {
        ReceiveResumes(frame, done, chunks[0]);
      }
      ChunksFrom(frame, more, chunks[1..], after, all);
    }
  }

  /** The frames do not depend on how the line was cut into chunks. */
  lemma ChunksDoNotMatter(chunks: seq<seq<byte>>)
    ensures ReceiveChunks(Received([], [], []), chunks) == Receive([], Joined(chunks))
  {
    assert [] + Joined(chunks) == Joined(chunks);
    ChunksFrom([], [], chunks, Receive([], []), Joined(chunks));
  }

  // ----- Frames -----

  /** The buffer after the bytes of s were stored one by one. */
  function Filled(frame: seq<byte>, s: seq<byte>): seq<byte>
    decreases |s|
  {
    if s == [] then frame else Filled(Room(frame) + [s[0]], s[1..])
  }

  lemma EscapedArrives(frame: seq<byte>, b: byte, rest: seq<byte>)
    ensures Receive(frame, Escaped(b) + rest) == Receive(Room(frame) + [b], rest)
  {
    assert (Escaped(b) + rest)[|Escaped(b)|..] == rest;
  }

  lemma {:induction false} StuffedArrives(frame: seq<byte>, s: seq<byte>, rest: seq<byte>)
    ensures Receive(frame, Stuffed(s) + rest) == Receive(Filled(frame, s), rest)
    decreases |s|
  {
    if s == [] {
      assert Stuffed(s) + rest == rest;
    } else {
      assert Stuffed(s) + rest == Escaped(s[0]) + (Stuffed(s[1..]) + rest);
      EscapedArrives(frame, s[0], Stuffed(s[1..]) + rest);
      StuffedArrives(Room(frame) + [s[0]], s[1..], rest);
    }
  }

  /** What is left of n bytes: a buffer that is full is started again. */
  function Left(n: nat): nat {
    n % BUFFER_SIZE
  }

  lemma {:induction false} FilledKeepsTail(frame: seq<byte>, s: seq<byte>)
    requires |frame| <= BUFFER_SIZE
    ensures var all := frame + s; Room(Filled(frame, s)) == all[|all| - Left(|all|)..]
    decreases |s|
  {
    var all := frame + s;
    if s == [] {
      assert all == frame;
    } else {
      var f := Room(frame);
      FilledKeepsTail(f + [s[0]], s[1..]);
      var rest := f + [s[0]] + s[1..];
      assert rest == f + s;
      if f != frame {
        assert all[BUFFER_SIZE..] == rest;
        LeftShifts(|rest|);
      }
    }
  }

  lemma LeftShifts(n: nat)
    ensures Left(n + BUFFER_SIZE) == Left(n) <= n
  {
  }

  /** After an END, the receiver is at the beginning of the next frame. */
  lemma FramedArrives(s: seq<byte>, rest: seq<byte>)
    ensures var r := Receive([], rest);
      Receive([], Framed(s) + rest) == Received(r.frame, r.rest, Ended(s[|s| - Left(|s|)..]) + r.frames)
  {
    assert Framed(s) + rest == Stuffed(s) + ([END] + rest);
    StuffedArrives([], s, [END] + rest);
    FilledKeepsTail([], s);
    assert [] + s == s;
    assert ([END] + rest)[1..] == rest;
  }

  /** A packet arrives as it was sent exactly if it is not empty and shorter than the buffer. */
  lemma FrameRoundTrip(s: seq<byte>)
    ensures Receive([], Framed(s)).frames == [s] <==> 0 < |s| < BUFFER_SIZE
  {
    FramedArrives(s, []);
    assert Framed(s) + [] == Framed(s);
    var tail := s[|s| - Left(|s|)..];
    assert Receive([], Framed(s)).frames == Ended(tail);
    assert |tail| == Left(|s|) < BUFFER_SIZE;
    assert 0 < |s| < BUFFER_SIZE ==> tail == s;
  }

  function Line(packets: seq<seq<byte>>): seq<byte> {
    if packets == [] then [] else Framed(packets[0]) + Line(packets[1..])
  }

  predicate Fit(packets: seq<seq<byte>>) {
    forall i :: 0 <= i < |packets| ==> 0 < |packets[i]| < BUFFER_SIZE
  }

  lemma {:induction false} LineArrives(packets: seq<seq<byte>>)
    requires Fit(packets)
    ensures Receive([], Line(packets)) == Received([], [], packets)
    decreases |packets|
  {
    if packets != [] {
      FramedArrives(packets[0], Line(packets[1..]));
      LineArrives(packets[1..]);
      assert packets[0][0..] == packets[0];
      assert [packets[0]] + packets[1..] == packets;
    }
  }

  /** Packets that fit the buffer arrive unchanged and in order, however the line is cut. */
  lemma PacketsArrive(packets: seq<seq<byte>>, chunks: seq<seq<byte>>)
    requires Fit(packets) && Joined(chunks) == Line(packets)
    ensures ReceiveChunks(Received([], [], []), chunks) == Received([], [], packets)
  {
    ChunksDoNotMatter(chunks);
    LineArrives(packets);
  }
}
