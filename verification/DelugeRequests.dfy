/** Requests for pages: what a node that has heard several of them transmits. */
module DelugeRequests {
  import opened DelugeNode

  /** A request that the node serves. */
  datatype Served = Served(page: nat, wanted: set<nat>)

  /** Requests, and what does not take the node out of the mode in which it transmits: the start of a
      round and its two timers, summaries and profiles that offer nothing new, and packets of pages it
      is not receiving. */
  predicate Harmless(o: Object, i: Input) {
    match i
    case Hear(Request(_, _, _), _) => true
    case Hear(Summary(version, highest), recent) =>
      version != o.update || highest <= Available(o) || highest > |o.pages| || recent
    case Hear(Packet(_, page, _, _, _), _) => page != o.rxPage
    case Hear(Profile(version, _), _) => version <= o.update
    case SummaryFires => true
    case ProfileFires => true
    case NewRound => true
    case _ => false
  }

  /** The node can go through these events one after the other, and all of them are harmless. */
  predicate Possible(n: Node, crc: seq<byte> -> nat, inputs: seq<Input>)
    decreases |inputs|, 0
  {
    inputs == []
    || (Possible(n, crc, inputs[..|inputs| - 1]) && Harmless(n.obj, inputs[|inputs| - 1])
        && Ready(Later(n, crc, inputs[..|inputs| - 1]), inputs[|inputs| - 1]))
  }

  function Later(n: Node, crc: seq<byte> -> nat, inputs: seq<Input>): Node
    requires Possible(n, crc, inputs)
    decreases |inputs|, 1
  {
    if inputs == [] then n
    else React(Later(n, crc, inputs[..|inputs| - 1]), crc, inputs[|inputs| - 1]).0
  }

  /** The requests among the events that the node serves. */
  function ServedOf(o: Object, inputs: seq<Input>): seq<Served>
    decreases |inputs|
  {
    if inputs == [] then []
    else ServedOf(o, inputs[..|inputs| - 1]) + ServedBy(o, inputs[|inputs| - 1])
  }

  function ServedBy(o: Object, i: Input): seq<Served> {
    match i
    case Hear(Request(version, page, wanted), _) => if Serves(o, version, page) then [Served(page, wanted)] else []
    case _ => []
  }

  /** The requests from number `j` on are all for one page. */
  ghost predicate OnePage(reqs: seq<Served>, j: nat) {
    forall k :: j <= k < |reqs| ==> reqs[k].page == reqs[|reqs| - 1].page
  }

  /** Packet `x` was asked for by one of the requests since the page changed for the last time, or
      it was already queued for that page. */
  ghost predicate Asked(o: Object, reqs: seq<Served>, x: nat)
    requires reqs != []
  {
    (exists j :: 0 <= j < |reqs| && OnePage(reqs, j) && x in reqs[j].wanted)
    || (OnePage(reqs, 0) && reqs[0].page == o.txPage && x in o.txSet)
  }

  lemma AskedFirst(o: Object, r: Served, x: nat)
    ensures Asked(o, [r], x) <==> x in r.wanted || (r.page == o.txPage && x in o.txSet)
  {
    assert OnePage([r], 0);
    assert [r][0] == r;
  }

  lemma AskedNext(o: Object, reqs: seq<Served>, r: Served, x: nat)
    requires reqs != []
    ensures Asked(o, reqs + [r], x) <==> x in r.wanted || (r.page == reqs[|reqs| - 1].page && Asked(o, reqs, x))
  {
    var more := reqs + [r];
    assert more[|reqs|] == r && OnePage(more, |reqs|);
    forall j | 0 <= j < |reqs| ensures OnePage(more, j) <==> r.page == reqs[|reqs| - 1].page && OnePage(reqs, j) {
      if OnePage(more, j) {
        assert more[|reqs| - 1].page == more[|more| - 1].page;
        assert forall k :: j <= k < |reqs| ==> more[k] == reqs[k];
      }
    }
    if Asked(o, more, x) && x !in r.wanted {
      if j :| 0 <= j < |more| && OnePage(more, j) && x in more[j].wanted {
        assert j < |reqs| && more[j] == reqs[j];
      }
    }
    if r.page == reqs[|reqs| - 1].page && Asked(o, reqs, x) {
      if j :| 0 <= j < |reqs| && OnePage(reqs, j) && x in reqs[j].wanted {
        assert more[j] == reqs[j];
      }
    }
  }

  /** What the node has queued after serving these requests. */
  ghost predicate Queued(o: Object, reqs: seq<Served>, n: Node) {
    n.obj == o.(txSet := n.obj.txSet, txPage := n.obj.txPage)
    && if reqs == [] then n.obj == o
       else n.mode == Tx && n.timers.tx && n.obj.txPage == reqs[|reqs| - 1].page
            && forall x: nat :: x in n.obj.txSet <==> Asked(o, reqs, x)
  }

  ghost predicate NearPages(reqs: seq<Served>) {
    forall k :: 0 <= k < |reqs| ==> reqs[k].page < 128
  }

  lemma RequestIsQueued(o: Object, reqs: seq<Served>, n: Node, version: byte, page: nat, wanted: set<nat>)
    requires Queued(o, reqs, n) && Serves(o, version, page) && page < 128
    ensures Queued(o, reqs + [Served(page, wanted)], HandleRequest(n, version, page, wanted))
  {
    var r := Served(page, wanted);
    var m := HandleRequest(n, version, page, wanted);
    assert m.obj == QueueRequest(n.obj, page, wanted);
    forall x: nat ensures x in m.obj.txSet <==> Asked(o, reqs + [r], x) {
      if reqs == [] {
        assert reqs + [r] == [r];
        AskedFirst(o, r, x);
      } else {
        AskedNext(o, reqs, r, x);
      }
    }
  }

  lemma StepQueues(o: Object, reqs: seq<Served>, n: Node, crc: seq<byte> -> nat, i: Input)
    requires Queued(o, reqs, n) && Ready(n, i) && Harmless(o, i) && NearPages(reqs + ServedBy(o, i))
    ensures Queued(o, reqs + ServedBy(o, i), React(n, crc, i).0)
  {
    if i.Hear? && i.message.Request? && Serves(o, i.message.version, i.message.page) {
      var r := Served(i.message.page, i.message.wanted);
      assert (reqs + [r])[|reqs|] == r;
      RequestIsQueued(o, reqs, n, i.message.version, i.message.page, i.message.wanted);
    } else {
      assert reqs + ServedBy(o, i) == reqs;
    }
  }

  lemma {:induction false} RunQueues(n: Node, crc: seq<byte> -> nat, inputs: seq<Input>)
    requires Possible(n, crc, inputs) && NearPages(ServedOf(n.obj, inputs))
    ensures Queued(n.obj, ServedOf(n.obj, inputs), Later(n, crc, inputs))
    decreases |inputs|
  {
    if inputs != [] {
      var k := |inputs| - 1;
      var reqs := ServedOf(n.obj, inputs[..k]);
      forall j | 0 <= j < |reqs| ensures reqs[j].page < 128 {
        assert ServedOf(n.obj, inputs)[j] == reqs[j];
      }
      RunQueues(n, crc, inputs[..k]);
      StepQueues(n.obj, reqs, Later(n, crc, inputs[..k]), crc, inputs[k]);
    }
  }

  // ----- The transmission -----

  /** A packet of a page, with the version of the page and the bytes of the file. */
  ghost predicate IsPacket(m: Message, o: Object, crc: seq<byte> -> nat, page: nat)
    requires page < |o.pages| && page < |o.file|
  {
    m.Packet? && m.version == o.pages[page].version && m.page == page && m.num < 4
    && m.payload == o.file[page][64 * m.num..64 * m.num + 64] && m.crc == crc(m.payload)
  }

  /** One of the messages is packet number `k`. */
  ghost predicate Sent(out: seq<Message>, k: nat) {
    exists i :: 0 <= i < |out| && out[i].Packet? && out[i].num == k
  }

  /** The messages are packets of the page, each at most once, in ascending order from `k` on. */
  ghost predicate Packets(out: seq<Message>, o: Object, crc: seq<byte> -> nat, page: nat, k: nat)
    requires page < |o.pages| && page < |o.file|
  {
    (forall i :: 0 <= i < |out| ==> IsPacket(out[i], o, crc, page) && out[i].num >= k)
    && forall i, j :: 0 <= i < j < |out| ==> out[i].num < out[j].num
  }

  lemma OnePacket(o: Object, crc: seq<byte> -> nat, page: nat, k: nat)
    requires page < |o.pages| && page < |o.file| && k < 4
    ensures k !in o.txSet ==> PacketOf(o, crc, page, k) == []
    ensures k in o.txSet ==>
              |PacketOf(o, crc, page, k)| == 1 && IsPacket(PacketOf(o, crc, page, k)[0], o, crc, page)
              && PacketOf(o, crc, page, k)[0].num == k
  {
  }

  lemma PacketFirst(m: Message, tail: seq<Message>, o: Object, crc: seq<byte> -> nat, page: nat, k: nat)
    requires page < |o.pages| && page < |o.file| && IsPacket(m, o, crc, page) && m.num == k
    requires Packets(tail, o, crc, page, k + 1)
    ensures Packets([m] + tail, o, crc, page, k)
  {
    var out := [m] + tail;
    assert forall i :: 0 < i < |out| ==> out[i] == tail[i - 1];
  }

  /** The messages are the packets from number `k` on that are in the transmission set. */
  ghost predicate AreQueued(out: seq<Message>, o: Object, crc: seq<byte> -> nat, page: nat, k: nat)
    requires page < |o.pages| && page < |o.file|
  {
    Packets(out, o, crc, page, k) && forall x: nat :: Sent(out, x) <==> x in o.txSet && k <= x < 4
  }

  lemma OneMore(o: Object, crc: seq<byte> -> nat, page: nat, k: nat, tail: seq<Message>)
    requires page < |o.pages| && page < |o.file| && k < 4 && AreQueued(tail, o, crc, page, k + 1)
    ensures AreQueued(PacketOf(o, crc, page, k) + tail, o, crc, page, k)
  {
    OnePacket(o, crc, page, k);
    var head := PacketOf(o, crc, page, k);
    if k in o.txSet {
      assert head == [head[0]];
      PacketFirst(head[0], tail, o, crc, page, k);
      SentFirst(head + tail, head[0], tail);
    } else {
      assert head + tail == tail;
    }
  }

  lemma {:induction false} PacketsInOrder(o: Object, crc: seq<byte> -> nat, page: nat, k: nat)
    requires page < |o.pages| && page < |o.file| && k <= PACKETS
    ensures AreQueued(PacketsFrom(o, crc, page, k), o, crc, page, k)
    decreases PACKETS - k
  {
    if k < PACKETS {
      PacketsInOrder(o, crc, page, k + 1);
      OneMore(o, crc, page, k, PacketsFrom(o, crc, page, k + 1));
    }
  }

  lemma SentFirst(out: seq<Message>, m: Message, tail: seq<Message>)
    requires out == [m] + tail && m.Packet?
    ensures forall x: nat :: Sent(out, x) <==> x == m.num || Sent(tail, x)
  {
    assert out[0] == m;
    forall x: nat ensures Sent(out, x) <==> x == m.num || Sent(tail, x) {
      if i :| 0 <= i < |tail| && tail[i].Packet? && tail[i].num == x {
        assert out[i + 1] == tail[i];
      }
      if i :| 0 < i < |out| && out[i].Packet? && out[i].num == x {
        assert out[i] == tail[i - 1];
      }
    }
  }

  /** No request is lost: after any events that do not take the node out of the mode, the transmission
      carries exactly the packets that some request has asked for since the page changed for the last
      time, and those that were already queued for it, each once and in ascending order. */
  lemma NoRequestIsLost(n: Node, crc: seq<byte> -> nat, inputs: seq<Input>)
    requires |n.obj.pages| == |n.obj.file| && Possible(n, crc, inputs)
    requires ServedOf(n.obj, inputs) != [] && NearPages(ServedOf(n.obj, inputs))
    ensures var reqs, m := ServedOf(n.obj, inputs), Later(n, crc, inputs);
            var page := reqs[|reqs| - 1].page;
            Ready(m, TxFires) && page < |n.obj.pages|
            && Packets(React(m, crc, TxFires).1, n.obj, crc, page, 0)
            && forall x: nat :: Sent(React(m, crc, TxFires).1, x) <==> x < 4 && Asked(n.obj, reqs, x)
  {
    var reqs, m := ServedOf(n.obj, inputs), Later(n, crc, inputs);
    RunQueues(n, crc, inputs);
    ServedPages(n.obj, inputs);
    TransmissionIsSet(m, n.obj, crc, reqs[|reqs| - 1].page);
  }

  /** The transmission carries the packets in the set; after it the node is back in the maintain mode, and
      nothing is queued. */
  lemma TransmissionIsSet(m: Node, o: Object, crc: seq<byte> -> nat, page: nat)
    requires m.obj == o.(txSet := m.obj.txSet, txPage := page) && page < |o.pages| && page < |o.file|
    ensures var (after, out) := Transmit(m, crc);
            Packets(out, o, crc, page, 0) && (forall x: nat :: Sent(out, x) <==> x < 4 && x in m.obj.txSet)
            && (m.obj.txSet != {} ==> after.obj == o.(txSet := {}, txPage := -1) && after.mode == Maintain)
            && !after.timers.tx
  {
    PacketsInOrder(m.obj, crc, page, 0);
  }

  lemma {:induction false} ServedPages(o: Object, inputs: seq<Input>)
    ensures forall k :: 0 <= k < |ServedOf(o, inputs)| ==> ServedOf(o, inputs)[k].page < |o.pages|
    decreases |inputs|
  {
    if inputs != [] {
      ServedPages(o, inputs[..|inputs| - 1]);
    }
  }
}
