/** Rounds of the maintain mode: which advertisements are suppressed, and when requests are given up. */
module DelugeRounds {
  import opened DelugeNode
  import opened DelugeRequests

  /** A neighbour advertises just what the node has. */
  predicate HearsTheSame(o: Object, i: Input) {
    i.Hear? && i.message == Summary(o.version, Available(o))
  }

  /** A neighbour has something else, or asks with another version. */
  predicate HearsDifference(o: Object, i: Input) {
    match i
    case Hear(Summary(version, highest), _) => version != o.version || highest != Available(o)
    case Hear(Request(version, page, _), _) => version != o.version && page < |o.pages|
    case _ => false
  }

  predicate HearsOlder(o: Object, i: Input) {
    i.Hear? && i.message.Summary? && i.message.version < o.version
  }

  ghost predicate SomeSame(o: Object, inputs: seq<Input>) {
    exists k :: 0 <= k < |inputs| && HearsTheSame(o, inputs[k])
  }

  ghost predicate SomeDifference(o: Object, inputs: seq<Input>) {
    exists k :: 0 <= k < |inputs| && HearsDifference(o, inputs[k])
  }

  ghost predicate SomeOlder(o: Object, inputs: seq<Input>) {
    exists k :: 0 <= k < |inputs| && HearsOlder(o, inputs[k])
  }

  /** The node at the start of a round and after some events of it. */
  ghost predicate RoundHasHeard(n: Node, inputs: seq<Input>, m: Node) {
    m.obj == n.obj.(txSet := m.obj.txSet, txPage := m.obj.txPage)
    && (m.advertised > 0 <==> SomeSame(n.obj, inputs))
    && (m.inconsistent <==> SomeDifference(n.obj, inputs))
    && (m.offersProfile <==> n.offersProfile || SomeOlder(n.obj, inputs))
  }

  lemma OneMoreHeard(o: Object, inputs: seq<Input>, i: Input)
    ensures SomeSame(o, inputs + [i]) <==> SomeSame(o, inputs) || HearsTheSame(o, i)
    ensures SomeDifference(o, inputs + [i]) <==> SomeDifference(o, inputs) || HearsDifference(o, i)
    ensures SomeOlder(o, inputs + [i]) <==> SomeOlder(o, inputs) || HearsOlder(o, i)
  {
    var more := inputs + [i];
    assert more[|inputs|] == i;
    assert forall k :: 0 <= k < |inputs| ==> more[k] == inputs[k];
  }

  lemma StepIsHeard(n: Node, crc: seq<byte> -> nat, inputs: seq<Input>, m: Node, i: Input)
    requires RoundHasHeard(n, inputs, m) && Ready(m, i) && Harmless(n.obj, i) && !i.NewRound? && !i.ProfileFires?
    ensures RoundHasHeard(n, inputs + [i], React(m, crc, i).0)
  {
    OneMoreHeard(n.obj, inputs, i);
  }

  /** No event starts another round or sends a profile. */
  ghost predicate WithinRound(inputs: seq<Input>) {
    forall k :: 0 <= k < |inputs| ==> !inputs[k].NewRound? && !inputs[k].ProfileFires?
  }

  lemma {:induction false} RoundRemembers(n: Node, crc: seq<byte> -> nat, inputs: seq<Input>)
    requires Possible(n, crc, inputs) && WithinRound(inputs) && n.advertised == 0 && !n.inconsistent
    ensures RoundHasHeard(n, inputs, Later(n, crc, inputs))
    decreases |inputs|
  {
    if inputs != [] {
      var k := |inputs| - 1;
      RoundRemembers(n, crc, inputs[..k]);
      StepIsHeard(n, crc, inputs[..k], Later(n, crc, inputs[..k]), inputs[k]);
      assert inputs == inputs[..k] + [inputs[k]];
    }
  }

  /** The profile holds the version of each page. */
  ghost predicate OffersAll(o: Object, out: seq<Message>) {
    |out| == 1 && out[0].Profile? && out[0].version == o.version && |out[0].vector| == |o.pages|
    && forall k :: 0 <= k < |o.pages| ==> out[0].vector[k] == o.pages[k].version
  }

  /** In a round, whatever happens in it that leaves the node in its mode: its summary is sent exactly if
      no neighbour has advertised just the same, and so is a profile, if besides some neighbour, in this
      round or earlier, had an older version; the round is found inconsistent exactly if some neighbour
      differed. */
  lemma AdvertisementsInRound(before: Node, crc: seq<byte> -> nat, inputs: seq<Input>)
    requires |before.obj.pages| == |before.obj.file|
    requires var n := React(before, crc, NewRound).0; Possible(n, crc, inputs) && WithinRound(inputs)
    ensures var n := React(before, crc, NewRound).0;
            var o, m := before.obj, Later(n, crc, inputs);
            && Advertise(m).1 == (if SomeSame(o, inputs) then [] else [Summary(o.update, Available(o))])
            && (if SomeSame(o, inputs) || !(before.offersProfile || SomeOlder(o, inputs)) then SendProfile(m).1 == []
                else OffersAll(o, SendProfile(m).1))
            && (m.inconsistent <==> SomeDifference(o, inputs))
            && n.timers == before.timers.(summary := true, profile := true)
  {
    RoundRemembers(React(before, crc, NewRound).0, crc, inputs);
  }

  // ----- What single messages start and stop -----

  /** A summary starts the reception exactly if it is of the update the node is at, offers a page that the node
      does not have, and no request or data has been heard of recently; leaving the mode stops its timers. */
  lemma SummaryStartsReception(n: Node, version: byte, highest: nat, recent: bool)
    requires n.mode != Rx && !n.timers.rx && highest <= |n.obj.pages|
    ensures var m := HandleSummary(n, version, highest, recent);
            var starts := version == n.obj.update && !recent
                          && exists k :: 0 <= k < highest && !n.obj.pages[k].complete;
            m.obj == n.obj
            && (starts ==> m.mode == Rx && m.timers.rx
                           && (n.mode == Maintain ==> !m.timers.summary && !m.timers.profile)
                           && (n.mode == Tx ==> !m.timers.tx))
            && (!starts ==> m.mode == n.mode && m.timers == n.timers)
  {
    AllComplete(n.obj.pages, 0);
    if Available(n.obj) < highest {
      assert !n.obj.pages[Available(n.obj)].complete;
    }
  }

  /** The last packet of the page that is received. The next request is scheduled if a page is left, but
      leaving the mode of reception cancels it; it stays scheduled if the packet was overheard. */
  lemma LastPacket(n: Node, crc: seq<byte> -> nat, num: nat, payload: Payload)
    requires n.obj.rxPage < |n.obj.pages| == |n.obj.file| && num < PACKETS
    requires var page := n.obj.pages[n.obj.rxPage]; !page.complete && page.packets + {num} == {0, 1, 2, 3}
    ensures var page := n.obj.rxPage;
            var m := HandlePacket(n, crc, n.obj.pages[page].version, page, num, crc(payload), payload);
            && m.mode == Maintain
            && (m.timers.rx <==> n.mode != Rx && (page + 1 < |n.obj.pages| || n.timers.rx))
            && (n.mode == Tx ==> !m.timers.tx)
            && m.obj.rxPage == page + 1 && m.obj.pages[page].complete
            && (m.inconsistent <==> n.inconsistent || n.obj.pages[page].version != n.obj.version)
  {
  }

  /** A packet for another page, or of another version, changes nothing but what is noted of the round. */
  lemma OtherPacket(n: Node, crc: seq<byte> -> nat, version: byte, page: nat, num: nat, sum: nat, payload: Payload)
    requires page < |n.obj.pages| == |n.obj.file| && num < PACKETS
    requires page != n.obj.rxPage || version != n.obj.pages[page].version || n.obj.pages[page].complete
    ensures HandlePacket(n, crc, version, page, num, sum, payload)
            == n.(inconsistent := n.inconsistent || (page == n.obj.rxPage && version != n.obj.version))
  {
  }

  /** A profile of a newer update takes back what is queued, even if there is no memory for its page table;
      otherwise the node goes on with the first page that is outdated or has not been complete before. */
  lemma NewerProfile(n: Node, version: byte, vector: seq<byte>, memory: bool)
    requires |vector| == |n.obj.pages|
    ensures var m := HandleProfile(n, version, vector, memory);
            if version <= n.obj.update then m == n
            else if !memory then m == n.(obj := n.obj.(txSet := {}))
            else
              m.obj.txSet == {} && m.obj.update == version && m.obj.version == n.obj.version && m.mode == Rx
                  && m.timers.rx
              && m.obj.rxPage <= |vector|
              && (forall k :: 0 <= k < m.obj.rxPage ==> vector[k] <= n.obj.pages[k].version && n.obj.pages[k].complete)
              && (m.obj.rxPage < |vector| ==>
                    vector[m.obj.rxPage] > n.obj.pages[m.obj.rxPage].version || !n.obj.pages[m.obj.rxPage].complete)
  {
    var pages := Outdated(n.obj.pages, vector);
    AllComplete(pages, 0);
    assert forall k :: 0 <= k < |pages| ==>
      (pages[k].complete <==> vector[k] <= n.obj.pages[k].version && n.obj.pages[k].complete);
  }

  // ----- Requests -----

  /** A node that receives a page asks for exactly the packets it does not have, twice; then it gives up
      until it hears of the page again. */
  lemma TwoRequests(n: Node, crc: seq<byte> -> nat, s1: (byte, set<nat>), s2: (byte, set<nat>))
    requires |n.obj.pages| == |n.obj.file| && n.mode == Rx && n.timers.rx && n.obj.requests == 0
    requires n.obj.rxPage < |n.obj.pages|
    ensures var (n1, out1) := React(n, crc, RxFires(s1));
            n1 == n.(obj := n1.obj) && n1.obj == n.obj.(requests := 1) && AsksForMissing(n.obj, out1)
            && var (n2, out2) := React(n1, crc, RxFires(s2));
               n2 == n.(obj := n.obj, mode := Maintain, timers := n.timers.(rx := false)) && AsksForMissing(n.obj, out2)
  {
  }

  ghost predicate AsksForMissing(o: Object, out: seq<Message>)
    requires o.rxPage < |o.pages|
  {
    |out| == 1 && out[0].Request? && out[0].version == o.pages[o.rxPage].version && out[0].page == o.rxPage
    && forall x: nat :: x < 4 ==> (x in out[0].wanted <==> x !in o.pages[o.rxPage].packets)
  }
}
