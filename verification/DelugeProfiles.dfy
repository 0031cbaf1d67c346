/** Which profiles can be adopted at all: the receive position starts at the first page that is
    not complete and moves on by one page after the other, so that it stops at a page that is
    complete already. */
module DelugeProfiles {
  import opened DelugeNode
  import opened DelugeAdoption

  /** A profile of a newer version leaves nothing to receive exactly if every page is complete and
      no entry is above its page's version. */
  lemma NothingToReceive(o: Object, version: byte, vector: seq<byte>)
    requires |vector| == |o.pages|
    ensures Renew(o, version, vector).rxPage == |o.pages| <==>
              forall p :: 0 <= p < |o.pages| ==> o.pages[p].complete && vector[p] <= o.pages[p].version
  {
    var pages := Outdated(o.pages, vector);
    AllComplete(pages, 0);
    assert forall p :: 0 <= p < |pages| ==>
           pages[p].complete == (o.pages[p].complete && vector[p] <= o.pages[p].version);
  }

  // ----- Runs without another profile -----

  /** No input is a profile of a version above `update` that is passed on and could be accepted. */
  predicate Quiet(inputs: seq<Input>, update: byte) {
    forall k :: 0 <= k < |inputs| ==> QuietInput(inputs[k], update)
  }

  predicate QuietInput(i: Input, update: byte) {
    !(i.Hear? && i.message.Profile? && LongEnough(i.message.vector) && i.message.version > update && i.choice)
  }

  /** There is a page to receive, and no page from there on is complete. */
  predicate Open(o: Object) {
    o.rxPage < |o.pages| && forall p :: o.rxPage <= p < |o.pages| ==> !o.pages[p].complete
  }

  /** The node is stuck, with the version that it had in `s` and the update that it knew there. */
  predicate Stuck(s: Object, t: Object) {
    !Open(t) && t.version == s.version && t.update == s.update
  }

  lemma StaysStuck(s: Object, n: Node, crc: seq<byte> -> nat, i: Input)
    requires Stuck(s, n.obj) && Ready(n, i) && QuietInput(i, s.update)
    ensures Stuck(s, React(n, crc, i).0.obj)
  {
    if i.Hear? && i.message.Packet? && Wants(n.obj, i.message.version, i.message.page) {
      PacketKeepsStuck(s, n.obj, crc, i.message);
    }
  }

  lemma PacketKeepsStuck(s: Object, o: Object, crc: seq<byte> -> nat, m: Message)
    requires Stuck(s, o) && |o.pages| == |o.file| && m.Packet? && m.num < PACKETS && Wants(o, m.version, m.page)
    ensures Stuck(s, Accept(o, crc, m.page, m.num, m.crc, m.payload))
  {
    var r := Accept(o, crc, m.page, m.num, m.crc, m.payload);
    var p :| o.rxPage <= p < |o.pages| && o.pages[p].complete;
    assert p != o.rxPage;
    assert r.pages[p].complete;
  }

  /** A node that has nothing to receive, or has a complete page behind the receive position,
      keeps its version in every state up to the next profile that it accepts. */
  lemma {:induction false} NeverAdopted(s: Watched, crc: seq<byte> -> nat, inputs: seq<Input>)
    requires !Open(s.node.obj) && Quiet(inputs, s.node.obj.update)
    ensures forall k :: 0 <= k < |inputs| + 1 ==> Stuck(s.node.obj, History(s, crc, inputs)[k].node.obj)
    decreases |inputs|
  {
    if inputs != [] {
      var before, i := inputs[..|inputs| - 1], inputs[|inputs| - 1];
      NeverAdopted(s, crc, before);
      var h := History(s, crc, before);
      if Ready(h[0].node, i) {
        StaysStuck(s.node.obj, h[0].node, crc, i);
      }
      assert forall k :: 1 <= k < |inputs| + 1 ==> History(s, crc, inputs)[k] == h[k - 1];
    }
  }

  // ----- Completing an update -----

  /** A run without another profile leads from `s` to `t`. */
  ghost predicate Leads(s: Watched, crc: seq<byte> -> nat, t: Watched) {
    exists inputs :: Quiet(inputs, s.node.obj.update) && History(s, crc, inputs)[0] == t
  }

  lemma LeadsStep(s: Watched, crc: seq<byte> -> nat, t: Watched, i: Input)
    requires Leads(s, crc, t) && Ready(t.node, i) && QuietInput(i, s.node.obj.update)
    ensures Leads(s, crc, Advance(t, crc, i))
  {
    var inputs :| Quiet(inputs, s.node.obj.update) && History(s, crc, inputs)[0] == t;
    var longer := inputs + [i];
    assert longer[..|longer| - 1] == inputs;
    assert History(s, crc, longer)[0] == Advance(t, crc, i);
  }

  /** The packet with the right checksum that the node waits for. */
  function Awaited(o: Object, crc: seq<byte> -> nat, k: nat): Input
    requires o.rxPage < |o.pages|
  {
    var payload: Payload := seq(PACKET_SIZE, _ => 0);
    Hear(Packet(o.pages[o.rxPage].version, o.rxPage, k, crc(payload), payload), false)
  }

  /** The first `k` packets of the page at the receive position have come. */
  ghost predicate HasFirst(o: Object, k: nat) {
    Open(o) && |o.pages| == |o.file| && PacketsInRange(o.pages) && FirstPackets(k) <= o.pages[o.rxPage].packets
  }

  /** The next packet either completes the page or leaves it with one more packet. */
  lemma AwaitedComes(n: Node, crc: seq<byte> -> nat, k: nat)
    requires HasFirst(n.obj, k) && k < PACKETS
    ensures var r := React(n, crc, Awaited(n.obj, crc, k)).0.obj;
            && |r.pages| == |n.obj.pages| && r.update == n.obj.update
            && if r.rxPage == n.obj.rxPage then HasFirst(r, k + 1) && k + 1 < PACKETS
               else r.rxPage == n.obj.rxPage + 1
                    && (if r.rxPage < |r.pages| then HasFirst(r, 0) else r.version == r.update)
  {
    var r := React(n, crc, Awaited(n.obj, crc, k)).0.obj;
    var rx := n.obj.rxPage;
    assert FirstPackets(k) + {k} == FirstPackets(k + 1);
    assert forall p :: rx < p < |n.obj.pages| ==> r.pages[p] == n.obj.pages[p];
    if k + 1 == PACKETS {
      assert FirstPackets(PACKETS) == ALL_PACKETS;
      assert n.obj.pages[rx].packets + {k} == ALL_PACKETS;
    }
  }

  /** The packets that are missing come one after the other, page after page. */
  lemma {:induction false} PacketsComplete(s: Watched, crc: seq<byte> -> nat, t: Watched, k: nat) returns (r: Watched)
    requires Leads(s, crc, t) && HasFirst(t.node.obj, k) && k < PACKETS && t.node.obj.update == s.node.obj.update
    ensures Leads(s, crc, r) && r.node.obj.version == s.node.obj.update
    decreases |t.node.obj.pages| - t.node.obj.rxPage, PACKETS - k
  {
    var i := Awaited(t.node.obj, crc, k);
    LeadsStep(s, crc, t, i);
    AwaitedComes(t.node, crc, k);
    r := Advance(t, crc, i);
    if r.node.obj.rxPage == t.node.obj.rxPage {
      r := PacketsComplete(s, crc, r, k + 1);
    } else if r.node.obj.rxPage < |r.node.obj.pages| {
      r := PacketsComplete(s, crc, r, 0);
    }
  }

  /** A node that knows of an update which it has not adopted can adopt it before it accepts
      another profile, whatever it is sent, exactly if there is a page to receive and no page from
      there on is complete. */
  lemma AdoptionPossible(s: Watched, crc: seq<byte> -> nat)
    requires Sound(s) && s.node.obj.version != s.node.obj.update
    ensures (exists t :: Leads(s, crc, t) && t.node.obj.version == s.node.obj.update) <==> Open(s.node.obj)
  {
    if Open(s.node.obj) {
      assert FirstPackets(0) == {};
      assert Quiet([], s.node.obj.update) && History(s, crc, [])[0] == s;
      var t := PacketsComplete(s, crc, s, 0);
    } else {
      forall t | Leads(s, crc, t) ensures t.node.obj.version != s.node.obj.update {
        var inputs :| Quiet(inputs, s.node.obj.update) && History(s, crc, inputs)[0] == t;
        NeverAdopted(s, crc, inputs);
      }
    }
  }

  // ----- Profiles -----

  /** The profile asks for page `p` to be received. */
  predicate Stale(o: Object, vector: seq<byte>, p: nat)
    requires p < |o.pages| == |vector|
  {
    !o.pages[p].complete || vector[p] > o.pages[p].version
  }

  /** The pages to be received are the last ones of the object, and there is one. */
  predicate StaleToTheEnd(o: Object, vector: seq<byte>)
    requires |o.pages| == |vector|
  {
    |o.pages| > 0 && Stale(o, vector, |o.pages| - 1)
    && forall p :: 0 <= p < |o.pages| - 1 && Stale(o, vector, p) ==> Stale(o, vector, p + 1)
  }

  lemma {:induction false} StaleFrom(o: Object, vector: seq<byte>, p: nat, q: nat)
    requires |o.pages| == |vector| && p <= q < |o.pages| && StaleToTheEnd(o, vector) && Stale(o, vector, p)
    ensures Stale(o, vector, q)
    decreases q - p
  {
    if p < q {
      StaleFrom(o, vector, p + 1, q);
    }
  }

  lemma OpenAfterProfile(o: Object, version: byte, vector: seq<byte>)
    requires |vector| == |o.pages|
    ensures Open(Renew(o, version, vector)) <==> StaleToTheEnd(o, vector)
  {
    var r := Renew(o, version, vector);
    AllComplete(r.pages, 0);
    assert forall p :: 0 <= p < |r.pages| ==> r.pages[p].complete == !Stale(o, vector, p);
    if StaleToTheEnd(o, vector) {
      forall p | r.rxPage <= p < |r.pages| ensures !r.pages[p].complete {
        StaleFrom(o, vector, r.rxPage, p);
      }
    }
  }

  /** Without another profile that is accepted, a node's update stays what it is. */
  lemma {:induction false} UpdateStays(s: Watched, crc: seq<byte> -> nat, inputs: seq<Input>)
    requires Sound(s) && Quiet(inputs, s.node.obj.update)
    ensures var t := History(s, crc, inputs)[0];
            Sound(t) && t.node.obj.update == s.node.obj.update
    decreases |inputs|
  {
    if inputs != [] {
      var before, i := inputs[..|inputs| - 1], inputs[|inputs| - 1];
      UpdateStays(s, crc, before);
      var h := History(s, crc, before);
      if Ready(h[0].node, i) {
        AdvanceSound(h[0], crc, i);
        OneUpdateStays(h[0].node, crc, i);
      }
    }
  }

  lemma OneUpdateStays(n: Node, crc: seq<byte> -> nat, i: Input)
    requires Ready(n, i) && QuietInput(i, n.obj.update)
    ensures React(n, crc, i).0.obj.update == n.obj.update
  {
  }

  /** A version that a profile announces can be adopted, by what is sent before the next accepted
      profile, exactly if the first entry of the profile is at most 1, so that it is passed on, and the
      pages that it asks for are the last ones of the object and at least one; otherwise it is never
      adopted. */
  lemma ProfileCanBeAdopted(s: Watched, crc: seq<byte> -> nat, version: byte, vector: seq<byte>)
    requires Sound(s) && |vector| == |s.node.obj.pages| && version > s.node.obj.update
    ensures var t := Advance(s, crc, Hear(Profile(version, vector), true));
            (exists r :: Leads(t, crc, r) && r.node.obj.version == version) <==>
              StaleToTheEnd(s.node.obj, vector) && vector[0] <= 1
  {
    var i := Hear(Profile(version, vector), true);
    var t := Advance(s, crc, i);
    AdvanceSound(s, crc, i);
    PassedOn(vector);
    if LongEnough(vector) {
      OpenAfterProfile(s.node.obj, version, vector);
      AdoptionPossible(t, crc);
    } else {
      forall r | Leads(t, crc, r) ensures r.node.obj.version != version {
        var inputs :| Quiet(inputs, t.node.obj.update) && History(t, crc, inputs)[0] == r;
        UpdateStays(t, crc, inputs);
      }
    }
  }
}
