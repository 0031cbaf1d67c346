/** When an update can reach a node at all: exactly for version 1 and files of 1 to 128 pages. */
module DelugeProgress {
  import opened DelugeNode
  import opened DelugeNetwork
  import L = DelugeLimits
  import V = DelugeVersions

  // ----- Reaching a state -----

  ghost predicate Reaches(s: Network, crc: seq<byte> -> nat, t: Network) {
    exists run :: Run(s, crc, run) == Reached(t)
  }

  /** One more event. */
  lemma ReachesStep(s: Network, crc: seq<byte> -> nat, t: Network, e: Event) returns (r: Network)
    requires Reaches(s, crc, t) && Enabled(t, e)
    ensures r == Step(t, crc, e) && Reaches(s, crc, r)
  {
    r := Step(t, crc, e);
    var a :| Run(s, crc, a) == Reached(t);
    assert (a + [e])[..|a + [e]| - 1] == a;
    assert Run(s, crc, a + [e]) == Reached(r);
  }

  lemma ReachesSelf(s: Network, crc: seq<byte> -> nat)
    ensures Reaches(s, crc, s)
  {
    assert Run(s, crc, []) == Reached(s);
  }

  // ----- A transfer -----

  /** The node has the pages below `p` of the update and nothing of the others. */
  ghost predicate Reading(n: Node, u: Update, p: nat) {
    && n.obj.update == u.w && n.obj.version == (if p == |u.source| then u.w else u.v)
    && |n.obj.pages| == |n.obj.file| == |u.source| && n.obj.rxPage == p <= |u.source|
    && (forall q :: 0 <= q < p ==> n.obj.pages[q] == Page(u.w, ALL_PACKETS, true))
    && (forall q :: p <= q < |u.source| ==> n.obj.pages[q] == Page(u.w, {}, false))
  }

  /** The node has the whole file. */
  ghost predicate Serving(n: Node, u: Update) {
    && n.obj.version == n.obj.update == u.w && |n.obj.pages| == |n.obj.file| == |u.source|
    && (forall q :: 0 <= q < |u.source| ==> n.obj.pages[q] == Page(u.w, ALL_PACKETS, true))
  }

  /** The page is being received, and its first `k` packets have come. */
  ghost predicate Filling(n: Node, u: Update, p: nat, k: nat) {
    && n.obj.update == u.w && n.obj.version == u.v
    && |n.obj.pages| == |n.obj.file| == |u.source| && n.obj.rxPage == p < |u.source| && k < PACKETS
    && (forall q :: 0 <= q < p ==> n.obj.pages[q] == Page(u.w, ALL_PACKETS, true))
    && n.obj.pages[p] == Page(u.w, FirstPackets(k), false)
    && (forall q :: p < q < |u.source| ==> n.obj.pages[q] == Page(u.w, {}, false))
  }

  /** The next packet of the page, which may be the last one. */
  lemma PacketFills(n: Node, crc: seq<byte> -> nat, u: Update, p: nat, k: nat, payload: Payload)
    requires Filling(n, u, p, k) && u.v < u.w
    ensures var r := HandlePacket(n, crc, u.w, p, k, crc(payload), payload);
            if k + 1 < PACKETS then Filling(r, u, p, k + 1) else Reading(r, u, p + 1)
  {
    assert FirstPackets(k) + {k} == FirstPackets(k + 1);
    assert FirstPackets(k + 1) == ALL_PACKETS <==> k + 1 == PACKETS by {
      assert 3 in ALL_PACKETS;
    }
  }

  /** The packets of a page, from number `k` on, one after the other. */
  lemma {:induction false} PageFills(s: Network, crc: seq<byte> -> nat, t: Network, u: Update, i: nat, p: nat, k: nat,
                                     data: PageData) returns (r: Network)
    requires Reaches(s, crc, t) && i < |t.nodes| && Filling(t.nodes[i], u, p, k) && u.v < u.w
    requires forall m: nat :: m < PACKETS ==> Packet(u.w, p, m, crc(Slot(data, m)), Slot(data, m)) in t.sent
    ensures Reaches(s, crc, r) && |r.nodes| == |t.nodes| && Reading(r.nodes[i], u, p + 1) && r.sent == t.sent
    ensures forall j :: 0 <= j < |t.nodes| && j != i ==> r.nodes[j] == t.nodes[j]
    decreases PACKETS - k
  {
    var m := Packet(u.w, p, k, crc(Slot(data, k)), Slot(data, k));
    r := ReachesStep(s, crc, t, Event(i, Hear(m, false)));
    PacketFills(t.nodes[i], crc, u, p, k, Slot(data, k));
    assert r.sent == t.sent;
    if k + 1 < PACKETS {
      r := PageFills(s, crc, r, u, i, p, k + 1, data);
    }
  }

  // ----- One page -----

  lemma AvailableIs(pages: seq<Page>, p: nat)
    requires p <= |pages| && (forall q :: 0 <= q < p ==> pages[q].complete) && (p < |pages| ==> !pages[p].complete)
    ensures Highest(pages, 0) == p
  {
    AllComplete(pages, 0);
  }

  /** The reader hears that the source has more than it and asks for its next page. */
  lemma AsksForPage(n: Node, u: Update, p: nat, stray: (byte, set<nat>)) returns (a: Node)
    requires Reading(n, u, p) && p < |u.source|
    ensures a == HandleSummary(n, u.w, |u.source|, false) && a.timers.rx
    ensures Reading(a, u, p) && Reading(SendRequest(a, stray).0, u, p)
    ensures SendRequest(a, stray).1 == [Request(u.w, p, ALL_BITS)]
  {
    AvailableIs(n.obj.pages, p);
    a := HandleSummary(n, u.w, |u.source|, false);
    assert ALL_BITS - {} == ALL_BITS;
  }

  /** The source answers with all packets of the page. */
  lemma AnswersWithPage(n: Node, crc: seq<byte> -> nat, u: Update, p: nat) returns (b: Node)
    requires Serving(n, u) && n.obj.file == u.source && p < |u.source| && p < 128
    ensures b == HandleRequest(n, u.w, p, ALL_BITS) && b.timers.tx && Serving(b, u) && b.obj.file == u.source
    ensures Serving(Transmit(b, crc).0, u) && Transmit(b, crc).0.obj.file == u.source
    ensures forall m: nat :: m < PACKETS ==>
            Packet(u.w, p, m, crc(Slot(u.source[p], m)), Slot(u.source[p], m)) in Transmit(b, crc).1
  {
    AvailableIs(n.obj.pages, |u.source|);
    b := HandleRequest(n, u.w, p, ALL_BITS);
    assert b.obj.txPage == p && ALL_BITS <= b.obj.txSet && 0 in b.obj.txSet;
    forall m: nat | m < PACKETS
      ensures Packet(u.w, p, m, crc(Slot(u.source[p], m)), Slot(u.source[p], m)) in Transmit(b, crc).1 {
      L.PacketsAre(b.obj, crc, p, 0, Packet(u.w, p, m, crc(Slot(u.source[p], m)), Slot(u.source[p], m)));
    }
  }

  /** The reader and the source at the beginning of a page. */
  ghost predicate Between(t: Network, u: Update, i: nat, j: nat, p: nat) {
    && i < |t.nodes| && j < |t.nodes| && i != j
    && Reading(t.nodes[i], u, p) && Serving(t.nodes[j], u) && t.nodes[j].obj.file == u.source
    && Summary(u.w, |u.source|) in t.sent
  }

  /** A page passes from the source to the reader. */
  lemma PagePasses(s: Network, crc: seq<byte> -> nat, t: Network, u: Update, i: nat, j: nat, p: nat)
    returns (r: Network)
    requires Reaches(s, crc, t) && Between(t, u, i, j, p) && p < |u.source| && p < 128 && u.v < u.w
    ensures Reaches(s, crc, r) && Between(r, u, i, j, p + 1)
  {
    var stray := (0, {});
    var a := AsksForPage(t.nodes[i], u, p, stray);
    var b := AnswersWithPage(t.nodes[j], crc, u, p);
    var t1 := ReachesStep(s, crc, t, Event(i, Hear(Summary(u.w, |u.source|), false)));
    assert t1.nodes[i] == a;
    var t2 := ReachesStep(s, crc, t1, Event(i, RxFires(stray)));
    assert Request(u.w, p, ALL_BITS) in t2.sent by {
      assert Request(u.w, p, ALL_BITS) in SendRequest(a, stray).1;
    }
    var t3 := ReachesStep(s, crc, t2, Event(j, Hear(Request(u.w, p, ALL_BITS), false)));
    assert t3.nodes[j] == b;
    var t4 := ReachesStep(s, crc, t3, Event(j, TxFires));
    assert Filling(t4.nodes[i], u, p, 0) by {
      assert FirstPackets(0) == {};
    }
    r := PageFills(s, crc, t4, u, i, p, 0, u.source[p]);
  }

  /** All pages pass. */
  lemma {:induction false} PagesPass(s: Network, crc: seq<byte> -> nat, t: Network, u: Update, i: nat, j: nat, p: nat)
    returns (r: Network)
    requires Reaches(s, crc, t) && Between(t, u, i, j, p) && p <= |u.source| <= 128 && u.v < u.w
    ensures Reaches(s, crc, r) && Between(r, u, i, j, |u.source|)
    decreases |u.source| - p
  {
    r := t;
    if p < |u.source| {
      r := PagePasses(s, crc, t, u, i, j, p);
      r := PagesPass(s, crc, r, u, i, j, p + 1);
    }
  }

  // ----- The beginning -----

  /** A node with the old version makes a node with the new one offer a profile. */
  lemma OffersProfile(u: Update) returns (b: Node)
    requires u.v < u.w
    ensures var begun := StartRound(Initial(u.w, u.source));
            b == HandleSummary(begun, u.v, |u.source|, false) && b.timers.summary && b.timers.profile
    ensures var (c, out) := Advertise(b);
            out == [Summary(u.w, |u.source|)] && c.timers.profile
            && SendProfile(c).1 == [Profile(u.w, seq(|u.source|, _ => u.w))]
            && Serving(SendProfile(c).0, u) && SendProfile(c).0.obj.file == u.source
  {
    b := HandleSummary(StartRound(Initial(u.w, u.source)), u.v, |u.source|, false);
    AvailableIs(b.obj.pages, |u.source|);
    assert Versions(b.obj.pages) == seq(|u.source|, _ => u.w);
  }

  /** The profile makes the other node begin to read. */
  lemma BeginsToRead(n: Node, u: Update)
    requires u.v < u.w == 1 && |u.source| > 0 && |n.obj.file| == |u.source| && n.obj == Initial(u.v, n.obj.file).obj
    ensures LongEnough(seq(|u.source|, _ => u.w))
    ensures Reading(HandleProfile(n, u.w, seq(|u.source|, _ => u.w), true), u, 0)
  {
    AvailableIs(Outdated(n.obj.pages, seq(|u.source|, _ => u.w)), 0);
  }

  /** What the reader sends first. */
  lemma Announces(u: Update, file: seq<PageData>)
    requires |file| == |u.source|
    ensures var (a, out) := Advertise(StartRound(Initial(u.v, file)));
            out == [Summary(u.v, |u.source|)] && a.obj == Initial(u.v, file).obj
  {
    AvailableIs(Initial(u.v, file).obj.pages, |file|);
  }

  /** From the start to the first page. */
  lemma Starts(s: Network, crc: seq<byte> -> nat, u: Update, i: nat, j: nat, file: seq<PageData>) returns (t: Network)
    requires u.v < u.w == 1 && |u.source| > 0 && |file| == |u.source| && i < |s.nodes| && j < |s.nodes|
    requires s.nodes[i] == Initial(u.v, file) && s.nodes[j] == Initial(u.w, u.source)
    ensures Reaches(s, crc, t) && Between(t, u, i, j, 0)
  {
    var profile := Profile(u.w, seq(|u.source|, _ => u.w));
    Announces(u, file);
    var b := OffersProfile(u);
    ReachesSelf(s, crc);
    var a1 := ReachesStep(s, crc, s, Event(i, NewRound));
    var a2 := ReachesStep(s, crc, a1, Event(i, SummaryFires));
    assert Summary(u.v, |u.source|) in a2.sent by {
      assert Summary(u.v, |u.source|) in Advertise(a1.nodes[i]).1;
    }
    assert a2.nodes[j] == s.nodes[j];
    var b1 := ReachesStep(s, crc, a2, Event(j, NewRound));
    var b2 := ReachesStep(s, crc, b1, Event(j, Hear(Summary(u.v, |u.source|), false)));
    assert b2.nodes[j] == b;
    t := Introduces(s, crc, b2, u, i, j, profile);
  }

  /** The source announces itself and sends its profile. */
  lemma Introduces(s: Network, crc: seq<byte> -> nat, b2: Network, u: Update, i: nat, j: nat, profile: Message)
    returns (t: Network)
    requires u.v < u.w == 1 && |u.source| > 0 && i < |b2.nodes| && j < |b2.nodes| && i != j && Reaches(s, crc, b2)
    requires profile == Profile(u.w, seq(|u.source|, _ => u.w))
    requires b2.nodes[j] == HandleSummary(StartRound(Initial(u.w, u.source)), u.v, |u.source|, false)
    requires |b2.nodes[i].obj.file| == |u.source| && b2.nodes[i].obj == Initial(u.v, b2.nodes[i].obj.file).obj
    ensures Reaches(s, crc, t) && Between(t, u, i, j, 0)
  {
    var b := OffersProfile(u);
    var b3 := ReachesStep(s, crc, b2, Event(j, SummaryFires));
    assert Summary(u.w, |u.source|) in b3.sent by {
      assert Summary(u.w, |u.source|) in Advertise(b).1;
    }
    var b4 := ReachesStep(s, crc, b3, Event(j, ProfileFires));
    assert profile in b4.sent by {
      assert profile in SendProfile(Advertise(b).0).1;
    }
    BeginsToRead(b4.nodes[i], u);
    t := ReachesStep(s, crc, b4, Event(i, Hear(profile, true)));
  }

  // ----- Files that cannot pass -----

  /** No packet from page 128 on has been sent or will be, and the node keeps its version. */
  ghost predicate Stuck(s: Network, u: Update, i: nat) {
    && i < |s.nodes| && s.nodes[i].obj.version == u.v && |s.nodes[i].obj.pages| == |u.source|
    && (forall k :: 0 <= k < |s.nodes| ==> s.nodes[k].obj.txPage < 128)
    && (forall m :: m in s.sent && m.Packet? ==> m.page < 128)
  }

  lemma {:induction false} PacketsOfPage(o: Object, crc: seq<byte> -> nat, page: nat, k: nat)
    requires page < |o.pages| && page < |o.file| && k <= PACKETS && page < 128
    ensures forall m :: m in PacketsFrom(o, crc, page, k) && m.Packet? ==> m.page < 128
    decreases PACKETS - k
  {
    if k < PACKETS {
      PacketsOfPage(o, crc, page, k + 1);
    }
  }

  /** No event makes a node send a packet of a far page. */
  lemma NearPagesOnly(n: Node, crc: seq<byte> -> nat, e: Input)
    requires Ready(n, e) && n.obj.txPage < 128
    ensures React(n, crc, e).0.obj.txPage < 128
    ensures forall m :: m in React(n, crc, e).1 && m.Packet? ==> m.page < 128
  {
    if e.TxFires? && Transmits(n.obj) {
      PacketsOfPage(n.obj, crc, n.obj.txPage, 0);
    }
  }

  lemma OtherPacketKeepsVersion(n: Node, crc: seq<byte> -> nat, version: byte, page: nat, num: nat, sum: nat,
                                payload: Payload)
    requires page < |n.obj.pages| == |n.obj.file| && num < PACKETS && page != |n.obj.pages| - 1
    ensures var r := HandlePacket(n, crc, version, page, num, sum, payload);
            r.obj.version == n.obj.version && |r.obj.pages| == |n.obj.pages|
  {
  }

  /** Without a packet of its last page a node keeps its version. */
  lemma KeepsVersion(n: Node, crc: seq<byte> -> nat, e: Input)
    requires Ready(n, e) && (e.Hear? && e.message.Packet? ==> e.message.page != |n.obj.pages| - 1)
    ensures React(n, crc, e).0.obj.version == n.obj.version && |React(n, crc, e).0.obj.pages| == |n.obj.pages|
  {
    if e.Hear? && e.message.Packet? {
      var m := e.message;
      OtherPacketKeepsVersion(n, crc, m.version, m.page, m.num, m.crc, m.payload);
    }
  }

  lemma StaysStuck(s: Network, crc: seq<byte> -> nat, u: Update, i: nat, e: Event)
    requires Stuck(s, u, i) && Enabled(s, e) && (|u.source| == 0 || |u.source| > 128)
    ensures Stuck(Step(s, crc, e), u, i)
  {
    NearPagesOnly(s.nodes[e.node], crc, e.input);
    if e.node == i {
      KeepsVersion(s.nodes[i], crc, e.input);
    }
  }

  lemma {:induction false} StuckForever(s: Network, crc: seq<byte> -> nat, u: Update, i: nat, run: seq<Event>)
    requires Stuck(s, u, i) && (|u.source| == 0 || |u.source| > 128)
    ensures Run(s, crc, run).Reached? ==> Stuck(Run(s, crc, run).state, u, i)
    decreases |run|
  {
    if run != [] {
      StuckForever(s, crc, u, i, run[..|run| - 1]);
      var before := Run(s, crc, run[..|run| - 1]);
      if before.Reached? && Enabled(before.state, run[|run| - 1]) {
        StaysStuck(before.state, crc, u, i, run[|run| - 1]);
      }
    }
  }

  /** Some run brings the node to the new version with the source's file. */
  ghost predicate CanAdopt(s: Network, crc: seq<byte> -> nat, u: Update, i: nat) {
    exists run :: Run(s, crc, run).Reached? && Adopted(Run(s, crc, run).state, u, i)
  }

  ghost predicate Adopted(t: Network, u: Update, i: nat) {
    i < |t.nodes| && t.nodes[i].obj.version == u.w && t.nodes[i].obj.file == u.source
  }

  /** A node with the old version can adopt the new one, and then has its file, exactly if the new
      version is 1 and the file has from 1 to 128 pages. */
  lemma UpdateCanComplete(s: Network, crc: seq<byte> -> nat, u: Update, i: nat, j: nat)
    requires StartsWith(s, u) && i < |s.nodes| && j < |s.nodes|
    requires s.nodes[i].obj.version == u.v && s.nodes[j] == Initial(u.w, u.source)
    ensures CanAdopt(s, crc, u, i) <==> u.w == 1 && 1 <= |u.source| <= 128
  {
    if u.w == 1 && 1 <= |u.source| <= 128 {
      var t := Starts(s, crc, u, i, j, s.nodes[i].obj.file);
      var r := PagesPass(s, crc, t, u, i, j, 0);
      var run :| Run(s, crc, run) == Reached(r);
      RunFollows(s, crc, u, run);
      NodeIntact(r.nodes[i], u);
      assert Adopted(Run(s, crc, run).state, u, i);
    } else {
      forall run | Run(s, crc, run).Reached? ensures !Adopted(Run(s, crc, run).state, u, i) {
        if 1 <= |u.source| <= 128 {
          V.OldStays(s, crc, u, i, run);
        } else {
          StuckForever(s, crc, u, i, run);
        }
      }
    }
  }
}
