/** A network of Deluge nodes. Messages that have been sent may arrive anywhere, any number of
    times, in any order, or never; they are not altered. */
module DelugeNetwork {
  import opened DelugeNode

  datatype Network = Network(nodes: seq<Node>, sent: set<Message>)

  datatype Event = Event(node: nat, input: Input)

  predicate Enabled(s: Network, e: Event) {
    e.node < |s.nodes| && Ready(s.nodes[e.node], e.input) && (e.input.Hear? ==> e.input.message in s.sent)
  }

  function Step(s: Network, crc: seq<byte> -> nat, e: Event): Network
    requires Enabled(s, e)
  {
    var (n, out) := React(s.nodes[e.node], crc, e.input);
    Network(s.nodes[e.node := n], s.sent + set m | m in out)
  }

  /** The network after a run; None if some event of it was not possible. */
  datatype Outcome = Reached(state: Network) | Impossible

  function Run(s: Network, crc: seq<byte> -> nat, run: seq<Event>): Outcome {
    if run == [] then Reached(s)
    else
      match Run(s, crc, run[..|run| - 1])
      case Impossible => Impossible
      case Reached(t) => if Enabled(t, run[|run| - 1]) then Reached(Step(t, crc, run[|run| - 1])) else Impossible
  }

  // ----- One update -----

  /** Version `w` with the pages `source` spreads among nodes that have version `v`. */
  datatype Update = Update(v: byte, w: byte, source: seq<PageData>)

  /** Every page is there, with version `v`. */
  ghost predicate PagesUntouched(pages: seq<Page>, u: Update) {
    forall p :: 0 <= p < |pages| ==> pages[p].complete && pages[p].version == u.v
  }

  /** The object of a node that has not heard of the update. */
  ghost predicate Untouched(o: Object, u: Update) {
    && o.version == o.update == u.v
    && |o.pages| == |o.file| == |u.source|
    && PagesUntouched(o.pages, u)
    && o.txSet == {}
  }

  /** The pages of a node that is receiving the update. */
  ghost predicate PagesFollow(pages: seq<Page>, file: seq<PageData>, buffer: PageData, rx: nat, u: Update)
    requires |pages| == |file| == |u.source|
  {
    forall p :: 0 <= p < |pages| ==>
        PageFollows(pages[p], file[p], u.source[p], u.w) && PageAwaits(pages[p], p, buffer, rx, u.source[p])
  }

  /** A complete page is the source's. */
  predicate PageFollows(page: Page, data: PageData, source: PageData, w: byte) {
    page.version == w && (page.complete ==> data == source)
  }

  /** The pages before the receive position are complete, the slots received of the page there are
      the source's, and nothing of the later pages has been received. */
  predicate PageAwaits(page: Page, p: nat, buffer: PageData, rx: nat, source: PageData) {
    && (p < rx ==> page.complete)
    && (p == rx && !page.complete ==> BufferHolds(buffer, page.packets, source))
    && (p > rx && !page.complete ==> page.packets == {})
  }

  ghost predicate AllPresent(pages: seq<Page>) {
    forall p :: 0 <= p < |pages| ==> pages[p].complete
  }

  /** The object of a node that is receiving the update, or has it. */
  ghost predicate Updating(o: Object, u: Update) {
    && o.update == u.w && o.version in {u.v, u.w}
    && |o.pages| == |o.file| == |u.source|
    && o.rxPage <= |o.pages|
    && PagesFollow(o.pages, o.file, o.buffer, o.rxPage, u)
    && (o.version == u.w ==> AllPresent(o.pages))
    && (o.txSet != {} ==> o.version == u.w && o.txPage < |o.pages|)
  }

  predicate BufferHolds(buffer: PageData, packets: set<nat>, page: PageData) {
    forall k :: 0 <= k < PACKETS && k in packets ==> Slot(buffer, k) == Slot(page, k)
  }

  ghost predicate NodeFollows(n: Node, u: Update) {
    (Untouched(n.obj, u) && !n.timers.rx) || Updating(n.obj, u)
  }

  /** A message of such a network. */
  predicate MessageFollows(m: Message, crc: seq<byte> -> nat, u: Update) {
    match m
    case Summary(_, _) => true
    case Request(version, page, _) => page < |u.source| ==> version == u.w
    case Packet(version, page, num, sum, payload) =>
      version == u.w && page < |u.source| && num < PACKETS && payload == Slot(u.source[page], num)
          && sum == crc(payload)
    case Profile(version, vector) =>
      |vector| == |u.source|
          && (version == u.v || (version == u.w && forall p :: 0 <= p < |vector| ==> vector[p] == u.w))
  }

  ghost predicate Follows(s: Network, crc: seq<byte> -> nat, u: Update) {
    && (forall i :: 0 <= i < |s.nodes| ==> NodeFollows(s.nodes[i], u))
    && (forall m :: m in s.sent ==> MessageFollows(m, crc, u))
  }

  /** Every node starts complete, with version `v` of anything or version `w` of the source. */
  ghost predicate StartsWith(s: Network, u: Update) {
    && u.v < u.w && s.sent == {}
    && forall i :: 0 <= i < |s.nodes| ==>
         s.nodes[i] == Initial(u.w, u.source)
         || (|s.nodes[i].obj.file| == |u.source| && s.nodes[i] == Initial(u.v, s.nodes[i].obj.file))
  }

  // ----- Each event keeps the invariant -----

  lemma SummaryFollows(n: Node, u: Update, version: byte, highest: nat, recent: bool)
    requires NodeFollows(n, u)
    ensures NodeFollows(HandleSummary(n, version, highest, recent), u)
  {
    if Untouched(n.obj, u) {
      AllComplete(n.obj.pages, 0);
    }
  }

  lemma RequestFollows(n: Node, u: Update, version: byte, page: nat, wanted: set<nat>)
    requires u.v < u.w && NodeFollows(n, u) && (page < |u.source| ==> version == u.w)
    ensures NodeFollows(HandleRequest(n, version, page, wanted), u)
  {
    if Serves(n.obj, version, page) {
      assert Updating(QueueRequest(n.obj, page, wanted), u);
    }
  }

  lemma RenewFollows(o: Object, u: Update, vector: seq<byte>)
    requires u.v < u.w && Untouched(o, u) && |vector| == |u.source|
             && forall p :: 0 <= p < |vector| ==> vector[p] == u.w
    ensures Updating(Renew(o, u.w, vector), u)
  {
    var pages := Outdated(o.pages, vector);
    assert forall p :: 0 <= p < |pages| ==> pages[p] == Page(u.w, {}, false);
    AllComplete(pages, 0);
  }

  lemma ProfileFollows(n: Node, u: Update, version: byte, vector: seq<byte>, memory: bool)
    requires u.v < u.w && NodeFollows(n, u) && |vector| == |u.source|
    requires version == u.v || (version == u.w && forall p :: 0 <= p < |vector| ==> vector[p] == u.w)
    ensures NodeFollows(HandleProfile(n, version, vector, memory), u)
  {
    if version > n.obj.update {
      RenewFollows(n.obj, u, vector);
    }
  }

  /** A packet that is kept: the slot it fills is the source's. */
  lemma BufferFollows(buffer: PageData, packets: set<nat>, source: PageData, num: nat)
    requires num < PACKETS && BufferHolds(buffer, packets, source)
    ensures BufferHolds(Put(buffer, num, Slot(source, num)), packets + {num}, source)
    ensures packets + {num} == ALL_PACKETS ==> Put(buffer, num, Slot(source, num)) == source
  {
    forall k | 0 <= k < PACKETS && k in packets + {num}
      ensures Slot(Put(buffer, num, Slot(source, num)), k) == Slot(source, k) {
      PutSlots(buffer, num, Slot(source, num), k);
    }
    if packets + {num} == ALL_PACKETS {
      assert forall k :: 0 <= k < PACKETS ==> k in ALL_PACKETS;
      SlotsMakePage(Put(buffer, num, Slot(source, num)), source);
    }
  }

  lemma OnePacketMore(pages: seq<Page>, file: seq<PageData>, buffer: PageData, rx: nat, u: Update, num: nat)
    requires |pages| == |file| == |u.source| && rx < |pages| && !pages[rx].complete && num < PACKETS
    requires PagesFollow(pages, file, buffer, rx, u)
    ensures PagesFollow(pages[rx := pages[rx].(packets := pages[rx].packets + {num})], file,
                        Put(buffer, num, Slot(u.source[rx], num)), rx, u)
  {
    BufferFollows(buffer, pages[rx].packets, u.source[rx], num);
  }

  lemma OnePageMore(pages: seq<Page>, file: seq<PageData>, buffer: PageData, rx: nat, u: Update)
    requires |pages| == |file| == |u.source| && rx < |pages| && !pages[rx].complete
    requires PagesFollow(pages, file, buffer, rx, u)
    ensures PagesFollow(pages[rx := Page(pages[rx].version, ALL_PACKETS, true)], file[rx := u.source[rx]], u.source[rx],
                        rx + 1, u)
    ensures rx == |pages| - 1 ==> AllPresent(pages[rx := Page(pages[rx].version, ALL_PACKETS, true)])
  {
  }

  lemma AcceptFollows(o: Object, crc: seq<byte> -> nat, u: Update, num: nat)
    requires Updating(o, u) && o.rxPage < |u.source| && !o.pages[o.rxPage].complete && num < PACKETS
    ensures var payload := Slot(u.source[o.rxPage], num);
            Updating(Accept(o, crc, o.rxPage, num, crc(payload), payload), u)
  {
    var rx := o.rxPage;
    assert BufferHolds(o.buffer, o.pages[rx].packets, u.source[rx]) by {
      assert PageAwaits(o.pages[rx], rx, o.buffer, rx, u.source[rx]);
    }
    BufferFollows(o.buffer, o.pages[rx].packets, u.source[rx], num);
    OnePacketMore(o.pages, o.file, o.buffer, rx, u, num);
    OnePageMore(o.pages, o.file, o.buffer, rx, u);
  }

  lemma PacketFollows(n: Node, crc: seq<byte> -> nat, u: Update, page: nat, num: nat, payload: Payload)
    requires u.v < u.w && NodeFollows(n, u) && page < |u.source| && num < PACKETS
             && payload == Slot(u.source[page], num)
    ensures NodeFollows(HandlePacket(n, crc, u.w, page, num, crc(payload), payload), u)
  {
    if Wants(n.obj, u.w, page) {
      assert Updating(n.obj, u);
      AcceptFollows(n.obj, crc, u, num);
    }
  }

  lemma ReceiveFollows(n: Node, crc: seq<byte> -> nat, u: Update, m: Message, choice: bool)
    requires u.v < u.w && NodeFollows(n, u) && MessageFollows(m, crc, u) && Fits(m, |n.obj.pages|)
    ensures NodeFollows(Receive(n, crc, m, choice), u)
  {
    match m
    case Summary(version, highest) => SummaryFollows(n, u, version, highest, choice);
    case Request(version, page, wanted) => RequestFollows(n, u, version, page, wanted);
    case Packet(version, page, num, sum, payload) => PacketFollows(n, crc, u, page, num, payload);
    case Profile(version, vector) => ProfileFollows(n, u, version, vector, choice);
  }

  ghost predicate OutputFollows(out: seq<Message>, crc: seq<byte> -> nat, u: Update) {
    forall m :: m in out ==> MessageFollows(m, crc, u)
  }

  lemma SendRequestFollows(n: Node, crc: seq<byte> -> nat, u: Update, stray: (byte, set<nat>))
    requires NodeFollows(n, u) && n.timers.rx
    ensures NodeFollows(SendRequest(n, stray).0, u) && OutputFollows(SendRequest(n, stray).1, crc, u)
  {
  }

  lemma {:induction false} PacketsFollow(o: Object, crc: seq<byte> -> nat, u: Update, page: nat, k: nat)
    requires page < |o.pages| == |o.file| == |u.source| && k <= PACKETS
    requires o.pages[page].version == u.w && o.file[page] == u.source[page]
    ensures OutputFollows(PacketsFrom(o, crc, page, k), crc, u)
    decreases PACKETS - k
  {
    if k < PACKETS {
      PacketsFollow(o, crc, u, page, k + 1);
    }
  }

  lemma TransmitFollows(n: Node, crc: seq<byte> -> nat, u: Update)
    requires u.v < u.w && NodeFollows(n, u)
    ensures NodeFollows(Transmit(n, crc).0, u) && OutputFollows(Transmit(n, crc).1, crc, u)
  {
    if Transmits(n.obj) {
      var page := n.obj.txPage;
      assert PageFollows(n.obj.pages[page], n.obj.file[page], u.source[page], u.w);
      PacketsFollow(n.obj, crc, u, page, 0);
    }
  }

  lemma SendProfileFollows(n: Node, crc: seq<byte> -> nat, u: Update)
    requires NodeFollows(n, u)
    ensures NodeFollows(SendProfile(n).0, u) && OutputFollows(SendProfile(n).1, crc, u)
  {
  }

  lemma ReactFollows(n: Node, crc: seq<byte> -> nat, u: Update, i: Input)
    requires u.v < u.w && NodeFollows(n, u) && Ready(n, i) && (i.Hear? ==> MessageFollows(i.message, crc, u))
    ensures NodeFollows(React(n, crc, i).0, u) && OutputFollows(React(n, crc, i).1, crc, u)
  {
    match i
    case Hear(m, choice) => ReceiveFollows(n, crc, u, m, choice);
    case RxFires(stray) => SendRequestFollows(n, crc, u, stray);
    case TxFires => TransmitFollows(n, crc, u);
    case SummaryFires =>
    case ProfileFires => SendProfileFollows(n, crc, u);
    case NewRound =>
  }

  lemma StepFollows(s: Network, crc: seq<byte> -> nat, u: Update, e: Event)
    requires u.v < u.w && Follows(s, crc, u) && Enabled(s, e)
    ensures Follows(Step(s, crc, e), crc, u)
  {
    ReactFollows(s.nodes[e.node], crc, u, e.input);
  }

  lemma InitialFollows(u: Update, n: Node)
    requires u.v < u.w
    requires n == Initial(u.w, u.source) || (|n.obj.file| == |u.source| && n == Initial(u.v, n.obj.file))
    ensures NodeFollows(n, u)
  {
  }

  lemma {:induction false} RunFollows(s: Network, crc: seq<byte> -> nat, u: Update, run: seq<Event>)
    requires StartsWith(s, u)
    ensures Run(s, crc, run).Reached? ==> Follows(Run(s, crc, run).state, crc, u)
    decreases |run|
  {
    if run == [] {
      forall i | 0 <= i < |s.nodes| ensures NodeFollows(s.nodes[i], u) {
        InitialFollows(u, s.nodes[i]);
      }
    } else {
      var shorter := run[..|run| - 1];
      RunFollows(s, crc, u, shorter);
      var before := Run(s, crc, shorter);
      if before.Reached? && Enabled(before.state, run[|run| - 1]) {
        StepFollows(before.state, crc, u, run[|run| - 1]);
      }
    }
  }

  /** Content integrity: whatever the network loses, repeats and reorders, in every run every page
      that a node holds complete at version `w` is the source's, a node that has adopted version
      `w` holds the source's file, and every packet labelled `w` carries what the source has. */
  ghost predicate Intact(s: Network, u: Update) {
    && (forall i, p :: 0 <= i < |s.nodes| && 0 <= p < |s.nodes[i].obj.pages| && s.nodes[i].obj.pages[p].complete ==>
          s.nodes[i].obj.pages[p].version == u.w ==>
            p < |s.nodes[i].obj.file| && p < |u.source| && s.nodes[i].obj.file[p] == u.source[p])
    && (forall i :: 0 <= i < |s.nodes| && s.nodes[i].obj.version == u.w ==> s.nodes[i].obj.file == u.source)
    && (forall m :: m in s.sent && m.Packet? && m.version == u.w ==>
          m.page < |u.source| && m.num < PACKETS && m.payload == Slot(u.source[m.page], m.num))
  }

  lemma NodeIntact(n: Node, u: Update)
    requires u.v < u.w && NodeFollows(n, u)
    ensures n.obj.version == u.w ==> n.obj.file == u.source
    ensures |n.obj.pages| == |n.obj.file| == |u.source|
    ensures forall p :: 0 <= p < |n.obj.pages| && n.obj.pages[p].complete && n.obj.pages[p].version == u.w ==>
            n.obj.file[p] == u.source[p]
  {
  }

  lemma ContentIntegrity(s: Network, crc: seq<byte> -> nat, u: Update, run: seq<Event>)
    requires StartsWith(s, u)
    ensures Run(s, crc, run).Reached? ==> Intact(Run(s, crc, run).state, u)
  {
    RunFollows(s, crc, u, run);
    if Run(s, crc, run).Reached? {
      var t := Run(s, crc, run).state;
      forall i | 0 <= i < |t.nodes|
        ensures t.nodes[i].obj.version == u.w ==> t.nodes[i].obj.file == u.source
        ensures |t.nodes[i].obj.pages| == |t.nodes[i].obj.file| == |u.source|
        ensures forall p ::
                0 <= p < |t.nodes[i].obj.pages| && t.nodes[i].obj.pages[p].complete
                        && t.nodes[i].obj.pages[p].version == u.w ==>
                  t.nodes[i].obj.file[p] == u.source[p]
      {
        NodeIntact(t.nodes[i], u);
      }
    }
  }
}
