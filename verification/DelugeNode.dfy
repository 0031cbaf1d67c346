/** One Deluge node: the object it maintains, its timers, and what each handler and timer callback
    does to them and sends. Clocks and the random timer delays are left open: a timer may fire at
    any moment while it is armed. */
module DelugeNode {
  type byte = x: int | 0 <= x < 256

  const PACKET_SIZE := 64
  const PACKETS := 4
  const PAGE_SIZE := PACKET_SIZE * PACKETS
  const ALL_PACKETS: set<nat> := {0, 1, 2, 3}
  const ALL_BITS: set<nat> := {0, 1, 2, 3, 4, 5, 6, 7}
  const LAMBDA := 2
  const K := 1
  const MAX_PAGES := 255

  type Payload = s: seq<byte> | |s| == PACKET_SIZE witness seq(PACKET_SIZE, _ => 0)
  type PageData = s: seq<byte> | |s| == PAGE_SIZE witness seq(PAGE_SIZE, _ => 0)

  /** The packet set is the set of the numbers of its bits. */
  datatype Page = Page(version: byte, packets: set<nat>, complete: bool)

  datatype Mode = Maintain | Rx | Tx

  /** The object a node maintains: its versions, page table and file, the page being received in
      the buffer, and the page being transmitted. */
  datatype Object = Object(
    version: byte, update: byte, pages: seq<Page>, file: seq<PageData>, buffer: PageData,
    rxPage: nat, txPage: int, txSet: set<nat>, requests: nat)

  /** The timers that are armed. */
  datatype Timers = Timers(rx: bool, tx: bool, summary: bool, profile: bool)

  datatype Node = Node(obj: Object, mode: Mode, timers: Timers, inconsistent: bool, advertised: nat,
                       offersProfile: bool)

  datatype Message =
    | Summary(version: byte, highest: nat)
    | Request(version: byte, page: nat, wanted: set<nat>)
    | Packet(version: byte, page: nat, num: nat, crc: nat, payload: Payload)
    | Profile(version: byte, vector: seq<byte>)

  /** The numbers of the first `k` packets of a page. */
  function FirstPackets(k: nat): set<nat> {
    set x | x in ALL_PACKETS && x < k
  }

  /** The slice of a page that packet `k` carries. */
  function Slot(page: PageData, k: nat): Payload
    requires k < PACKETS
  {
    page[PACKET_SIZE * k..PACKET_SIZE * k + PACKET_SIZE]
  }

  function Put(page: PageData, k: nat, payload: Payload): PageData
    requires k < PACKETS
  {
    page[..PACKET_SIZE * k] + payload + page[PACKET_SIZE * k + PACKET_SIZE..]
  }

  /** A page number in the signed byte that holds the page to transmit. */
  function Signed(page: nat): int {
    if page % 256 < 128 then page % 256 else page % 256 - 256
  }

  /** init_object: every page of the file is there, at the given version. */
  function Initial(version: byte, file: seq<PageData>): Node {
    Node(Object(version, version, seq(|file|, _ => Page(version, ALL_PACKETS, true)), file, seq(PAGE_SIZE, _ => 0), 0,
                0, {}, 0),
         Maintain, Timers(false, false, false, false), false, 0, false)
  }

  /** highest_available_page, from page `i` on. */
  function Highest(pages: seq<Page>, i: nat): (r: nat)
    requires i <= |pages|
    ensures i <= r <= |pages|
    decreases |pages| - i
  {
    if i == |pages| || !pages[i].complete then i else Highest(pages, i + 1)
  }

  function Available(o: Object): nat {
    Highest(o.pages, 0)
  }

  /** transition: leaving a mode stops its timers. */
  function Transition(n: Node, mode: Mode): Node {
    if mode == n.mode then n
    else
      var t := n.timers;
      n.(mode := mode,
         timers := match n.mode
                   case Maintain => t.(summary := false, profile := false)
                   case Rx => t.(rx := false)
                   case Tx => t.(tx := false))
  }

  // ----- Timer callbacks -----

  /** The request that send_request sends. Once every page has been received there is no page at
      the receive position, and the version and the packet set are read from beyond the page
      table; they are given by `stray`. */
  function RequestOf(o: Object, stray: (byte, set<nat>)): Message {
    if o.rxPage < |o.pages| then Request(o.pages[o.rxPage].version, o.rxPage, ALL_BITS - o.pages[o.rxPage].packets)
    else Request(stray.0, o.rxPage, stray.1)
  }

  /** send_request, when its timer has fired. */
  function SendRequest(n: Node, stray: (byte, set<nat>)): (Node, seq<Message>) {
    (if n.obj.requests + 1 == LAMBDA
     then Transition(n.(obj := n.obj.(requests := 0), timers := n.timers.(rx := false)), Maintain)
     else n.(obj := n.obj.(requests := n.obj.requests + 1)),
     [RequestOf(n.obj, stray)])
  }

  function Advertise(n: Node): (Node, seq<Message>) {
    (n.(timers := n.timers.(summary := false)), if n.advertised >= K then []
        else [Summary(n.obj.update, Available(n.obj))])
  }

  /** Packet number `k` of a page, if it is in the transmission set. */
  function PacketOf(o: Object, crc: seq<byte> -> nat, page: nat, k: nat): seq<Message>
    requires page < |o.pages| && page < |o.file| && k < PACKETS
  {
    var payload := Slot(o.file[page], k);
    if k in o.txSet then [Packet(o.pages[page].version, page, k, crc(payload), payload)] else []
  }

  /** The packets of a page from number `k` on that are in the transmission set. */
  function PacketsFrom(o: Object, crc: seq<byte> -> nat, page: nat, k: nat): seq<Message>
    requires page < |o.pages| && page < |o.file| && k <= PACKETS
    decreases PACKETS - k, o
  {
    if k == PACKETS then [] else PacketOf(o, crc, page, k) + PacketsFrom(o, crc, page, k + 1)
  }

  predicate Transmits(o: Object) {
    0 <= o.txPage < |o.pages| && o.txPage < |o.file| && o.txSet != {}
  }

  /** tx_callback with send_page. */
  function Transmit(n: Node, crc: seq<byte> -> nat): (Node, seq<Message>) {
    var idle := n.(timers := n.timers.(tx := false));
    if Transmits(n.obj)
    then (Transition(idle.(obj := n.obj.(txSet := {}, txPage := -1)), Maintain),
          PacketsFrom(n.obj, crc, n.obj.txPage, 0))
    else (idle, [])
  }

  function Versions(pages: seq<Page>): seq<byte> {
    seq(|pages|, i requires 0 <= i < |pages| => pages[i].version)
  }

  function SendProfile(n: Node): (Node, seq<Message>) {
    var idle := n.(timers := n.timers.(profile := false));
    if n.offersProfile && n.advertised < K
    then (idle.(offersProfile := false), [Profile(n.obj.version, Versions(n.obj.pages))])
    else (idle, [])
  }

  /** The start of a round of the main loop. */
  function StartRound(n: Node): Node {
    n.(inconsistent := false, advertised := 0, timers := n.timers.(summary := true, profile := true))
  }

  // ----- Message handlers -----

  function Heard(n: Node, version: byte): Node {
    if version != n.obj.version then n.(inconsistent := true) else n
  }

  /** handle_summary; `recent` is the outcome of the test on the times of the last request and the
      last data. */
  function HandleSummary(n: Node, version: byte, highest: nat, recent: bool): Node {
    var a := if version != n.obj.version || highest != Available(n.obj) then n.(inconsistent := true)
             else n.(advertised := n.advertised + 1);
    var b := if version < n.obj.version then a.(offersProfile := true) else a;
    if version == n.obj.update && Available(n.obj) < highest <= |n.obj.pages| && !recent
    then var c := Transition(b, Rx); c.(timers := c.timers.(rx := true))
    else b
  }

  /** The request concerns a page this node may transmit. */
  predicate Serves(o: Object, version: byte, page: nat) {
    page < |o.pages| && version == o.version && page <= Available(o)
  }

  function QueueRequest(o: Object, page: nat, wanted: set<nat>): Object {
    o.(txSet := if page == o.txPage then o.txSet + wanted else wanted, txPage := Signed(page))
  }

  /** handle_request. */
  function HandleRequest(n: Node, version: byte, page: nat, wanted: set<nat>): Node {
    if page >= |n.obj.pages| then n
    else if !Serves(n.obj, version, page) then Heard(n, version)
    else
      var c := Transition(n.(obj := QueueRequest(n.obj, page, wanted)), Tx);
      c.(timers := c.timers.(tx := true))
  }

  /** The packet is for the page that is being received. */
  predicate Wants(o: Object, version: byte, page: nat) {
    page == o.rxPage && page < |o.pages| && version == o.pages[page].version && !o.pages[page].complete
  }

  /** The object after such a packet: the slot is filled, the packet counts if its checksum is
      right, and the buffer is written to the file once all packets have come. */
  function Accept(o: Object, crc: seq<byte> -> nat, page: nat, num: nat, sum: nat, payload: Payload): Object
    requires page < |o.pages| && page < |o.file| && num < PACKETS
  {
    var filled := o.(buffer := Put(o.buffer, num, payload));
    var packets := o.pages[page].packets + {num};
    if sum != crc(payload) then filled
    else if packets != ALL_PACKETS then filled.(pages := o.pages[page := o.pages[page].(packets := packets)])
    else FinishPage(filled, page)
  }

  function FinishPage(o: Object, page: nat): Object
    requires page < |o.pages| && page < |o.file|
  {
    o.(file := o.file[page := o.buffer],
       pages := o.pages[page := Page(o.pages[page].version, ALL_PACKETS, true)],
       rxPage := o.rxPage + 1,
       version := if page == |o.pages| - 1 then o.update else o.version)
  }

  /** handle_packet, for a page of the object and a packet of the page. */
  function HandlePacket(n: Node, crc: seq<byte> -> nat, version: byte, page: nat, num: nat, sum: nat,
                        payload: Payload): Node
    requires page < |n.obj.pages| && page < |n.obj.file| && num < PACKETS
  {
    if page != n.obj.rxPage then n
    else if !Wants(n.obj, version, page) then Heard(n, version)
    else
      var r := Heard(n, version).(obj := Accept(n.obj, crc, page, num, sum, payload));
      if r.obj.rxPage == page then r
      else Transition(if r.obj.rxPage < |n.obj.pages| then r.(timers := r.timers.(rx := true)) else r, Maintain)
  }

  /** The page table after a profile of the same number of pages. */
  function Outdated(pages: seq<Page>, vector: seq<byte>): (r: seq<Page>)
    requires |pages| == |vector|
    ensures |r| == |pages|
  {
    seq(|pages|, i requires 0 <= i < |pages| => if vector[i] > pages[i].version then Page(vector[i], {}, false)
        else pages[i])
  }

  /** The object after a profile of a newer update. */
  function Renew(o: Object, version: byte, vector: seq<byte>): Object
    requires |vector| == |o.pages|
  {
    var pages := Outdated(o.pages, vector);
    o.(txSet := {}, pages := pages, rxPage := Highest(pages, 0), update := version)
  }

  /** handle_profile, for a profile of the same number of pages; `memory` tells if there was
      memory for the page table. */
  function HandleProfile(n: Node, version: byte, vector: seq<byte>, memory: bool): Node
    requires |vector| == |n.obj.pages|
  {
    if version <= n.obj.update then n
    else if !memory then n.(obj := n.obj.(txSet := {}))
    else
      var c := Transition(n.(obj := Renew(n.obj, version, vector)), Rx);
      c.(timers := c.timers.(rx := true))
  }

  // ----- Events at a node -----

  /** What can happen at a node: a message reaches it, one of its timers fires, or a round starts.
      `choice` stands for the time test of handle_summary and the memory of handle_profile. */
  datatype Input =
    | Hear(message: Message, choice: bool)
    | RxFires(stray: (byte, set<nat>))
    | TxFires
    | SummaryFires
    | ProfileFires
    | NewRound

  /** A packet is one of the object's, and a profile has as many pages as the object. */
  predicate Fits(m: Message, pages: nat) {
    match m
    case Packet(_, page, num, _, _) => page < pages && num < PACKETS
    case Profile(_, vector) => |vector| == pages
    case _ => true
  }

  /** A timer fires only if it is armed. */
  predicate Ready(n: Node, i: Input) {
    |n.obj.pages| == |n.obj.file| &&
    match i
    case Hear(m, _) => Fits(m, |n.obj.pages|)
    case RxFires(_) => n.timers.rx
    case TxFires => n.timers.tx
    case SummaryFires => n.timers.summary
    case ProfileFires => n.timers.profile
    case NewRound => true
  }

  /** The test that a profile is long enough. It takes the first version for the size of an entry; a
      profile has one byte for each entry. */
  predicate LongEnough(vector: seq<byte>) {
    vector != [] ==> |vector| * vector[0] <= |vector|
  }

  /** command_dispatcher, which drops a profile that seems too short. */
  function Receive(n: Node, crc: seq<byte> -> nat, m: Message, choice: bool): Node
    requires Fits(m, |n.obj.pages|) && |n.obj.file| == |n.obj.pages|
  {
    match m
    case Summary(version, highest) => HandleSummary(n, version, highest, choice)
    case Request(version, page, wanted) => HandleRequest(n, version, page, wanted)
    case Packet(version, page, num, sum, payload) => HandlePacket(n, crc, version, page, num, sum, payload)
    case Profile(version, vector) => if LongEnough(vector) then HandleProfile(n, version, vector, choice) else n
  }

  /** The node after an event, and the messages it sends. A timer that fires is no longer armed. */
  function React(n: Node, crc: seq<byte> -> nat, i: Input): (Node, seq<Message>)
    requires Ready(n, i)
  {
    match i
    case Hear(m, choice) => (Receive(n, crc, m, choice), [])
    case RxFires(stray) => SendRequest(n, stray)
    case TxFires => Transmit(n, crc)
    case SummaryFires => Advertise(n)
    case ProfileFires => SendProfile(n)
    case NewRound => (StartRound(n), [])
  }

  lemma {:induction false} AllComplete(pages: seq<Page>, i: nat)
    requires i <= |pages|
    ensures Highest(pages, i) == |pages| <==> forall k :: i <= k < |pages| ==> pages[k].complete
    ensures forall k :: i <= k < Highest(pages, i) ==> pages[k].complete
    ensures Highest(pages, i) < |pages| ==> !pages[Highest(pages, i)].complete
    decreases |pages| - i
  {
    if i < |pages| && pages[i].complete {
      AllComplete(pages, i + 1);
    }
  }

  lemma PutSlots(page: PageData, k: nat, payload: Payload, j: nat)
    requires k < PACKETS && j < PACKETS
    ensures Slot(Put(page, k, payload), j) == if j == k then payload else Slot(page, j)
  {
    var r := Put(page, k, payload);
    assert forall x :: 0 <= x < PAGE_SIZE ==>
        r[x] == if PACKET_SIZE * k <= x < PACKET_SIZE * k + PACKET_SIZE then payload[x - PACKET_SIZE * k] else page[x];
  }

  /** A page is determined by its slots. */
  lemma SlotsMakePage(a: PageData, b: PageData)
    requires forall k :: 0 <= k < PACKETS ==> Slot(a, k) == Slot(b, k)
    ensures a == b
  {
    forall x | 0 <= x < PAGE_SIZE ensures a[x] == b[x] {
      var k := x / PACKET_SIZE;
      assert Slot(a, k)[x - PACKET_SIZE * k] == Slot(b, k)[x - PACKET_SIZE * k];
    }
  }

  /** A profile is passed on exactly if its first entry is at most 1. */
  lemma PassedOn(vector: seq<byte>)
    ensures LongEnough(vector) <==> (vector != [] ==> vector[0] <= 1)
  {
    if vector != [] && vector[0] >= 2 {
      assert |vector| * vector[0] >= |vector| * 2;
    } else if vector != [] {
      assert |vector| * vector[0] <= |vector|;
    }
  }
}
