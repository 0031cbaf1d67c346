/** Where Deluge departs from what it is meant to do: pages that are sent before they are complete,
    pages that are never sent, and packets that are damaged. */
module DelugeLimits {
  import opened DelugeNode

  /** The packets of a page are those in the transmission set, labelled with the page's version. */
  lemma {:induction false} PacketsAre(o: Object, crc: seq<byte> -> nat, page: nat, k: nat, m: Message)
    requires page < |o.pages| && page < |o.file| && k <= PACKETS
    ensures m in PacketsFrom(o, crc, page, k) <==>
              m.Packet? && k <= m.num < PACKETS && m.num in o.txSet
              && m == Packet(o.pages[page].version, page, m.num, crc(Slot(o.file[page], m.num)),
                             Slot(o.file[page], m.num))
    decreases PACKETS - k
  {
    if k < PACKETS {
      PacketsAre(o, crc, page, k + 1, m);
    }
  }

  /** One of the messages is a packet of a page that is not complete. */
  ghost predicate SendsIncomplete(pages: seq<Page>, out: seq<Message>) {
    exists m :: m in out && m.Packet? && m.page < |pages| && !pages[m.page].complete
  }

  /** The packets of a page that is not complete are sent exactly if some packet is wanted. */
  lemma SomePacketSent(o: Object, crc: seq<byte> -> nat, page: nat)
    requires page < |o.pages| && page < |o.file|
    ensures SendsIncomplete(o.pages, PacketsFrom(o, crc, page, 0)) <==>
            !o.pages[page].complete && o.txSet * ALL_PACKETS != {}
  {
    var out := PacketsFrom(o, crc, page, 0);
    if m :| m in out && m.Packet? && m.page < |o.pages| && !o.pages[m.page].complete {
      PacketsAre(o, crc, page, 0, m);
      assert m.num in o.txSet * ALL_PACKETS;
    }
    if k :| k in o.txSet * ALL_PACKETS {
      var m := Packet(o.pages[page].version, page, k, crc(Slot(o.file[page], k)), Slot(o.file[page], k));
      PacketsAre(o, crc, page, 0, m);
      assert m in out;
    }
  }

  /** A request to an idle node is answered with packets of an incomplete page exactly if it asks,
      with the node's own version, for the first page that is not available. Such packets carry
      the old content of the page under the version it is being updated to. */
  lemma IncompletePageServed(n: Node, crc: seq<byte> -> nat, version: byte, page: nat, wanted: set<nat>)
    requires |n.obj.pages| == |n.obj.file| <= MAX_PAGES && n.obj.txSet == {}
    ensures SendsIncomplete(n.obj.pages, Transmit(HandleRequest(n, version, page, wanted), crc).1) <==>
              version == n.obj.version && page == Available(n.obj) < |n.obj.pages| && page < 128
                  && wanted * ALL_PACKETS != {}
  {
    AllComplete(n.obj.pages, 0);
    if Serves(n.obj, version, page) && page < 128 {
      SomePacketSent(QueueRequest(n.obj, page, wanted), crc, page);
    }
  }

  /** The page to transmit is kept in a signed byte: a request for a page from 128 on is never
      answered. */
  lemma FarPagesNotServed(n: Node, crc: seq<byte> -> nat, version: byte, page: nat, wanted: set<nat>)
    requires |n.obj.pages| == |n.obj.file| <= MAX_PAGES && 128 <= page < |n.obj.pages|
             && n.obj.txSet == {}
    ensures Transmit(HandleRequest(n, version, page, wanted), crc).1 == []
  {
    assert Signed(page) < 0;
  }

  /** The payload is copied before its checksum is compared: a packet that fails the comparison
      leaves what has been received of the page intact exactly if its slot had not been received
      or it repeats what is there. */
  lemma DamagedPacket(o: Object, crc: seq<byte> -> nat, num: nat, sum: nat, payload: Payload, source: PageData)
    requires o.rxPage < |o.pages| == |o.file| && num < PACKETS && sum != crc(payload)
    requires forall k :: 0 <= k < PACKETS && k in o.pages[o.rxPage].packets ==> Slot(o.buffer, k) == Slot(source, k)
    ensures var r := Accept(o, crc, o.rxPage, num, sum, payload);
            r.pages == o.pages
            && ((forall k :: 0 <= k < PACKETS && k in o.pages[o.rxPage].packets ==>
                Slot(r.buffer, k) == Slot(source, k))
                <==> num !in o.pages[o.rxPage].packets || payload == Slot(source, num))
  {
    var r := Accept(o, crc, o.rxPage, num, sum, payload);
    forall k: nat | k < PACKETS ensures Slot(r.buffer, k) == if k == num then payload else Slot(o.buffer, k) {
      PutSlots(o.buffer, num, payload, k);
    }
  }
}
