/** A Deluge node as an object: the current object's fields, its page table and receive buffer,
    and the state of the protocol. The methods carry out what DelugeNode defines on values. */
module DelugeObject {
  import opened DelugeNode

  lemma OnePacketMore(o: Object, crc: seq<byte> -> nat, page: nat, num: nat, out: seq<Message>, all: seq<Message>)
    requires page < |o.pages| && page < |o.file| && num < PACKETS && all == out + PacketsFrom(o, crc, page, num)
    ensures all == out + PacketOf(o, crc, page, num) + PacketsFrom(o, crc, page, num + 1)
  {
  }

  class Deluge {
    var version: byte
    var update: byte
    var pages: array<Page>
    const buffer: array<byte>
    var file: seq<PageData>
    var rxPage: nat
    var txPage: int
    var txSet: set<nat>
    var requests: nat
    var mode: Mode
    var timers: Timers
    var inconsistent: bool
    var advertised: nat
    var offersProfile: bool

    ghost predicate Valid()
      reads this
    {
      buffer.Length == PAGE_SIZE && pages.Length == |file| <= MAX_PAGES
    }

    ghost function View(): Node
      requires Valid()
      reads this, pages, buffer
    {
      Node(Object(version, update, pages[..], file, buffer[..], rxPage, txPage, txSet, requests),
           mode, timers, inconsistent, advertised, offersProfile)
    }

    constructor (version: byte, file: seq<PageData>)
      requires |file| <= MAX_PAGES
      ensures Valid() && View() == Initial(version, file)
    {
      this.version, update, this.file := version, version, file;
      pages := new Page[|file|](_ => Page(version, ALL_PACKETS, true));
      buffer := new byte[PAGE_SIZE](_ => 0);
      rxPage, txPage, txSet, requests := 0, 0, {}, 0;
      mode, timers := Maintain, Timers(false, false, false, false);
      inconsistent, advertised, offersProfile := false, 0, false;
      new;
      assert pages[..] == Initial(version, file).obj.pages;
      assert buffer[..] == Initial(version, file).obj.buffer;
    }

    /** highest_available_page. */
    method HighestAvailable() returns (i: nat)
      requires Valid()
      ensures i == Available(View().obj)
    {
      i := 0;
      while i < pages.Length
        invariant i <= pages.Length && Highest(pages[..], 0) == Highest(pages[..], i)
      {
        if !pages[i].complete {
          break;
        }
        i := i + 1;
      }
    }

    /** transition. */
    method SetMode(m: Mode)
      requires Valid()
      modifies `mode, `timers
      ensures View() == Transition(old(View()), m)
    {
      if m != mode {
        match mode {
          case Maintain => timers := timers.(summary := false, profile := false);
          case Rx => timers := timers.(rx := false);
          case Tx => timers := timers.(tx := false);
        }
        mode := m;
      }
    }

    /** send_request. `stray` is what lies beyond the page table. */
    method OnRxTimer(stray: (byte, set<nat>)) returns (m: Message)
      requires Valid()
      modifies this
      ensures Valid() && (View(), [m]) == SendRequest(old(View()), stray)
    {
      m := if rxPage < pages.Length then Request(pages[rxPage].version, rxPage, ALL_BITS - pages[rxPage].packets)
           else Request(stray.0, rxPage, stray.1);
      requests := requests + 1;
      if requests == LAMBDA {
        requests := 0;
        timers := timers.(rx := false);
        SetMode(Maintain);
      }
    }

    /** advertise_summary. */
    method OnSummaryTimer() returns (out: seq<Message>)
      requires Valid()
      modifies this
      ensures Valid() && (View(), out) == Advertise(old(View()))
    {
      timers := timers.(summary := false);
      if advertised >= K {
        return [];
      }
      var highest := HighestAvailable();
      out := [Summary(update, highest)];
    }

    /** One packet of send_page. */
    method SendPacket(crc: seq<byte> -> nat, page: nat, num: nat) returns (out: seq<Message>)
      requires Valid() && page < pages.Length && num < PACKETS
      ensures out == PacketOf(View().obj, crc, page, num)
    {
      out := [];
      if num in txSet {
        var payload := Slot(file[page], num);
        out := [Packet(pages[page].version, page, num, crc(payload), payload)];
      }
    }

    /** send_page: the packets of a page that are in the transmission set, in order. */
    method SendPage(crc: seq<byte> -> nat, page: nat) returns (out: seq<Message>)
      requires Valid() && page < pages.Length
      modifies `txSet
      ensures View() == old(View()).(obj := old(View()).obj.(txSet := {}))
      ensures out == PacketsFrom(old(View()).obj, crc, page, 0)
    {
      out := [];
      ghost var o := View().obj;
      ghost var all := PacketsFrom(o, crc, page, 0);
      for num := 0 to PACKETS
        invariant View().obj == o && all == out + PacketsFrom(o, crc, page, num)
      {
        OnePacketMore(o, crc, page, num, out, all);
        var packet := SendPacket(crc, page, num);
        out := out + packet;
      }
      assert all == out + [];
      txSet := {};
    }

    /** tx_callback. */
    method OnTxTimer(crc: seq<byte> -> nat) returns (out: seq<Message>)
      requires Valid() && txPage < pages.Length
      modifies this
      ensures Valid() && (View(), out) == Transmit(old(View()), crc)
    {
      timers := timers.(tx := false);
      if txPage >= 0 && txSet != {} {
        out := SendPage(crc, txPage);
        txPage := -1;
        SetMode(Maintain);
      } else {
        out := [];
      }
    }

    /** send_profile. */
    method OnProfileTimer() returns (out: seq<Message>)
      requires Valid()
      modifies this
      ensures Valid() && (View(), out) == SendProfile(old(View()))
    {
      timers := timers.(profile := false);
      if offersProfile && advertised < K {
        offersProfile := false;
        var vector: seq<byte> := [];
        var i := 0;
        while i < pages.Length
          invariant i <= pages.Length && |vector| == i && forall k :: 0 <= k < i ==> vector[k] == pages[k].version
        {
          vector := vector + [pages[i].version];
          i := i + 1;
        }
        assert vector == Versions(pages[..]);
        out := [Profile(version, vector)];
      } else {
        out := [];
      }
    }

    /** The start of a round of the main loop. */
    method OnRound()
      requires Valid()
      modifies this
      ensures Valid() && View() == StartRound(old(View()))
    {
      inconsistent, advertised := false, 0;
      timers := timers.(summary := true, profile := true);
    }

    /** handle_summary. */
    method OnSummary(theirs: byte, highest: nat, recent: bool)
      requires Valid()
      modifies this
      ensures Valid() && View() == HandleSummary(old(View()), theirs, highest, recent)
    {
      var mine := HighestAvailable();
      if theirs != version || highest != mine {
        inconsistent := true;
      } else {
        advertised := advertised + 1;
      }
      if theirs < version {
        offersProfile := true;
      }
      if theirs == update && highest > mine {
        if highest > pages.Length || recent {
          return;
        }
        SetMode(Rx);
        timers := timers.(rx := true);
      }
    }

    /** handle_request. */
    method OnRequest(theirs: byte, page: nat, wanted: set<nat>)
      requires Valid()
      modifies this
      ensures Valid() && View() == HandleRequest(old(View()), theirs, page, wanted)
    {
      if page >= pages.Length {
        return;
      }
      if theirs != version {
        inconsistent := true;
      }
      var mine := HighestAvailable();
      if theirs == version && page <= mine {
        if page == txPage {
          txSet := txSet + wanted;
        } else {
          txSet := wanted;
        }
        txPage := Signed(page);
        SetMode(Tx);
        timers := timers.(tx := true);
      }
    }

    /** memcpy of a payload into the receive buffer. */
    method FillSlot(num: nat, payload: Payload)
      requires Valid() && num < PACKETS
      modifies buffer
      ensures buffer[..] == Put(old(buffer[..]), num, payload)
    {
      forall k | 0 <= k < PACKET_SIZE {
        buffer[PACKET_SIZE * num + k] := payload[k];
      }
      assert forall x :: 0 <= x < PAGE_SIZE ==>
          buffer[x] == if PACKET_SIZE * num <= x < PACKET_SIZE * num + PACKET_SIZE then payload[x - PACKET_SIZE * num]
              else old(buffer[x]);
    }

    /** The last packet of the page has come: the buffer is written to the file. */
    method CompletePage()
      requires Valid() && rxPage < pages.Length
      modifies `file, `rxPage, `version, pages
      ensures Valid() && View() == old(View()).(obj := FinishPage(old(View()).obj, old(rxPage)))
    {
      file := file[rxPage := buffer[..]];
      pages[rxPage] := Page(pages[rxPage].version, ALL_PACKETS, true);
      if rxPage == pages.Length - 1 {
        version := update;
      }
      rxPage := rxPage + 1;
    }

    /** handle_packet. */
    method OnPacket(crc: seq<byte> -> nat, theirs: byte, page: nat, num: nat, sum: nat, payload: Payload)
      requires Valid() && page < pages.Length && num < PACKETS
      modifies this, pages, buffer
      ensures Valid() && View() == HandlePacket(old(View()), crc, theirs, page, num, sum, payload)
    {
      if page != rxPage {
        return;
      }
      if theirs != version {
        inconsistent := true;
      }
      if theirs == pages[page].version && !pages[page].complete {
        FillSlot(num, payload);
        if sum != crc(payload) {
          return;
        }
        var packets := pages[page].packets + {num};
        if packets == ALL_PACKETS {
          CompletePage();
          if rxPage < pages.Length {
            timers := timers.(rx := true);
          }
          SetMode(Maintain);
        } else {
          pages[page] := pages[page].(packets := packets);
        }
      }
    }

    /** The loop of handle_profile over the page table. */
    method MarkOutdated(vector: seq<byte>)
      requires Valid() && |vector| == pages.Length
      modifies pages
      ensures pages[..] == Outdated(old(pages[..]), vector)
    {
      var i := 0;
      while i < pages.Length
        invariant i <= pages.Length
        invariant forall k :: 0 <= k < i ==> pages[k] == Outdated(old(pages[..]), vector)[k]
        invariant forall k :: i <= k < pages.Length ==> pages[k] == old(pages[k])
      {
        if vector[i] > pages[i].version {
          pages[i] := Page(vector[i], {}, false);
        }
        i := i + 1;
      }
      assert pages[..] == Outdated(old(pages[..]), vector);
    }

    /** handle_profile: the page table is moved to newly allocated memory. */
    method OnProfile(theirs: byte, vector: seq<byte>, memory: bool)
      requires Valid() && |vector| == pages.Length
      modifies this
      ensures Valid() && View() == HandleProfile(old(View()), theirs, vector, memory)
    {
      if theirs <= update {
        return;
      }
      txSet := {};
      if !memory {
        return;
      }
      var moved := new Page[pages.Length](i requires 0 <= i < pages.Length reads this, pages => pages[i]);
      assert moved[..] == pages[..];
      pages := moved;
      MarkOutdated(vector);
      rxPage := HighestAvailable();
      update := theirs;
      SetMode(Rx);
      timers := timers.(rx := true);
    }

    /** command_dispatcher. */
    method OnMessage(crc: seq<byte> -> nat, m: Message, choice: bool)
      requires Valid() && Fits(m, pages.Length)
      modifies this, pages, buffer
      ensures Valid() && View() == Receive(old(View()), crc, m, choice)
    {
      match m {
        case Summary(theirs, highest) => OnSummary(theirs, highest, choice);
        case Request(theirs, page, wanted) => OnRequest(theirs, page, wanted);
        case Packet(theirs, page, num, sum, payload) => OnPacket(crc, theirs, page, num, sum, payload);
        case Profile(theirs, vector) =>
          if |vector| == 0 || |vector| >= |vector| * vector[0] {
            OnProfile(theirs, vector, choice);
          }
      }
    }
  }
}
