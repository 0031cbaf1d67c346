/** Which versions spread at all. The length test on profiles lets those of version 1 pass, and none
    of a later version that its sender has on every page. So a node with version 1 or later keeps
    what it has, and updates of different versions do not mix. */
module DelugeVersions {
  import opened DelugeNode
  import opened DelugeNetwork

  // ----- Nodes that stay as they are -----

  /** A message that does not touch the object of a node with all of its pages. */
  predicate Harmless(m: Message, o: Object) {
    match m
    case Summary(_, _) => true
    case Request(version, page, _) => page < |o.pages| ==> version != o.version
    case Packet(_, _, _, _, _) => true
    case Profile(version, vector) => LongEnough(vector) ==> version <= o.update
  }

  ghost predicate Idle(n: Node, u: Update) {
    Untouched(n.obj, u) && !n.timers.rx
  }

  /** What such a node sends. */
  predicate OwnOnly(out: seq<Message>, u: Update) {
    forall m :: m in out ==> m.Summary? || m == Profile(u.v, seq(|u.source|, _ => u.v))
  }

  lemma StaysIdle(n: Node, crc: seq<byte> -> nat, u: Update, i: Input)
    requires Idle(n, u) && Ready(n, i) && (i.Hear? ==> Harmless(i.message, n.obj))
    ensures var (r, out) := React(n, crc, i);
            Idle(r, u) && r.obj.file == n.obj.file && OwnOnly(out, u)
  {
    AllComplete(n.obj.pages, 0);
    if i.ProfileFires? {
      assert Versions(n.obj.pages) == seq(|u.source|, _ => u.v);
    }
  }

  // ----- Updates to later versions -----

  /** An update to version 2 or a later one reaches nobody: in every run, a node with the old version
      stays as it is. */
  lemma {:induction false} OldStays(s: Network, crc: seq<byte> -> nat, u: Update, i: nat, run: seq<Event>)
    requires StartsWith(s, u) && u.w >= 2 && |u.source| > 0 && i < |s.nodes| && s.nodes[i].obj.version == u.v
    ensures Run(s, crc, run).Reached? ==>
              var t := Run(s, crc, run).state;
              |t.nodes| == |s.nodes| && Idle(t.nodes[i], u) && t.nodes[i].obj.file == s.nodes[i].obj.file
    decreases |run|
  {
    if run != [] {
      var shorter, e := run[..|run| - 1], run[|run| - 1];
      OldStays(s, crc, u, i, shorter);
      var before := Run(s, crc, shorter);
      if before.Reached? && Enabled(before.state, e) && e.node == i {
        RunFollows(s, crc, u, shorter);
        if e.input.Hear? {
          LaterIsHarmless(before.state.nodes[i].obj, crc, u, e.input.message);
        }
        StaysIdle(before.state.nodes[i], crc, u, e.input);
      }
    }
  }

  lemma LaterIsHarmless(o: Object, crc: seq<byte> -> nat, u: Update, m: Message)
    requires Untouched(o, u) && MessageFollows(m, crc, u) && u.v < u.w && u.w >= 2 && |u.source| > 0
    ensures Harmless(m, o)
  {
    if m.Profile? && m.version == u.w {
      PassedOn(m.vector);
    }
  }

  // ----- Networks with any versions -----

  /** The one update that can spread. */
  function First(source: seq<PageData>): Update {
    Update(0, 1, source)
  }

  /** Every node starts complete, with any version of a file of as many pages, and with version 1 only
      of the source. */
  ghost predicate StartsAnyhow(s: Network, source: seq<PageData>) {
    && s.sent == {} && |source| > 0
    && forall i :: 0 <= i < |s.nodes| ==>
         var o := s.nodes[i].obj;
         s.nodes[i] == Initial(o.version, o.file) && |o.file| == |source| && (o.version == 1 ==> o.file == source)
  }

  /** What has become of a node that started with a version and a file. */
  ghost predicate Since(n: Node, start: Object, source: seq<PageData>) {
    if start.version >= 2
    then Idle(n, Update(start.version, start.version, source)) && n.obj.file == start.file
    else NodeFollows(n, First(source)) && n.obj.version >= start.version
  }

  predicate Legal(m: Message, crc: seq<byte> -> nat, source: seq<PageData>) {
    MessageFollows(m, crc, First(source)) || (m.Profile? && |m.vector| == |source| && !LongEnough(m.vector))
  }

  ghost predicate Stays(t: Network, s: Network, crc: seq<byte> -> nat, source: seq<PageData>) {
    && |t.nodes| == |s.nodes|
    && (forall i :: 0 <= i < |t.nodes| ==> Since(t.nodes[i], s.nodes[i].obj, source))
    && (forall m :: m in t.sent ==> Legal(m, crc, source))
  }

  lemma AcceptStays(o: Object, crc: seq<byte> -> nat, page: nat, num: nat, sum: nat, payload: Payload)
    requires page < |o.pages| && page < |o.file| && num < PACKETS && o.version <= o.update
    ensures Accept(o, crc, page, num, sum, payload).version >= o.version
  {
  }

  lemma VersionStays(n: Node, crc: seq<byte> -> nat, i: Input)
    requires n.obj.version <= n.obj.update && Ready(n, i)
    ensures React(n, crc, i).0.obj.version >= n.obj.version
  {
    if i.Hear? && i.message.Packet? {
      var m := i.message;
      AcceptStays(n.obj, crc, m.page, m.num, m.crc, m.payload);
    }
  }

  lemma NodeStays(n: Node, start: Object, crc: seq<byte> -> nat, source: seq<PageData>, i: Input)
    requires Since(n, start, source) && Ready(n, i) && (i.Hear? ==> Legal(i.message, crc, source)) && |source| > 0
    ensures var (r, out) := React(n, crc, i);
            Since(r, start, source) && forall m :: m in out ==> Legal(m, crc, source)
  {
    if start.version >= 2 {
      StaysIdle(n, crc, Update(start.version, start.version, source), i);
      PassedOn(seq(|source|, _ => start.version));
    } else if i.Hear? && !MessageFollows(i.message, crc, First(source)) {
      assert React(n, crc, i) == (n, []);
    } else {
      ReactFollows(n, crc, First(source), i);
      VersionStays(n, crc, i);
    }
  }

  lemma {:induction false} RunStays(s: Network, crc: seq<byte> -> nat, source: seq<PageData>, run: seq<Event>)
    requires StartsAnyhow(s, source)
    ensures Run(s, crc, run).Reached? ==> Stays(Run(s, crc, run).state, s, crc, source)
    decreases |run|
  {
    if run == [] {
      forall i | 0 <= i < |s.nodes| ensures Since(s.nodes[i], s.nodes[i].obj, source) {
        if s.nodes[i].obj.version < 2 {
          InitialFollows(First(source), s.nodes[i]);
        }
      }
    } else {
      var shorter, e := run[..|run| - 1], run[|run| - 1];
      RunStays(s, crc, source, shorter);
      var before := Run(s, crc, shorter);
      if before.Reached? && Enabled(before.state, e) {
        NodeStays(before.state.nodes[e.node], s.nodes[e.node].obj, crc, source, e.input);
      }
    }
  }

  /** Updates do not mix, whatever versions there are in the network: in every run, a node that started
      with version 1 or later has that version and its file, a node that started with version 0 has
      that version or version 1 with the source's file, every page it holds complete at version 1 is
      the source's, and every packet carries what the source has. */
  ghost predicate Unmixed(t: Network, s: Network, source: seq<PageData>) {
    && |t.nodes| == |s.nodes|
    && (forall i :: 0 <= i < |t.nodes| && s.nodes[i].obj.version >= 1 ==>
          t.nodes[i].obj.version == s.nodes[i].obj.version && t.nodes[i].obj.file == s.nodes[i].obj.file)
    && (forall i :: 0 <= i < |t.nodes| && s.nodes[i].obj.version == 0 ==>
          t.nodes[i].obj.version == 0 || (t.nodes[i].obj.version == 1 && t.nodes[i].obj.file == source))
    && (forall i, p :: 0 <= i < |t.nodes| && 0 <= p < |t.nodes[i].obj.pages| && t.nodes[i].obj.pages[p].complete ==>
          t.nodes[i].obj.pages[p].version == 1 ==>
            p < |t.nodes[i].obj.file| && p < |source| && t.nodes[i].obj.file[p] == source[p])
    && (forall m :: m in t.sent && m.Packet? ==>
          m.version == 1 && m.page < |source| && m.num < PACKETS && m.payload == Slot(source[m.page], m.num))
  }

  lemma UpdatesDoNotMix(s: Network, crc: seq<byte> -> nat, source: seq<PageData>, run: seq<Event>)
    requires StartsAnyhow(s, source)
    ensures Run(s, crc, run).Reached? ==> Unmixed(Run(s, crc, run).state, s, source)
  {
    RunStays(s, crc, source, run);
    if Run(s, crc, run).Reached? {
      var t := Run(s, crc, run).state;
      forall i | 0 <= i < |t.nodes| ensures NodeUnmixed(t.nodes[i], s.nodes[i].obj, source) {
        if s.nodes[i].obj.version < 2 {
          NodeIntact(t.nodes[i], First(source));
        }
      }
      assert forall i :: 0 <= i < |t.nodes| ==> NodeUnmixed(t.nodes[i], s.nodes[i].obj, source);
    }
  }

  ghost predicate NodeUnmixed(n: Node, start: Object, source: seq<PageData>) {
    && (if start.version >= 1 then n.obj.version == start.version && n.obj.file == start.file
        else n.obj.version == 0 || (n.obj.version == 1 && n.obj.file == source))
    && (forall p :: 0 <= p < |n.obj.pages| && n.obj.pages[p].complete && n.obj.pages[p].version == 1 ==>
          p < |n.obj.file| && p < |source| && n.obj.file[p] == source[p])
  }
}
