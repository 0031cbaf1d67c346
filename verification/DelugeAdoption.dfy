/** When a node adopts a version: one node under any sequence of messages about an object with the
    same number of pages, whoever sends them and however often they are damaged. */
module DelugeAdoption {
  import opened DelugeNode

  /** A node together with the version vector of the last profile it accepted. */
  datatype Watched = Watched(node: Node, vector: seq<byte>)

  predicate AcceptsProfile(n: Node, i: Input) {
    i.Hear? && i.message.Profile? && LongEnough(i.message.vector) && i.message.version > n.obj.update && i.choice
  }

  function Advance(s: Watched, crc: seq<byte> -> nat, i: Input): Watched
    requires Ready(s.node, i)
  {
    Watched(React(s.node, crc, i).0, if AcceptsProfile(s.node, i) then i.message.vector else s.vector)
  }

  /** The states of a run, the last one first; inputs that cannot happen are skipped. */
  function History(s: Watched, crc: seq<byte> -> nat, inputs: seq<Input>): (h: seq<Watched>)
    ensures |h| == |inputs| + 1
  {
    if inputs == [] then [s]
    else
      var h := History(s, crc, inputs[..|inputs| - 1]);
      var i := inputs[|inputs| - 1];
      [if Ready(h[0].node, i) then Advance(h[0], crc, i) else h[0]] + h
  }

  /** The pages before the receive position are complete. */
  ghost predicate PrefixComplete(pages: seq<Page>, rx: nat) {
    rx <= |pages| && forall p :: 0 <= p < rx ==> pages[p].complete
  }

  /** Every page has at least the version that the vector asks for. */
  ghost predicate MeetsVector(pages: seq<Page>, vector: seq<byte>) {
    |pages| == |vector| && forall p :: 0 <= p < |pages| ==> pages[p].version >= vector[p]
  }

  ghost predicate PacketsInRange(pages: seq<Page>) {
    forall p :: 0 <= p < |pages| ==> pages[p].packets <= ALL_PACKETS
  }

  ghost predicate Sound(s: Watched) {
    && PrefixComplete(s.node.obj.pages, s.node.obj.rxPage)
    && MeetsVector(s.node.obj.pages, s.vector)
    && s.node.obj.version <= s.node.obj.update
    && |s.node.obj.pages| == |s.node.obj.file|
    && PacketsInRange(s.node.obj.pages)
  }

  /** From one state to the next, neither version decreases, and the version changes only to that
      of the last accepted profile, with every page complete at a version that the profile asks
      for or a later one. */
  ghost predicate Adopts(s: Watched, t: Watched) {
    && s.node.obj.version <= t.node.obj.version
    && s.node.obj.update <= t.node.obj.update
    && (t.node.obj.version != s.node.obj.version ==>
          t.node.obj.version == t.node.obj.update == s.node.obj.update
          && PrefixComplete(t.node.obj.pages, |t.node.obj.pages|) && MeetsVector(t.node.obj.pages, t.vector))
  }

  lemma AcceptSound(o: Object, vector: seq<byte>, crc: seq<byte> -> nat, num: nat, sum: nat, payload: Payload)
    requires PrefixComplete(o.pages, o.rxPage) && MeetsVector(o.pages, vector) && o.version <= o.update
    requires o.rxPage < |o.pages| == |o.file| && num < PACKETS && PacketsInRange(o.pages)
    ensures var r := Accept(o, crc, o.rxPage, num, sum, payload);
            PacketsInRange(r.pages) && PrefixComplete(r.pages, r.rxPage) && MeetsVector(r.pages, vector)
                && |r.pages| == |r.file| && r.update == o.update
            && (r.version == o.version || (r.version == o.update && r.rxPage == |r.pages|))
  {
  }

  lemma RenewSound(o: Object, version: byte, vector: seq<byte>)
    requires |vector| == |o.pages| && PacketsInRange(o.pages)
    ensures var r := Renew(o, version, vector);
            PrefixComplete(r.pages, r.rxPage) && MeetsVector(r.pages, vector) && PacketsInRange(r.pages)
  {
    AllComplete(Outdated(o.pages, vector), 0);
  }

  lemma ReceiveSound(s: Watched, crc: seq<byte> -> nat, i: Input)
    requires Sound(s) && Ready(s.node, i) && i.Hear?
    ensures Sound(Advance(s, crc, i)) && Adopts(s, Advance(s, crc, i))
  {
    match i.message
    case Summary(_, _) =>
    case Request(_, _, _) =>
    case Packet(version, page, num, sum, payload) =>
      if Wants(s.node.obj, version, page) {
        AcceptSound(s.node.obj, s.vector, crc, num, sum, payload);
      }
    case Profile(version, vector) =>
      RenewSound(s.node.obj, version, vector);
  }

  /** Every event keeps the invariant and adopts a version only when all pages are there. */
  lemma AdvanceSound(s: Watched, crc: seq<byte> -> nat, i: Input)
    requires Sound(s) && Ready(s.node, i)
    ensures Sound(Advance(s, crc, i)) && Adopts(s, Advance(s, crc, i))
  {
    if i.Hear? {
      ReceiveSound(s, crc, i);
    }
  }

  ghost predicate SoundHistory(h: seq<Watched>) {
    (forall k :: 0 <= k < |h| ==> Sound(h[k])) && (forall k :: 0 < k < |h| ==> Adopts(h[k], h[k - 1]))
  }

  /** Adoption safety: in every run from a node's start, every state keeps the invariant and every
      step adopts a version only when all pages are there. */
  lemma {:induction false} AdoptionSafety(version: byte, file: seq<PageData>, crc: seq<byte> -> nat, inputs: seq<Input>)
    ensures SoundHistory(History(Watched(Initial(version, file), seq(|file|, _ => version)), crc, inputs))
    decreases |inputs|
  {
    var start := Watched(Initial(version, file), seq(|file|, _ => version));
    if inputs == [] {
      assert Sound(start);
    } else {
      var i := inputs[|inputs| - 1];
      AdoptionSafety(version, file, crc, inputs[..|inputs| - 1]);
      var h := History(start, crc, inputs[..|inputs| - 1]);
      assert Sound(h[0]);
      if Ready(h[0].node, i) {
        AdvanceSound(h[0], crc, i);
        LongerHistory(h, Advance(h[0], crc, i));
      } else {
        LongerHistory(h, h[0]);
      }
    }
  }

  lemma LongerHistory(h: seq<Watched>, t: Watched)
    requires h != [] && SoundHistory(h) && Sound(t) && Adopts(h[0], t)
    ensures SoundHistory([t] + h)
  {
    var g := [t] + h;
    forall k | 0 <= k < |g| ensures Sound(g[k]) {
      assert k > 0 ==> g[k] == h[k - 1];
    }
    forall k | 0 < k < |g| ensures Adopts(g[k], g[k - 1]) {
      assert k > 1 ==> g[k] == h[k - 1] && g[k - 1] == h[k - 2];
    }
  }
}
