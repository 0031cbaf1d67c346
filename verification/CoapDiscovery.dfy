/** The listing of resources that .well-known/core returns in the link format of RFC 6690,
    section 2, generated block by block from an offset. */
module CoapDiscovery {
  datatype Resource = Resource(url: string, attributes: string)

  function Attributes(r: Resource): string {
    if r.attributes == "" then "" else ";" + r.attributes
  }

  /** A resource in the listing. */
  function Entry(r: Resource, isLast: bool): string {
    ("</" + r.url) + (">" + Attributes(r)) + (if isLast then "" else ",")
  }

  /** The whole listing. */
  function Listing(rs: seq<Resource>): string {
    if rs == [] then "" else Entry(rs[0], |rs| == 1) + Listing(rs[1..])
  }

  // ----- Reading the listing -----

  /** The first position of a character, or the length. */
  function Find(s: string, c: char): (i: nat)
    ensures i <= |s| && (i < |s| ==> s[i] == c)
  {
    if s == "" || s[0] == c then 0 else 1 + Find(s[1..], c)
  }

  datatype Link = Link(resource: Resource, rest: string) | NoLink

  /** The first link of a text in the link format: a target in angle brackets, and its attributes behind
      a semicolon up to the comma in front of the next link. */
  function FirstLink(s: string): (l: Link)
    ensures l.Link? ==> |l.rest| < |s|
  {
    if |s| < 2 || s[0] != '<' || s[1] != '/' then NoLink
    else
      var target := s[2..][..Find(s[2..], '>')];
      var after := s[2 + |target|..];
      if after == "" then NoLink
      else
        var params := after[1..][..Find(after[1..], ',')];
        Link(Resource(target, if params != "" && params[0] == ';' then params[1..] else ""), after[1 + |params|..])
  }

  /** All links of a text in the link format. */
  function Links(s: string): seq<Resource>
    decreases |s|
  {
    match FirstLink(s)
    case NoLink => []
    case Link(r, rest) => [r] + if rest == "" then [] else Links(rest[1..])
  }

  lemma {:induction false} FindIn(a: string, c: char, b: string)
    requires c !in a && (b == "" || b[0] == c)
    ensures Find(a + b, c) == |a| && (a + b)[..|a|] == a && (a + b)[|a|..] == b
  {
    if a == "" {
      assert a + b == b;
    } else {
      assert (a + b)[1..] == a[1..] + b;
      FindIn(a[1..], c, b);
    }
  }

  /** No target holds a closing bracket, and no attributes a comma. */
  ghost predicate Readable(rs: seq<Resource>) {
    forall k :: 0 <= k < |rs| ==> '>' !in rs[k].url && ',' !in rs[k].attributes
  }

  lemma SliceBehind(head: string, a: string, b: string)
    ensures (head + a + b)[|head|..] == a + b && (head + a + b)[|head| + |a|..] == b
  {
  }

  /** The first link of a text with these parts. */
  lemma LinkOfParts(url: string, params: string, rest: string, s: string)
    requires '>' !in url && ',' !in params && (rest == "" || rest[0] == ',')
    requires s == "</" + url + (">" + params + rest)
    ensures FirstLink(s) == Link(Resource(url, if params != "" && params[0] == ';' then params[1..] else ""), rest)
  {
    var after := ">" + params + rest;
    SliceBehind("</", url, after);
    FindIn(url, '>', after);
    assert s[2..] == url + after && s[2 + |url|..] == after && s[..2] == "</";
    SliceBehind(">", params, rest);
    FindIn(params, ',', rest);
    assert after[1..] == params + rest && after[1 + |params|..] == rest;
  }

  lemma LinkIsRead(r: Resource, rest: string, s: string)
    requires '>' !in r.url && ',' !in r.attributes && (rest == "" || rest[0] == ',')
    requires s == ("</" + r.url) + (">" + Attributes(r)) + rest
    ensures FirstLink(s) == Link(r, rest)
  {
    var params := Attributes(r);
    assert s == "</" + r.url + (">" + params + rest);
    assert params != "" ==> params[1..] == r.attributes;
    LinkOfParts(r.url, params, rest, s);
  }

  lemma LinksBegin(s: string, r: Resource, rest: string, others: seq<Resource>)
    requires FirstLink(s) == Link(r, rest) && others == if rest == "" then [] else Links(rest[1..])
    ensures Links(s) == [r] + others
  {
  }

  lemma OneMoreLink(rs: seq<Resource>, tail: string, s: string)
    requires Readable(rs) && rs != [] && (|rs| > 1 ==> Links(tail) == rs[1..])
    requires s == ("</" + rs[0].url) + (">" + Attributes(rs[0])) + if |rs| == 1 then "" else "," + tail
    ensures Links(s) == rs
  {
    var rest := if |rs| == 1 then "" else "," + tail;
    assert rest != "" ==> rest[1..] == tail;
    LinkIsRead(rs[0], rest, s);
    LinksBegin(s, rs[0], rest, rs[1..]);
  }

  /** The listing is in the link format: its links are the resources with their attributes, in order. */
  lemma {:induction false} ListingIsRead(rs: seq<Resource>)
    requires Readable(rs)
    ensures Links(Listing(rs)) == rs
  {
    if rs != [] {
      ListingIsRead(rs[1..]);
      ListingBegins(rs);
      OneMoreLink(rs, Listing(rs[1..]), Listing(rs));
    }
  }

  lemma ListingBegins(rs: seq<Resource>)
    requires rs != []
    ensures Listing(rs) == ("</" + rs[0].url) + (">" + Attributes(rs[0]))
                           + if |rs| == 1 then "" else "," + Listing(rs[1..])
  {
    if |rs| == 1 {
      assert Listing(rs[1..]) == "";
    }
  }

  // ----- Blocks -----

  /** The block of a text at an offset. */
  function Block(full: string, offset: nat, size: nat): string {
    if offset >= |full| then "" else if |full| - offset <= size then full[offset..] else full[offset..offset + size]
  }

  /** Another block of a text is announced: something remains after this one, or nothing does, but
      the text ends with the attributes of a resource and they end with the block. */
  predicate More(full: string, endsInAttributes: bool, offset: nat, size: nat) {
    offset < |full| && (|full| - offset > size || (|full| - offset == size && endsInAttributes))
  }

  predicate EndsInAttributes(rs: seq<Resource>) {
    rs != [] && rs[|rs| - 1].attributes != ""
  }

  /** The blocks from an offset on, as long as another one is announced. */
  function Blocks(full: string, endsInAttributes: bool, offset: nat, size: nat): string
    requires size > 0
    decreases |full| - offset
  {
    Block(full, offset, size)
    + if More(full, endsInAttributes, offset, size) then Blocks(full, endsInAttributes, offset + size, size) else ""
  }

  /** A client that follows the offsets gets the rest of the text. */
  lemma {:induction false} BlocksAreRest(full: string, endsInAttributes: bool, offset: nat, size: nat)
    requires size > 0
    ensures Blocks(full, endsInAttributes, offset, size) == if offset <= |full| then full[offset..] else ""
    decreases |full| - offset
  {
    if More(full, endsInAttributes, offset, size) {
      BlocksAreRest(full, endsInAttributes, offset + size, size);
      assert full[offset..] == full[offset..offset + size] + full[offset + size..];
    }
  }

  /** Blockwise discovery refines slicing: the blocks from the start concatenate to the listing. */
  lemma BlocksConcatenate(rs: seq<Resource>, size: nat)
    requires size > 0
    ensures Blocks(Listing(rs), EndsInAttributes(rs), 0, size) == Listing(rs)
  {
    BlocksAreRest(Listing(rs), EndsInAttributes(rs), 0, size);
    assert Listing(rs)[0..] == Listing(rs);
  }

  /** What has been generated when the position in the listing is `strpos` and nothing has been cut
      short: `bufpos` characters from the offset on, but no more than fit. */
  ghost predicate Generated(full: string, offset: nat, size: nat, buffer: seq<char>, strpos: nat, bufpos: nat) {
    |buffer| > size && strpos <= |full|
    && if strpos <= offset then bufpos == 0
       else if strpos - offset <= size then bufpos == strpos - offset && buffer[..bufpos] == full[offset..strpos]
       else bufpos == size && buffer[..size] == full[offset..offset + size]
  }

  /** `part` is what follows in the listing. */
  predicate Follows(full: string, strpos: nat, part: string) {
    strpos + |part| <= |full| && full[strpos..strpos + |part|] == part
  }

  /** The block is full, and `strpos` is at its end or beyond. */
  ghost predicate Filled(full: string, offset: nat, size: nat, buffer: seq<char>, strpos: nat) {
    |buffer| > size && offset + size <= strpos <= |full| && buffer[..size] == full[offset..offset + size]
  }

  /** One character, unless it lies before the offset or the buffer is full. */
  method PutChar(c: char, buffer: array<char>, size: nat, offset: nat, strpos: nat, bufpos: nat, ghost full: string)
    returns (newpos: nat)
    requires Generated(full, offset, size, buffer[..], strpos, bufpos) && Follows(full, strpos, [c])
    modifies buffer
    ensures Generated(full, offset, size, buffer[..], strpos + 1, newpos)
  {
    newpos := bufpos;
    assert full[strpos] == full[strpos..strpos + 1][0];
    if strpos >= offset && bufpos < size {
      buffer[bufpos] := c;
      newpos := bufpos + 1;
      assert buffer[..newpos] == old(buffer[..bufpos]) + [c];
      assert full[offset..strpos + 1] == full[offset..strpos] + [c];
    }
  }

  /** snprintf of a string into what is left of the buffer, from the offset on; it returns how many
      characters there were to write, and puts a zero behind the ones it wrote. */
  method Print(s: string, buffer: array<char>, at: nat, room: nat) returns (n: nat)
    requires room > 0 && at + room <= buffer.Length
    modifies buffer
    ensures n == |s|
    ensures var k := if |s| < room then |s| else room - 1;
            buffer[..at] == old(buffer[..at]) && buffer[at..at + k] == s[..k]
  {
    n := |s|;
    var k := if |s| < room then |s| else room - 1;
    forall i | 0 <= i < k {
      buffer[at + i] := s[i];
    }
    buffer[at + k] := '\0';
    assert buffer[..at] == old(buffer[..at]);
    assert buffer[at..at + k] == s[..k];
  }

  /** A string of the listing. If it fills the buffer, the generation ends. */
  method PutString(s: string, buffer: array<char>, size: nat, offset: nat, strpos: nat, bufpos: nat, ghost full: string)
    returns (newpos: nat, done: bool)
    requires size > 0 && Generated(full, offset, size, buffer[..], strpos, bufpos) && Follows(full, strpos, s)
    modifies buffer
    ensures done <==> strpos + |s| >= offset + size
    ensures done ==> newpos >= size && Filled(full, offset, size, buffer[..], strpos + |s|)
    ensures !done ==> Generated(full, offset, size, buffer[..], strpos + |s|, newpos)
  {
    newpos, done := bufpos, false;
    if strpos + |s| > offset {
      var skip := if offset > strpos then offset - strpos else 0;
      ghost var before := buffer[..];
      var n := Print(s[skip..], buffer, bufpos, size - bufpos + 1);
      newpos := bufpos + n;
      done := newpos >= size;
      Printed(full, offset, size, before, buffer[..], strpos, bufpos, s, skip);
    }
  }

  /** The string that is printed continues what is in the buffer. */
  lemma Continues(full: string, offset: nat, size: nat, before: seq<char>, strpos: nat, bufpos: nat, s: string,
                  skip: nat, k: nat)
    requires Generated(full, offset, size, before, strpos, bufpos) && Follows(full, strpos, s)
    requires strpos + |s| > offset && skip == if offset > strpos then offset - strpos else 0
    requires k <= |s| - skip && k <= size - bufpos && strpos - offset <= size
    ensures skip <= |s| && before[..bufpos] + s[skip..][..k] == full[offset..offset + bufpos + k]
  {
    var part := full[strpos..strpos + |s|];
    assert part == s;
    if strpos <= offset {
      assert s[skip..][..k] == s[skip..skip + k];
      assert part[skip..skip + k] == full[strpos + skip..strpos + skip + k];
    } else {
      assert part[..k] == full[strpos..strpos + k];
      assert full[offset..strpos + k] == full[offset..strpos] + full[strpos..strpos + k];
    }
  }

  lemma Printed(full: string, offset: nat, size: nat, before: seq<char>, after: seq<char>, strpos: nat, bufpos: nat,
                s: string, skip: nat)
    requires Generated(full, offset, size, before, strpos, bufpos) && Follows(full, strpos, s) && |after| == |before|
    requires strpos + |s| > offset && skip == if offset > strpos then offset - strpos else 0
    requires var k := if |s| - skip <= size - bufpos then |s| - skip else size - bufpos;
             after[..bufpos] == before[..bufpos] && after[bufpos..bufpos + k] == s[skip..][..k]
    ensures bufpos + |s| - skip >= size ==> Filled(full, offset, size, after, strpos + |s|)
    ensures bufpos + |s| - skip < size ==> Generated(full, offset, size, after, strpos + |s|, bufpos + |s| - skip)
    ensures bufpos + |s| - skip >= size <==> strpos + |s| >= offset + size
  {
    var k := if |s| - skip <= size - bufpos then |s| - skip else size - bufpos;
    assert after[..bufpos + k] == after[..bufpos] + after[bufpos..bufpos + k];
    if strpos - offset <= size {
      Continues(full, offset, size, before, strpos, bufpos, s, skip, k);
    } else {
      assert after[..size] == before[..size];
    }
  }

  // ----- The handler -----

  lemma FollowsBoth(full: string, at: nat, a: string, b: string)
    requires Follows(full, at, a + b)
    ensures Follows(full, at, a) && Follows(full, at + |a|, b)
  {
    assert full[at..at + |a + b|][..|a|] == a;
    assert full[at..at + |a + b|][|a|..] == b;
  }

  /** The parts of an entry. */
  lemma EntryParts(full: string, at: nat, r: Resource, isLast: bool)
    requires Follows(full, at, Entry(r, isLast))
    ensures var opening, closing := "</" + r.url, ">" + Attributes(r);
            Follows(full, at, opening) && Follows(full, at + |opening|, closing)
            && (!isLast ==> Follows(full, at + |opening| + |closing|, ","))
  {
    var opening, closing := "</" + r.url, ">" + Attributes(r);
    FollowsBoth(full, at, opening + closing, if isLast then "" else ",");
    FollowsBoth(full, at, opening, closing);
  }

  /** The beginning of an entry. */
  method PutOpening(r: Resource, buffer: array<char>, size: nat, offset: nat, strpos: nat, bufpos: nat,
                    ghost full: string)
    returns (newpos: nat, done: bool)
    requires size > 0 && Generated(full, offset, size, buffer[..], strpos, bufpos)
             && Follows(full, strpos, "</" + r.url)
    modifies buffer
    ensures var end := strpos + 2 + |r.url|;
            (done <==> end >= offset + size)
            && (done ==> newpos >= size && Filled(full, offset, size, buffer[..], end))
            && (!done ==> Generated(full, offset, size, buffer[..], end, newpos))
  {
    FollowsBoth(full, strpos, "</", r.url);
    assert "</" == "<" + "/";
    FollowsBoth(full, strpos, "<", "/");
    newpos := PutChar('<', buffer, size, offset, strpos, bufpos, full);
    newpos := PutChar('/', buffer, size, offset, strpos + 1, newpos, full);
    newpos, done := PutString(r.url, buffer, size, offset, strpos + 2, newpos, full);
  }

  /** The end of an entry, with its attributes. */
  method PutClosing(r: Resource, buffer: array<char>, size: nat, offset: nat, strpos: nat, bufpos: nat,
                    ghost full: string)
    returns (newpos: nat, done: bool)
    requires size > 0 && Generated(full, offset, size, buffer[..], strpos, bufpos)
             && Follows(full, strpos, ">" + Attributes(r))
    modifies buffer
    ensures var end := strpos + 1 + |Attributes(r)|;
            (done <==> r.attributes != "" && end >= offset + size)
            && (done ==> newpos >= size && Filled(full, offset, size, buffer[..], end))
            && (!done ==> Generated(full, offset, size, buffer[..], end, newpos))
  {
    FollowsBoth(full, strpos, ">", Attributes(r));
    newpos := PutChar('>', buffer, size, offset, strpos, bufpos, full);
    done := false;
    if r.attributes != "" {
      FollowsBoth(full, strpos + 1, ";", r.attributes);
      newpos := PutChar(';', buffer, size, offset, strpos + 1, newpos, full);
      newpos, done := PutString(r.attributes, buffer, size, offset, strpos + 2, newpos, full);
    }
  }

  /** One resource of the listing. The generation ends when a string fills the buffer, or when the
      buffer is full and something did not fit. */
  method PutResource(r: Resource, isLast: bool, buffer: array<char>, size: nat, offset: nat, strpos: nat, bufpos: nat,
                     ghost full: string)
    returns (at: nat, newpos: nat, done: bool)
    requires size > 0 && Generated(full, offset, size, buffer[..], strpos, bufpos)
    requires Follows(full, strpos, Entry(r, isLast)) && (isLast ==> strpos + |Entry(r, isLast)| == |full|)
    modifies buffer
    ensures done ==>
              newpos >= size && More(full, isLast && r.attributes != "", offset, size)
              && buffer[..size] == full[offset..offset + size]
    ensures !done ==> at == strpos + |Entry(r, isLast)| && Generated(full, offset, size, buffer[..], at, newpos)
    ensures !done && isLast ==> !More(full, r.attributes != "", offset, size)
  {
    EntryParts(full, strpos, r, isLast);
    at := strpos;
    newpos, done := PutOpening(r, buffer, size, offset, at, bufpos, full);
    if done {
      return;
    }
    at := at + 2 + |r.url|;
    newpos, done := PutClosing(r, buffer, size, offset, at, newpos, full);
    if done {
      return;
    }
    at := at + 1 + |Attributes(r)|;
    if !isLast {
      newpos := PutChar(',', buffer, size, offset, at, newpos, full);
      at := at + 1;
    }
    done := newpos >= size && at - newpos > offset;
  }

  // ----- The handler -----

  datatype Outcome = Payload(length: nat, next: int) | OutOfScope(next: int)

  /** What remains of the listing at a position. */
  ghost predicate Remains(full: string, strpos: nat, rest: string) {
    strpos + |rest| == |full| && full[strpos..] == rest
  }

  lemma ListingStep(full: string, rs: seq<Resource>, i: nat, strpos: nat)
    requires i < |rs| && Remains(full, strpos, Listing(rs[i..]))
    ensures var entry := Entry(rs[i], i + 1 == |rs|);
            Follows(full, strpos, entry) && Remains(full, strpos + |entry|, Listing(rs[i + 1..]))
            && (i + 1 == |rs| ==> strpos + |entry| == |full|)
  {
    var entry := Entry(rs[i], i + 1 == |rs|);
    assert rs[i..][0] == rs[i] && rs[i..][1..] == rs[i + 1..];
    Advance(full, strpos, entry, Listing(rs[i + 1..]));
  }

  lemma Advance(full: string, strpos: nat, entry: string, rest: string)
    requires Remains(full, strpos, entry + rest)
    ensures Follows(full, strpos, entry) && Remains(full, strpos + |entry|, rest)
  {
    assert full[strpos..strpos + |entry|] == full[strpos..][..|entry|] == entry;
    assert full[strpos + |entry|..] == full[strpos..][|entry|..] == rest;
  }

  /** The loop over the resources; `full` is the listing. */
  method Generate(rs: seq<Resource>, buffer: array<char>, size: nat, offset: nat, ghost full: string)
    returns (bufpos: nat, done: bool)
    requires size > 0 && buffer.Length > size && rs != [] && full == Listing(rs)
    modifies buffer
    ensures done <==> More(full, EndsInAttributes(rs), offset, size)
    ensures done ==> bufpos >= size && buffer[..size] == full[offset..offset + size]
    ensures !done ==> Generated(full, offset, size, buffer[..], |full|, bufpos)
  {
    var strpos: nat, i: nat := 0, 0;
    bufpos, done := 0, false;
    assert rs[0..] == rs;
    while i < |rs| && !done
      invariant i <= |rs|
      invariant !done ==>
                Generated(full, offset, size, buffer[..], strpos, bufpos) && Remains(full, strpos, Listing(rs[i..]))
      invariant !done && i == |rs| ==> strpos == |full| && !More(full, EndsInAttributes(rs), offset, size)
      invariant done ==>
                  bufpos >= size && More(full, EndsInAttributes(rs), offset, size)
                  && buffer[..size] == full[offset..offset + size]
      decreases |rs| - i, !done
    {
      ListingStep(full, rs, i, strpos);
      strpos, bufpos, done := PutResource(rs[i], i + 1 == |rs|, buffer, size, offset, strpos, bufpos, full);
      if !done {
        i := i + 1;
      }
    }
  }

  /** What is in the buffer at the end is the block. */
  lemma AtTheEnd(full: string, ends: bool, offset: nat, size: nat, buffer: seq<char>, bufpos: nat, done: bool)
    requires size > 0 && |buffer| > size && (done <==> More(full, ends, offset, size))
    requires done ==> bufpos >= size && buffer[..size] == full[offset..offset + size]
    requires !done ==> Generated(full, offset, size, buffer, |full|, bufpos)
    ensures var block := Block(full, offset, size);
            bufpos >= |block| && buffer[..|block|] == block && (bufpos > |block| ==> |block| == size)
            && (bufpos == 0 <==> block == "")
  {
    if !done && offset < |full| {
      assert full[offset..|full|] == full[offset..];
    }
  }

  /** well_known_core_handler without a filter: the block of the listing at the offset, and the next
      offset, or -1 if no further block is announced. */
  method Handle(rs: seq<Resource>, buffer: array<char>, size: nat, offset: nat) returns (o: Outcome)
    requires size > 0 && buffer.Length > size
    modifies buffer
    ensures o.next == if More(Listing(rs), EndsInAttributes(rs), offset, size) then offset + size else -1
    ensures var block := Block(Listing(rs), offset, size);
            match o {
              case OutOfScope(_) => block == "" && rs != []
              case Payload(length, _) =>
                length >= |block| && buffer[..|block|] == block && (length > |block| ==> |block| == size)
                    && (block == "" ==> rs == [])
            }
  {
    if |rs| == 0 {
      return Payload(0, -1);
    }
    var bufpos, done := Generate(rs, buffer, size, offset, Listing(rs));
    AtTheEnd(Listing(rs), EndsInAttributes(rs), offset, size, buffer[..], bufpos, done);
    var next: int := if done then offset + size else -1;
    if bufpos > 0 {
      o := Payload(bufpos, next);
    } else {
      o := OutOfScope(next);
    }
  }

  // ----- A client -----

  /** The length is that of a number of whole blocks. */
  predicate WholeBlocks(length: nat, size: nat)
    requires size > 0
  {
    length == 0 || (length >= size && WholeBlocks(length - size, size))
  }

  /** One request: what of the buffer is sent, and whether the offset is refused. */
  method FetchBlock(rs: seq<Resource>, buffer: array<char>, size: nat, offset: nat)
    returns (block: string, refused: bool, next: int)
    requires size > 0 && buffer.Length > size
    modifies buffer
    ensures block == Block(Listing(rs), offset, size) && (refused <==> block == "" && rs != [])
    ensures next == if More(Listing(rs), EndsInAttributes(rs), offset, size) then offset + size else -1
  {
    var o := Handle(rs, buffer, size, offset);
    next := o.next;
    match o {
      case OutOfScope(_) => block, refused := "", true;
      case Payload(length, _) => block, refused := buffer[..if length <= size then length else size], false;
    }
  }

  lemma BlockGrows(full: string, ends: bool, offset: nat, size: nat)
    requires offset <= |full| && size > 0
    ensures var block := Block(full, offset, size);
            full[..offset] + block == full[..offset + |block|]
            && (if More(full, ends, offset, size) then |block| == size else offset + |block| == |full|)
  {
  }

  /** A client asks for one block after the other, with the offset that the last answer announced,
      until none is announced. It gets the whole listing. The last answer is a refusal exactly if the
      listing ends with the attributes of a resource and fills its blocks. */
  method FetchAll(rs: seq<Resource>, buffer: array<char>, size: nat) returns (listing: string, refused: bool)
    requires size > 0 && buffer.Length > size
    modifies buffer
    ensures listing == Listing(rs)
    ensures refused <==> EndsInAttributes(rs) && WholeBlocks(|Listing(rs)|, size)
  {
    ghost var full, ends := Listing(rs), EndsInAttributes(rs);
    var offset: nat, next: int := 0, 0;
    listing, refused := "", false;
    while next >= 0
      invariant offset <= |full| && next >= -1
      invariant next >= 0 ==> listing == full[..offset] && (offset == |full| ==> ends || rs == [])
      invariant next >= 0 ==> (WholeBlocks(|full|, size) <==> WholeBlocks(|full| - offset, size))
      invariant next < 0 ==> listing == full && (refused <==> ends && WholeBlocks(|full|, size))
      decreases next >= 0, |full| - offset
    {
      var block: string;
      block, refused, next := FetchBlock(rs, buffer, size, offset);
      BlockGrows(full, ends, offset, size);
      NotEmpty(rs);
      listing := listing + block;
      if next >= 0 {
        offset := next;
      }
    }
  }

  lemma NotEmpty(rs: seq<Resource>)
    ensures rs == [] <==> Listing(rs) == ""
  {
  }
}
