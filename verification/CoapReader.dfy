/** coap_parse_message as it works on the receive buffer. The text fields of the packet point into
    the buffer, and the values of repeated options are moved together there while the options
    behind them are still to be read. */
module CoapReader {
  import opened CoapOption
  import opened CoapText
  import opened CoapMessage
  import opened CoapRoundTrip

  /** A text in the buffer. */
  datatype Span = Span(at: nat, length: nat)

  type Spans = map<nat, Span>

  predicate IsText(number: nat) {
    KindOf(number).KText? || KindOf(number).KMulti?
  }

  /** The text of a span. */
  function TextAt(b: seq<byte>, s: Span): text {
    if s.at + s.length <= |b| then b[s.at..s.at + s.length] else []
  }

  /** The option `n` is the text that its span holds. */
  predicate ShowsSpan(options: Options, n: nat, s: Span, b: seq<byte>) {
    s.at + s.length <= |b| && n in options && options[n] == Text(b[s.at..s.at + s.length])
  }

  /** The fields of the packet, with their texts in the buffer, are the given options. */
  ghost predicate Shows(values: Options, texts: Spans, b: seq<byte>, options: Options) {
    && options.Keys == values.Keys + texts.Keys && values.Keys !! texts.Keys
    && (forall n :: n in texts ==> ShowsSpan(options, n, texts[n], b))
    && (forall n :: n in values ==> options[n] == values[n])
  }

  /** Reading an option depends only on the bytes from it on. */
  lemma ReadLocal(a: seq<byte>, b: seq<byte>, at: nat, current: nat)
    requires |a| == |b| && at <= |a| && a[at..] == b[at..]
    ensures ReadOne(a, at, current) == ReadOne(b, at, current)
  {
    assert forall k :: at <= k < |a| ==> a[k] == a[at..][k - at] == b[k];
  }

  lemma TailEqual(a: seq<byte>, b: seq<byte>, at: nat, start: nat, next: nat)
    requires |a| == |b| && at <= start <= next <= |a| && a[at..] == b[at..]
    ensures a[start..next] == b[start..next] && a[next..] == b[next..]
  {
    assert forall k :: at <= k < |a| ==> a[k] == a[at..][k - at] == b[at..][k - at] == b[k];
  }

  lemma SameText(a: seq<byte>, b: seq<byte>, s: Span, base: nat)
    requires |a| == |b| && base <= |a| && a[..base] == b[..base] && s.at + s.length <= base
    ensures TextAt(a, s) == TextAt(b, s)
  {
    assert a[s.at..s.at + s.length] == a[..base][s.at..s.at + s.length];
    assert b[s.at..s.at + s.length] == b[..base][s.at..s.at + s.length];
  }

  /** What is known of a text while options are read: it is the option's, and it ends before `base`,
      unless it belongs to the last option, when it lies between `base` and `at`. */
  predicate SpanReads(n: nat, s: Span, b: seq<byte>, options: Options, current: nat, base: nat, at: nat) {
    IsText(n) && ShowsSpan(options, n, s, b) && n <= current
    && if n == current then base <= s.at && s.at + s.length <= at else s.at + s.length <= base
  }

  predicate ValueReads(n: nat, v: Value, options: Options) {
    !IsText(n) && n in options && options[n] == v
  }

  /** The fields after the options before `at`, the last of which is `current`. */
  ghost predicate FieldsRead(values: Options, texts: Spans, b: seq<byte>, options: Options, current: nat, base: nat,
                             at: nat) {
    && base <= at && options.Keys == values.Keys + texts.Keys
    && (forall n :: n in texts ==> SpanReads(n, texts[n], b, options, current, base, at))
    && (forall n :: n in values ==> ValueReads(n, values[n], options))
  }

  lemma FieldsReadShow(values: Options, texts: Spans, b: seq<byte>, options: Options, current: nat, base: nat, at: nat)
    requires FieldsRead(values, texts, b, options, current, base, at)
    ensures Shows(values, texts, b, options)
    ensures forall n :: n in texts ==> texts[n].at + texts[n].length <= at
  {
    forall n | n in texts
      ensures ShowsSpan(options, n, texts[n], b) && texts[n].at + texts[n].length <= at && IsText(n) {
      assert SpanReads(n, texts[n], b, options, current, base, at);
    }
    forall n | n in values ensures options[n] == values[n] && !IsText(n) {
      assert ValueReads(n, values[n], options);
    }
  }

  /** The place where the texts of the next option begin. */
  lemma PlaceNext(values: Options, texts: Spans, b: seq<byte>, options: Options, current: nat, base: nat, at: nat,
                  number: nat)
    requires FieldsRead(values, texts, b, options, current, base, at) && current <= number
    ensures FieldsRead(values, texts, b, options, number, if number == current then base else at, at)
  {
    var newBase := if number == current then base else at;
    forall n | n in texts ensures SpanReads(n, texts[n], b, options, number, newBase, at) {
      assert SpanReads(n, texts[n], b, options, current, base, at);
    }
  }

  /** An option that sets no field has been read. */
  lemma NothingSet(values: Options, texts: Spans, b: seq<byte>, options: Options, number: nat, base: nat, at: nat,
                   next: nat)
    requires FieldsRead(values, texts, b, options, number, base, at) && at <= next
    ensures FieldsRead(values, texts, b, options, number, base, next)
  {
    forall n | n in texts ensures SpanReads(n, texts[n], b, options, number, base, next) {
      assert SpanReads(n, texts[n], b, options, number, base, at);
    }
  }

  /** A field that is not a text has been set. */
  lemma ValueSet(values: Options, texts: Spans, b: seq<byte>, options: Options, number: nat, base: nat, at: nat,
                 next: nat, v: Value)
    requires FieldsRead(values, texts, b, options, number, base, at) && at <= next && !IsText(number)
    ensures FieldsRead(values[number := v], texts, b, options[number := v], number, base, next)
  {
    var after, newValues := options[number := v], values[number := v];
    forall n | n in texts ensures SpanReads(n, texts[n], b, after, number, base, next) {
      assert SpanReads(n, texts[n], b, options, number, base, at);
    }
    forall n | n in newValues ensures ValueReads(n, newValues[n], after) {
      assert n != number ==> ValueReads(n, values[n], options);
    }
  }

  lemma SpanKept(options: Options, after: Options, n: nat, s: Span, b: seq<byte>, c: seq<byte>, base: nat)
    requires ShowsSpan(options, n, s, b) && n in after && after[n] == options[n]
    requires |b| == |c| && base <= |b| && b[..base] == c[..base] && s.at + s.length <= base
    ensures ShowsSpan(after, n, s, c)
  {
    SameText(b, c, s, base);
  }

  /** A text has been set, and the buffer has changed only behind `base`. */
  lemma TextSet(values: Options, texts: Spans, b: seq<byte>, c: seq<byte>, options: Options, number: nat, base: nat,
                at: nat, next: nat,
                s: Span)
    requires FieldsRead(values, texts, b, options, number, base, at) && at <= next <= |c| && IsText(number)
    requires |b| == |c| && base <= |b| && b[..base] == c[..base] && base <= s.at && s.at + s.length <= next
    ensures FieldsRead(values, texts[number := s], c, options[number := Text(TextAt(c, s))], number, base, next)
  {
    var after, spans := options[number := Text(TextAt(c, s))], texts[number := s];
    forall n | n in spans ensures SpanReads(n, spans[n], c, after, number, base, next) {
      if n != number {
        assert SpanReads(n, texts[n], b, options, number, base, at);
        SpanKept(options, after, n, texts[n], b, c, base);
      }
    }
    forall n | n in values ensures ValueReads(n, values[n], after) {
      assert ValueReads(n, values[n], options);
    }
  }

  /** The bytes of a text to which a separator and a value have been appended in place. */
  lemma Appended(before: seq<byte>, after: seq<byte>, s: Span, separator: byte, value: seq<byte>)
    requires |before| == |after| && s.at + s.length + 1 + |value| <= |after|
    requires after[..s.at + s.length] == before[..s.at + s.length] && after[s.at + s.length] == separator
    requires after[s.at + s.length + 1..s.at + s.length + 1 + |value|] == value
    ensures TextAt(after, Span(s.at, s.length + 1 + |value|)) == TextAt(before, s) + [separator] + value
  {
    var end := s.at + s.length;
    SameText(before, after, s, end);
    assert after[s.at..end + 1 + |value|] == after[s.at..end] + [after[end]] + after[end + 1..end + 1 + |value|];
  }

  /** The text of an option before it has been applied. */
  lemma TextBefore(values: Options, texts: Spans, b: seq<byte>, options: Options, number: nat, base: nat, at: nat)
    requires FieldsRead(values, texts, b, options, number, base, at) && IsText(number)
    ensures TextIn(options, number) == if number in texts then TextAt(b, texts[number]) else []
    ensures number in texts ==> base <= texts[number].at && texts[number].at + texts[number].length <= at
  {
    if number in texts {
      assert SpanReads(number, texts[number], b, options, number, base, at);
    }
    assert number in values ==> ValueReads(number, values[number], options);
  }

  lemma NumsBefore(values: Options, texts: Spans, b: seq<byte>, options: Options, number: nat, base: nat, at: nat)
    requires FieldsRead(values, texts, b, options, number, base, at) && !IsText(number)
    ensures NumsIn(values, number) == NumsIn(options, number)
  {
    assert number in values ==> ValueReads(number, values[number], options);
    assert number in texts ==> SpanReads(number, texts[number], b, options, number, base, at);
  }

  /** The text after an option whose value is given. */
  function NewText(before: text, number: nat, value: text): text {
    if KindOf(number).KMulti? then Merge(before, value, KindOf(number).separator) else value
  }

  lemma TextApplied(options: Options, number: nat, value: text)
    requires IsText(number)
    ensures Apply(options, number, value)
            == Fine(options[number := Text(NewText(TextIn(options, number), number, value))])
  {
  }

  /** The options that set a field other than a text. */
  predicate SetsValue(number: nat) {
    match KindOf(number)
    case KNum(_) => true
    case KOpaque => true
    case KNums => true
    case KBlock => true
    case KPresent => true
    case _ => false
  }

  /** What such an option sets its field to; `ns` are the numbers there before. */
  function NewValue(ns: seq<nat>, number: nat, value: seq<byte>): Value
    requires SetsValue(number)
  {
    match KindOf(number)
    case KNum(limit) => Num(if limit == 0 then 0 else IntOf(value) % limit)
    case KOpaque => Opaque(Prefix(value, ETAG_LENGTH))
    case KNums => Nums(if |ns| < MAX_ACCEPT then ns + [IntOf(value) % 0x1_0000] else ns)
    case KBlock => BlockOf(IntOf(value))
    case _ => Present
  }

  lemma ValueApplied(options: Options, number: nat, value: seq<byte>)
    requires SetsValue(number)
    ensures Apply(options, number, value) == Fine(options[number := NewValue(NumsIn(options, number), number, value)])
  {
  }

  /** The option numbers ascend as long as they fit a byte. */
  lemma ReadAscends(b: seq<byte>, at: nat, current: nat)
    requires ReadOne(b, at, current).Read? && current <= 240
    ensures current <= ReadOne(b, at, current).number
  {
  }

  /** The outcome of scanning and applying options: what was made of them, and where they end. */
  datatype Outcome = Outcome(a: Applied, end: nat, complete: bool)

  function OutcomeOf(b: seq<byte>, at: nat, current: nat, left: nat, options: Options): Outcome {
    var s := ScanOptions(b, at, current, left);
    Outcome(ApplyAll(options, s.items), s.next, s.complete)
  }

  // The loop below is proved for any function that yields the outcome option by option.
  type Reader = (nat, nat, nat, Options) -> Outcome

  ghost predicate GoesBySteps(b: seq<byte>, reader: Reader) {
    && (forall at: nat, current: nat, left: nat, options: Options, item: Item, next: nat
          {:trigger Reads(b, at, current, item, next), reader(at, current, left, options)} ::
          left > 0 && Reads(b, at, current, item, next) ==>
            var step := Apply(options, item.number, item.value);
            if step.Refused? then reader(at, current, left, options).a == step
            else reader(at, current, left, options) == reader(next, item.number, left - 1, step.options))
    && (forall at: nat, current: nat, left: nat,
        options: Options {:trigger ReadOne(b, at, current), reader(at, current, left, options)} ::
          left > 0 && ReadOne(b, at, current).Overrun? ==>
              reader(at, current, left, options) == Outcome(Fine(options), at, false))
    && (forall at: nat, current: nat, options: Options {:trigger reader(at, current, 0, options)} ::
          reader(at, current, 0, options) == Outcome(Fine(options), at, true))
  }

  lemma OutcomeStep(b: seq<byte>, at: nat, current: nat, left: nat, options: Options, item: Item, next: nat)
    requires left > 0 && Reads(b, at, current, item, next)
    ensures var step := Apply(options, item.number, item.value);
            if step.Refused? then OutcomeOf(b, at, current, left, options).a == step
            else OutcomeOf(b, at, current, left, options) == OutcomeOf(b, next, item.number, left - 1, step.options)
  {
    var rest := ScanOptions(b, next, item.number, left - 1);
    assert ScanOptions(b, at, current, left) == After([item], rest);
    ApplyHead(options, item, rest.items);
  }

  lemma OutcomeGoesBySteps(b: seq<byte>)
    ensures GoesBySteps(b,
                        (at: nat, current: nat, left: nat, options: Options) => OutcomeOf(b, at, current, left,
                                options))
  {
    forall at: nat, current: nat, left: nat, options: Options, item: Item, next: nat | left > 0
        && Reads(b, at, current, item, next)
      ensures var step := Apply(options, item.number, item.value);
              if step.Refused? then OutcomeOf(b, at, current, left, options).a == step
              else OutcomeOf(b, at, current, left, options) == OutcomeOf(b, next, item.number, left - 1, step.options)
    {
      OutcomeStep(b, at, current, left, options, item, next);
    }
  }

  lemma ReadStep(b: seq<byte>, reader: Reader, at: nat, current: nat, left: nat, options: Options, goal: Outcome)
    requires GoesBySteps(b, reader) && left > 0 && reader(at, current, left, options) == goal
             && (goal.complete || goal.a.Refused?)
    ensures var r := ReadOne(b, at, current);
            r.Read? &&
            var step := Apply(options, r.number, b[r.start..r.next]);
            if step.Refused? then goal.a == step else reader(r.next, r.number, left - 1, step.options) == goal
  {
    var r := ReadOne(b, at, current);
    assert r.Read? ==> Reads(b, at, current, Item(r.number, b[r.start..r.next]), r.next);
  }

  /** Refusals have an error code. */
  lemma RefusalCode(options: Options, number: nat, value: seq<byte>)
    ensures Apply(options, number, value).Refused? ==> Apply(options, number, value).code > 0
  {
  }

  class CoapPacket {
    const buffer: array<byte>
    var kind: nat
    var code: byte
    var mid: nat
    var values: Options
    var texts: Spans
    var payloadAt: nat
    var payloadLength: nat

    constructor (buffer: array<byte>)
      ensures this.buffer == buffer && values == map[] && texts == map[]
    {
      this.buffer := buffer;
      kind, code, mid, payloadAt, payloadLength := 0, 0, 0, 0, 0;
      values, texts := map[], map[];
    }

    /** coap_parse_int_option. */
    method ParseInt(start: nat, next: nat) returns (v: nat)
      requires start <= next <= buffer.Length
      ensures v == IntOf(buffer[start..next])
    {
      v := 0;
      var i := start;
      while i < next
        invariant start <= i <= next && v == IntOf(buffer[start..i])
      {
        IntOfOneMore(buffer[start..i], buffer[i]);
        assert buffer[start..i + 1] == buffer[start..i] + [buffer[i]];
        v := (v * 256 + buffer[i]) % WORD;
        i := i + 1;
      }
    }

    /** The number, the value's place and the next position of the option at `at`. */
    method ReadOption(at: nat, current: nat) returns (number: nat, start: nat, next: nat)
      requires ReadOne(buffer[..], at, current).Read?
      ensures ReadOne(buffer[..], at, current) == Read(number, start, next)
    {
      number := (current + buffer[at] / 16) % 256;
      if buffer[at] % 16 < LONG_LENGTH {
        start := at + 1;
        next := start + buffer[at] % 16;
      } else {
        start := at + 2;
        next := start + buffer[at + 1] + LONG_LENGTH;
      }
    }

    /** memmove within the buffer, to a lower or equal address. */
    method Move(to: nat, from: nat, length: nat)
      requires to <= from && from + length <= buffer.Length
      modifies buffer
      ensures buffer[to..to + length] == old(buffer[from..from + length])
      ensures buffer[..to] == old(buffer[..to])
      ensures buffer[from + length..] == old(buffer[from + length..])
    {
      forall k | 0 <= k < length {
        buffer[to + k] := buffer[from + k];
      }
      assert forall j :: to <= j < to + length ==> buffer[j] == old(buffer[j - to + from]);
    }

    /** coap_merge_multi_option: a first value is pointed to; a further one is moved to the end of
        the text, behind a separator. The text grows only over bytes that have been read. */
    method MergeText(number: nat, start: nat, next: nat, separator: byte, ghost base: nat, ghost at: nat)
      requires base <= at < start <= next <= buffer.Length
      requires number in texts ==> base <= texts[number].at && texts[number].at + texts[number].length <= at
      modifies `texts, buffer
      ensures number in texts && texts == old(texts)[number := texts[number]]
      ensures base <= texts[number].at && texts[number].at + texts[number].length <= next
      ensures TextAt(buffer[..], texts[number])
              == Merge(old(if number in texts then TextAt(buffer[..], texts[number]) else []), old(buffer[start..next]),
                       separator)
      ensures buffer[..base] == old(buffer[..base]) && buffer[next..] == old(buffer[next..])
    {
      if number in texts && texts[number].length > 0 {
        var s := texts[number];
        ghost var before, value := buffer[..], buffer[start..next];
        AppendInPlace(s, separator, start, next);
        texts := texts[number := Span(s.at, s.length + 1 + (next - start))];
        Appended(before, buffer[..], s, separator, value);
        assert buffer[..base] == buffer[..s.at + s.length][..base]
               && before[..base] == before[..s.at + s.length][..base];
      } else {
        texts := texts[number := Span(start, next - start)];
      }
    }

    /** The separator and the value behind a text that ends before the value. */
    method AppendInPlace(s: Span, separator: byte, start: nat, next: nat)
      requires s.at + s.length < start <= next <= buffer.Length
      modifies buffer
      ensures var end := s.at + s.length;
              buffer[..end] == old(buffer[..end]) && buffer[end] == separator
              && buffer[end + 1..end + 1 + (next - start)] == old(buffer[start..next])
              && buffer[next..] == old(buffer[next..])
    {
      var end := s.at + s.length;
      buffer[end] := separator;
      ghost var between := buffer[..];
      Move(end + 1, start, next - start);
      assert buffer[..end] == buffer[..end + 1][..end] == between[..end];
      assert buffer[end] == buffer[..end + 1][end];
    }

    /** The switch of coap_parse_message for an option that is not a text; 0 or an error code. */
    method ApplyValue(number: nat, start: nat, next: nat, ghost options: Options, ghost base: nat, ghost at: nat)
      returns (refused: nat)
      requires !IsText(number) && at <= start <= next <= buffer.Length
      requires FieldsRead(values, texts, buffer[..], options, number, base, at)
      modifies `values
      ensures var a := Apply(options, number, buffer[start..next]);
              if a.Refused? then refused == a.code
              else refused == 0 && FieldsRead(values, texts, buffer[..], a.options, number, base, next)
    {
      var kind := KindOf(number);
      if kind.KProxy? {
        return PROXYING_NOT_SUPPORTED;
      }
      if kind.KUnknown? && number % 2 == 1 {
        return BAD_OPTION;
      }
      refused := 0;
      if kind.KUnknown? || kind.KFence? {
        NothingSet(values, texts, buffer[..], options, number, base, at, next);
      } else {
        NumsBefore(values, texts, buffer[..], options, number, base, at);
        var v := ValueOf(number, start, next);
        ValueSet(values, texts, buffer[..], options, number, base, at, next, v);
        ValueApplied(options, number, buffer[start..next]);
        values := values[number := v];
      }
    }

    /** The new value of a field that is not a text. */
    method ValueOf(number: nat, start: nat, next: nat) returns (v: Value)
      requires start <= next <= buffer.Length && SetsValue(number)
      ensures v == NewValue(NumsIn(values, number), number, buffer[start..next])
    {
      match KindOf(number)
      case KOpaque => v := Opaque(Prefix(buffer[start..next], ETAG_LENGTH));
      case KPresent => v := Present;
      case KNum(limit) =>
        var n := ParseInt(start, next);
        v := Num(if limit == 0 then 0 else n % limit);
      case KNums =>
        var ns := NumsIn(values, number);
        var n := ParseInt(start, next);
        v := Nums(if |ns| < MAX_ACCEPT then ns + [n % 0x1_0000] else ns);
      case _ =>
        var n := ParseInt(start, next);
        v := BlockOf(n);
    }

    /** The text of an option in the buffer: pointed to, or merged with the text before it. */
    method PutText(number: nat, start: nat, next: nat, ghost base: nat, ghost at: nat)
      requires IsText(number) && base <= at < start <= next <= buffer.Length
      requires number in texts ==> base <= texts[number].at && texts[number].at + texts[number].length <= at
      modifies `texts, buffer
      ensures number in texts && texts == old(texts)[number := texts[number]]
      ensures base <= texts[number].at && texts[number].at + texts[number].length <= next
      ensures TextAt(buffer[..], texts[number])
              == NewText(old(if number in texts then TextAt(buffer[..], texts[number]) else []), number,
                         old(buffer[start..next]))
      ensures buffer[..base] == old(buffer[..base]) && buffer[next..] == old(buffer[next..])
    {
      if KindOf(number).KText? {
        texts := texts[number := Span(start, next - start)];
      } else {
        MergeText(number, start, next, KindOf(number).separator, base, at);
      }
    }

    /** The switch for a text. */
    method ApplyText(number: nat, start: nat, next: nat, ghost options: Options, ghost base: nat, ghost at: nat)
      requires IsText(number) && at < start <= next <= buffer.Length
      requires FieldsRead(values, texts, buffer[..], options, number, base, at)
      modifies `texts, buffer
      ensures var a := Apply(options, number, old(buffer[start..next]));
              a.Fine? && FieldsRead(values, texts, buffer[..], a.options, number, base, next)
      ensures buffer[next..] == old(buffer[next..])
    {
      ghost var before, spans := buffer[..], texts;
      TextBefore(values, texts, before, options, number, base, at);
      TextApplied(options, number, buffer[start..next]);
      PutText(number, start, next, base, at);
      ghost var after := buffer[..];
      assert after[..base] == before[..base];
      TextSet(values, spans, before, after, options, number, base, at, next, texts[number]);
    }

    /** The state of the loop over the options: the fields show what has been read, and the bytes
        from `at` on are as they came. */
    ghost predicate Reading(original: seq<byte>, at: nat, current: nat, base: nat, options: Options)
      reads this, buffer
    {
      |original| == buffer.Length && HEADER_LENGTH <= at <= buffer.Length && buffer[at..] == original[at..]
      && FieldsRead(values, texts, buffer[..], options, current, base, at)
    }

    /** The parse of one option. */
    method ParseOne(at: nat, current: nat, ghost original: seq<byte>, ghost base: nat, ghost options: Options)
      returns (refused: nat, number: nat, next: nat, ghost newBase: nat)
      requires Reading(original, at, current, base, options) && current <= 240 && ReadOne(original, at, current).Read?
      modifies `values, `texts, buffer
      ensures var r := ReadOne(original, at, current);
              var a := Apply(options, r.number, original[r.start..r.next]);
              number == r.number && next == r.next
              && if a.Refused? then refused == a.code
                  else refused == 0 && Reading(original, next, number, newBase, a.options)
    {
      ReadLocal(original, buffer[..], at, current);
      var start;
      number, start, next := ReadOption(at, current);
      TailEqual(original, buffer[..], at, start, next);
      ReadAscends(original, at, current);
      PlaceNext(values, texts, buffer[..], options, current, base, at, number);
      newBase := if number == current then base else at;
      if IsText(number) {
        ApplyText(number, start, next, options, newBase, at);
        refused := 0;
      } else {
        refused := ApplyValue(number, start, next, options, newBase, at);
      }
    }

    /** One round, and what is left to read after it. */
    method Round(at: nat, current: nat, ghost left: nat, ghost original: seq<byte>, ghost base: nat,
                 ghost options: Options,
                 ghost reader: Reader, ghost goal: Outcome)
      returns (refused: nat, number: nat, next: nat, ghost newBase: nat, ghost newOptions: Options)
      requires Reading(original, at, current, base, options) && current <= 240 && GoesBySteps(original, reader)
      requires reader(at, current, left, options) == goal && left > 0 && (goal.complete || goal.a.Refused?)
      modifies `values, `texts, buffer
      ensures if refused > 0 then goal.a == Refused(refused)
              else Reading(original, next, number, newBase, newOptions) && number <= current + 15
                   && reader(next, number, left - 1, newOptions) == goal
    {
      ReadStep(original, reader, at, current, left, options, goal);
      ghost var r := ReadOne(original, at, current);
      ghost var step := Apply(options, r.number, original[r.start..r.next]);
      RefusalCode(options, r.number, original[r.start..r.next]);
      refused, number, next, newBase := ParseOne(at, current, original, base, options);
      newOptions := if step.Fine? then step.options else options;
    }

    /** The loop over the options, of which `goal` is the outcome. */
    method ParseLoop(count: nat, ghost original: seq<byte>, ghost reader: Reader, ghost goal: Outcome)
      returns (refused: nat, at: nat, ghost base: nat, ghost last: nat, ghost options: Options)
      requires count <= 15 && Reading(original, HEADER_LENGTH, 0, HEADER_LENGTH, map[]) && GoesBySteps(original, reader)
      requires reader(HEADER_LENGTH, 0, count, map[]) == goal && (goal.complete || goal.a.Refused?)
      modifies `values, `texts, buffer
      ensures if refused > 0 then goal.a == Refused(refused)
              else goal.a == Fine(options) && at == goal.end && Reading(original, at, last, base, options)
    {
      var current: nat, index: nat := 0, 0;
      ghost var left := count;
      refused, at, base, last, options := 0, HEADER_LENGTH, HEADER_LENGTH, 0, map[];
      while index < count
        invariant refused == 0 && index + left == count && current + 15 * left <= 15 * 15
        invariant Reading(original, at, current, base, options)
        invariant reader(at, current, left, options) == goal
      {
        refused, current, at, base, options := Round(at, current, left, original, base, options, reader, goal);
        if refused > 0 {
          return;
        }
        left := left - 1;
        index := index + 1;
      }
      last := current;
    }

    /** The options of a message: what the loop leaves are the fields that the specification yields,
        and no byte from the end of the options on has changed. */
    method ParseOptions(count: nat) returns (refused: nat, at: nat)
      requires count <= 15 && HEADER_LENGTH <= buffer.Length && values == map[] && texts == map[]
      requires var o := OutcomeOf(buffer[..], HEADER_LENGTH, 0, count, map[]); o.complete || o.a.Refused?
      modifies `values, `texts, buffer
      ensures var o := OutcomeOf(old(buffer[..]), HEADER_LENGTH, 0, count, map[]);
              if o.a.Refused? then refused == o.a.code > 0
              else refused == 0 && at == o.end <= buffer.Length && Shows(values, texts, buffer[..], o.a.options)
                   && buffer[at..] == old(buffer[at..])
                   && forall n :: n in texts ==> texts[n].at + texts[n].length <= at
    {
      ghost var original := buffer[..];
      ghost var reader :=
          (at: nat, current: nat, left: nat, options: Options) => OutcomeOf(original, at, current, left, options);
      ghost var goal := OutcomeOf(original, HEADER_LENGTH, 0, count, map[]);
      OutcomeGoesBySteps(original);
      ghost var base, last, options;
      refused, at, base, last, options := ParseLoop(count, original, reader, goal);
      if refused == 0 {
        FieldsReadShow(values, texts, buffer[..], options, last, base, at);
      }
    }

    /** coap_parse_message: 0 or an error code. */
    method ParseMessage(dataLength: nat) returns (status: nat)
      requires values == map[] && texts == map[]
      requires var m := Parse(buffer[..], dataLength);
               !m.Beyond? && (m.Message? ==> m.payloadAt + |m.packet.payload| < buffer.Length)
      modifies this, buffer
      ensures Parsed(Parse(old(buffer[..]), dataLength), status)
    {
      ghost var original := buffer[..];
      kind, code, mid := buffer[0] / 16 % 4, buffer[1], buffer[2] as int * 256 + buffer[3] as int;
      if buffer[0] / 64 != 1 {
        return BAD_REQUEST;
      }
      var count := buffer[0] % 16;
      status, payloadAt := ParseOptions(count);
      if status == 0 {
        ghost var scan := ScanOptions(original, HEADER_LENGTH, 0, count);
        Terminate(dataLength, original, scan, ApplyAll(map[], scan.items));
      }
    }

    /** The packet after coap_parse_message. */
    ghost predicate Parsed(m: Message, status: nat)
      reads this, buffer
    {
      match m
      case Rejected(c) => status == c > 0
      case Message(p, at) =>
        status == 0 && kind == p.kind && code == p.code && mid == p.mid
        && payloadAt == at && payloadLength == |p.payload| && at + |p.payload| <= buffer.Length
        && buffer[at..at + |p.payload|] == p.payload
        && Shows(values, texts, buffer[..], p.options)
      case Beyond => false
    }

    /** The length of the payload, and the zero behind it. */
    method Terminate(dataLength: nat, ghost original: seq<byte>, ghost scan: Scan, ghost a: Applied)
      requires |original| == buffer.Length >= HEADER_LENGTH && a.Fine? && payloadAt == scan.next <= buffer.Length
      requires kind == original[0] / 16 % 4 && code == original[1]
               && mid == original[2] as int * 256 + original[3] as int
      requires var m := Finish(original, dataLength, scan, a);
               m.Message? && m.payloadAt + |m.packet.payload| < buffer.Length
      requires Shows(values, texts, buffer[..], a.options) && buffer[payloadAt..] == original[payloadAt..]
      requires forall n :: n in texts ==> texts[n].at + texts[n].length <= payloadAt
      modifies `payloadLength, buffer
      ensures Parsed(Finish(original, dataLength, scan, a), 0)
    {
      payloadLength := PayloadLength(dataLength, payloadAt);
      ghost var before := buffer[..];
      var end := payloadAt + payloadLength;
      TailEqual(before, original, payloadAt, payloadAt, end);
      buffer[end] := 0;
      ghost var after := buffer[..];
      assert after[..end] == before[..end];
      assert after[payloadAt..end] == after[..end][payloadAt..end] == before[..end][payloadAt..end]
             == before[payloadAt..end];
      forall n | n in texts ensures ShowsSpan(a.options, n, texts[n], after) {
        assert ShowsSpan(a.options, n, texts[n], before);
        SpanKept(a.options, a.options, n, texts[n], before, after, end);
      }
    }
  }
}
