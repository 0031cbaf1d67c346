/** What the parser makes of a tree that was printed. */
module JsonRoundTrip {
  import opened JsonTree
  import P = JsonParse

  // ----- What can be read back -----

  /** The scan of the printed string ends at its closing quotation mark: a backslash, which is
      printed as it is, is followed by a character other than a quotation mark. */
  predicate Scannable(s: string) {
    if s == "" then true
    else if s[0] == '\\' then |s| >= 2 && s[1] != '"' && Scannable(s[2..])
    else Scannable(s[1..])
  }

  /** The type of the last string, name or number in a value when it has been read; none if the
      value ends with an empty container. */
  function LastType(v: Value): char {
    match v
    case String(_) => P.STRING
    case Int(_) => P.NUMBER
    case Object(pairs) =>
      if pairs == [] then P.NONE
      else
        assert pairs[|pairs| - 1] < v;
        LastType(pairs[|pairs| - 1].value)
    case Array(values) => if values == [] then P.NONE else LastType(values[|values| - 1])
  }

  /** The children from `i` on can be read back: no string has a backslash before a quotation mark or
      at its end, no integer is negative, and the value of a pair does not end with an empty
      container. */
  predicate Readable(v: Value, i: nat)
    decreases v, Count(v) - i
  {
    match v
    case String(text) => Scannable(text) && '\0' !in text
    case Int(n) => n >= 0
    case Array(values) => i >= |values| || (Readable(values[i], 0) && Readable(v, i + 1))
    case Object(pairs) => i >= |pairs| || (ReadablePair(pairs[i]) && Readable(Child(v, i), 0) && Readable(v, i + 1))
  }

  /** The name and the end of the value of a pair can be read. */
  predicate ReadablePair(p: Pair) {
    ReadableName(p.name) && LastType(p.value) != P.NONE
  }

  predicate ReadableName(s: string) {
    Scannable(s) && '\0' !in s
  }

  /** The stack entries that reading the children from `i` on takes: two for an object and one for
      an array, at each level. */
  function Frames(v: Value, i: nat): nat
    decreases v, Count(v) - i
  {
    if !IsContainer(v) then 0
    else if i >= Count(v) then 1
    else
      var here := (if v.Object? then 2 else 1) + Frames(Child(v, i), 0);
      if here > Frames(v, i + 1) then here else Frames(v, i + 1)
  }

  // ----- The tokens of a tree -----

  function Symbol(c: char): P.Token {
    P.Token(c, "")
  }

  /** The tokens before child `i`. */
  function TokensBefore(v: Value, i: nat): seq<P.Token>
    requires i < Count(v)
  {
    [Symbol(if i > 0 then ',' else if v.Object? then '{' else '[')]
    + if v.Object? then [P.Token(P.PAIR_NAME, Escape(v.pairs[i].name)), Symbol(':')] else []
  }

  function Brackets(v: Value, i: nat): seq<P.Token> {
    (if i == 0 then [Symbol(if v.Object? then '{' else '[')] else []) + [Symbol(if v.Object? then '}' else ']')]
  }

  /** The tokens of a tree in the order in which it is read, from child `i` on. */
  function TokensFrom(v: Value, i: nat): seq<P.Token>
    decreases v, Count(v) - i
  {
    match v
    case String(text) => [P.Token(P.STRING, Escape(text))]
    case Int(n) => [P.Token(P.NUMBER, Integer(n))]
    case _ =>
      if i < Count(v) then TokensBefore(v, i) + TokensFrom(Child(v, i), 0) + TokensFrom(v, i + 1) else Brackets(v, i)
  }

  // ----- Runs of the parser -----

  // The lemmas below speak of any function that takes the parser's steps.
  type Stepper = P.State -> (P.Token, P.State)

  ghost predicate TakesSteps(json: string, next: Stepper) {
    forall st: P.State {:trigger next(st), P.Next(json, st)} :: next(st) == P.Next(json, st)
  }

  function Iterate(next: Stepper, st: P.State, n: nat): (seq<P.Token>, P.State)
    decreases n
  {
    if n == 0 then ([], st)
    else
      var (token, after) := next(st);
      var (tokens, last) := Iterate(next, after, n - 1);
      ([token] + tokens, last)
  }

  /** From `st` the parser returns the tokens and comes to `last`. */
  ghost predicate Runs(next: Stepper, st: P.State, tokens: seq<P.Token>, last: P.State) {
    Iterate(next, st, |tokens|) == (tokens, last)
  }

  lemma RunsOne(json: string, next: Stepper, st: P.State, token: P.Token, last: P.State)
    requires TakesSteps(json, next) && P.Next(json, st) == (token, last)
    ensures Runs(next, st, [token], last)
  {
    assert next(st) == (token, last);
    assert Iterate(next, last, 0) == ([], last);
    assert [token] + [] == [token];
  }

  lemma {:induction false} RunsBoth(next: Stepper, a: P.State, first: seq<P.Token>, b: P.State, second: seq<P.Token>,
                                    c: P.State)
    requires Runs(next, a, first, b) && Runs(next, b, second, c)
    ensures Runs(next, a, first + second, c)
    decreases |first|
  {
    if first == [] {
      assert first + second == second;
    } else {
      var after := next(a).1;
      IterateHead(next, a, first, b);
      RunsBoth(next, after, first[1..], b, second, c);
      assert first + second == [first[0]] + (first[1..] + second);
    }
  }

  lemma IterateHead(next: Stepper, a: P.State, tokens: seq<P.Token>, b: P.State)
    requires Runs(next, a, tokens, b) && tokens != []
    ensures next(a).0 == tokens[0] && Runs(next, next(a).1, tokens[1..], b)
  {
  }

  // ----- Scanning -----

  /** `part` is what the text holds at `pos`. */
  predicate At(json: string, pos: nat, part: string) {
    pos + |part| <= |json| && json[pos..pos + |part|] == part
  }

  lemma AtBoth(json: string, pos: nat, first: string, second: string)
    requires At(json, pos, first + second)
    ensures At(json, pos, first) && At(json, pos + |first|, second)
  {
    assert json[pos..pos + |first + second|][..|first|] == first;
    assert json[pos..pos + |first + second|][|first|..] == second;
  }

  lemma AtIndex(json: string, pos: nat, part: string, k: nat)
    requires At(json, pos, part) && k < |part|
    ensures json[pos + k] == part[k]
  {
    assert json[pos..pos + |part|][k] == part[k];
  }

  lemma AtChar(json: string, pos: nat, part: string)
    requires At(json, pos, part) && part != ""
    ensures json[pos] == part[0] && At(json, pos + 1, part[1..])
  {
    assert json[pos] == json[pos..pos + |part|][0];
    assert json[pos + 1..pos + |part|] == json[pos..pos + |part|][1..];
  }

  /** The scan of a printed string ends at its closing quotation mark exactly if the string is
      scannable. */
  lemma {:induction false} StringScan(json: string, pos: nat, s: string)
    requires At(json, pos, Escape(s) + "\"") && '\0' !in s
    ensures P.StringEnd(json, pos) == pos + |Escape(s)| + 1 <==> Scannable(s)
    decreases |s|
  {
    var text := Escape(s) + "\"";
    AtChar(json, pos, text);
    if s != "" {
      assert '\0' !in s[1..] by {
        assert forall c :: c in s[1..] ==> c in s;
      }
      var rest := Escape(s[1..]) + "\"";
      if s[0] == '"' {
        assert text == "\\\"" + rest;
        AtBoth(json, pos, "\\\"", rest);
        StringScan(json, pos + 2, s[1..]);
      } else if s[0] != '\\' {
        assert text == [s[0]] + rest;
        StringScan(json, pos + 1, s[1..]);
      } else {
        assert text == [s[0]] + rest;
        AfterBackslash(json, pos, s, rest);
        if |s| >= 2 && s[1] != '"' {
          assert '\0' !in s[2..] by {
            assert forall c :: c in s[2..] ==> c in s;
          }
          StringScan(json, pos + 2, s[2..]);
        }
      }
    }
  }

  lemma AfterBackslash(json: string, pos: nat, s: string, rest: string)
    requires |s| >= 1 && s[0] == '\\' && rest == Escape(s[1..]) + "\"" && At(json, pos, "\\" + rest)
    ensures P.StringEnd(json, pos) == P.StringEnd(json, pos + 2)
    ensures |s| == 1 ==> P.StringEnd(json, pos) > pos + 2
    ensures |s| >= 2 && s[1] == '"' ==> P.StringEnd(json, pos) == pos + 3 < pos + |Escape(s)| + 1
    ensures |s| >= 2 && s[1] != '"' ==> At(json, pos + 2, Escape(s[2..]) + "\"") && |Escape(s)| == 2 + |Escape(s[2..])|
  {
    AtChar(json, pos, "\\" + rest);
    AtBoth(json, pos, "\\", rest);
    if |s| >= 2 {
      assert s[1..][1..] == s[2..];
      var tail := Escape(s[2..]) + "\"";
      assert rest == EscapeChar(s[1]) + tail;
      AtBoth(json, pos + 1, EscapeChar(s[1]), tail);
      if s[1] == '"' {
        AtChar(json, pos + 1, "\\\"");
        AtChar(json, pos + 2, "\"");
      }
    }
  }

  // ----- Single tokens -----

  predicate IsSpace(c: char) {
    c == ' ' || c == '\n'
  }

  /** The next token begins at `q`. */
  predicate Ahead(json: string, pos: nat, q: nat) {
    q < |json| && P.Skip(json, pos) == q
  }

  lemma AheadHere(json: string, q: nat)
    requires q < |json| && !IsSpace(json[q])
    ensures Ahead(json, q, q)
  {
  }

  lemma AheadLine(json: string, q: nat)
    requires q + 1 < |json| && json[q] == '\n' && !IsSpace(json[q + 1])
    ensures Ahead(json, q, q + 1)
  {
  }

  lemma AheadTwoLines(json: string, q: nat)
    requires q + 2 < |json| && json[q] == json[q + 1] == '\n' && !IsSpace(json[q + 2])
    ensures Ahead(json, q, q + 2)
  {
    AheadLine(json, q + 1);
  }

  lemma NextIs(json: string, st: P.State, q: nat)
    requires Ahead(json, st.pos, q)
    ensures P.Next(json, st) == P.Consume(json, st.(pos := q + 1), json[q])
  {
  }

  /** A state of the parser without errors. */
  function At0(pos: nat, stack: seq<char>, vtype: char): P.State {
    P.State(pos, stack, vtype, 0, false)
  }

  lemma OpenToken(json: string, next: Stepper, pos: nat, stack: seq<char>, vtype: char, q: nat)
    requires TakesSteps(json, next) && Ahead(json, pos, q) && |stack| < P.MAX_DEPTH
    requires json[q] == '{' || json[q] == ':'
             || (json[q] == '[' && stack != [] && stack[|stack| - 1] in ['{', '[', ':'])
    ensures Runs(next, At0(pos, stack, vtype), [Symbol(json[q])], At0(q + 1, stack + [json[q]], P.NONE))
  {
    NextIs(json, At0(pos, stack, vtype), q);
    RunsOne(json, next, At0(pos, stack, vtype), Symbol(json[q]), At0(q + 1, stack + [json[q]], P.NONE));
  }

  lemma StringToken(json: string, next: Stepper, pos: nat, stack: seq<char>, vtype: char, q: nat, s: string, kind: char)
    requires TakesSteps(json, next) && Ahead(json, pos, q) && stack != [] && stack[|stack| - 1] in ['{', '[', ':']
    requires kind == if stack[|stack| - 1] == '{' then P.PAIR_NAME else P.STRING
    requires At(json, q, Quoted(s)) && Scannable(s) && '\0' !in s
    ensures Runs(next, At0(pos, stack, vtype), [P.Token(kind, Escape(s))], At0(q + |Quoted(s)|, stack, kind))
  {
    var st, end := At0(pos, stack, vtype), q + |Quoted(s)|;
    QuotedAt(json, q, s);
    StringScan(json, q + 1, s);
    NextIs(json, st, q);
    assert P.TakeString(json, At0(q + 1, stack, vtype), kind) == (P.Token(kind, Escape(s)), At0(end, stack, kind));
    RunsOne(json, next, st, P.Token(kind, Escape(s)), At0(end, stack, kind));
  }

  lemma QuotedAt(json: string, q: nat, s: string)
    requires At(json, q, Quoted(s))
    ensures json[q] == '"' && At(json, q + 1, Escape(s) + "\"") && json[q + 1..q + 1 + |Escape(s)|] == Escape(s)
  {
    assert Quoted(s) == "\"" + (Escape(s) + "\"");
    AtBoth(json, q, "\"", Escape(s) + "\"");
    AtChar(json, q, Quoted(s));
    AtBoth(json, q + 1, Escape(s), "\"");
  }

  lemma {:induction false} DigitsAreDigits(n: nat)
    ensures Digits(n) != "" && forall k :: 0 <= k < |Digits(n)| ==> P.IsDigit(Digits(n)[k])
  {
    if n >= 10 {
      DigitsAreDigits(n / 10);
    }
  }

  /** The number ends with its digits. */
  predicate Terminated(json: string, pos: nat) {
    pos >= |json| || !(P.IsDigit(json[pos]) || json[pos] == '.')
  }

  lemma {:induction false} NumberScan(json: string, pos: nat, end: nat)
    requires pos <= end <= |json| && Terminated(json, end) && forall k :: pos <= k < end ==> P.IsDigit(json[k])
    ensures P.NumberEnd(json, pos) == end
    decreases end - pos
  {
    if pos < end {
      NumberScan(json, pos + 1, end);
    }
  }

  lemma NumberToken(json: string, next: Stepper, pos: nat, stack: seq<char>, vtype: char, q: nat, n: nat)
    requires TakesSteps(json, next) && Ahead(json, pos, q) && stack != [] && stack[|stack| - 1] in ['[', ':']
    requires At(json, q, Digits(n)) && Terminated(json, q + |Digits(n)|)
    ensures Runs(next, At0(pos, stack, vtype), [P.Token(P.NUMBER, Digits(n))], At0(q + |Digits(n)|, stack, P.NUMBER))
  {
    var st, end := At0(pos, stack, vtype), q + |Digits(n)|;
    DigitsAreDigits(n);
    forall k | q <= k < end ensures P.IsDigit(json[k]) {
      assert json[k] == json[q..end][k - q];
    }
    NumberScan(json, q + 1, end);
    NextIs(json, st, q);
    RunsOne(json, next, st, P.Token(P.NUMBER, Digits(n)), At0(end, stack, P.NUMBER));
  }

  /** A comma or the end of a container; in an object after a value. */
  lemma CommaToken(json: string, next: Stepper, q: nat, stack: seq<char>, vtype: char, isObject: bool)
    requires TakesSteps(json, next) && q < |json| && json[q] == ',' && (isObject ==> vtype != P.NONE)
    ensures Runs(next, At0(q, stack + Inner(isObject), vtype), [Symbol(',')],
                 At0(q + 1, stack + Outer(isObject), vtype))
  {
    var st := At0(q, stack + Inner(isObject), vtype);
    AheadHere(json, q);
    NextIs(json, st, q);
    if isObject {
      assert (stack + ['{', ':'])[..|stack| + 1] == stack + ['{'];
    }
    RunsOne(json, next, st, Symbol(','), At0(q + 1, stack + Outer(isObject), vtype));
  }

  /** The stack entries of a container, within a pair or between its children. */
  function Inner(isObject: bool): seq<char> {
    if isObject then ['{', ':'] else ['[']
  }

  function Outer(isObject: bool): seq<char> {
    if isObject then ['{'] else ['[']
  }

  lemma EndToken(json: string, next: Stepper, pos: nat, q: nat, stack: seq<char>, vtype: char, isObject: bool,
                 inside: seq<char>)
    requires TakesSteps(json, next) && Ahead(json, pos, q) && json[q] == if isObject then '}' else ']'
    requires inside == stack + Outer(isObject) || (isObject && inside == stack + Inner(true) && vtype != P.NONE)
    ensures Runs(next, At0(pos, inside, vtype), [Symbol(json[q])], At0(q + 1, stack, vtype))
  {
    var st := At0(pos, inside, vtype);
    NextIs(json, st, q);
    assert (stack + Outer(isObject))[..|stack|] == stack;
    if isObject && inside == stack + Inner(true) {
      assert inside[..|inside| - 1] == stack + ['{'];
    }
    RunsOne(json, next, st, Symbol(json[q]), At0(q + 1, stack, vtype));
  }

  // ----- Values -----

  /** What a value begins with. */
  lemma BeginsWith(v: Value)
    ensures From(v, 0) != "" && !IsSpace(From(v, 0)[0])
  {
    match v
    case String(_) =>
    case Int(n) => DigitsAreDigits(Magnitude(n));
    case Array(_) => ContainerBegins(v, 0);
    case Object(_) => ContainerBegins(v, 0);
  }

  lemma ContainerBegins(v: Value, i: nat)
    requires IsContainer(v)
    ensures From(v, i) != "" && From(v, i)[0] == if i > 0 then if i < Count(v) then ',' else '\n'
            else if v.Object? then '{' else '['
  {
    if i < Count(v) {
      FromChild(v, i);
      assert From(v, i)[0] == Before(v, i)[0];
    }
  }

  /** The stack when the parser comes to child `i`. */
  function StackAt(v: Value, i: nat, stack: seq<char>): seq<char> {
    if i == 0 then stack else stack + Inner(v.Object?)
  }

  /** A value may stand here: an object anywhere, others in an array or a pair. */
  predicate Allowed(v: Value, stack: seq<char>) {
    v.Object? || (stack != [] && stack[|stack| - 1] in ['[', ':'])
  }

  /** The parser has come to child `i` of a value, of which the rest is at `q`. */
  ghost predicate Comes(json: string, v: Value, i: nat, pos: nat, q: nat, stack: seq<char>, vtype: char) {
    && i <= Count(v) && At(json, q, From(v, i)) && |stack| + Frames(v, i) <= P.MAX_DEPTH
    && if i == 0 then Ahead(json, pos, q) && Allowed(v, stack)
       else pos == q && vtype == LastType(Child(v, i - 1)) && (v.Object? ==> vtype != P.NONE)
  }

  lemma LeafParses(json: string, next: Stepper, v: Value, pos: nat, q: nat, stack: seq<char>, vtype: char)
    requires TakesSteps(json, next) && !IsContainer(v) && Readable(v, 0) && Comes(json, v, 0, pos, q, stack, vtype)
    requires Terminated(json, q + |From(v, 0)|)
    ensures Runs(next, At0(pos, stack, vtype), TokensFrom(v, 0), At0(q + |From(v, 0)|, stack, LastType(v)))
  {
    match v
    case String(text) => StringToken(json, next, pos, stack, vtype, q, text, P.STRING);
    case Int(n) =>
      assert Integer(n) == Digits(n);
      NumberToken(json, next, pos, stack, vtype, q, n);
  }

  lemma LastChild(v: Value)
    requires IsContainer(v)
    ensures LastType(v) == if Count(v) == 0 then P.NONE else LastType(Child(v, Count(v) - 1))
  {
  }

  function Open(isObject: bool): char {
    if isObject then '{' else '['
  }

  function Close(isObject: bool): char {
    if isObject then '}' else ']'
  }

  /** An empty container. */
  lemma EmptyParses(json: string, next: Stepper, isObject: bool, pos: nat, q: nat, stack: seq<char>, vtype: char)
    requires TakesSteps(json, next) && At(json, q, [Open(isObject), '\n', '\n', Close(isObject)])
    requires Ahead(json, pos, q) && |stack| < P.MAX_DEPTH
             && (isObject || (stack != [] && stack[|stack| - 1] in ['[', ':']))
    ensures Runs(next, At0(pos, stack, vtype), [Symbol(Open(isObject)), Symbol(Close(isObject))],
                 At0(q + 4, stack, P.NONE))
  {
    var open, close := Open(isObject), Close(isObject);
    AtIndex(json, q, [open, '\n', '\n', close], 0);
    AtIndex(json, q, [open, '\n', '\n', close], 1);
    AtIndex(json, q, [open, '\n', '\n', close], 2);
    AtIndex(json, q, [open, '\n', '\n', close], 3);
    OpenToken(json, next, pos, stack, vtype, q);
    assert stack + [open] == stack + Outer(isObject);
    AheadTwoLines(json, q + 1);
    EndToken(json, next, q + 1, q + 3, stack, P.NONE, isObject, stack + [open]);
    RunsBoth(next, At0(pos, stack, vtype), [Symbol(open)], At0(q + 1, stack + [open], P.NONE), [Symbol(close)],
             At0(q + 4, stack, P.NONE));
    assert [Symbol(open)] + [Symbol(close)] == [Symbol(open), Symbol(close)];
  }

  /** The end of a container with children. */
  lemma EndParses(json: string, next: Stepper, isObject: bool, q: nat, stack: seq<char>, vtype: char)
    requires TakesSteps(json, next) && At(json, q, ['\n', Close(isObject)]) && (isObject ==> vtype != P.NONE)
    ensures Runs(next, At0(q, stack + Inner(isObject), vtype), [Symbol(Close(isObject))], At0(q + 2, stack, vtype))
  {
    AtIndex(json, q, ['\n', Close(isObject)], 0);
    AtIndex(json, q, ['\n', Close(isObject)], 1);
    AheadLine(json, q);
    EndToken(json, next, q, q + 1, stack, vtype, isObject, stack + Inner(isObject));
  }

  /** The end of a container is read back. */
  lemma ClosingParses(json: string, next: Stepper, v: Value, pos: nat, q: nat, stack: seq<char>, vtype: char)
    requires TakesSteps(json, next) && IsContainer(v) && Comes(json, v, Count(v), pos, q, stack, vtype)
    ensures Runs(next, At0(pos, StackAt(v, Count(v), stack), vtype), TokensFrom(v, Count(v)),
                 At0(q + |From(v, Count(v))|, stack, LastType(v)))
  {
    LastChild(v);
    if Count(v) == 0 {
      EmptyText(v);
      EmptyParses(json, next, v.Object?, pos, q, stack, vtype);
    } else {
      assert From(v, Count(v)) == ['\n', Close(v.Object?)];
      EndParses(json, next, v.Object?, q, stack, vtype);
      assert TokensFrom(v, Count(v)) == [Symbol(Close(v.Object?))];
    }
  }

  lemma EmptyText(v: Value)
    requires IsContainer(v) && Count(v) == 0
    ensures From(v, 0) == [Open(v.Object?), '\n', '\n', Close(v.Object?)]
    ensures TokensFrom(v, 0) == [Symbol(Open(v.Object?)), Symbol(Close(v.Object?))]
  {
  }

  /** The bracket or comma before a child. */
  lemma SeparatorParses(json: string, next: Stepper, isObject: bool, first: bool, pos: nat, q: nat, stack: seq<char>,
                        vtype: char)
    requires TakesSteps(json, next) && q < |json| && json[q] == if first then Open(isObject) else ','
    requires first ==>
               Ahead(json, pos, q) && |stack| < P.MAX_DEPTH
               && (isObject || (stack != [] && stack[|stack| - 1] in ['[', ':']))
    requires !first ==> pos == q && (isObject ==> vtype != P.NONE)
    ensures Runs(next, At0(pos, if first then stack else stack + Inner(isObject), vtype), [Symbol(json[q])],
                 At0(q + 1, stack + Outer(isObject), if first then P.NONE else vtype))
  {
    if first {
      OpenToken(json, next, pos, stack, vtype, q);
      assert stack + [json[q]] == stack + Outer(isObject);
    } else {
      CommaToken(json, next, q, stack, vtype, isObject);
    }
  }

  /** A line feed and what follows it. */
  lemma LineBefore(json: string, q: nat, separator: char, rest: string)
    requires At(json, q, [separator, '\n'] + rest) && rest != "" && !IsSpace(rest[0])
    ensures At(json, q + 2, rest) && Ahead(json, q + 1, q + 2)
  {
    AtBoth(json, q, [separator, '\n'], rest);
    AtIndex(json, q, [separator, '\n'], 1);
    AtIndex(json, q + 2, rest, 0);
    AheadLine(json, q + 1);
  }

  /** What stands before a child in an array, up to the child. */
  lemma ArrayBefore(json: string, v: Value, i: nat, q: nat, child: string, rest: string)
    requires v.Array? && i < Count(v) && At(json, q, From(v, i))
    requires child == From(Child(v, i), 0) && rest == From(v, i + 1)
    ensures |Before(v, i)| == 2 && At(json, q + 2, child + rest) && Ahead(json, q + 1, q + 2)
  {
    FromChild(v, i);
    BeginsWith(Child(v, i));
    var separator := if i == 0 then '[' else ',';
    assert Before(v, i) == [separator, '\n'];
    AssociateThree(Before(v, i), child, rest);
    LineBefore(json, q, separator, child + rest);
  }

  /** A name, its colon, and what follows. */
  lemma NameLayout(json: string, q: nat, separator: char, quoted: string, rest: string)
    requires At(json, q, [separator, '\n'] + (quoted + (":" + rest))) && quoted != "" && !IsSpace(quoted[0])
             && rest != "" && !IsSpace(rest[0])
    ensures Ahead(json, q + 1, q + 2) && At(json, q + 2, quoted)
    ensures var colon := q + 2 + |quoted|;
            Ahead(json, colon, colon) && json[colon] == ':' && At(json, colon + 1, rest)
                && Ahead(json, colon + 1, colon + 1)
  {
    LineBefore(json, q, separator, quoted + (":" + rest));
    AtBoth(json, q + 2, quoted, ":" + rest);
    var colon := q + 2 + |quoted|;
    AtBoth(json, colon, ":", rest);
    AtIndex(json, colon, ":", 0);
    AtIndex(json, colon + 1, rest, 0);
    AheadHere(json, colon);
    AheadHere(json, colon + 1);
  }

  lemma PairText(v: Value, i: nat, child: string, rest: string)
    requires v.Object? && i < Count(v) && child == From(Child(v, i), 0) && rest == From(v, i + 1)
    ensures var separator := if i == 0 then '{' else ',';
            From(v, i) == [separator, '\n'] + (Quoted(v.pairs[i].name) + (":" + (child + rest)))
            && |Before(v, i)| == 2 + |Quoted(v.pairs[i].name)| + 1
  {
    FromChild(v, i);
    var separator := if i == 0 then '{' else ',';
    var quoted := Quoted(v.pairs[i].name);
    assert Before(v, i) == [separator, '\n'] + (quoted + ":");
    PairAssociate([separator, '\n'], quoted, child, rest);
  }

  lemma PairAssociate(head: string, quoted: string, child: string, rest: string)
    ensures (head + (quoted + ":")) + child + rest == head + (quoted + (":" + (child + rest)))
  {
  }

  /** The name of a pair and its colon. */
  lemma NameParses(json: string, next: Stepper, q: nat, stack: seq<char>, vtype: char, name: string)
    requires TakesSteps(json, next) && |stack| + 2 <= P.MAX_DEPTH && Scannable(name) && '\0' !in name
    requires Ahead(json, q + 1, q + 2) && At(json, q + 2, Quoted(name))
    requires var colon := q + 2 + |Quoted(name)|; Ahead(json, colon, colon) && json[colon] == ':'
    ensures Runs(next, At0(q + 1, stack + ['{'], vtype), [P.Token(P.PAIR_NAME, Escape(name)), Symbol(':')],
                 At0(q + 2 + |Quoted(name)| + 1, stack + ['{', ':'], P.NONE))
  {
    var colon := q + 2 + |Quoted(name)|;
    var token := P.Token(P.PAIR_NAME, Escape(name));
    StringToken(json, next, q + 1, stack + ['{'], vtype, q + 2, name, P.PAIR_NAME);
    OpenToken(json, next, colon, stack + ['{'], P.PAIR_NAME, colon);
    assert stack + ['{'] + [':'] == stack + ['{', ':'];
    RunsBoth(next, At0(q + 1, stack + ['{'], vtype), [token], At0(colon, stack + ['{'], P.PAIR_NAME),
             [Symbol(':')], At0(colon + 1, stack + ['{', ':'], P.NONE));
    assert [token] + [Symbol(':')] == [token, Symbol(':')];
  }

  /** The position and the type when the parser comes to the value of child `i`. */
  function ChildPos(v: Value, i: nat, q: nat): nat
    requires i < Count(v)
  {
    if v.Object? then q + |Before(v, i)| else q + 1
  }

  function ChildType(v: Value, i: nat, vtype: char): char {
    if v.Object? || i == 0 then P.NONE else vtype
  }

  lemma PairLayout(json: string, v: Value, i: nat, q: nat, child: string, rest: string)
    requires v.Object? && i < Count(v) && At(json, q, From(v, i)) && child == From(Child(v, i), 0)
             && rest == From(v, i + 1)
    ensures var quoted := Quoted(v.pairs[i].name);
            var colon := q + 2 + |quoted|;
            Ahead(json, q + 1, q + 2) && At(json, q + 2, quoted) && Ahead(json, colon, colon) && json[colon] == ':'
            && |Before(v, i)| == 3 + |quoted| && At(json, colon + 1, child + rest) && Ahead(json, colon + 1, colon + 1)
  {
    BeginsWith(Child(v, i));
    PairText(v, i, child, rest);
    NameLayout(json, q, if i == 0 then '{' else ',', Quoted(v.pairs[i].name), child + rest);
  }

  lemma PairBefore(json: string, v: Value, i: nat, q: nat, child: string, rest: string, middle: nat)
    requires v.Object? && i < Count(v) && At(json, q, From(v, i)) && child == From(Child(v, i), 0)
             && rest == From(v, i + 1)
    requires middle == q + |Before(v, i)|
    ensures At(json, middle, child + rest) && Ahead(json, middle, middle)
  {
    PairLayout(json, v, i, q, child, rest);
  }

  /** Where the text before child `i` leads. */
  lemma BeforeLayout(json: string, v: Value, i: nat, q: nat, child: string, rest: string, middle: nat)
    requires IsContainer(v) && i < Count(v) && At(json, q, From(v, i))
    requires child == From(Child(v, i), 0) && rest == From(v, i + 1) && middle == q + |Before(v, i)|
    ensures At(json, middle, child + rest) && Ahead(json, ChildPos(v, i, q), middle)
  {
    if v.Array? {
      ArrayBefore(json, v, i, q, child, rest);
      assert ChildPos(v, i, q) == q + 1;
    } else {
      PairBefore(json, v, i, q, child, rest, middle);
      assert ChildPos(v, i, q) == middle;
    }
  }

  /** What stands before a child in an object is read back. */
  lemma PairParses(json: string, next: Stepper, v: Value, i: nat, pos: nat, q: nat, stack: seq<char>, vtype: char)
    requires TakesSteps(json, next) && v.Object? && i < |v.pairs| && ReadableName(v.pairs[i].name)
             && |stack| + 2 <= P.MAX_DEPTH
    requires q < |json| && json[q] == if i > 0 then ',' else '{'
    requires var quoted := Quoted(v.pairs[i].name);
             var colon := q + 2 + |quoted|;
             Ahead(json, q + 1, q + 2) && At(json, q + 2, quoted) && Ahead(json, colon, colon) && json[colon] == ':'
             && |Before(v, i)| == 3 + |quoted|
    requires if i == 0 then Ahead(json, pos, q) else pos == q && vtype != P.NONE
    ensures Runs(next, At0(pos, StackAt(v, i, stack), vtype), TokensBefore(v, i),
                 At0(q + |Before(v, i)|, stack + Inner(true), P.NONE))
  {
    var name, after := v.pairs[i].name, if i == 0 then P.NONE else vtype;
    var rest := [P.Token(P.PAIR_NAME, Escape(name)), Symbol(':')];
    SeparatorParses(json, next, true, i == 0, pos, q, stack, vtype);
    NameParses(json, next, q, stack, after, name);
    RunsBoth(next, At0(pos, StackAt(v, i, stack), vtype), [Symbol(json[q])], At0(q + 1, stack + ['{'], after),
             rest, At0(q + |Before(v, i)|, stack + ['{', ':'], P.NONE));
    assert TokensBefore(v, i) == [Symbol(json[q])] + rest;
  }

  lemma PairBeforeParses(json: string, next: Stepper, v: Value, i: nat, pos: nat, q: nat, stack: seq<char>, vtype: char)
    requires TakesSteps(json, next) && v.Object? && i < Count(v) && Comes(json, v, i, pos, q, stack, vtype)
    requires ReadableName(v.pairs[i].name) && json[q] == (if i > 0 then ',' else '{') && |stack| + 2 <= P.MAX_DEPTH
    ensures Runs(next, At0(pos, StackAt(v, i, stack), vtype), TokensBefore(v, i),
                 At0(q + |Before(v, i)|, stack + Inner(true), P.NONE))
  {
    PairLayout(json, v, i, q, From(Child(v, i), 0), From(v, i + 1));
    PairParses(json, next, v, i, pos, q, stack, vtype);
  }

  /** What stands before child `i` is read back. */
  lemma BeforeParses(json: string, next: Stepper, v: Value, i: nat, pos: nat, q: nat, stack: seq<char>, vtype: char)
    requires TakesSteps(json, next) && IsContainer(v) && i < Count(v) && Comes(json, v, i, pos, q, stack, vtype)
    requires v.Object? ==> ReadableName(v.pairs[i].name)
    ensures Runs(next, At0(pos, StackAt(v, i, stack), vtype), TokensBefore(v, i),
                 At0(ChildPos(v, i, q), stack + Inner(v.Object?), ChildType(v, i, vtype)))
  {
    ContainerBegins(v, i);
    AtIndex(json, q, From(v, i), 0);
    FramesOf(v, i);
    if v.Object? {
      PairBeforeParses(json, next, v, i, pos, q, stack, vtype);
    } else {
      SeparatorParses(json, next, false, i == 0, pos, q, stack, vtype);
      assert TokensBefore(v, i) == [Symbol(json[q])];
    }
  }

  /** The stack entries for a child and for the children after it. */
  lemma FramesOf(v: Value, i: nat)
    requires IsContainer(v) && i < Count(v)
    ensures Frames(v, i) >= |Inner(v.Object?)| + Frames(Child(v, i), 0) && Frames(v, i) >= Frames(v, i + 1)
  {
  }

  /** A child is followed by a comma or a line feed. */
  lemma ChildEnds(json: string, v: Value, i: nat, pos: nat)
    requires IsContainer(v) && i < Count(v) && At(json, pos, From(v, i + 1))
    ensures Terminated(json, pos)
  {
    ContainerBegins(v, i + 1);
    AtIndex(json, pos, From(v, i + 1), 0);
  }

  /** Where the text of child `i` ends. */
  lemma ChildText(json: string, v: Value, i: nat, q: nat, middle: nat, after: nat)
    requires IsContainer(v) && i < Count(v) && At(json, q, From(v, i))
    requires middle == q + |Before(v, i)| && after == middle + |From(Child(v, i), 0)|
    ensures At(json, middle, From(Child(v, i), 0)) && Ahead(json, ChildPos(v, i, q), middle)
    ensures At(json, after, From(v, i + 1)) && after + |From(v, i + 1)| == q + |From(v, i)| && Terminated(json, after)
  {
    var text, rest := From(Child(v, i), 0), From(v, i + 1);
    BeforeLayout(json, v, i, q, text, rest, middle);
    AtBoth(json, middle, text, rest);
    FromChild(v, i);
    ChildEnds(json, v, i, after);
  }

  /** The parser comes to child `i`. */
  lemma ChildComes(json: string, v: Value, i: nat, pos: nat, q: nat, stack: seq<char>, vtype: char, middle: nat,
                   after: nat)
    requires IsContainer(v) && i < Count(v) && Comes(json, v, i, pos, q, stack, vtype)
    requires middle == q + |Before(v, i)| && after == middle + |From(Child(v, i), 0)|
    ensures Comes(json, Child(v, i), 0, ChildPos(v, i, q), middle, stack + Inner(v.Object?), ChildType(v, i, vtype))
    ensures At(json, after, From(v, i + 1)) && after + |From(v, i + 1)| == q + |From(v, i)| && Terminated(json, after)
  {
    ChildText(json, v, i, q, middle, after);
    FramesOf(v, i);
    assert (stack + Inner(v.Object?))[|stack + Inner(v.Object?)| - 1] in ['[', ':'];
  }

  /** After child `i` it comes to the next one, if the value of a pair has left a type. */
  lemma RestComes(json: string, v: Value, i: nat, stack: seq<char>, after: nat)
    requires IsContainer(v) && i < Count(v) && At(json, after, From(v, i + 1)) && |stack| + Frames(v, i) <= P.MAX_DEPTH
    requires v.Object? ==> LastType(Child(v, i)) != P.NONE
    ensures Comes(json, v, i + 1, after, after, stack, LastType(Child(v, i)))
  {
    FramesOf(v, i);
  }

  lemma RunsThree(next: Stepper, a: P.State, first: seq<P.Token>, b: P.State, second: seq<P.Token>, c: P.State,
                  third: seq<P.Token>, d: P.State)
    requires Runs(next, a, first, b) && Runs(next, b, second, c) && Runs(next, c, third, d)
    ensures Runs(next, a, first + second + third, d)
  {
    RunsBoth(next, a, first, b, second, c);
    RunsBoth(next, a, first + second, c, third, d);
  }

  lemma TokensOf(v: Value, i: nat)
    requires IsContainer(v) && i < Count(v)
    ensures TokensFrom(v, i) == TokensBefore(v, i) + TokensFrom(Child(v, i), 0) + TokensFrom(v, i + 1)
  {
  }

  /** The rest of a value is read back: its tokens come in order, the position moves behind its text,
      and the stack is what it was outside. */
  lemma {:induction false} Parses(json: string, next: Stepper, v: Value, i: nat, pos: nat, q: nat, stack: seq<char>,
                                  vtype: char, end: nat,
                                  tokens: seq<P.Token>)
    requires TakesSteps(json, next) && Readable(v, i) && Comes(json, v, i, pos, q, stack, vtype)
    requires end == q + |From(v, i)| && tokens == TokensFrom(v, i)
    requires !IsContainer(v) ==> i == 0 && Terminated(json, end)
    ensures Runs(next, At0(pos, StackAt(v, i, stack), vtype), tokens, At0(end, stack, LastType(v)))
    decreases v, Count(v) - i
  {
    if !IsContainer(v) {
      LeafParses(json, next, v, pos, q, stack, vtype);
    } else if i == Count(v) {
      ClosingParses(json, next, v, pos, q, stack, vtype);
    } else {
      ChildrenParse(json, next, v, i, pos, q, stack, vtype, end, tokens);
    }
  }

  /** Child `i` is read back. */
  lemma {:induction false} ChildParses(json: string, next: Stepper, v: Value, i: nat, pos: nat, q: nat,
                                       stack: seq<char>, vtype: char,
                                       middle: nat, after: nat)
    requires TakesSteps(json, next) && IsContainer(v) && i < Count(v) && Readable(Child(v, i), 0)
    requires Comes(json, v, i, pos, q, stack, vtype)
    requires middle == q + |Before(v, i)| && after == middle + |From(Child(v, i), 0)|
    ensures Runs(next, At0(ChildPos(v, i, q), stack + Inner(v.Object?), ChildType(v, i, vtype)),
                 TokensFrom(Child(v, i), 0),
                 At0(after, stack + Inner(v.Object?), LastType(Child(v, i))))
    decreases v, Count(v) - i, 0
  {
    ChildComes(json, v, i, pos, q, stack, vtype, middle, after);
    Parses(json, next, Child(v, i), 0, ChildPos(v, i, q), middle, stack
        + Inner(v.Object?), ChildType(v, i, vtype), after,
           TokensFrom(Child(v, i), 0));
  }

  /** The children after child `i`, and the end, are read back. */
  lemma {:induction false} RestParses(json: string, next: Stepper, v: Value, i: nat, stack: seq<char>, after: nat,
                                      end: nat)
    requires TakesSteps(json, next) && IsContainer(v) && i < Count(v) && Readable(v, i + 1)
    requires Comes(json, v, i + 1, after, after, stack, LastType(Child(v, i))) && end == after + |From(v, i + 1)|
    ensures Runs(next, At0(after, stack + Inner(v.Object?), LastType(Child(v, i))), TokensFrom(v, i + 1),
                 At0(end, stack, LastType(v)))
    decreases v, Count(v) - i, 0
  {
    Parses(json, next, v, i + 1, after, after, stack, LastType(Child(v, i)), end, TokensFrom(v, i + 1));
  }

  lemma {:induction false} ChildrenParse(json: string, next: Stepper, v: Value, i: nat, pos: nat, q: nat,
                                         stack: seq<char>, vtype: char,
                                         end: nat, tokens: seq<P.Token>)
    requires TakesSteps(json, next) && Readable(v, i) && Comes(json, v, i, pos, q, stack, vtype)
    requires end == q + |From(v, i)| && tokens == TokensFrom(v, i)
    requires IsContainer(v) && i < Count(v)
    ensures Runs(next, At0(pos, StackAt(v, i, stack), vtype), tokens, At0(end, stack, LastType(v)))
    decreases v, Count(v) - i, 1
  {
    var c, inner, middle := Child(v, i), stack + Inner(v.Object?), q + |Before(v, i)|;
    var after := middle + |From(c, 0)|;
    BeforeParses(json, next, v, i, pos, q, stack, vtype);
    ChildParses(json, next, v, i, pos, q, stack, vtype, middle, after);
    ChildComes(json, v, i, pos, q, stack, vtype, middle, after);
    RestComes(json, v, i, stack, after);
    RestParses(json, next, v, i, stack, after, end);
    TokensOf(v, i);
    RunsThree(next, At0(pos, StackAt(v, i, stack), vtype), TokensBefore(v, i),
              At0(ChildPos(v, i, q), inner, ChildType(v, i, vtype)),
              TokensFrom(c, 0), At0(after, inner, LastType(c)), TokensFrom(v, i + 1), At0(end, stack, LastType(v)));
  }

  // ----- The round trip -----

  lemma CallsIterate(json: string, next: Stepper, st: P.State, n: nat)
    requires TakesSteps(json, next)
    ensures Iterate(next, st, n) == P.Calls(json, st, n)
    decreases n
  {
    if n > 0 {
      assert next(st) == P.Next(json, st);
      CallsIterate(json, next, P.Next(json, st).1, n - 1);
    }
  }

  lemma RootIsAhead(root: Value)
    requires root.Object?
    ensures At(Render(root), 0, From(root, 0)) && Ahead(Render(root), 0, 0)
  {
    var json := Render(root);
    ContainerBegins(root, 0);
    AheadHere(json, 0);
    assert json[0..|json|] == json;
  }

  /** An object that is readable and needs no more stack entries than there are is read back: its
      tokens come in order, without an error and without overrunning the stack. */
  lemma ReadBack(root: Value)
    requires root.Object? && Readable(root, 0) && Frames(root, 0) <= P.MAX_DEPTH
    ensures P.Calls(Render(root), P.Setup(), |TokensFrom(root, 0)|)
            == (TokensFrom(root, 0), P.State(|Render(root)|, [], LastType(root), 0, false))
  {
    var json, tokens := Render(root), TokensFrom(root, 0);
    var next := (st: P.State) => P.Next(json, st);
    assert At(json, 0, From(root, 0)) && Ahead(json, 0, 0) by {
      RootIsAhead(root);
    }
    Parses(json, next, root, 0, 0, 0, [], P.NONE, |json|, tokens);
    CallsIterate(json, next, P.Setup(), |tokens|);
  }
}
