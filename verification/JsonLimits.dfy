/** Trees that are printed but not read back, and with them the exact condition of the round trip. */
module JsonLimits {
  import opened JsonTree
  import opened JsonRoundTrip
  import opened JsonValues
  import P = JsonParse

  // ----- Reading that goes wrong -----

  /** The next calls report an error, or what they return does not stand for the same. */
  ghost predicate Differs(next: Stepper, st: P.State, tokens: seq<P.Token>) {
    var (read, last) := Iterate(next, st, |tokens|);
    DecodeAll(read) != DecodeAll(tokens) || last.error != 0
  }

  lemma {:induction false} IterateBoth(next: Stepper, st: P.State, m: nat, n: nat)
    ensures var (first, middle) := Iterate(next, st, m);
            var (second, last) := Iterate(next, middle, n);
            |first| == m && |second| == n && Iterate(next, st, m + n) == (first + second, last)
    decreases m
  {
    IterateCount(next, st, m);
    IterateCount(next, Iterate(next, st, m).1, n);
    if m > 0 {
      var (token, after) := next(st);
      IterateBoth(next, after, m - 1, n);
      var (first, middle) := Iterate(next, after, m - 1);
      assert [token] + (first + Iterate(next, middle, n).0) == ([token] + first) + Iterate(next, middle, n).0;
    } else {
      assert [] + Iterate(next, st, n).0 == Iterate(next, st, n).0;
    }
  }

  lemma {:induction false} IterateCount(next: Stepper, st: P.State, n: nat)
    ensures |Iterate(next, st, n).0| == n
    decreases n
  {
    if n > 0 {
      IterateCount(next, next(st).1, n - 1);
    }
  }

  /** An error is never taken back. */
  lemma {:induction false} ErrorStays(json: string, next: Stepper, st: P.State, n: nat)
    requires TakesSteps(json, next) && st.error != 0
    ensures Iterate(next, st, n).1.error != 0
    decreases n
  {
    if n > 0 {
      assert next(st) == P.Next(json, st);
      ErrorStays(json, next, next(st).1, n - 1);
    }
  }

  /** What begins differently is different. */
  lemma DiffersEarly(json: string, next: Stepper, st: P.State, first: seq<P.Token>, second: seq<P.Token>)
    requires TakesSteps(json, next) && Differs(next, st, first)
    ensures Differs(next, st, first + second)
  {
    IterateBoth(next, st, |first|, |second|);
    var (begin, middle) := Iterate(next, st, |first|);
    if DecodeAll(begin) != DecodeAll(first) {
      DifferentBegin(begin, Iterate(next, middle, |second|).0, first, second);
    } else {
      ErrorStays(json, next, middle, |second|);
    }
  }

  lemma DifferentBegin(a: seq<P.Token>, b: seq<P.Token>, c: seq<P.Token>, d: seq<P.Token>)
    requires |a| == |c| && DecodeAll(a) != DecodeAll(c)
    ensures DecodeAll(a + b) != DecodeAll(c + d)
  {
    DecodeBoth(a, b);
    DecodeBoth(c, d);
    assert DecodeAll(a + b)[..|a|] == DecodeAll(a);
    assert DecodeAll(c + d)[..|a|] == DecodeAll(c);
  }

  lemma DifferentEnd(a: seq<P.Token>, b: seq<P.Token>, d: seq<P.Token>)
    requires DecodeAll(b) != DecodeAll(d)
    ensures DecodeAll(a + b) != DecodeAll(a + d)
  {
    DecodeBoth(a, b);
    DecodeBoth(a, d);
    assert DecodeAll(a + b)[|a|..] == DecodeAll(b);
    assert DecodeAll(a + d)[|a|..] == DecodeAll(d);
  }

  lemma DiffersLate(next: Stepper, a: P.State, first: seq<P.Token>, b: P.State, second: seq<P.Token>)
    requires Runs(next, a, first, b) && Differs(next, b, second)
    ensures Differs(next, a, first + second)
  {
    IterateBoth(next, a, |first|, |second|);
    var rest := Iterate(next, b, |second|).0;
    if DecodeAll(rest) != DecodeAll(second) {
      DifferentEnd(first, rest, second);
    }
  }

  lemma DiffersNow(json: string, next: Stepper, st: P.State, token: P.Token, rest: seq<P.Token>)
    requires TakesSteps(json, next)
    requires Decode(P.Next(json, st).0) != Decode(token) || P.Next(json, st).1.error != 0
    ensures Differs(next, st, [token] + rest)
  {
    var (other, after) := P.Next(json, st);
    RunsOne(json, next, st, other, after);
    assert DecodeAll([other])[0] == Decode(other) && DecodeAll([token])[0] == Decode(token);
    DiffersEarly(json, next, st, [token], rest);
  }

  // ----- What is not read back -----

  /** No string or name holds a zero, as none does in C. */
  predicate Texts(v: Value, i: nat)
    decreases v, Count(v) - i
  {
    match v
    case String(text) => '\0' !in text
    case Int(_) => true
    case Array(values) => i >= |values| || (Texts(Child(v, i), 0) && Texts(v, i + 1))
    case Object(pairs) => i >= |pairs| || ('\0' !in pairs[i].name && Texts(Child(v, i), 0) && Texts(v, i + 1))
  }

  /** A printed integer is read as a number exactly if it is not negative. */
  lemma IntIsRead(json: string, pos: nat, q: nat, stack: seq<char>, vtype: char, n: int)
    requires Ahead(json, pos, q) && At(json, q, Integer(n)) && stack != [] && stack[|stack| - 1] in ['[', ':']
    ensures P.Next(json, At0(pos, stack, vtype)).0.kind == P.NUMBER <==> n >= 0
  {
    DigitsAreDigits(Magnitude(n));
    AtIndex(json, q, Integer(n), 0);
    NextIs(json, At0(pos, stack, vtype), q);
  }

  lemma StringTaken(json: string, st: P.State, kind: char, s: string)
    requires At(json, st.pos, Escape(s) + "\"") && '\0' !in s
    ensures P.TakeString(json, st, kind).0.text == Escape(s) <==> Scannable(s)
  {
    AtBoth(json, st.pos, Escape(s), "\"");
    StringScan(json, st.pos, s);
    assert Scannable("");
    assert s != "" ==> Escape(s) != "";
  }

  lemma TakenStandsFor(json: string, st: P.State, kind: char, s: string)
    ensures var text := P.TakeString(json, st, kind).0.text; Unescape(text) == s <==> text == Escape(s)
  {
    TokenIsEscaped(json, st, kind);
    EscapeUnescape(P.TakeString(json, st, kind).0.text);
    UnescapeEscape(s);
  }

  lemma NextTakes(json: string, pos: nat, q: nat, stack: seq<char>, vtype: char, kind: char)
    requires Ahead(json, pos, q) && json[q] == '"' && stack != [] && stack[|stack| - 1] in ['{', '[', ':']
    requires kind == if stack[|stack| - 1] == '{' then P.PAIR_NAME else P.STRING
    ensures P.Next(json, At0(pos, stack, vtype)).0 == P.TakeString(json, At0(q + 1, stack, vtype), kind).0
  {
    NextIs(json, At0(pos, stack, vtype), q);
  }

  /** A printed string is read as what it was exactly if it is scannable. */
  lemma StringIsRead(json: string, pos: nat, q: nat, stack: seq<char>, vtype: char, s: string, kind: char)
    requires Ahead(json, pos, q) && stack != [] && stack[|stack| - 1] in ['{', '[', ':']
    requires kind == if stack[|stack| - 1] == '{' then P.PAIR_NAME else P.STRING
    requires At(json, q, Quoted(s)) && '\0' !in s
    ensures Decode(P.Next(json, At0(pos, stack, vtype)).0) == Decode(P.Token(kind, Escape(s))) <==> Scannable(s)
  {
    QuotedAt(json, q, s);
    NextTakes(json, pos, q, stack, vtype, kind);
    StringTaken(json, At0(q + 1, stack, vtype), kind, s);
    TakenStandsFor(json, At0(q + 1, stack, vtype), kind, s);
    UnescapeEscape(s);
  }

  /** After a value in a pair, the comma or the end of the object is accepted exactly if the value did
      not end with an empty container. */
  lemma EndOfPair(json: string, pos: nat, q: nat, stack: seq<char>, vtype: char)
    requires Ahead(json, pos, q) && (json[q] == ',' || json[q] == '}')
    ensures P.Next(json, At0(pos, stack + ['{', ':'], vtype)).0.kind == (if vtype != P.NONE then json[q] else P.NONE)
    ensures P.Next(json, At0(pos, stack + ['{', ':'], vtype)).1.error == (if vtype != P.NONE then 0 else P.ERROR_SYNTAX)
  {
    var st := At0(q + 1, stack + ['{', ':'], vtype);
    NextIs(json, At0(pos, stack + ['{', ':'], vtype), q);
    assert st.stack[..|st.stack| - 1] == stack + ['{'];
  }

  lemma LeafDiffers(json: string, next: Stepper, v: Value, pos: nat, q: nat, stack: seq<char>, vtype: char)
    requires TakesSteps(json, next) && !IsContainer(v) && !Readable(v, 0) && Texts(v, 0)
             && Comes(json, v, 0, pos, q, stack, vtype)
    ensures Differs(next, At0(pos, stack, vtype), TokensFrom(v, 0))
  {
    match v {
      case String(text) => StringIsRead(json, pos, q, stack, vtype, text, P.STRING);
      case Int(n) => IntIsRead(json, pos, q, stack, vtype, n);
    }
    assert TokensFrom(v, 0) == [TokensFrom(v, 0)[0]] + [];
    DiffersNow(json, next, At0(pos, stack, vtype), TokensFrom(v, 0)[0], []);
  }

  /** The name of pair `i` is not read back. */
  lemma NameDiffers(json: string, next: Stepper, v: Value, i: nat, pos: nat, q: nat, stack: seq<char>, vtype: char)
    requires TakesSteps(json, next) && v.Object? && i < Count(v) && Comes(json, v, i, pos, q, stack, vtype)
    requires !Scannable(v.pairs[i].name) && '\0' !in v.pairs[i].name
    ensures Differs(next, At0(pos, StackAt(v, i, stack), vtype), TokensBefore(v, i))
  {
    var name := v.pairs[i].name;
    var inside := At0(q + 1, stack + ['{'], if i == 0 then P.NONE else vtype);
    ContainerBegins(v, i);
    AtIndex(json, q, From(v, i), 0);
    FramesOf(v, i);
    SeparatorParses(json, next, true, i == 0, pos, q, stack, vtype);
    PairLayout(json, v, i, q, From(Child(v, i), 0), From(v, i + 1));
    StringIsRead(json, q + 1, q + 2, stack + ['{'], inside.vtype, name, P.PAIR_NAME);
    DiffersNow(json, next, inside, P.Token(P.PAIR_NAME, Escape(name)), [Symbol(':')]);
    DiffersLate(next, At0(pos, StackAt(v, i, stack), vtype), [Symbol(json[q])], inside,
                [P.Token(P.PAIR_NAME, Escape(name))] + [Symbol(':')]);
    assert TokensBefore(v, i) == [Symbol(json[q])] + ([P.Token(P.PAIR_NAME, Escape(name))] + [Symbol(':')]);
  }

  /** The value of pair `i` has left no type, so that what follows is refused. */
  lemma RestDiffers(json: string, next: Stepper, v: Value, i: nat, stack: seq<char>, after: nat)
    requires TakesSteps(json, next) && v.Object? && i < Count(v) && At(json, after, From(v, i + 1))
    ensures Differs(next, At0(after, stack + Inner(true), P.NONE), TokensFrom(v, i + 1))
  {
    var text, tokens, q := From(v, i + 1), TokensFrom(v, i + 1), if i + 1 < Count(v) then after else after + 1;
    ContainerBegins(v, i + 1);
    AtIndex(json, after, text, 0);
    if i + 1 < Count(v) {
      AheadHere(json, after);
    } else {
      assert text == "\n}";
      AtIndex(json, after, text, 1);
      AheadLine(json, after);
    }
    EndOfPair(json, after, q, stack, P.NONE);
    assert tokens != [] && tokens == [tokens[0]] + tokens[1..];
    DiffersNow(json, next, At0(after, stack + Inner(true), P.NONE), tokens[0], tokens[1..]);
  }

  lemma TokensJoin(v: Value, i: nat)
    requires IsContainer(v) && i < Count(v)
    ensures TokensFrom(v, i) == TokensBefore(v, i) + (TokensFrom(Child(v, i), 0) + TokensFrom(v, i + 1))
  {
    TokensOf(v, i);
    AssociateThree(TokensBefore(v, i), TokensFrom(Child(v, i), 0), TokensFrom(v, i + 1));
  }

  /** What is not readable is not read back. */
  lemma {:induction false} NotReadBack(json: string, next: Stepper, v: Value, i: nat, pos: nat, q: nat,
                                       stack: seq<char>, vtype: char)
    requires TakesSteps(json, next) && !Readable(v, i) && Texts(v, i) && Comes(json, v, i, pos, q, stack, vtype)
    requires !IsContainer(v) ==> i == 0
    ensures Differs(next, At0(pos, StackAt(v, i, stack), vtype), TokensFrom(v, i))
    decreases v, Count(v) - i, 1
  {
    if !IsContainer(v) {
      LeafDiffers(json, next, v, pos, q, stack, vtype);
    } else {
      TokensJoin(v, i);
      var start, before := At0(pos, StackAt(v, i, stack), vtype), TokensBefore(v, i);
      var after := TokensFrom(Child(v, i), 0) + TokensFrom(v, i + 1);
      if v.Object? && !ReadableName(v.pairs[i].name) {
        assert Differs(next, start, before) by {
          NameDiffers(json, next, v, i, pos, q, stack, vtype);
        }
        DiffersEarly(json, next, start, before, after);
      } else {
        var middle := At0(ChildPos(v, i, q), stack + Inner(v.Object?), ChildType(v, i, vtype));
        assert Differs(next, middle, after) by {
          ChildDiffers(json, next, v, i, pos, q, stack, vtype);
        }
        assert Runs(next, start, before, middle) by {
          BeforeParses(json, next, v, i, pos, q, stack, vtype);
        }
        DiffersLate(next, start, before, middle, after);
      }
    }
  }

  /** Child `i` or what follows it is not read back. */
  lemma {:induction false} ChildDiffers(json: string, next: Stepper, v: Value, i: nat, pos: nat, q: nat,
                                        stack: seq<char>, vtype: char)
    requires TakesSteps(json, next) && !Readable(v, i) && Texts(v, i) && Comes(json, v, i, pos, q, stack, vtype)
    requires IsContainer(v) && i < Count(v) && (v.Object? ==> ReadableName(v.pairs[i].name))
    ensures Differs(next, At0(ChildPos(v, i, q), stack + Inner(v.Object?), ChildType(v, i, vtype)),
                    TokensFrom(Child(v, i), 0) + TokensFrom(v, i + 1))
    decreases v, Count(v) - i, 0
  {
    var c, inner, middle := Child(v, i), stack + Inner(v.Object?), q + |Before(v, i)|;
    var start, after := At0(ChildPos(v, i, q), inner, ChildType(v, i, vtype)), middle + |From(c, 0)|;
    ChildComes(json, v, i, pos, q, stack, vtype, middle, after);
    if !Readable(c, 0) {
      NotReadBack(json, next, c, 0, ChildPos(v, i, q), middle, inner, ChildType(v, i, vtype));
      DiffersEarly(json, next, start, TokensFrom(c, 0), TokensFrom(v, i + 1));
    } else {
      ChildParses(json, next, v, i, pos, q, stack, vtype, middle, after);
      if v.Object? && LastType(c) == P.NONE {
        RestDiffers(json, next, v, i, stack, after);
      } else {
        RestComes(json, v, i, stack, after);
        NotReadBack(json, next, v, i + 1, after, after, stack, LastType(c));
      }
      DiffersLate(next, start, TokensFrom(c, 0), At0(after, inner, LastType(c)), TokensFrom(v, i + 1));
    }
  }

  /** At the beginning the parser refuses whatever begins an array, a string or an integer. */
  lemma RefusedAtStart(json: string)
    requires Ahead(json, 0, 0) && (json[0] in ['[', '"', '-'] || P.IsDigit(json[0]))
    ensures P.Next(json, P.Setup()).0.kind == P.NONE
  {
    NextIs(json, P.Setup(), 0);
  }

  lemma RootBegins(root: Value, json: string)
    requires !root.Object? && json == From(root, 0)
    ensures Ahead(json, 0, 0) && (json[0] in ['[', '"', '-'] || P.IsDigit(json[0]))
  {
    BeginsWith(root);
    AheadHere(json, 0);
    if root.Array? {
      ContainerBegins(root, 0);
    } else if root.Int? {
      DigitsAreDigits(Magnitude(root.n));
    }
  }

  lemma SomeToken(root: Value)
    ensures TokensFrom(root, 0) != [] && TokensFrom(root, 0)[0].kind != P.NONE
    ensures TokensFrom(root, 0) == [TokensFrom(root, 0)[0]] + TokensFrom(root, 0)[1..]
  {
    if IsContainer(root) && Count(root) > 0 {
      TokensOf(root, 0);
    }
  }

  lemma OnlyObjects(root: Value, next: Stepper)
    requires !root.Object? && TakesSteps(Render(root), next)
    ensures Differs(next, P.Setup(), TokensFrom(root, 0))
  {
    var json, tokens := Render(root), TokensFrom(root, 0);
    RootBegins(root, json);
    RefusedAtStart(json);
    SomeToken(root);
    DiffersNow(json, next, P.Setup(), tokens[0], tokens[1..]);
  }

  /** The JSON round trip: what is read of a printed tree stands for what the tree holds, in order
      and with equal names, strings and integers, and without an error, exactly if the tree is an
      object and readable; nothing is then left on the stack. */
  lemma RoundTrip(root: Value)
    requires Texts(root, 0) && Frames(root, 0) <= P.MAX_DEPTH
    ensures var (tokens, last) := P.Calls(Render(root), P.Setup(), |Content(root, 0)|);
            ((DecodeAll(tokens) == Content(root, 0) && last.error == 0) <==> root.Object? && Readable(root, 0))
            && (root.Object? && Readable(root, 0) ==> last == P.State(|Render(root)|, [], LastType(root), 0, false))
  {
    var json, tokens := Render(root), TokensFrom(root, 0);
    var next := (st: P.State) => P.Next(json, st);
    TokensStandFor(root, 0);
    assert |DecodeAll(tokens)| == |tokens|;
    if root.Object? && Readable(root, 0) {
      ReadBack(root);
    } else {
      assert Differs(next, P.Setup(), tokens) by {
        if root.Object? {
          RootIsAhead(root);
          NotReadBack(json, next, root, 0, 0, 0, [], P.NONE);
        } else {
          OnlyObjects(root, next);
        }
      }
      CallsIterate(json, next, P.Setup(), |tokens|);
    }
  }
}
