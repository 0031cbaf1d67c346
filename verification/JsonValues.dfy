/** What the tokens of a tree stand for: its names, its strings and its integers. */
module JsonValues {
  import opened JsonTree
  import opened JsonRoundTrip
  import P = JsonParse

  // ----- Strings -----

  /** The text with every backslash before a quotation mark taken out. */
  function Unescape(s: string): string {
    if s == "" then ""
    else if |s| >= 2 && s[0] == '\\' && s[1] == '"' then "\"" + Unescape(s[2..])
    else [s[0]] + Unescape(s[1..])
  }

  lemma EscapedBegin(s: string)
    ensures s == "" || Escape(s)[0] != '"'
  {
  }

  /** Unescaping undoes escaping. */
  lemma {:induction false} UnescapeEscape(s: string)
    ensures Unescape(Escape(s)) == s
    decreases |s|
  {
    if s != "" {
      var rest := Escape(s[1..]);
      UnescapeEscape(s[1..]);
      EscapedBegin(s[1..]);
      assert s == [s[0]] + s[1..];
      if s[0] == '"' {
        assert Escape(s)[2..] == rest;
      } else {
        assert Escape(s)[1..] == rest;
      }
    }
  }

  /** A quotation mark within the text comes right after a backslash. */
  predicate Escaped(t: string) {
    forall k :: 0 <= k < |t| && t[k] == '"' ==> k > 0 && t[k - 1] == '\\'
  }

  /** Escaping undoes unescaping of such a text. */
  lemma {:induction false} EscapeUnescape(t: string)
    requires Escaped(t)
    ensures Escape(Unescape(t)) == t
    decreases |t|
  {
    if |t| >= 2 && t[0] == '\\' && t[1] == '"' {
      var rest := t[2..];
      EscapedRest(t, 2);
      EscapeUnescape(rest);
      assert Unescape(t)[1..] == Unescape(rest);
      assert t == "\\\"" + rest;
    } else if t != "" {
      var rest := t[1..];
      EscapedRest(t, 1);
      EscapeUnescape(rest);
      assert Unescape(t)[1..] == Unescape(rest);
      assert t == [t[0]] + rest;
    }
  }

  lemma EscapedRest(t: string, n: nat)
    requires Escaped(t) && n <= |t| && (n < |t| && t[n] == '"' ==> n > 0 && t[n - 1] != '\\')
    ensures Escaped(t[n..])
  {
    forall k | 0 <= k < |t[n..]| && t[n..][k] == '"' ensures k > 0 && t[n..][k - 1] == '\\' {
      assert t[n + k] == '"';
    }
  }

  /** A quotation mark that the scan of a string passes comes right after a backslash. */
  lemma {:induction false} ScanPasses(json: string, pos: nat, k: nat)
    requires pos <= k < P.StringEnd(json, pos) - 1 && k < |json| && json[k] == '"'
    ensures k > pos && json[k - 1] == '\\'
    decreases |json| + 2 - pos
  {
    if json[pos] == '\\' {
      if k >= pos + 2 {
        ScanPasses(json, pos + 2, k);
      }
    } else if k > pos {
      ScanPasses(json, pos + 1, k);
    }
  }

  lemma TokenIsEscaped(json: string, st: P.State, kind: char)
    ensures Escaped(P.TakeString(json, st, kind).0.text)
  {
    var text, start, end := P.TakeString(json, st, kind).0.text, st.pos, P.StringEnd(json, st.pos) - 1;
    forall k | 0 <= k < |text| && text[k] == '"' ensures k > 0 && text[k - 1] == '\\' {
      assert text == json[start..end];
      ScanPasses(json, start, start + k);
    }
  }

  // ----- Integers -----

  /** The number that the digits at the beginning of a text add to what was read before. */
  function DigitsRead(s: string, before: int): int {
    if s == "" || !P.IsDigit(s[0]) then before else DigitsRead(s[1..], 10 * before + (s[0] as int - '0' as int))
  }

  /** atoi and atol, on a text that begins with a digit or a minus sign. */
  function NumberOf(s: string): int {
    if s != "" && s[0] == '-' then -DigitsRead(s[1..], 0) else DigitsRead(s, 0)
  }

  lemma {:induction false} OneMoreDigit(s: string, c: char, before: int)
    requires P.IsDigit(c) && forall k :: 0 <= k < |s| ==> P.IsDigit(s[k])
    ensures DigitsRead(s + [c], before) == 10 * DigitsRead(s, before) + (c as int - '0' as int)
  {
    if s == "" {
      assert [] + [c] == [c];
    } else {
      assert (s + [c])[1..] == s[1..] + [c];
      OneMoreDigit(s[1..], c, 10 * before + (s[0] as int - '0' as int));
    }
  }

  lemma {:induction false} DigitsAreRead(n: nat)
    ensures DigitsRead(Digits(n), 0) == n
  {
    if n >= 10 {
      DigitsAreRead(n / 10);
      DigitsAreDigits(n / 10);
      OneMoreDigit(Digits(n / 10), Digit(n % 10), 0);
    }
  }

  /** Reading the text of an integer gives the integer. */
  lemma NumberOfInteger(n: int)
    ensures NumberOf(Integer(n)) == n
  {
    DigitsAreRead(Magnitude(n));
    DigitsAreDigits(Magnitude(n));
    if n < 0 {
      assert Integer(n)[1..] == Digits(-n);
    } else {
      assert Integer(n) == Digits(n);
    }
  }

  // ----- Trees -----

  /** What a token stands for: a symbol, a name, a string or an integer. */
  datatype Item = Mark(symbol: char) | Name(name: string) | Text(text: string) | Number(n: int)

  function Decode(t: P.Token): Item {
    if t.kind == P.PAIR_NAME then Name(Unescape(t.text))
    else if t.kind == P.STRING then Text(Unescape(t.text))
    else if t.kind == P.NUMBER then Number(NumberOf(t.text))
    else Mark(t.kind)
  }

  function DecodeAll(tokens: seq<P.Token>): seq<Item> {
    seq(|tokens|, k requires 0 <= k < |tokens| => Decode(tokens[k]))
  }

  lemma DecodeBoth(first: seq<P.Token>, second: seq<P.Token>)
    ensures DecodeAll(first + second) == DecodeAll(first) + DecodeAll(second)
  {
  }

  /** What a tree holds, in order, from its child `i` on. */
  function Content(v: Value, i: nat): seq<Item>
    decreases v, Count(v) - i
  {
    match v
    case String(text) => [Text(text)]
    case Int(n) => [Number(n)]
    case _ =>
      if i < Count(v) then ContentBefore(v, i) + Content(Child(v, i), 0) + Content(v, i + 1)
      else (if i == 0 then [Mark(if v.Object? then '{' else '[')] else []) + [Mark(if v.Object? then '}' else ']')]
  }

  function ContentBefore(v: Value, i: nat): seq<Item>
    requires i < Count(v)
  {
    [Mark(if i > 0 then ',' else if v.Object? then '{' else '[')]
    + if v.Object? then [Name(v.pairs[i].name), Mark(':')] else []
  }

  /** The tokens of a tree stand for what it holds. */
  lemma {:induction false} TokensStandFor(v: Value, i: nat)
    ensures DecodeAll(TokensFrom(v, i)) == Content(v, i)
    decreases v, Count(v) - i
  {
    match v {
      case String(text) => UnescapeEscape(text);
      case Int(n) => NumberOfInteger(n);
      case _ =>
        if i < Count(v) {
          TokensStandFor(Child(v, i), 0);
          TokensStandFor(v, i + 1);
          BeforeStandsFor(v, i);
          DecodeBoth(TokensBefore(v, i), TokensFrom(Child(v, i), 0));
          DecodeBoth(TokensBefore(v, i) + TokensFrom(Child(v, i), 0), TokensFrom(v, i + 1));
          TokensOf(v, i);
        }
    }
  }

  lemma BeforeStandsFor(v: Value, i: nat)
    requires i < Count(v)
    ensures DecodeAll(TokensBefore(v, i)) == ContentBefore(v, i)
  {
    if v.Object? {
      UnescapeEscape(v.pairs[i].name);
    }
  }
}
