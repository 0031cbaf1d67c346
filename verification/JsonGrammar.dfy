/** What printer and parser take JSON to be: the text of a tree put together from the texts of its parts,
    and what the parser does at each character. */
module JsonGrammar {
  import opened JsonTree
  import P = JsonParse

  // ----- The text of a tree -----

  /** The parts with a comma and a line feed between them. */
  function Commas(parts: seq<string>): string {
    if parts == [] then "" else if |parts| == 1 then parts[0] else parts[0] + ",\n" + Commas(parts[1..])
  }

  /** The text of a tree: brackets on lines of their own around the texts of the parts. */
  function Grammar(v: Value): string
    decreases v, 1
  {
    match v
    case String(text) => "\"" + Escape(text) + "\""
    case Int(n) => Integer(n)
    case Array(values) => "[\n" + Commas(Parts(v)) + "\n]"
    case Object(pairs) => "{\n" + Commas(Parts(v)) + "\n}"
  }

  /** The texts of the elements of an array, or those of the pairs of an object with their names. */
  function Parts(v: Value): seq<string>
    decreases v, 0
  {
    seq(Count(v), i requires 0 <= i < Count(v) => Part(v, i))
  }

  function Part(v: Value, i: nat): string
    requires i < Count(v)
    decreases Child(v, i), 2
  {
    if v.Object? then "\"" + Escape(v.pairs[i].name) + "\":" + Grammar(Child(v, i)) else Grammar(Child(v, i))
  }

  /** What stands behind the first `i` parts, if there are any before. */
  function Rest(parts: seq<string>, i: nat): string
    requires i <= |parts|
    decreases |parts| - i
  {
    if i == |parts| then "" else ",\n" + parts[i] + Rest(parts, i + 1)
  }

  lemma {:induction false} CommasFrom(parts: seq<string>, i: nat)
    requires i < |parts|
    ensures Commas(parts[i..]) == parts[i] + Rest(parts, i + 1)
    decreases |parts| - i
  {
    if i + 1 < |parts| {
      assert parts[i..][1..] == parts[i + 1..];
      CommasFrom(parts, i + 1);
    }
  }

  /** What stands before a child, and the child. */
  lemma PieceIsPart(v: Value, i: nat, before: string, child: string)
    requires IsContainer(v) && i < Count(v) && child == Grammar(Child(v, i))
    requires before == if i == 0 then Opening(v) else ",\n"
    ensures Before(v, i) + child == before + Part(v, i)
  {
    if v.Object? {
      var name := "\"" + Escape(v.pairs[i].name) + "\"";
      assert Before(v, i) == before + (name + ":");
      assert Part(v, i) == (name + ":") + child;
      AssociateThree(before, name + ":", child);
    } else {
      assert Before(v, i) == before + "" == before;
    }
  }

  /** From child `i` on, which is not the first, the rendering is the rest of the parts and the bracket. */
  lemma {:induction false} FromIsRest(v: Value, i: nat, parts: seq<string>, rest: string)
    requires IsContainer(v) && 1 <= i <= Count(v) && parts == Parts(v) && rest == From(v, i)
    ensures rest == Rest(parts, i) + Closing(v)
    decreases v, Count(v) - i, 0
  {
    if i < Count(v) {
      FromIsRest(v, i + 1, parts, From(v, i + 1));
      RenderingIsGrammar(Child(v, i));
      FromChild(v, i);
      PieceIsPart(v, i, ",\n", From(Child(v, i), 0));
      AssociateThree(",\n" + parts[i], Rest(parts, i + 1), Closing(v));
    } else {
      assert rest == "" + Closing(v);
    }
  }

  lemma {:induction false} ContainerIsGrammar(v: Value, all: string)
    requires IsContainer(v) && all == From(v, 0)
    ensures all == Opening(v) + Commas(Parts(v)) + Closing(v)
    decreases v, Count(v), 1
  {
    var parts := Parts(v);
    if Count(v) == 0 {
      assert all == Opening(v) + Closing(v);
      assert Opening(v) + "" == Opening(v);
    } else {
      RenderingIsGrammar(Child(v, 0));
      FromChild(v, 0);
      FromIsRest(v, 1, parts, From(v, 1));
      PieceIsPart(v, 0, Opening(v), From(Child(v, 0), 0));
      assert Commas(parts) == parts[0] + Rest(parts, 1) by {
        CommasFrom(parts, 0);
        assert parts[0..] == parts;
      }
      AssociateThree(Opening(v) + parts[0], Rest(parts, 1), Closing(v));
      AssociateThree(Opening(v), parts[0], Rest(parts, 1));
    }
  }

  /** The rendering of a tree is its text. */
  lemma {:induction false} RenderingIsGrammar(v: Value)
    ensures Render(v) == Grammar(v)
    decreases v, Count(v), 2
  {
    if IsContainer(v) {
      ContainerIsGrammar(v, From(v, 0));
    }
  }

  /** No integer begins with a zero but 0 itself. */
  lemma {:induction false} NoLeadingZero(n: nat)
    ensures |Digits(n)| > 0 && (Digits(n)[0] == '0' <==> n == 0)
  {
    if n >= 10 {
      NoLeadingZero(n / 10);
    }
  }

  // ----- What the parser passes over -----

  /** Blanks and line feeds are skipped, and nothing else. */
  lemma {:induction false} Skipped(json: string, pos: nat)
    requires pos <= |json|
    ensures pos <= P.Skip(json, pos) <= |json|
    ensures forall k :: pos <= k < P.Skip(json, pos) ==> json[k] in " \n"
    ensures P.Skip(json, pos) < |json| ==> json[P.Skip(json, pos)] !in " \n"
    decreases |json| - pos
  {
    if pos < |json| && json[pos] in " \n" {
      Skipped(json, pos + 1);
    }
  }

  /** A number goes on as long as there are digits and points. */
  lemma {:induction false} NumberScanned(json: string, pos: nat)
    requires pos <= |json|
    ensures pos <= P.NumberEnd(json, pos) <= |json|
    ensures forall k :: pos <= k < P.NumberEnd(json, pos) ==> json[k] in "0123456789."
    ensures P.NumberEnd(json, pos) < |json| ==> json[P.NumberEnd(json, pos)] !in "0123456789."
    decreases |json| - pos
  {
    if pos < |json| {
      DigitsOnly(json[pos]);
      if json[pos] in "0123456789." {
        NumberScanned(json, pos + 1);
      }
    }
  }

  lemma DigitsOnly(c: char)
    ensures P.IsDigit(c) <==> c in "0123456789"
  {
    if P.IsDigit(c) {
      assert "0123456789"[c as int - '0' as int] == c;
    }
  }

  // ----- What the parser accepts -----

  /** What is open where the next token begins. */
  function Open(st: P.State): char {
    if st.stack == [] then '\0' else st.stack[|st.stack| - 1]
  }

  /** The next character is not accepted. A comma and the end of an object are refused behind a pair without
      a value, and outside of a container; strings, names and arrays outside of containers and pairs. */
  predicate Refuses(st: P.State, c: char) {
    match c
    case '}' => !(Open(st) == '{' || (Open(st) == ':' && st.vtype != '\0' && |st.stack| >= 2
                                      && st.stack[|st.stack| - 2] == '{'))
    case ']' => Open(st) != '['
    case ',' => !(Open(st) == '[' || (Open(st) == ':' && st.vtype != '\0'))
    case '"' => Open(st) !in "{[:"
    case '[' => Open(st) !in "{[:"
    case _ => false
  }

  function ErrorOf(c: char): nat {
    match c case '[' => 2 case ']' => 3 case '"' => 5 case _ => 1
  }

  /** A token is refused with the error of its first character; any other leaves the error as it was. */
  lemma Errors(json: string, st: P.State)
    ensures var c := P.CharAt(json, P.Skip(json, st.pos));
            P.Next(json, st).1.error == if Refuses(st, c) then ErrorOf(c) else st.error
    ensures Refuses(st, P.CharAt(json, P.Skip(json, st.pos))) ==> P.Next(json, st).0 == P.Token('\0', "")
  {
  }

  /** The kinds of the tokens that are accepted, by their first character, and what is open behind them. */
  lemma Accepts(json: string, st: P.State)
    requires !Refuses(st, P.CharAt(json, P.Skip(json, st.pos)))
    ensures var c, (t, after) := P.CharAt(json, P.Skip(json, st.pos)), P.Next(json, st);
            && (c in "{[:" ==> t == P.Token(c, "") && after.stack == st.stack + [c] && after.vtype == '\0')
            && (c in "}],:" ==> t == P.Token(c, ""))
            && (c in "}]" ==>
                  |st.stack| > 0
                  && after.stack == st.stack[..|st.stack| - if c == '}' && Open(st) == ':' then 2 else 1])
            && (c == ',' ==> after.stack == if Open(st) == ':' then st.stack[..|st.stack| - 1] else st.stack)
            && (c == '"' ==>
                  t.kind == (if Open(st) == '{' then 'N' else '"') && after.stack == st.stack && after.vtype == t.kind)
            && (c in "0123456789" ==> t.kind == (if Open(st) in ":[" then '0' else '\0') && after.stack == st.stack)
            && (c !in "{}[]:,\"0123456789" ==> t.kind == '\0' && after.stack == st.stack)
  {
    DigitsOnly(P.CharAt(json, P.Skip(json, st.pos)));
  }
}
