/** The pull parser for JSON: each call consumes one token and keeps a stack of what is open. */
module JsonParse {
  const MAX_DEPTH := 10

  const ERROR_SYNTAX := 1
  const ERROR_UNEXPECTED_ARRAY := 2
  const ERROR_UNEXPECTED_END_OF_ARRAY := 3
  const ERROR_UNEXPECTED_STRING := 5

  const NONE: char := '\0'
  const PAIR_NAME := 'N'
  const NUMBER := '0'
  const STRING := '"'

  /** The state of the parser. `overrun` tells if more was pushed than the stack has room for. */
  datatype State = State(pos: nat, stack: seq<char>, vtype: char, error: nat, overrun: bool)

  /** What a call returns, and the text of a string, a name or a number. */
  datatype Token = Token(kind: char, text: string)

  /** The text is followed by zeros. */
  function CharAt(json: string, pos: nat): char {
    if pos < |json| then json[pos] else NONE
  }

  function Setup(): State {
    State(0, [], NONE, 0, false)
  }

  /** jsonparse_get_type. */
  function Top(st: State): char {
    if st.stack == [] then NONE else st.stack[|st.stack| - 1]
  }

  function Push(st: State, c: char): State {
    st.(stack := st.stack + [c], vtype := NONE, overrun := st.overrun || |st.stack| >= MAX_DEPTH)
  }

  function Pop(st: State): State {
    if st.stack == [] then st else st.(stack := st.stack[..|st.stack| - 1])
  }

  /** skip_ws. */
  function Skip(json: string, pos: nat): (r: nat)
    ensures pos <= r && (pos <= |json| ==> r <= |json|)
    decreases |json| - pos
  {
    if pos < |json| && (json[pos] == ' ' || json[pos] == '\n') then Skip(json, pos + 1) else pos
  }

  /** The position behind the end of a string or a name. */
  function StringEnd(json: string, pos: nat): (r: nat)
    ensures r > pos
    decreases |json| + 2 - pos
  {
    var c := CharAt(json, pos);
    if c == NONE || c == '"' then pos + 1
    else if c == '\\' then StringEnd(json, pos + 2)
    else StringEnd(json, pos + 1)
  }

  predicate IsDigit(c: char) {
    '0' <= c <= '9'
  }

  /** The position behind a number. */
  function NumberEnd(json: string, pos: nat): (r: nat)
    ensures pos <= r
    decreases |json| - pos
  {
    if pos < |json| && (IsDigit(json[pos]) || json[pos] == '.') then NumberEnd(json, pos + 1) else pos
  }

  /** A part of the text; what lies beyond it is not part of it. */
  function Slice(json: string, start: nat, end: nat): string {
    if start <= end <= |json| then json[start..end] else ""
  }

  function Fails(st: State, error: nat): (Token, State) {
    (Token(NONE, ""), st.(error := error))
  }

  /** The parse of a string or a name that begins behind the quotation mark before `st.pos`. */
  function TakeString(json: string, st: State, kind: char): (Token, State) {
    var end := StringEnd(json, st.pos);
    (Token(kind, Slice(json, st.pos, end - 1)), st.(pos := end, vtype := kind))
  }

  /** The parse of a number whose first digit is before `st.pos`. */
  function TakeNumber(json: string, st: State): (Token, State)
    requires st.pos > 0
  {
    var end := NumberEnd(json, st.pos);
    (Token(NUMBER, Slice(json, st.pos - 1, end)), st.(pos := end, vtype := NUMBER))
  }

  /** The end of an object: first that of its last pair, if that has a value. */
  function CloseObject(st: State): (Token, State) {
    var a := if Top(st) == ':' && st.vtype != NONE then Pop(st) else st;
    if Top(a) == '{' then (Token('}', ""), Pop(a)) else Fails(a, ERROR_SYNTAX)
  }

  function CloseArray(st: State): (Token, State) {
    if Top(st) == '[' then (Token(']', ""), Pop(st)) else Fails(st, ERROR_UNEXPECTED_END_OF_ARRAY)
  }

  function Comma(st: State): (Token, State) {
    if Top(st) == ':' && st.vtype != NONE then (Token(',', ""), Pop(st))
    else if Top(st) == '[' then (Token(',', ""), st)
    else Fails(st, ERROR_SYNTAX)
  }

  /** jsonparse_next on the character `c`, which has been consumed. */
  function Consume(json: string, st: State, c: char): (Token, State)
    requires st.pos > 0
  {
    match c
    case '{' => (Token(c, ""), Push(st, c))
    case '}' => CloseObject(st)
    case ']' => CloseArray(st)
    case ':' => (Token(c, ""), Push(st, c))
    case ',' => Comma(st)
    case '"' =>
      if Top(st) in ['{', '[', ':'] then TakeString(json, st, if Top(st) == '{' then PAIR_NAME else STRING)
      else Fails(st, ERROR_UNEXPECTED_STRING)
    case '[' =>
      if Top(st) in ['{', '[', ':'] then (Token(c, ""), Push(st, c)) else Fails(st, ERROR_UNEXPECTED_ARRAY)
    case _ =>
      if Top(st) in [':', '['] && IsDigit(c) then TakeNumber(json, st) else (Token(NONE, ""), st)
  }

  /** jsonparse_next. */
  function Next(json: string, st: State): (Token, State) {
    var at := Skip(json, st.pos);
    Consume(json, st.(pos := at + 1), CharAt(json, at))
  }

  /** The tokens of the next `n` calls, and the state after them. */
  function Calls(json: string, st: State, n: nat): (seq<Token>, State)
    decreases n
  {
    if n == 0 then ([], st)
    else
      var (token, after) := Next(json, st);
      var (tokens, last) := Calls(json, after, n - 1);
      ([token] + tokens, last)
  }

  // ----- The parser as an object -----

  class Parser {
    const json: string
    var pos: nat
    var depth: nat
    const stack: array<char>
    var vtype: char
    var vstart: nat
    var vlen: int
    var error: nat

    ghost predicate Valid()
      reads this
    {
      stack.Length == MAX_DEPTH && depth <= MAX_DEPTH
    }

    ghost function View(): State
      requires Valid()
      reads this, stack
    {
      State(pos, stack[..depth], vtype, error, false)
    }

    /** The text of the current string, name or number. */
    function Text(): string
      reads this
    {
      if vlen >= 0 then Slice(json, vstart, vstart + vlen) else ""
    }

    /** jsonparse_setup. */
    constructor (json: string)
      ensures Valid() && View() == Setup() && this.json == json
    {
      this.json := json;
      stack := new char[MAX_DEPTH](_ => NONE);
      pos, depth, error, vtype, vstart, vlen := 0, 0, 0, NONE, 0, 0;
    }

    method PushType(c: char)
      requires Valid() && depth < MAX_DEPTH
      modifies `depth, `vtype, stack
      ensures Valid() && View() == Push(old(View()), c)
    {
      stack[depth] := c;
      depth := depth + 1;
      vtype := NONE;
    }

    method PopType()
      requires Valid()
      modifies `depth
      ensures Valid() && View() == Pop(old(View()))
    {
      if depth > 0 {
        depth := depth - 1;
      }
    }

    /** jsonparse_get_type. */
    method GetType() returns (c: char)
      requires Valid()
      ensures c == Top(View())
    {
      c := if depth == 0 then NONE else stack[depth - 1];
    }

    method SkipSpace()
      requires Valid()
      modifies `pos
      ensures Valid() && View() == old(View()).(pos := Skip(json, old(pos)))
    {
      while pos < |json| && (json[pos] == ' ' || json[pos] == '\n')
        invariant Skip(json, old(pos)) == Skip(json, pos)
        decreases |json| - pos
      {
        pos := pos + 1;
      }
    }

    /** atomic, for a string or a name. */
    method AtomicString(kind: char)
      requires Valid()
      modifies `pos, `vtype, `vstart, `vlen
      ensures Valid() && (Token(kind, Text()), View()) == TakeString(json, old(View()), kind)
    {
      vstart := pos;
      vtype := kind;
      var c := CharAt(json, pos);
      pos := pos + 1;
      while c != NONE && c != '"'
        invariant vstart == old(pos) && vtype == kind && pos > vstart
        invariant c == CharAt(json, pos - 1) && StringEnd(json, vstart) == StringEnd(json, pos - 1)
        decreases |json| + 3 - pos
      {
        if c == '\\' {
          pos := pos + 1;
        }
        c := CharAt(json, pos);
        pos := pos + 1;
      }
      vlen := pos - vstart - 1;
    }

    /** atomic, for a number. */
    method AtomicNumber()
      requires Valid() && pos > 0
      modifies `pos, `vtype, `vstart, `vlen
      ensures Valid() && (Token(NUMBER, Text()), View()) == TakeNumber(json, old(View()))
    {
      vstart := pos;
      vtype := NUMBER;
      while IsDigit(CharAt(json, pos)) || CharAt(json, pos) == '.'
        invariant vstart == old(pos) && vtype == NUMBER && pos >= vstart
                  && NumberEnd(json, vstart) == NumberEnd(json, pos)
        decreases |json| - pos
      {
        pos := pos + 1;
      }
      vstart := vstart - 1;
      vlen := pos - vstart;
    }

    /** The end of an object. */
    method EndObject() returns (kind: char)
      requires Valid()
      modifies `depth, `error
      ensures Valid() && (Token(kind, ""), View()) == CloseObject(old(View()))
    {
      var s := GetType();
      if s == ':' && vtype != NONE {
        PopType();
        s := GetType();
      }
      if s == '{' {
        PopType();
        kind := '}';
      } else {
        error := ERROR_SYNTAX;
        kind := NONE;
      }
    }

    /** The end of an array. */
    method EndArray() returns (kind: char)
      requires Valid()
      modifies `depth, `error
      ensures Valid() && (Token(kind, ""), View()) == CloseArray(old(View()))
    {
      var s := GetType();
      if s == '[' {
        PopType();
        kind := ']';
      } else {
        error := ERROR_UNEXPECTED_END_OF_ARRAY;
        kind := NONE;
      }
    }

    method OnComma() returns (kind: char)
      requires Valid()
      modifies `depth, `error
      ensures Valid() && (Token(kind, ""), View()) == Comma(old(View()))
    {
      var s := GetType();
      kind := ',';
      if s == ':' && vtype != NONE {
        PopType();
      } else if s != '[' {
        error := ERROR_SYNTAX;
        kind := NONE;
      }
    }

    method OnQuote() returns (kind: char)
      requires Valid() && pos > 0
      modifies `pos, `vtype, `vstart, `vlen, `error
      ensures Valid()
      ensures var (token, after) := Consume(json, old(View()), '"');
              kind == token.kind && View() == after && (kind != NONE ==> token.text == Text())
    {
      var s := GetType();
      if s == '{' || s == '[' || s == ':' {
        kind := if s == '{' then PAIR_NAME else STRING;
        AtomicString(kind);
      } else {
        error := ERROR_UNEXPECTED_STRING;
        kind := NONE;
      }
    }

    method OnBracket() returns (kind: char)
      requires Valid() && depth < MAX_DEPTH && pos > 0
      modifies `depth, `vtype, `error, stack
      ensures Valid() && (Token(kind, ""), View()) == Consume(json, old(View()), '[')
    {
      var s := GetType();
      kind := '[';
      if s == '{' || s == '[' || s == ':' {
        PushType('[');
      } else {
        error := ERROR_UNEXPECTED_ARRAY;
        kind := NONE;
      }
    }

    /** jsonparse_next, as long as there is room on the stack. */
    method NextToken() returns (kind: char)
      requires Valid() && depth < MAX_DEPTH
      modifies this, stack
      ensures Valid()
      ensures var (token, after) := Next(json, old(View()));
              kind == token.kind && View() == after && (kind in [STRING, PAIR_NAME, NUMBER] ==> token.text == Text())
    {
      SkipSpace();
      var c := CharAt(json, pos);
      var s := GetType();
      pos := pos + 1;
      kind := c;
      match c {
        case '{' => PushType(c);
        case '}' => kind := EndObject();
        case ']' => kind := EndArray();
        case ':' => PushType(c);
        case ',' => kind := OnComma();
        case '"' => kind := OnQuote();
        case '[' => kind := OnBracket();
        case _ =>
          if (s == ':' || s == '[') && IsDigit(c) {
            AtomicNumber();
            kind := NUMBER;
          } else {
            kind := NONE;
          }
      }
    }
  }
}
