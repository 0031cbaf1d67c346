/** JSON trees, how they are rendered (RFC 4627, section 2, with a line feed after brackets and
    commas), and the printer that renders them step by step with an explicit stack. Callbacks are
    not part of the trees. */
module JsonTree {
  datatype Value = Object(pairs: seq<Pair>) | Array(values: seq<Value>) | String(text: string) | Int(n: int)

  datatype Pair = Pair(name: string, value: Value)

  const MAX_DEPTH := 10
  const MAX_DIGITS := 10

  predicate IsContainer(v: Value) {
    v.Object? || v.Array?
  }

  function Count(v: Value): nat {
    match v
    case Object(pairs) => |pairs|
    case Array(values) => |values|
    case _ => 0
  }

  function Child(v: Value, i: nat): (c: Value)
    requires i < Count(v)
    ensures c < v
  {
    match v
    case Object(pairs) =>
      assert pairs[i] < v;
      pairs[i].value
    case Array(values) => values[i]
  }

  // ----- Rendering -----

  /** The text of a string: a quotation mark is preceded by a backslash, and nothing else is. */
  function Escape(s: string): string {
    if s == "" then "" else EscapeChar(s[0]) + Escape(s[1..])
  }

  function EscapeChar(c: char): string {
    if c == '"' then "\\\"" else [c]
  }

  lemma {:induction false} EscapeAppend(s: string, c: char)
    ensures Escape(s + [c]) == Escape(s) + EscapeChar(c)
  {
    if s == "" {
      assert (s + [c])[1..] == "";
    } else {
      assert (s + [c])[1..] == s[1..] + [c];
      EscapeAppend(s[1..], c);
    }
  }

  function Digit(d: nat): char
    requires d < 10
  {
    '0' + d as char
  }

  function Digits(n: nat): string {
    if n < 10 then [Digit(n)] else Digits(n / 10) + [Digit(n % 10)]
  }

  function Magnitude(n: int): nat {
    if n < 0 then -n else n
  }

  function Integer(n: int): string {
    (if n < 0 then "-" else "") + Digits(Magnitude(n))
  }

  function Quoted(s: string): string {
    "\"" + Escape(s) + "\""
  }

  function Opening(v: Value): string {
    if v.Object? then "{\n" else "[\n"
  }

  function Closing(v: Value): string {
    if v.Object? then "\n}" else "\n]"
  }

  /** What stands before child `i` of a container. */
  function Before(v: Value, i: nat): string
    requires i < Count(v)
  {
    (if i == 0 then Opening(v) else ",\n") + if v.Object? then Quoted(v.pairs[i].name) + ":" else ""
  }

  /** The rendering of a value from its child `i` on. */
  function From(v: Value, i: nat): string
    decreases v, Count(v) - i
  {
    match v
    case String(text) => Quoted(text)
    case Int(n) => Integer(n)
    case _ =>
      if i < Count(v) then Before(v, i) + From(Child(v, i), 0) + From(v, i + 1)
      else (if i == 0 then Opening(v) else "") + Closing(v)
  }

  /** The rendering of a tree. */
  function Render(v: Value): string {
    From(v, 0)
  }

  // ----- The printer -----

  /** A value being printed, and the number of its child that is being printed. */
  datatype Frame = Frame(value: Value, index: nat)

  /** jsontree_print_next: the stack after the step, the top last, what was written, and whether
      there is more to do. */
  function PrintNext(stack: seq<Frame>): (seq<Frame>, string, bool)
    requires stack != []
  {
    var top := stack[|stack| - 1];
    if IsContainer(top.value) && top.index < Count(top.value)
    then (stack + [Frame(Child(top.value, top.index), 0)], Before(top.value, top.index), true)
    else (Up(stack), From(top.value, top.index), |stack| > 1)
  }

  /** The end of a value: back up one level, to the next child. */
  function Up(stack: seq<Frame>): (r: seq<Frame>)
    requires stack != []
    ensures r != []
  {
    if |stack| == 1 then stack
    else
      var below := stack[..|stack| - 1];
      below[|below| - 1 := below[|below| - 1].(index := below[|below| - 1].index + 1)]
  }

  /** What remains to be printed: the rest of the top value, and then the rest of each below it
      after the child that is being printed. */
  function Remaining(stack: seq<Frame>): string
    requires stack != []
  {
    var top := stack[|stack| - 1];
    From(top.value, top.index) + Below(stack[..|stack| - 1])
  }

  function Below(stack: seq<Frame>): string {
    if stack == [] then ""
    else
      var top := stack[|stack| - 1];
      From(top.value, top.index + 1) + Below(stack[..|stack| - 1])
  }

  /** The steps it takes to print a value from its child `i` on. */
  function Steps(v: Value, i: nat): (n: nat)
    ensures n >= 1
    decreases v, Count(v) - i
  {
    if IsContainer(v) && i < Count(v) then Steps(Child(v, i), 0) + Steps(v, i + 1) + 1 else 1
  }

  function StepsLeft(stack: seq<Frame>): (n: nat)
    requires stack != []
    ensures n >= 1
  {
    Steps(stack[|stack| - 1].value, stack[|stack| - 1].index) + StepsBelow(stack[..|stack| - 1])
  }

  function StepsBelow(stack: seq<Frame>): nat {
    if stack == [] then 0
    else Steps(stack[|stack| - 1].value, stack[|stack| - 1].index + 1) + StepsBelow(stack[..|stack| - 1])
  }

  lemma RemainingOf(below: seq<Frame>, f: Frame)
    ensures Remaining(below + [f]) == From(f.value, f.index) + Below(below)
    ensures Below(below + [f]) == From(f.value, f.index + 1) + Below(below)
  {
    var stack := below + [f];
    assert stack[..|below|] == below && stack[|stack| - 1] == f;
  }

  lemma StepsOf(below: seq<Frame>, f: Frame)
    ensures StepsLeft(below + [f]) == Steps(f.value, f.index) + StepsBelow(below)
    ensures StepsBelow(below + [f]) == Steps(f.value, f.index + 1) + StepsBelow(below)
  {
    assert (below + [f])[..|below|] == below;
  }

  lemma FromChild(v: Value, i: nat)
    requires IsContainer(v) && i < Count(v)
    ensures From(v, i) == Before(v, i) + From(Child(v, i), 0) + From(v, i + 1)
  {
  }

  lemma StepDown(below: seq<Frame>, top: Frame, child: Frame, before: string, after: string)
    requires IsContainer(top.value) && top.index < Count(top.value) && child == Frame(Child(top.value, top.index), 0)
    requires before == Remaining(below + [top]) && after == Remaining(below + [top] + [child])
    ensures before == Before(top.value, top.index) + after
  {
    RemainingOf(below, top);
    RemainingOf(below + [top], child);
    FromChild(top.value, top.index);
    AssociateFour(Before(top.value, top.index), From(child.value, 0), From(top.value, top.index + 1), Below(below));
  }

  lemma StepDownCount(below: seq<Frame>, top: Frame)
    requires IsContainer(top.value) && top.index < Count(top.value)
    ensures StepsLeft(below + [top] + [Frame(Child(top.value, top.index), 0)]) == StepsLeft(below + [top]) - 1
  {
    StepsOf(below, top);
    StepsOf(below + [top], Frame(Child(top.value, top.index), 0));
    assert Steps(top.value, top.index) == Steps(Child(top.value, top.index), 0) + Steps(top.value, top.index + 1) + 1;
  }

  lemma AssociateThree<T>(a: seq<T>, b: seq<T>, c: seq<T>)
    ensures a + (b + c) == (a + b) + c
  {
  }

  lemma AssociateFour(a: string, b: string, c: string, d: string)
    ensures a + b + c + d == a + (b + (c + d))
  {
  }

  lemma StepUp(below: seq<Frame>, parent: Frame, top: Frame)
    requires IsContainer(top.value) ==> top.index >= Count(top.value)
    ensures var next := below + [Frame(parent.value, parent.index + 1)];
            Remaining(below + [parent] + [top]) == From(top.value, top.index) + Remaining(next)
            && StepsLeft(next) == StepsLeft(below + [parent] + [top]) - 1
  {
    RemainingOf(below + [parent], top);
    RemainingOf(below, parent);
    RemainingOf(below, Frame(parent.value, parent.index + 1));
    StepsOf(below + [parent], top);
    StepsOf(below, parent);
    StepsOf(below, Frame(parent.value, parent.index + 1));
  }

  /** A step writes the beginning of what remains, and takes one of the steps that are left. */
  lemma StepPrints(stack: seq<Frame>)
    requires stack != []
    ensures var (next, out, more) := PrintNext(stack);
            if more then Remaining(stack) == out + Remaining(next) && StepsLeft(next) == StepsLeft(stack) - 1
            else Remaining(stack) == out && StepsLeft(stack) == 1
  {
    var top, below := stack[|stack| - 1], stack[..|stack| - 1];
    assert stack == below + [top];
    if IsContainer(top.value) && top.index < Count(top.value) {
      var child := Frame(Child(top.value, top.index), 0);
      StepDown(below, top, child, Remaining(stack), Remaining(stack + [child]));
      StepDownCount(below, top);
    } else if |stack| > 1 {
      var parent, rest := below[|below| - 1], below[..|below| - 1];
      assert below == rest + [parent];
      assert Up(stack) == rest + [Frame(parent.value, parent.index + 1)];
      StepUp(rest, parent, top);
    } else {
      RemainingOf([], top);
      StepsOf([], top);
      assert From(top.value, top.index) + "" == From(top.value, top.index);
    }
  }

  /** The output of printing until nothing is left to do. */
  function PrintAll(stack: seq<Frame>): string
    requires stack != []
    decreases StepsLeft(stack)
  {
    StepPrints(stack);
    var (next, out, more) := PrintNext(stack);
    if more then out + PrintAll(next) else out
  }

  /** The printer refines recursion: it stops, and has then written the rendering. */
  lemma {:induction false} PrintsRemaining(stack: seq<Frame>)
    requires stack != []
    ensures PrintAll(stack) == Remaining(stack)
    decreases StepsLeft(stack)
  {
    StepPrints(stack);
    var (next, out, more) := PrintNext(stack);
    if more {
      PrintsRemaining(next);
    }
  }

  lemma PrinterRefinesRendering(root: Value)
    ensures PrintAll([Frame(root, 0)]) == Render(root)
  {
    var stack := [Frame(root, 0)];
    PrintsRemaining(stack);
    assert stack[..0] == [];
    assert Render(root) + "" == Render(root);
  }

  // ----- The printer as an object -----

  /** The tree from child `i` on needs no more than `room` levels, and its integers have at most ten
      digits. */
  predicate Printable(v: Value, i: nat, room: nat)
    decreases v, Count(v) - i
  {
    room >= 1 &&
    match v
    case Int(n) => |Digits(Magnitude(n))| <= MAX_DIGITS
    case String(_) => true
    case _ => i >= Count(v) || (Printable(Child(v, i), 0, room - 1) && Printable(v, i + 1, room))
  }

  lemma {:induction false} ChildPrintable(v: Value, i: nat, k: nat, room: nat)
    requires i <= k < Count(v) && Printable(v, i, room)
    ensures room >= 1 && Printable(Child(v, k), 0, room - 1)
    decreases k - i
  {
    if i < k {
      ChildPrintable(v, i + 1, k, room);
    }
  }

  function Zip(values: seq<Value>, indices: seq<nat>): seq<Frame>
    requires |values| == |indices|
  {
    seq(|values|, k requires 0 <= k < |values| => Frame(values[k], indices[k]))
  }

  /** The last `k` characters of a text. */
  function Last(s: string, k: nat): string {
    if |s| <= k then s else s[|s| - k..]
  }

  lemma LastOf(head: string, tail: string, k: nat)
    requires if head == "" then |tail| <= k else |tail| == k
    ensures Last(head + tail, k) == tail
  {
    assert head == "" ==> head + tail == tail;
  }

  class Printer {
    const values: array<Value>
    const index: array<nat>
    var depth: nat
    /** What has been written. */
    var output: string

    /** There is room on the stacks for what is below each value on them. */
    ghost predicate Valid()
      reads `depth, values
    {
      values.Length == index.Length == MAX_DEPTH && depth < MAX_DEPTH
      && forall k :: 0 <= k <= depth ==> Printable(values[k], 0, MAX_DEPTH - k)
    }

    /** The two stacks, up to the depth. */
    ghost function Stack(): (s: seq<Frame>)
      requires Valid()
      reads `depth, values, index
      ensures |s| == depth + 1
    {
      Zip(values[..depth + 1], index[..depth + 1])
    }

    /** jsontree_setup. */
    constructor (root: Value)
      requires Printable(root, 0, MAX_DEPTH)
      ensures fresh(values) && fresh(index) && Valid() && Stack() == [Frame(root, 0)] && output == ""
    {
      values := new Value[MAX_DEPTH](_ => root);
      index := new nat[MAX_DEPTH](_ => 0);
      depth, output := 0, "";
    }

    /** jsontree_write_string. */
    method WriteString(text: string)
      modifies `output
      ensures output == old(output) + Quoted(text)
    {
      output := output + "\"";
      var i := 0;
      while i < |text|
        invariant 0 <= i <= |text| && output == old(output) + ("\"" + Escape(text[..i]))
      {
        EscapeAppend(text[..i], text[i]);
        assert text[..i + 1] == text[..i] + [text[i]];
        if text[i] == '"' {
          output := output + "\\";
        }
        output := output + [text[i]];
        i := i + 1;
      }
      assert text[..i] == text;
      output := output + "\"";
    }

    /** The digits of a number, collected from the end of the buffer that jsontree_write_int has;
        the ones from `start` on are the last that there is room for. */
    static method FillDigits(n: nat, buf: array<char>) returns (start: nat)
      requires buf.Length == MAX_DIGITS
      modifies buf
      ensures start <= MAX_DIGITS && buf[start..] == Last(Digits(n), MAX_DIGITS)
    {
      var l: int := MAX_DIGITS - 1;
      buf[l] := Digit(n % 10);
      l := l - 1;
      var left: nat := n / 10;
      assert buf[l + 1..] == [Digit(n % 10)];
      while left > 0 && l >= 0
        invariant -1 <= l < MAX_DIGITS - 1
        invariant Digits(n) == (if left == 0 then "" else Digits(left)) + buf[l + 1..]
        decreases l
      {
        ghost var done, head := buf[l + 1..], if left / 10 == 0 then "" else Digits(left / 10);
        buf[l] := Digit(left % 10);
        assert buf[l..] == [Digit(left % 10)] + done;
        AssociateThree(head, [Digit(left % 10)], done);
        l := l - 1;
        left := left / 10;
      }
      start := l + 1;
      LastOf(if left == 0 then "" else Digits(left), buf[start..], MAX_DIGITS);
    }

    /** jsontree_write_int: of a number with more than ten digits, the last ten are written. */
    method WriteInt(value: int)
      modifies `output
      ensures output == old(output) + (if value < 0 then "-" else "") + Last(Digits(Magnitude(value)), MAX_DIGITS)
    {
      if value < 0 {
        output := output + "-";
      }
      var buf := new char[MAX_DIGITS](_ => '0');
      var start := FillDigits(Magnitude(value), buf);
      var l := start;
      ghost var sign := output;
      assert sign == old(output) + if value < 0 then "-" else "";
      while l < MAX_DIGITS
        invariant start <= l <= MAX_DIGITS && output == sign + buf[start..l]
        invariant buf[start..] == Last(Digits(Magnitude(value)), MAX_DIGITS)
      {
        assert buf[start..l + 1] == buf[start..l] + [buf[l]];
        output := output + [buf[l]];
        l := l + 1;
      }
      assert buf[start..l] == buf[start..];
    }

    /** The step down to a child. */
    method Descend(v: Value, i: nat)
      requires Valid() && v == values[depth] && i == index[depth] && IsContainer(v) && i < Count(v)
      modifies this, values, index
      ensures Valid() && Stack() == old(Stack()) + [Frame(Child(v, i), 0)] && output == old(output)
    {
      ghost var before := Stack();
      ChildPrintable(v, 0, i, MAX_DEPTH - depth);
      depth := depth + 1;
      index[depth] := 0;
      values[depth] := Child(v, i);
      assert forall k :: 0 <= k < depth ==> Stack()[k] == before[k];
    }

    /** The step up at the end of a value. */
    method Ascend()
      requires Valid() && depth > 0
      modifies `depth, index
      ensures Valid() && Stack() == Up(old(Stack()))
    {
      ghost var before := Stack();
      depth := depth - 1;
      index[depth] := index[depth] + 1;
      assert forall k :: 0 <= k < depth ==> Stack()[k] == before[k];
    }

    /** What stands before a child, and the step down to it. */
    method WriteBefore(v: Value, i: nat)
      requires i < Count(v)
      modifies `output
      ensures output == old(output) + Before(v, i)
    {
      if i == 0 {
        output := output + Opening(v);
      }
      if i > 0 {
        output := output + ",\n";
      }
      if v.Object? {
        WriteString(v.pairs[i].name);
        output := output + ":";
      }
    }

    /** A value without children, or the end of one whose children have been printed. */
    method WriteEnd(v: Value, i: nat)
      requires IsContainer(v) ==> i >= Count(v)
      requires v.Int? ==> |Digits(Magnitude(v.n))| <= MAX_DIGITS
      modifies `output
      ensures output == old(output) + From(v, i)
    {
      match v {
        case String(text) => WriteString(text);
        case Int(n) =>
          WriteInt(n);
          assert output == old(output) + Integer(n);
        case _ =>
          if i == 0 {
            output := output + Opening(v);
          }
          output := output + Closing(v);
      }
    }

    /** jsontree_print_next. */
    method Next() returns (more: bool)
      requires Valid()
      modifies this, values, index
      ensures Valid()
      ensures var (next, out, m) := PrintNext(old(Stack())); Stack() == next && output == old(output) + out && more == m
    {
      var v, i := values[depth], index[depth];
      assert Stack()[depth] == Frame(v, i);
      if IsContainer(v) && i < Count(v) {
        WriteBefore(v, i);
        Descend(v, i);
        more := true;
      } else {
        WriteEnd(v, i);
        more := depth > 0;
        if more {
          Ascend();
        }
      }
    }
  }

  /** What is printed, step by step. */
  lemma PrintAllStep(stack: seq<Frame>, all: string)
    requires stack != [] && all == PrintAll(stack)
    ensures var (next, out, more) := PrintNext(stack);
            if more then all == out + PrintAll(next) && StepsLeft(next) < StepsLeft(stack) else all == out
  {
    StepPrints(stack);
  }

  /** Printing a tree until jsontree_print_next returns 0. */
  method PrintTree(root: Value) returns (output: string)
    requires Printable(root, 0, MAX_DEPTH)
    ensures output == Render(root)
  {
    var printer := new Printer(root);
    var more := true;
    ghost var stack, rest, done := [Frame(root, 0)], PrintAll([Frame(root, 0)]), "";
    PrinterRefinesRendering(root);
    while more
      invariant printer.Valid() && fresh(printer) && fresh(printer.values) && fresh(printer.index)
      invariant stack != [] && stack == printer.Stack() && done == printer.output
      invariant if more then rest == PrintAll(stack) else rest == ""
      invariant Render(root) == done + rest
      decreases more, StepsLeft(stack)
    {
      PrintAllStep(stack, rest);
      ghost var out := PrintNext(stack).1;
      more := printer.Next();
      ghost var after := if more then PrintAll(PrintNext(stack).0) else "";
      AssociateThree(done, out, after);
      stack, rest, done := PrintNext(stack).0, after, done + out;
    }
    output := printer.output;
  }
}
