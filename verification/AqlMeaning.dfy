/** What the compiler makes of a WHERE clause: for the grammar it supports, the prefix form of
    the right-nested condition; and what goes wrong just outside that grammar. */
module AqlMeaning {
  import opened LvmCode
  import opened AqlCompile

  // ----- The supported grammar -----

  /** A variable or a number. */
  type Leaf = e: Expr | !e.Arith? witness Const(0)

  /** One side of a comparison: an operand, two operands around an operator, or an operand and
      an operator in front of a parenthesis nested in the same way. */
  datatype Side =
    | Plain(leaf: Leaf)
    | Flat(left: Leaf, op: ArithOp, right: Leaf)
    | Nested(left: Leaf, op: ArithOp, inner: Side)

  datatype Comparison = Comparison(left: Side, rel: RelOp, right: Side)

  datatype Where = One(c: Comparison) | Chain(c: Comparison, conn: Connective, rest: Where)

  function LeafToken(e: Leaf): Token {
    if e.Const? then Integer(e.l) else Identifier(e.name)
  }

  function SideTokens(s: Side): seq<Token> {
    match s
    case Plain(leaf) => [LeafToken(leaf)]
    case Flat(left, op, right) => [LeafToken(left), Op(op), LeafToken(right)]
    case Nested(left, op, inner) => [LeafToken(left), Op(op), LeftParen] + SideTokens(inner) + [RightParen]
  }

  function ComparisonTokens(c: Comparison): seq<Token> {
    SideTokens(c.left) + ([Rel(c.rel)] + SideTokens(c.right))
  }

  function WhereTokens(w: Where): seq<Token> {
    match w
    case One(c) => ComparisonTokens(c)
    case Chain(c, conn, rest) => ComparisonTokens(c) + ([Connect(conn)] + WhereTokens(rest))
  }

  function SideExpr(s: Side): Expr {
    match s
    case Plain(leaf) => leaf
    case Flat(left, op, right) => Arith(op, left, right)
    case Nested(left, op, inner) => Arith(op, left, SideExpr(inner))
  }

  function ComparisonCond(c: Comparison): Cond {
    Cmp(c.rel, SideExpr(c.left), SideExpr(c.right))
  }

  /** c1 k1 c2 k2 ... cn, read as c1 k1 (c2 k2 (... cn)). */
  function WhereCond(w: Where): Cond {
    match w
    case One(c) => ComparisonCond(c)
    case Chain(c, conn, rest) => Join(conn, ComparisonCond(c), WhereCond(rest))
  }

  // ----- Variables are numbered in the order in which they first occur -----

  function Add(names: seq<string>, name: string): seq<string> {
    if name in names then names else names + [name]
  }

  function ExprNames(e: Expr, names: seq<string>): seq<string> {
    match e
    case Const(_) => names
    case Var(name) => Add(names, name)
    case Arith(_, left, right) => ExprNames(right, ExprNames(left, names))
  }

  function CondNames(c: Cond, names: seq<string>): seq<string> {
    match c
    case Cmp(_, left, right) => ExprNames(right, ExprNames(left, names))
    case Join(_, c1, c2) => CondNames(c2, CondNames(c1, names))
    case Not(c) => CondNames(c, names)
  }

  lemma {:induction false} IdStable(name: string, names: seq<string>, more: seq<string>)
    requires name in names && names <= more
    ensures name in more && IdOf(name, more) == IdOf(name, names)
  {
    assert more[0] == names[0];
    if names[0] != name {
      IdStable(name, names[1..], more[1..]);
    }
  }

  /** A longer variable table gives the same bytes. */
  lemma {:induction false} ExprBytesStable(e: Expr, names: seq<string>, more: seq<string>)
    requires ExprKnown(e, names) && names <= more && |more| <= VARIABLE_SLOTS
    ensures ExprKnown(e, more) && ExprBytes(e, more) == ExprBytes(e, names)
    decreases e
  {
    match e
    case Const(_) =>
    case Var(name) => IdStable(name, names, more);
    case Arith(_, left, right) =>
      ExprBytesStable(left, names, more);
      ExprBytesStable(right, names, more);
  }

  lemma {:induction false} CondBytesStable(c: Cond, names: seq<string>, more: seq<string>)
    requires CondKnown(c, names) && names <= more && |more| <= VARIABLE_SLOTS
    ensures CondKnown(c, more) && CondBytes(c, more) == CondBytes(c, names)
    decreases c
  {
    match c
    case Cmp(_, left, right) =>
      ExprBytesStable(left, names, more);
      ExprBytesStable(right, names, more);
    case Join(_, c1, c2) =>
      CondBytesStable(c1, names, more);
      CondBytesStable(c2, names, more);
    case Not(d) => CondBytesStable(d, names, more);
  }

  lemma {:induction false} ExprNamesGrow(e: Expr, names: seq<string>)
    ensures names <= ExprNames(e, names)
    decreases e
  {
    if e.Arith? {
      ExprNamesGrow(e.left, names);
      ExprNamesGrow(e.right, ExprNames(e.left, names));
    }
  }

  lemma {:induction false} CondNamesGrow(c: Cond, names: seq<string>)
    ensures names <= CondNames(c, names)
    decreases c
  {
    match c
    case Cmp(_, left, right) =>
      ExprNamesGrow(left, names);
      ExprNamesGrow(right, ExprNames(left, names));
    case Join(_, c1, c2) =>
      CondNamesGrow(c1, names);
      CondNamesGrow(c2, CondNames(c1, names));
    case Not(d) => CondNamesGrow(d, names);
  }

  lemma {:induction false} ExprNamesKnow(e: Expr, names: seq<string>)
    requires |ExprNames(e, names)| <= VARIABLE_SLOTS
    ensures ExprKnown(e, ExprNames(e, names))
    decreases e
  {
    if e.Arith? {
      var mid := ExprNames(e.left, names);
      ExprNamesGrow(e.right, mid);
      ExprNamesKnow(e.left, names);
      ExprNamesKnow(e.right, mid);
      ExprBytesStable(e.left, mid, ExprNames(e.right, mid));
    }
  }

  // ----- Emission -----

  /** From `v` to `w` exactly the bytes `b` were appended, and the variable table became `names`. */
  ghost predicate Appended(v: Vm, w: Vm, b: seq<byte>, names: seq<string>) {
    v.end + |b| <= |v.code|
    && w.end == v.end + |b| && |w.code| == |v.code|
    && w.code[..w.end] == v.code[..v.end] + b
    && w.names == names && w.error == v.error && w.bad == v.bad
  }

  lemma AppendedTwice(u: Vm, v: Vm, w: Vm, a: seq<byte>, b: seq<byte>, n1: seq<string>, n2: seq<string>)
    requires Appended(u, v, a, n1) && Appended(v, w, b, n2)
    ensures Appended(u, w, a + b, n2)
  {
  }

  lemma EmitAppends(v: Vm, b: seq<byte>)
    requires v.end + |b| <= |v.code|
    ensures Appended(v, Emit(v, b), b, v.names)
  {
  }

  /** Shifting the bytes between `at` and `end` up by four and writing `node` into the gap. */
  lemma GapFilled(code: seq<byte>, at: nat, end: nat, node: seq<byte>, shifted: seq<byte>, filled: seq<byte>)
    requires at <= end && end + 4 <= |code| && |node| == 4
    requires shifted == code[..at + 4] + code[at..end] + code[end + 4..]
    requires filled == shifted[..at] + node + shifted[at + 4..]
    ensures |filled| == |code| && filled[..end + 4] == code[..at] + node + code[at..end]
  {
    assert shifted[..at] == code[..at];
    assert shifted[at + 4..end + 4] == code[at..end];
  }

  /** Shifting, writing the operator into the gap and moving the end behind the shifted bytes
      puts the operator in front of the bytes emitted since `u`. */
  lemma InsertAppends(u: Vm, v: Vm, b: seq<byte>, names: seq<string>, node: seq<byte>)
    requires Appended(u, v, b, names) && b != [] && |node| == 4 && v.end + 4 < |v.code|
    ensures Appended(u, InsertOperator(v, u.end, node), node + b, names)
    ensures ShiftedEnd(v, u.end) == u.end + 4 + |b|
  {
    var s := ShiftForOperator(v, u.end);
    var t := Emit(s, node);
    var w := SetEnd(t, v.end + 4);
    assert w == InsertOperator(v, u.end, node);
    assert v.code[u.end..v.end] == b && v.code[..u.end] == u.code[..u.end] by {
      var all := v.code[..v.end];
      assert all[..u.end] == v.code[..u.end];
      assert all[u.end..] == v.code[u.end..v.end];
    }
    GapFilled(v.code, u.end, v.end, node, s.code, t.code);
    assert w.code[..w.end] == u.code[..u.end] + node + b == u.code[..u.end] + (node + b);
  }

  lemma OperandAppends(p: Parser, leaf: Leaf, rest: seq<Token>)
    requires p.toks == [LeafToken(leaf)] + rest
    requires |ExprNames(leaf, p.vm.names)| <= VARIABLE_SLOTS && p.vm.end + 8 <= |p.vm.code|
    ensures ExprKnown(leaf, ExprNames(leaf, p.vm.names))
    ensures var (q, status) := ParseOperand(p);
            status == OK && q.toks == rest
            && Appended(p.vm, q.vm, ExprBytes(leaf, ExprNames(leaf, p.vm.names)), ExprNames(leaf, p.vm.names))
  {
    ExprNamesKnow(leaf, p.vm.names);
    if leaf.Var? {
      EmitAppends(Register(Next(p).vm, leaf.name), VarBytes(IdOf(leaf.name, Register(Next(p).vm, leaf.name).names)));
    } else {
      EmitAppends(p.vm, ConstBytes(leaf.l));
    }
  }

  // ----- Expressions -----

  /** No operator follows. */
  predicate Ends(rest: seq<Token>) {
    rest == [] || !rest[0].Op?
  }

  /** What an expression leaves of the tokens after it: it consumes one closing parenthesis. */
  function AfterSide(rest: seq<Token>): seq<Token> {
    if rest != [] && rest[0] == RightParen then rest[1..] else rest
  }

  lemma LoopEnds(p: Parser, saved: nat)
    requires Ends(p.toks)
    ensures var (q, status) := ParseExprLoop(p, saved);
            status == OK && q.toks == AfterSide(p.toks) && q.vm == p.vm
  {
  }

  /** After an operand has been emitted: an operator and the prefix form of what follows it. */
  lemma LoopOnce(u: Vm, p: Parser, q: Parser, op: ArithOp, a: seq<byte>, b: seq<byte>, n1: seq<string>, n2: seq<string>,
                 rest: seq<Token>)
    requires p.toks != [] && p.toks[0] == Op(op) && Ends(rest)
    requires ParseOperandOrExpr(Next(p)) == (q, OK) && q.toks == rest
    requires Appended(u, p.vm, a, n1) && Appended(p.vm, q.vm, b, n2) && a != []
    requires u.end + |a| + |b| + 4 < |u.code|
    ensures var (r, status) := ParseExprLoop(p, u.end);
            status == OK && r.toks == AfterSide(rest)
            && Appended(u, r.vm, NodeBytes(LVM_ARITH_OP, ArithCode(op)) + a + b, n2)
  {
    var node := NodeBytes(LVM_ARITH_OP, ArithCode(op));
    AppendedTwice(u, p.vm, q.vm, a, b, n1, n2);
    InsertAppends(u, q.vm, a + b, n2, node);
    assert node + (a + b) == node + a + b;
    var next := q.(vm := InsertOperator(q.vm, u.end, node));
    LoopEnds(next, ShiftedEnd(q.vm, u.end));
  }

  /** What `SideParses` promises. */
  ghost predicate SideDone(p: Parser, r: (Parser, int), e: Expr, rest: seq<Token>) {
    var names := ExprNames(e, p.vm.names);
    |names| <= VARIABLE_SLOTS && ExprKnown(e, names)
    && r.1 == OK && r.0.toks == AfterSide(rest) && Appended(p.vm, r.0.vm, ExprBytes(e, names), names)
  }

  lemma StartsWithLeaf(p: Parser, leaf: Leaf, rest: seq<Token>)
    requires p.toks == [LeafToken(leaf)] + rest
    requires |ExprNames(leaf, p.vm.names)| <= VARIABLE_SLOTS && p.vm.end + 8 <= |p.vm.code|
    ensures var (q, status) := ParseOperand(Rewind(Next(p)));
            status == OK && q.toks == rest && ParseExpr(p) == ParseExprLoop(q, p.vm.end)
            && ExprKnown(leaf, ExprNames(leaf, p.vm.names))
            && Appended(p.vm, q.vm, ExprBytes(leaf, ExprNames(leaf, p.vm.names)), ExprNames(leaf, p.vm.names))
  {
    OperandAppends(Rewind(Next(p)), leaf, rest);
  }

  /** What stands to the right of an operator has been parsed and appended. */
  ghost predicate RightDone(v: Vm, q: Parser, right: Expr, names: seq<string>, rest: seq<Token>) {
    var more := ExprNames(right, names);
    |more| <= VARIABLE_SLOTS && ExprKnown(right, more) && q.toks == rest
        && Appended(v, q.vm, ExprBytes(right, more), more)
  }

  /** An operand, an operator, and whatever follows it emit the prefix form of the whole. */
  lemma OperationParses(p: Parser, q: Parser, left: Leaf, op: ArithOp, right: Expr, rest: seq<Token>, more: seq<Token>)
    requires p.toks == [LeafToken(left)] + ([Op(op)] + more) && Ends(rest)
    requires |ExprNames(Arith(op, left, right), p.vm.names)| <= VARIABLE_SLOTS
    requires p.vm.end + ExprSize(Arith(op, left, right)) < |p.vm.code|
    requires ParseOperandOrExpr(Next(ParseOperand(Rewind(Next(p))).0)) == (q, OK)
    requires RightDone(ParseOperand(Rewind(Next(p))).0.vm, q, right, ExprNames(left, p.vm.names), rest)
    ensures SideDone(p, ParseExpr(p), Arith(op, left, right), rest)
  {
    var n1 := ExprNames(left, p.vm.names);
    var n2 := ExprNames(right, n1);
    ExprNamesGrow(right, n1);
    SizePositive(right);
    StartsWithLeaf(p, left, [Op(op)] + more);
    var first := ParseOperand(Rewind(Next(p))).0;
    ExprStable(left, n1, n2);
    LoopOnce(p.vm, first, q, op, ExprBytes(left, n1), ExprBytes(right, n2), n1, n2, rest);
    ExprBytesSize(left, n1);
  }

  lemma ExprStable(e: Expr, names: seq<string>, more: seq<string>)
    requires ExprKnown(e, names) && names <= more && |more| <= VARIABLE_SLOTS
    ensures ExprKnown(e, more) && ExprBytes(e, more) == ExprBytes(e, names)
  {
    ExprBytesStable(e, names, more);
  }

  lemma ExprBytesSize(e: Expr, names: seq<string>)
    requires ExprKnown(e, names) && |names| <= VARIABLE_SLOTS
    ensures |ExprBytes(e, names)| == ExprSize(e) >= 8
  {
    SizePositive(e);
  }

  lemma FlatParses(p: Parser, left: Leaf, op: ArithOp, right: Leaf, rest: seq<Token>)
    requires p.toks == [LeafToken(left), Op(op), LeafToken(right)] + rest && Ends(rest)
    requires |ExprNames(Arith(op, left, right), p.vm.names)| <= VARIABLE_SLOTS
    requires p.vm.end + ExprSize(Arith(op, left, right)) < |p.vm.code|
    ensures SideDone(p, ParseExpr(p), Arith(op, left, right), rest)
  {
    ExprNamesGrow(right, ExprNames(left, p.vm.names));
    var more := [LeafToken(right)] + rest;
    assert p.toks == [LeafToken(left)] + ([Op(op)] + more);
    StartsWithLeaf(p, left, [Op(op)] + more);
    var first := ParseOperand(Rewind(Next(p))).0;
    OperandAppends(Next(first), right, rest);
    OperationParses(p, ParseOperand(Next(first)).0, left, op, right, rest, more);
  }

  lemma NestedStarts(p: Parser, left: Leaf, op: ArithOp, tail: seq<Token>) returns (first: Parser, inside: Parser)
    requires p.toks == [LeafToken(left), Op(op), LeftParen] + tail
    requires |ExprNames(left, p.vm.names)| <= VARIABLE_SLOTS && p.vm.end + 8 <= |p.vm.code|
    ensures first == ParseOperand(Rewind(Next(p))).0
    ensures inside.toks == tail && inside.vm == first.vm
    ensures inside.vm.names == ExprNames(left, p.vm.names) && inside.vm.end == p.vm.end + 8
            && |inside.vm.code| == |p.vm.code|
    ensures ParseOperandOrExpr(Next(first)) == ParseExpr(inside)
  {
    var more := [LeftParen] + tail;
    assert p.toks == [LeafToken(left)] + ([Op(op)] + more);
    StartsWithLeaf(p, left, [Op(op)] + more);
    first := ParseOperand(Rewind(Next(p))).0;
    ExprBytesSize(left, ExprNames(left, p.vm.names));
    inside := ParseOperand(Next(first)).0;
  }

  lemma NestedParses(p: Parser, left: Leaf, op: ArithOp, right: Expr, first: Parser, inside: Parser,
                     tail: seq<Token>, rest: seq<Token>, inner: seq<Token>)
    requires p.toks == [LeafToken(left), Op(op), LeftParen] + tail && tail == inner + ([RightParen] + rest)
             && Ends(rest)
    requires |ExprNames(Arith(op, left, right), p.vm.names)| <= VARIABLE_SLOTS
    requires p.vm.end + ExprSize(Arith(op, left, right)) < |p.vm.code|
    requires first == ParseOperand(Rewind(Next(p))).0
    requires inside.vm == first.vm && inside.vm.names == ExprNames(left, p.vm.names)
    requires ParseOperandOrExpr(Next(first)) == ParseExpr(inside)
    requires SideDone(inside, ParseExpr(inside), right, [RightParen] + rest)
    ensures SideDone(p, ParseExpr(p), Arith(op, left, right), rest)
  {
    var more := [LeftParen] + tail;
    assert p.toks == [LeafToken(left)] + ([Op(op)] + more);
    assert RightDone(first.vm, ParseExpr(inside).0, right, ExprNames(left, p.vm.names), rest) by {
      assert AfterSide([RightParen] + rest) == rest;
    }
    OperationParses(p, ParseExpr(inside).0, left, op, right, rest, more);
  }

  /** One side of a comparison parses, and the prefix form of it is appended to the code. */
  lemma {:induction false} SideParses(p: Parser, s: Side, rest: seq<Token>)
    requires p.toks == SideTokens(s) + rest && Ends(rest)
    requires |ExprNames(SideExpr(s), p.vm.names)| <= VARIABLE_SLOTS
    requires p.vm.end + ExprSize(SideExpr(s)) < |p.vm.code|
    ensures SideDone(p, ParseExpr(p), SideExpr(s), rest)
    decreases s
  {
    match s
    case Plain(leaf) =>
      StartsWithLeaf(p, leaf, rest);
      LoopEnds(ParseOperand(Rewind(Next(p))).0, p.vm.end);
    case Flat(left, op, right) => FlatParses(p, left, op, right, rest);
    case Nested(left, op, inner) =>
      SizePositive(SideExpr(inner));
      ExprNamesGrow(SideExpr(inner), ExprNames(left, p.vm.names));
      var tail := SideTokens(inner) + ([RightParen] + rest);
      assert p.toks == [LeafToken(left), Op(op), LeftParen] + tail;
      var first, inside := NestedStarts(p, left, op, tail);
      SideParses(inside, inner, [RightParen] + rest);
      NestedParses(p, left, op, SideExpr(inner), first, inside, tail, rest, SideTokens(inner));
  }

  // ----- Comparisons -----

  /** Filling the gap in front of the left side with the relational operator. */
  function FillGap(q: Vm, at: nat, node: seq<byte>): Vm {
    SetEnd(Emit(SetEnd(q, at), node), q.end)
  }

  lemma FillAppends(u: Vm, q: Vm, b: seq<byte>, names: seq<string>, node: seq<byte>)
    requires u.end + 4 < |u.code| && |node| == 4
    requires Appended(JumpToOperand(u), q, b, names) && q.end < |q.code|
    ensures Appended(u, FillGap(q, u.end, node), node + b, names)
  {
    var w := FillGap(q, u.end, node);
    var all := q.code[..q.end];
    assert q.code[..u.end] == u.code[..u.end] by {
      assert all[..u.end] == q.code[..u.end];
      assert (u.code[..u.end + 4] + b)[..u.end] == u.code[..u.end];
    }
    assert q.code[u.end + 4..q.end] == b by {
      assert all[u.end + 4..] == q.code[u.end + 4..q.end];
    }
    assert w.code == q.code[..u.end] + node + q.code[u.end + 4..];
    assert w.code[..w.end] == u.code[..u.end] + (node + b);
  }

  /** What `ComparisonParses` and the lemmas after it promise. */
  ghost predicate CondDone(u: Vm, r: (Parser, int), c: Cond, names: seq<string>, rest: seq<Token>) {
    |names| <= VARIABLE_SLOTS && CondKnown(c, names)
    && r.1 == OK && r.0.toks == AfterSide(rest) && Appended(u, r.0.vm, CondBytes(c, names), names)
  }

  /** Both sides emitted, with the operator in front: the prefix form of the comparison. */
  lemma SidesJoin(u: Vm, v: Vm, w: Vm, rel: RelOp, left: Expr, right: Expr)
    requires var n1 := ExprNames(left, u.names);
             var n2 := ExprNames(right, n1);
             |n2| <= VARIABLE_SLOTS && ExprKnown(left, n1) && ExprKnown(right, n2) && |n1| <= VARIABLE_SLOTS
             && Appended(u, v, NodeBytes(LVM_CMP_OP, RelCode(rel)) + ExprBytes(left, n1), n1)
             && Appended(v, w, ExprBytes(right, n2), n2)
    ensures var n2 := ExprNames(right, ExprNames(left, u.names));
            CondKnown(Cmp(rel, left, right), n2) && Appended(u, w, CondBytes(Cmp(rel, left, right), n2), n2)
  {
    var n1 := ExprNames(left, u.names);
    var n2 := ExprNames(right, n1);
    ExprNamesGrow(right, n1);
    ExprStable(left, n1, n2);
    AppendedTwice(u, v, w, NodeBytes(LVM_CMP_OP, RelCode(rel)) + ExprBytes(left, n1), ExprBytes(right, n2), n1, n2);
  }

  /** The parser after the left side and the operator of a comparison. */
  function AfterOperator(p: Parser, rel: RelOp): Parser {
    var q := ParseExpr(p.(vm := JumpToOperand(p.vm))).0;
    var r := Next(q.(vm := SetEnd(q.vm, p.vm.end)));
    r.(vm := FillGap(q.vm, p.vm.end, NodeBytes(LVM_CMP_OP, RelCode(rel))))
  }

  lemma LeftSideParses(p: Parser, b: seq<byte>, n1: seq<string>, rel: RelOp, more: seq<Token>)
    requires p.vm.end + 4 + |b| < |p.vm.code|
    requires var r := ParseExpr(p.(vm := JumpToOperand(p.vm)));
             r.1 == OK && r.0.toks == [Rel(rel)] + more && Appended(JumpToOperand(p.vm), r.0.vm, b, n1)
    ensures AfterOperator(p, rel).toks == more
    ensures ParseComparison(p).0 == ParseExpr(AfterOperator(p, rel)).0
    ensures ParseExpr(AfterOperator(p, rel)).1 == OK ==> ParseComparison(p).1 == OK
    ensures Appended(p.vm, AfterOperator(p, rel).vm, NodeBytes(LVM_CMP_OP, RelCode(rel)) + b, n1)
  {
    FillAppends(p.vm, ParseExpr(p.(vm := JumpToOperand(p.vm))).0.vm, b, n1, NodeBytes(LVM_CMP_OP, RelCode(rel)));
  }

  lemma ComparisonParses(p: Parser, c: Comparison, rest: seq<Token>)
    requires p.toks == ComparisonTokens(c) + rest && Ends(rest)
    requires |CondNames(ComparisonCond(c), p.vm.names)| <= VARIABLE_SLOTS
    requires p.vm.end + CondSize(ComparisonCond(c)) < |p.vm.code|
    ensures CondDone(p.vm, ParseComparison(p), ComparisonCond(c), CondNames(ComparisonCond(c), p.vm.names), rest)
  {
    var left, right := SideExpr(c.left), SideExpr(c.right);
    var n1 := ExprNames(left, p.vm.names);
    ExprNamesGrow(right, n1);
    SizePositive(left);
    SizePositive(right);
    var jumped := p.(vm := JumpToOperand(p.vm));
    var more := SideTokens(c.right) + rest;
    assert jumped.toks == SideTokens(c.left) + ([Rel(c.rel)] + more);
    SideParses(jumped, c.left, [Rel(c.rel)] + more);
    ExprBytesSize(left, n1);
    LeftSideParses(p, ExprBytes(left, n1), n1, c.rel, more);
    var r := AfterOperator(p, c.rel);
    SideParses(r, c.right, rest);
    SidesJoin(p.vm, r.vm, ParseExpr(r).0.vm, c.rel, left, right);
  }

  // ----- Chains of comparisons -----

  lemma WhereStartsWithLeaf(w: Where)
    ensures |WhereTokens(w)| > 0
    ensures WhereTokens(w)[0].Integer? || WhereTokens(w)[0].Identifier?
  {
    var c := w.c;
    assert SideTokens(c.left) <= ComparisonTokens(c) <= WhereTokens(w);
  }

  lemma CondBytesSize(c: Cond, names: seq<string>)
    requires CondKnown(c, names) && |names| <= VARIABLE_SLOTS
    ensures |CondBytes(c, names)| == CondSize(c) >= 4
  {
  }

  /** A connective in front of the last comparison, and the rest of the clause behind it. */
  lemma JoinBytes(u: Vm, v: Vm, w: Vm, conn: Connective, c1: Cond, c2: Cond, n1: seq<string>, n2: seq<string>)
    requires |n2| <= VARIABLE_SLOTS && n1 <= n2 && CondKnown(c1, n1) && CondKnown(c2, n2)
    requires Appended(u, v, NodeBytes(LVM_CMP_OP, ConnectiveCode(conn)) + CondBytes(c1, n1), n1)
    requires Appended(v, w, CondBytes(c2, n2), n2)
    ensures CondKnown(Join(conn, c1, c2), n2) && Appended(u, w, CondBytes(Join(conn, c1, c2), n2), n2)
  {
    CondBytesStable(c1, n1, n2);
    AppendedTwice(u, v, w, NodeBytes(LVM_CMP_OP, ConnectiveCode(conn)) + CondBytes(c1, n1), CondBytes(c2, n2), n1, n2);
  }

  /** The parser that reads the next comparison, with the connective inserted. */
  function AfterConnective(p: Parser, at: nat, conn: Connective): Parser {
    var q := Next(p);
    Rewind(Next(q.(vm := InsertOperator(q.vm, at, NodeBytes(LVM_CMP_OP, ConnectiveCode(conn))))))
  }

  /** The connective is put in front of what the last comparison emitted. */
  lemma ConnectiveParses(u: Vm, p: Parser, b: seq<byte>, conn: Connective, more: seq<Token>)
    requires p.toks == [Connect(conn)] + more && more != [] && more[0] != LeftParen
    requires Appended(u, p.vm, b, p.vm.names) && b != [] && u.end + |b| + 4 < |u.code|
    ensures var r := AfterConnective(p, u.end, conn);
            r.toks == more
            && Appended(u, r.vm, NodeBytes(LVM_CMP_OP, ConnectiveCode(conn)) + b, p.vm.names)
            && (ParseComparison(r).1 == OK ==>
                  ParseWhereLoop(p, u.end) == ParseWhereLoop(ParseComparison(r).0, r.vm.end))
  {
    InsertAppends(u, p.vm, b, p.vm.names, NodeBytes(LVM_CMP_OP, ConnectiveCode(conn)));
  }

  lemma WhereLoopEnds(p: Parser, saved: nat)
    requires p.toks == [] || !p.toks[0].Connect?
    ensures ParseWhereLoop(p, saved).1 == OK
    ensures ParseWhereLoop(p, saved).0.toks == p.toks && ParseWhereLoop(p, saved).0.vm == p.vm
  {
  }

  /** What follows a WHERE clause: neither an operator nor, past one closing parenthesis, a connective. */
  predicate EndsWhere(rest: seq<Token>) {
    Ends(rest) && (AfterSide(rest) == [] || !AfterSide(rest)[0].Connect?)
  }

  /** The last comparison stands between `u.end` and the end of the code; a connective and the
      rest of the clause follow. */
  lemma {:induction false} ChainParses(u: Vm, p: Parser, c: Cond, conn: Connective, w: Where, rest: seq<Token>)
    requires p.toks == [Connect(conn)] + (WhereTokens(w) + rest) && EndsWhere(rest)
    requires |CondNames(WhereCond(w), p.vm.names)| <= VARIABLE_SLOTS && |p.vm.names| <= VARIABLE_SLOTS
    requires CondKnown(c, p.vm.names) && Appended(u, p.vm, CondBytes(c, p.vm.names), p.vm.names)
    requires u.end + CondSize(Join(conn, c, WhereCond(w))) < |u.code|
    ensures CondDone(u, ParseWhereLoop(p, u.end), Join(conn, c, WhereCond(w)), CondNames(WhereCond(w), p.vm.names),
                     rest)
    decreases w
  {
    WhereStartsWithLeaf(w);
    CondBytesSize(c, p.vm.names);
    ConnectiveParses(u, p, CondBytes(c, p.vm.names), conn, WhereTokens(w) + rest);
    var r := AfterConnective(p, u.end, conn);
    CondNamesGrow(WhereCond(w), p.vm.names);
    if w.One? {
      ComparisonParses(r, w.c, rest);
      WhereLoopEnds(ParseComparison(r).0, r.vm.end);
      JoinBytes(u, r.vm, ParseComparison(r).0.vm, conn, c, ComparisonCond(w.c), p.vm.names,
                CondNames(WhereCond(w), p.vm.names));
    } else {
      ChainStep(r, w, rest);
      ChainParses(r.vm, ParseComparison(r).0, ComparisonCond(w.c), w.conn, w.rest, rest);
      JoinBytes(u, r.vm, ParseWhereLoop(ParseComparison(r).0, r.vm.end).0.vm, conn, c, WhereCond(w), p.vm.names,
                CondNames(WhereCond(w), p.vm.names));
    }
  }

  /** The first comparison of a longer chain. */
  lemma ChainStep(p: Parser, w: Where, rest: seq<Token>)
    requires w.Chain? && p.toks == WhereTokens(w) + rest
    requires |CondNames(WhereCond(w), p.vm.names)| <= VARIABLE_SLOTS
    requires p.vm.end + CondSize(WhereCond(w)) < |p.vm.code|
    ensures var (q, status) := ParseComparison(p);
            status == OK && q.toks == [Connect(w.conn)] + (WhereTokens(w.rest) + rest)
            && q.vm.names == CondNames(ComparisonCond(w.c), p.vm.names) && |q.vm.names| <= VARIABLE_SLOTS
            && CondKnown(ComparisonCond(w.c), q.vm.names)
            && Appended(p.vm, q.vm, CondBytes(ComparisonCond(w.c), q.vm.names), q.vm.names)
  {
    var more := [Connect(w.conn)] + (WhereTokens(w.rest) + rest);
    CondNamesGrow(WhereCond(w.rest), CondNames(ComparisonCond(w.c), p.vm.names));
    assert p.toks == ComparisonTokens(w.c) + more;
    ComparisonParses(p, w.c, more);
  }

  /** A whole clause, compiled into an empty buffer: the code is the prefix form of the
      right-nested condition. */
  lemma WhereParses(p: Parser, w: Where, rest: seq<Token>)
    requires p.toks == WhereTokens(w) + rest && EndsWhere(rest) && p.vm.end == 0
    requires |CondNames(WhereCond(w), p.vm.names)| <= VARIABLE_SLOTS
    requires CondSize(WhereCond(w)) < |p.vm.code|
    ensures CondDone(p.vm, ParseWhere(p), WhereCond(w), CondNames(WhereCond(w), p.vm.names), rest)
  {
    if w.One? {
      ComparisonParses(p, w.c, rest);
      WhereLoopEnds(ParseComparison(p).0, 0);
    } else {
      ChainStep(p, w, rest);
      ChainParses(p.vm, ParseComparison(p).0, ComparisonCond(w.c), w.conn, w.rest, rest);
    }
  }

  /** The engine after `lvm_reset`. */
  function Fresh(size: nat): Vm {
    Vm(seq(size, _ => 0), 0, false, [], false)
  }

  /** The compiler is correct: a clause c1 k1 c2 ... cn whose code fits the buffer compiles
      without an error, and executing the code on any row gives the truth value of
      c1 k1 (c2 k2 (...)), or MATH_ERROR if a division anywhere is by zero, and consumes
      exactly the emitted bytes. */
  lemma CompilationPreservesMeaning(w: Where, rest: seq<Token>, size: nat, vars: seq<long>, env: string -> long)
    requires EndsWhere(rest)
    requires |CondNames(WhereCond(w), [])| <= VARIABLE_SLOTS && CondSize(WhereCond(w)) < size
    requires Agrees(CondNames(WhereCond(w), []), vars, env)
    ensures var (q, status) := ParseWhere(Parser(WhereTokens(w) + rest, [], NoToken, Fresh(size)));
            status == OK && q.toks == AfterSide(rest)
            && q.vm.names == CondNames(WhereCond(w), []) && !q.vm.error && !q.vm.bad
            && Decides(Run(q.vm.code, vars), Holds(WhereCond(w), env), q.vm.end)
  {
    var p := Parser(WhereTokens(w) + rest, [], NoToken, Fresh(size));
    WhereParses(p, w, rest);
    var q := ParseWhere(p).0;
    assert q.vm.code[..q.vm.end] == CondBytes(WhereCond(w), q.vm.names);
    ExecutionIsMeaning(q.vm.code, WhereCond(w), q.vm.names, vars, env);
  }
}
