/** Which clauses fit the bytecode buffer and the variable table: the exact condition for a clause of
    the supported grammar to compile without an error, and without a write past either. */
module AqlCapacity {
  import opened LvmCode
  import opened AqlCompile
  import opened AqlMeaning
  import opened AqlTokens
  import K = AqlParser

  predicate Clean(v: Vm) {
    !v.error && !v.bad
  }

  /** From `v` to `w` there is no error exactly if there was none before, the bytes fit, and so do the
      variables; `n` bytes have then been emitted. */
  ghost predicate Emitted(v: Vm, w: Vm, n: nat, names: seq<string>, fits: bool) {
    (Clean(w) <==> Clean(v) && fits && |names| <= VARIABLE_SLOTS)
    && (Clean(w) ==> w.end == v.end + n && |w.code| == |v.code| && w.names == names)
  }

  /** Room for `n` more bytes. What ends with an operand may fill the buffer; an operator that is put in
      front of its arguments needs one byte more. */
  predicate HasRoom(v: Vm, n: nat, last: Side) {
    v.end + n < |v.code| || (v.end + n == |v.code| && last.Plain?)
  }

  // ----- Sides -----

  lemma OperandEmits(p: Parser, leaf: Leaf, rest: seq<Token>)
    requires p.toks == [LeafToken(leaf)] + rest && |p.vm.names| <= VARIABLE_SLOTS
    ensures var (q, status) := ParseOperand(p);
            status == OK && q.toks == rest
            && Emitted(p.vm, q.vm, 8, ExprNames(leaf, p.vm.names), p.vm.end + 8 <= |p.vm.code|)
  {
    if leaf.Var? && leaf.name !in p.vm.names {
      NewName(p.vm.names, leaf.name);
    }
  }

  lemma {:induction false} NewName(names: seq<string>, name: string)
    requires name !in names
    ensures IdOf(name, names + [name]) == |names|
  {
    if names != [] {
      assert (names + [name])[1..] == names[1..] + [name];
      NewName(names[1..], name);
    }
  }

  lemma InsertEmits(v: Vm, at: nat, node: seq<byte>)
    requires at < v.end && |node| == 4
    ensures Emitted(v, InsertOperator(v, at, node), 4, v.names, v.end + 4 < |v.code|) || |v.names| > VARIABLE_SLOTS
    ensures Clean(InsertOperator(v, at, node)) ==> ShiftedEnd(v, at) == v.end + 4
  {
  }

  /** An operand, an operator and what follows it, of which `q` is what is left. */
  lemma OperationEmits(p: Parser, f: Parser, q: Parser, left: Leaf, op: ArithOp, right: Expr, n: nat, fits: bool,
                       rest: seq<Token>)
    requires f.toks != [] && f.toks[0] == Op(op) && Ends(rest) && |p.vm.names| <= VARIABLE_SLOTS
    requires Emitted(p.vm, f.vm, 8, ExprNames(left, p.vm.names), p.vm.end + 8 <= |p.vm.code|)
    requires ParseOperandOrExpr(Next(f)) == (q, OK) && q.toks == rest
    requires Clean(f.vm) ==> Emitted(f.vm, q.vm, n, ExprNames(right, f.vm.names), fits)
    requires Clean(f.vm) && f.vm.end + n + 4 < |f.vm.code| ==> fits
    ensures var (r, status) := ParseExprLoop(f, p.vm.end);
            status == OK && r.toks == AfterSide(rest)
            && Emitted(p.vm, r.vm, 12 + n, ExprNames(Arith(op, left, right), p.vm.names),
                       p.vm.end + 12 + n < |p.vm.code|)
  {
    var node := NodeBytes(LVM_ARITH_OP, ArithCode(op));
    var next := q.(vm := InsertOperator(q.vm, p.vm.end, node));
    LoopEnds(next, ShiftedEnd(q.vm, p.vm.end));
    assert ParseExprLoop(f, p.vm.end).0.vm == next.vm;
    K.OperandOrExprKeepsFlags(Next(f));
    K.InsertKeepsFlags(q.vm, p.vm.end, node);
    ExprNamesGrow(right, ExprNames(left, p.vm.names));
    if Clean(q.vm) {
      InsertEmits(q.vm, p.vm.end, node);
    }
  }

  /** What `SideEmits` promises. */
  ghost predicate SideEmitted(p: Parser, r: (Parser, int), s: Side, rest: seq<Token>) {
    r.1 == OK && r.0.toks == AfterSide(rest)
    && Emitted(p.vm, r.0.vm, ExprSize(SideExpr(s)), ExprNames(SideExpr(s), p.vm.names),
               HasRoom(p.vm, ExprSize(SideExpr(s)), s))
  }

  /** The first operand of a side. */
  lemma FirstEmits(p: Parser, leaf: Leaf, more: seq<Token>) returns (f: Parser)
    requires p.toks == [LeafToken(leaf)] + more && |p.vm.names| <= VARIABLE_SLOTS
    ensures f == ParseOperand(Rewind(Next(p))).0 && f.toks == more && ParseExpr(p) == ParseExprLoop(f, p.vm.end)
    ensures Emitted(p.vm, f.vm, 8, ExprNames(leaf, p.vm.names), p.vm.end + 8 <= |p.vm.code|)
  {
    f := ParseOperand(Rewind(Next(p))).0;
    OperandEmits(Rewind(Next(p)), leaf, more);
  }

  lemma PlainEmits(p: Parser, leaf: Leaf, rest: seq<Token>)
    requires p.toks == [LeafToken(leaf)] + rest && Ends(rest) && |p.vm.names| <= VARIABLE_SLOTS
    ensures SideEmitted(p, ParseExpr(p), Plain(leaf), rest)
  {
    var f := FirstEmits(p, leaf, rest);
    LoopEnds(f, p.vm.end);
  }

  /** The parser inside of a parenthesis behind an operator. */
  lemma InsideOf(f: Parser, op: ArithOp, inside: seq<Token>) returns (i: Parser)
    requires f.toks == [Op(op), LeftParen] + inside
    ensures i == ParseOperand(Next(f)).0 && i.toks == inside && i.vm == f.vm
    ensures ParseOperandOrExpr(Next(f)) == ParseExpr(i)
  {
    i := ParseOperand(Next(f)).0;
  }

  /** A side is emitted exactly if there is room. */
  lemma {:induction false} SideEmits(p: Parser, s: Side, rest: seq<Token>)
    requires p.toks == SideTokens(s) + rest && Ends(rest) && |p.vm.names| <= VARIABLE_SLOTS
    ensures SideEmitted(p, ParseExpr(p), s, rest)
    decreases s
  {
    match s
    case Plain(leaf) => PlainEmits(p, leaf, rest);
    case Flat(left, op, right) =>
      assert p.toks == [LeafToken(left)] + ([Op(op), LeafToken(right)] + rest);
      var f := FirstEmits(p, left, [Op(op), LeafToken(right)] + rest);
      FlatEmits(p, f, left, op, right, rest);
    case Nested(left, op, inner) =>
      var inside := SideTokens(inner) + ([RightParen] + rest);
      assert p.toks == [LeafToken(left)] + ([Op(op), LeftParen] + inside);
      var f := FirstEmits(p, left, [Op(op), LeftParen] + inside);
      var i := InsideOf(f, op, inside);
      if Clean(f.vm) {
        SideEmits(i, inner, [RightParen] + rest);
      }
      NestedEmits(p, f, i, left, op, inner, rest);
  }

  lemma FlatEmits(p: Parser, f: Parser, left: Leaf, op: ArithOp, right: Leaf, rest: seq<Token>)
    requires Ends(rest) && |p.vm.names| <= VARIABLE_SLOTS && f.toks == [Op(op), LeafToken(right)] + rest
    requires Emitted(p.vm, f.vm, 8, ExprNames(left, p.vm.names), p.vm.end + 8 <= |p.vm.code|)
    requires ParseExpr(p) == ParseExprLoop(f, p.vm.end)
    ensures SideEmitted(p, ParseExpr(p), Flat(left, op, right), rest)
  {
    assert Next(f).toks == [LeafToken(right)] + rest;
    var q := ParseOperand(Next(f)).0;
    if Clean(f.vm) {
      OperandEmits(Next(f), right, rest);
    }
    OperationEmits(p, f, q, left, op, right, 8, f.vm.end + 8 <= |f.vm.code|, rest);
  }

  lemma NestedEmits(p: Parser, f: Parser, i: Parser, left: Leaf, op: ArithOp, inner: Side, rest: seq<Token>)
    requires Ends(rest) && |p.vm.names| <= VARIABLE_SLOTS && f.toks == [Op(op), LeftParen] + i.toks
    requires i.toks == SideTokens(inner) + ([RightParen] + rest) && i.vm == f.vm
    requires ParseOperandOrExpr(Next(f)) == ParseExpr(i)
    requires Emitted(p.vm, f.vm, 8, ExprNames(left, p.vm.names), p.vm.end + 8 <= |p.vm.code|)
    requires ParseExpr(p) == ParseExprLoop(f, p.vm.end)
    requires Clean(f.vm) ==> SideEmitted(i, ParseExpr(i), inner, [RightParen] + rest)
    ensures SideEmitted(p, ParseExpr(p), Nested(left, op, inner), rest)
  {
    ExprAgrees(i);
    SideReads(inner, [RightParen] + rest);
    assert AfterSide([RightParen] + rest) == rest;
    OperationEmits(p, f, ParseExpr(i).0, left, op, SideExpr(inner), ExprSize(SideExpr(inner)),
                   HasRoom(f.vm, ExprSize(SideExpr(inner)), inner), rest);
  }

  // ----- Comparisons -----

  ghost predicate ComparisonEmitted(p: Parser, r: (Parser, int), c: Comparison, rest: seq<Token>) {
    r.1 == OK && r.0.toks == AfterSide(rest)
    && Emitted(p.vm, r.0.vm, CondSize(ComparisonCond(c)), CondNames(ComparisonCond(c), p.vm.names),
               HasRoom(p.vm, CondSize(ComparisonCond(c)), c.right))
  }

  lemma GapEmits(v: Vm, q: Vm, n: nat, names: seq<string>, node: seq<byte>, fits: bool)
    requires |node| == 4 && Emitted(JumpToOperand(v), q, n, names, fits) && |v.names| <= VARIABLE_SLOTS
    requires !Clean(v) || v.end + 4 >= |v.code| ==> !Clean(q)
    requires Clean(q) ==> fits
    requires v.end + 4 + n < |v.code| && Clean(v) ==> fits
    ensures Emitted(v, FillGap(q, v.end, node), 4 + n, names, v.end + 4 + n < |v.code|)
  {
  }

  lemma JumpEmits(v: Vm)
    requires |v.names| <= VARIABLE_SLOTS
    ensures Emitted(v, JumpToOperand(v), 4, v.names, v.end + 4 < |v.code|)
  {
  }

  /** A comparison is emitted exactly if there is room. */
  lemma ComparisonEmits(p: Parser, c: Comparison, rest: seq<Token>)
    requires p.toks == ComparisonTokens(c) + rest && Ends(rest) && |p.vm.names| <= VARIABLE_SLOTS
    ensures ComparisonEmitted(p, ParseComparison(p), c, rest)
  {
    var left, right := SideExpr(c.left), SideExpr(c.right);
    var jumped := p.(vm := JumpToOperand(p.vm));
    var more := SideTokens(c.right) + rest;
    assert jumped.toks == SideTokens(c.left) + ([Rel(c.rel)] + more);
    SideEmits(jumped, c.left, [Rel(c.rel)] + more);
    JumpEmits(p.vm);
    var q := ParseExpr(jumped).0;
    var node := NodeBytes(LVM_CMP_OP, RelCode(c.rel));
    K.ExprKeepsFlags(jumped);
    SizePositive(left);
    SizePositive(right);
    GapEmits(p.vm, q.vm, ExprSize(left), ExprNames(left, p.vm.names), node, HasRoom(jumped.vm, ExprSize(left), c.left));
    var r := AfterOperator(p, c.rel);
    assert r.toks == more && r.vm == FillGap(q.vm, p.vm.end, node) && ParseComparison(p).0 == ParseExpr(r).0;
    RightEmits(p, r, c, rest);
  }

  /** The right side, with the operator already in its place. */
  lemma RightEmits(p: Parser, r: Parser, c: Comparison, rest: seq<Token>)
    requires p.toks == ComparisonTokens(c) + rest && r.toks == SideTokens(c.right) + rest && Ends(rest)
    requires ParseComparison(p).0 == ParseExpr(r).0 && |p.vm.names| <= VARIABLE_SLOTS
    requires var left := SideExpr(c.left);
             Emitted(p.vm, r.vm, 4 + ExprSize(left), ExprNames(left, p.vm.names),
                     p.vm.end + 4 + ExprSize(left) < |p.vm.code|)
    ensures ComparisonEmitted(p, ParseComparison(p), c, rest)
  {
    ComparisonAgrees(p);
    ComparisonReads(c, rest);
    K.ExprKeepsFlags(r);
    ExprNamesGrow(SideExpr(c.right), ExprNames(SideExpr(c.left), p.vm.names));
    SizePositive(SideExpr(c.right));
    if Clean(r.vm) {
      SideEmits(r, c.right, rest);
    }
  }

  // ----- Clauses -----

  /** The last side of a clause. */
  function LastSide(w: Where): Side {
    match w
    case One(c) => c.right
    case Chain(_, _, rest) => LastSide(rest)
  }

  lemma WhereSize(w: Where)
    ensures CondSize(WhereCond(w)) >= 20
  {
    match w
    case One(c) =>
      SizePositive(SideExpr(c.left));
      SizePositive(SideExpr(c.right));
    case Chain(c, _, rest) => WhereSize(rest);
  }

  lemma ComparisonSize(c: Comparison)
    ensures CondSize(ComparisonCond(c)) >= 20
  {
    WhereSize(One(c));
  }

  /** A clause from its first comparison on, which leaves the engine as `z`. */
  ghost predicate ChainEmitted(v: Vm, z: Vm, w: Where) {
    Emitted(v, z, CondSize(WhereCond(w)), CondNames(WhereCond(w), v.names),
            HasRoom(v, CondSize(WhereCond(w)), LastSide(w)))
  }

  /** A comparison, the connective in front of it, and what follows them, which leaves the engine as `z`. */
  lemma NextEmits(v: Vm, q: Vm, n: Vm, z: Vm, c: Comparison, conn: Connective, next: Where, saved: nat)
    requires |v.names| <= VARIABLE_SLOTS && (Clean(v) ==> saved == v.end)
    requires Emitted(v, q, CondSize(ComparisonCond(c)), CondNames(ComparisonCond(c), v.names),
                     HasRoom(v, CondSize(ComparisonCond(c)), c.right))
    requires n == InsertOperator(q, saved, NodeBytes(LVM_CMP_OP, ConnectiveCode(conn)))
    requires K.KeepsFlags(q, n) && K.KeepsFlags(n, z)
    requires Clean(n) ==> |n.names| <= VARIABLE_SLOTS ==> ChainEmitted(n, z, next)
    ensures ChainEmitted(v, z, Chain(c, conn, next))
  {
    ComparisonSize(c);
    WhereSize(next);
    CondNamesGrow(WhereCond(next), CondNames(ComparisonCond(c), v.names));
    if Clean(q) {
      InsertEmits(q, saved, NodeBytes(LVM_CMP_OP, ConnectiveCode(conn)));
    }
  }

  /** The comparisons from `r` on, with a connective in front of each but the last. */
  lemma {:induction false} RestEmits(r: Parser, w: Where, rest: seq<Token>, saved: nat)
    requires r.toks == WhereTokens(w) + rest && EndsWhere(rest) && |r.vm.names| <= VARIABLE_SLOTS
    requires Clean(r.vm) ==> saved == r.vm.end
    ensures ChainEmitted(r.vm, ParseWhereLoop(ParseComparison(r).0, saved).0.vm, w)
    decreases w
  {
    var q := ParseComparison(r).0;
    match w
    case One(c) =>
      ComparisonEmits(r, c, rest);
      WhereLoopEnds(q, saved);
    case Chain(c, conn, next) =>
      var more := WhereTokens(next) + rest;
      assert r.toks == ComparisonTokens(c) + ([Connect(conn)] + more);
      ComparisonEmits(r, c, [Connect(conn)] + more);
      ConnectiveGoesOn(q, conn, next, rest, saved);
      var n := AfterConnective(q, saved, conn);
      if Clean(n.vm) && |n.vm.names| <= VARIABLE_SLOTS {
        RestEmits(n, next, rest, ShiftedEnd(q.vm, saved));
      }
      K.InsertKeepsFlags(q.vm, saved, NodeBytes(LVM_CMP_OP, ConnectiveCode(conn)));
      K.ComparisonKeepsFlags(n);
      K.WhereLoopKeepsFlags(ParseComparison(n).0, ShiftedEnd(q.vm, saved));
      NextEmits(r.vm, q.vm, n.vm, ParseWhereLoop(q, saved).0.vm, c, conn, next, saved);
  }

  lemma ConnectiveGoesOn(q: Parser, conn: Connective, next: Where, rest: seq<Token>, saved: nat)
    requires q.toks == [Connect(conn)] + (WhereTokens(next) + rest) && Ends(rest)
    ensures var n := AfterConnective(q, saved, conn);
            n.toks == WhereTokens(next) + rest
            && n.vm == InsertOperator(q.vm, saved, NodeBytes(LVM_CMP_OP, ConnectiveCode(conn)))
            && (Clean(n.vm) && Clean(q.vm) && saved < q.vm.end ==> ShiftedEnd(q.vm, saved) == n.vm.end)
            && ParseWhereLoop(q, saved) == ParseWhereLoop(ParseComparison(n).0, ShiftedEnd(q.vm, saved))
  {
    var n := AfterConnective(q, saved, conn);
    WhereStartsWithLeaf(next);
    WhereReads(next, rest);
    ComparisonAgrees(n);
  }

  /** A clause of the grammar compiles without an error, and without a write past the buffer or the table,
      exactly if it names at most seven variables and is shorter than the buffer; it may fill the buffer
      if it ends with an operand. */
  lemma ClauseFits(w: Where, rest: seq<Token>, size: nat)
    requires EndsWhere(rest)
    ensures var q := ParseWhere(Parser(WhereTokens(w) + rest, [], NoToken, Fresh(size))).0;
            var n := CondSize(WhereCond(w));
            (!q.vm.error && !q.vm.bad <==>
               |CondNames(WhereCond(w), [])| <= 7 && (n < size || (n == size && LastSide(w).Plain?)))
            && (!q.vm.error && !q.vm.bad ==> q.vm.end == n)
  {
    var p := Parser(WhereTokens(w) + rest, [], NoToken, Fresh(size));
    WhereReads(w, rest);
    ComparisonAgrees(p);
    RestEmits(p, w, rest, 0);
  }

  /** The check before the bytes are shifted leaves room for half of an operator only: in a buffer with two or
      three bytes left the shift writes past its end. */
  lemma ShiftOverruns(v: Vm, at: nat)
    requires Clean(v) && at < v.end
    ensures ShiftForOperator(v, at).bad <==> v.end + 2 <= |v.code| < v.end + 4
    ensures ShiftForOperator(v, at).error <==> |v.code| < v.end + 2
  {
  }
}
