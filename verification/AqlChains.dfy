/** Sides with any number of operators on a level and any nesting in parentheses. Every operator after
    the first one of a level is put in front of its right argument alone, so that it takes whatever
    comes next as its second argument. The code is the prefix form of what was written exactly if no
    level has two operators. */
module AqlChains {
  import opened LvmCode
  import opened AqlCompile
  import opened AqlMeaning

  // ----- What is written -----

  /** An operand, or operators and their arguments after one, to be read from the left. An argument
      that is more than an operand stands in parentheses, and an operand may. */
  datatype Term = Operand(leaf: Leaf) | Then(left: Term, op: ArithOp, arg: Term, parens: bool)

  function ArgTokens(t: Term): seq<Token>
    requires t.Then?
    decreases t, 0
  {
    if t.parens || t.arg.Then? then [LeftParen] + (Written(t.arg) + [RightParen]) else Written(t.arg)
  }

  function Written(t: Term): seq<Token>
    decreases t, 1
  {
    match t
    case Operand(leaf) => [LeafToken(leaf)]
    case Then(left, op, _, _) => Written(left) + ([Op(op)] + ArgTokens(t))
  }

  function Intended(t: Term): Expr {
    match t
    case Operand(leaf) => leaf
    case Then(left, op, arg, _) => Arith(op, Intended(left), Intended(arg))
  }

  /** No level has two operators. */
  predicate OneByOne(t: Term) {
    t.Then? ==> t.left.Operand? && OneByOne(t.arg)
  }

  // ----- What is emitted for it -----

  /** An operator that has its first argument only. */
  datatype Partial = Partial(op: ArithOp, arg: Expr)

  /** The expression that the code for a term begins with. */
  function Head(t: Term): Expr {
    match t
    case Operand(leaf) => leaf
    case Then(left, op, arg, _) => if left.Operand? then Arith(op, left.leaf, Head(arg)) else Head(left)
  }

  /** What follows it. */
  function Pending(t: Term): seq<Partial> {
    match t
    case Operand(_) => []
    case Then(left, op, arg, _) =>
      (if left.Operand? then [] else Pending(left) + [Partial(op, Head(arg))]) + Pending(arg)
  }

  predicate PendingKnown(ps: seq<Partial>, names: seq<string>) {
    ps == [] || (ExprKnown(ps[0].arg, names) && PendingKnown(ps[1..], names))
  }

  predicate Known(t: Term, names: seq<string>) {
    ExprKnown(Head(t), names) && PendingKnown(Pending(t), names)
  }

  function PartialBytes(p: Partial, names: seq<string>): seq<byte>
    requires ExprKnown(p.arg, names) && |names| <= VARIABLE_SLOTS
  {
    NodeBytes(LVM_ARITH_OP, ArithCode(p.op)) + ExprBytes(p.arg, names)
  }

  function PendingBytes(ps: seq<Partial>, names: seq<string>): seq<byte>
    requires PendingKnown(ps, names) && |names| <= VARIABLE_SLOTS
  {
    if ps == [] then [] else PartialBytes(ps[0], names) + PendingBytes(ps[1..], names)
  }

  function TermBytes(t: Term, names: seq<string>): seq<byte>
    requires Known(t, names) && |names| <= VARIABLE_SLOTS
  {
    ExprBytes(Head(t), names) + PendingBytes(Pending(t), names)
  }

  lemma {:induction false} KnownBoth(a: seq<Partial>, b: seq<Partial>, names: seq<string>)
    requires PendingKnown(a, names) && PendingKnown(b, names)
    ensures PendingKnown(a + b, names)
    decreases |a|
  {
    if a == [] {
      assert a + b == b;
    } else {
      assert (a + b)[1..] == a[1..] + b;
      KnownBoth(a[1..], b, names);
    }
  }

  lemma KnownOne(p: Partial, names: seq<string>)
    requires ExprKnown(p.arg, names)
    ensures PendingKnown([p], names)
    ensures |names| <= VARIABLE_SLOTS ==> PendingBytes([p], names) == PartialBytes(p, names)
  {
    assert [p][1..] == [];
  }

  lemma {:induction false} PartsKnown(t: Term, names: seq<string>)
    requires ExprKnown(Intended(t), names)
    ensures Known(t, names)
    decreases t
  {
    if t.Then? {
      PartsKnown(t.left, names);
      PartsKnown(t.arg, names);
      if t.left.Then? {
        KnownOne(Partial(t.op, Head(t.arg)), names);
        KnownBoth(Pending(t.left), [Partial(t.op, Head(t.arg))], names);
        KnownBoth(Pending(t.left) + [Partial(t.op, Head(t.arg))], Pending(t.arg), names);
      } else {
        assert Pending(t) == Pending(t.arg);
      }
    }
  }

  lemma {:induction false} PendingBoth(a: seq<Partial>, b: seq<Partial>, names: seq<string>)
    requires PendingKnown(a, names) && PendingKnown(b, names) && PendingKnown(a + b, names) && |names| <= VARIABLE_SLOTS
    ensures PendingBytes(a + b, names) == PendingBytes(a, names) + PendingBytes(b, names)
    decreases |a|
  {
    if a == [] {
      assert a + b == b;
    } else {
      assert (a + b)[1..] == a[1..] + b;
      PendingBoth(a[1..], b, names);
      AssociateBytes(PartialBytes(a[0], names), PendingBytes(a[1..], names), PendingBytes(b, names));
    }
  }

  lemma AssociateBytes(a: seq<byte>, b: seq<byte>, c: seq<byte>)
    ensures (a + b) + c == a + (b + c)
  {
  }

  lemma {:induction false} PendingStable(ps: seq<Partial>, names: seq<string>, more: seq<string>)
    requires PendingKnown(ps, names) && names <= more && |more| <= VARIABLE_SLOTS
    ensures PendingKnown(ps, more) && PendingBytes(ps, more) == PendingBytes(ps, names)
    decreases |ps|
  {
    if ps != [] {
      ExprBytesStable(ps[0].arg, names, more);
      PendingStable(ps[1..], names, more);
    }
  }

  lemma TermStable(t: Term, names: seq<string>, more: seq<string>)
    requires Known(t, names) && names <= more && |more| <= VARIABLE_SLOTS
    ensures Known(t, more) && TermBytes(t, more) == TermBytes(t, names)
  {
    ExprBytesStable(Head(t), names, more);
    PendingStable(Pending(t), names, more);
  }

  /** One more operator and its argument. */
  lemma ThenBytes(t: Term, names: seq<string>)
    requires t.Then? && Known(t.left, names) && Known(t.arg, names) && Known(t, names) && |names| <= VARIABLE_SLOTS
    ensures var node := NodeBytes(LVM_ARITH_OP, ArithCode(t.op));
            TermBytes(t, names)
            == if t.left.Operand? then node + (TermBytes(t.left, names) + TermBytes(t.arg, names))
               else TermBytes(t.left, names) + (node + TermBytes(t.arg, names))
  {
    var node, head := NodeBytes(LVM_ARITH_OP, ArithCode(t.op)), ExprBytes(Head(t.arg), names);
    var rest := PendingBytes(Pending(t.arg), names);
    if t.left.Operand? {
      assert Pending(t) == Pending(t.arg);
      assert TermBytes(t.left, names) == ExprBytes(t.left.leaf, names);
      FirstOfLevel(node, ExprBytes(t.left.leaf, names), head, rest);
    } else {
      LaterBytes(t, names);
      LaterOnLevel(ExprBytes(Head(t.left), names), PendingBytes(Pending(t.left), names), node, head, rest);
    }
  }

  lemma LaterBytes(t: Term, names: seq<string>)
    requires t.Then? && t.left.Then? && |names| <= VARIABLE_SLOTS
    requires Known(t.left, names) && Known(t.arg, names) && Known(t, names)
    ensures PendingBytes(Pending(t), names)
            == (PendingBytes(Pending(t.left), names) + PartialBytes(Partial(t.op, Head(t.arg)), names))
               + PendingBytes(Pending(t.arg), names)
  {
    var last := [Partial(t.op, Head(t.arg))];
    KnownOne(last[0], names);
    KnownBoth(Pending(t.left), last, names);
    PendingBoth(Pending(t.left), last, names);
    PendingBoth(Pending(t.left) + last, Pending(t.arg), names);
  }

  lemma FirstOfLevel(node: seq<byte>, a: seq<byte>, head: seq<byte>, rest: seq<byte>)
    ensures (node + a + head) + rest == node + (a + (head + rest))
  {
  }

  lemma LaterOnLevel(a: seq<byte>, b: seq<byte>, node: seq<byte>, head: seq<byte>, rest: seq<byte>)
    ensures a + ((b + (node + head)) + rest) == (a + b) + (node + (head + rest))
  {
  }

  lemma {:induction false} TermSize(t: Term, names: seq<string>)
    requires Known(t, names) && |names| <= VARIABLE_SLOTS && ExprKnown(Intended(t), names)
    ensures |TermBytes(t, names)| == ExprSize(Intended(t)) >= 8
    decreases t
  {
    if t.Then? {
      PartsKnown(t.left, names);
      PartsKnown(t.arg, names);
      TermSize(t.left, names);
      TermSize(t.arg, names);
      PartsKnown(t, names);
      ThenBytes(t, names);
    }
  }

  // ----- The parser emits it -----

  /** Where the operator loop goes on after a term: at its start, or behind it once it has an operator. */
  function Saved(t: Term, start: nat, end: nat): nat {
    if t.Operand? then start else end
  }

  /** One round of the operator loop. */
  lemma LoopRound(u: Vm, p: Parser, q: Parser, op: ArithOp, a: seq<byte>, b: seq<byte>, n1: seq<string>,
                  n2: seq<string>) returns (next: Parser)
    requires p.toks != [] && p.toks[0] == Op(op) && ParseOperandOrExpr(Next(p)) == (q, OK)
    requires Appended(u, p.vm, a, n1) && Appended(p.vm, q.vm, b, n2) && b != []
    requires u.end + |a| + |b| + 4 < |u.code|
    ensures ParseExprLoop(p, u.end) == ParseExprLoop(next, next.vm.end) && next.toks == q.toks
    ensures Appended(u, next.vm, NodeBytes(LVM_ARITH_OP, ArithCode(op)) + (a + b), n2)
  {
    var node := NodeBytes(LVM_ARITH_OP, ArithCode(op));
    AppendedTwice(u, p.vm, q.vm, a, b, n1, n2);
    InsertAppends(u, q.vm, a + b, n2, node);
    next := q.(vm := InsertOperator(q.vm, u.end, node));
  }

  /** There is room for the term, and for its variables. */
  predicate Fits(t: Term, v: Vm) {
    |ExprNames(Intended(t), v.names)| <= VARIABLE_SLOTS && v.end + ExprSize(Intended(t)) < |v.code|
  }

  /** The term has been emitted. */
  ghost predicate Emitted(t: Term, v: Vm, w: Vm) {
    var n := ExprNames(Intended(t), v.names);
    |n| <= VARIABLE_SLOTS && ExprKnown(Intended(t), n) && Known(t, n) && Appended(v, w, TermBytes(t, n), n)
  }

  /** The parser reads a term as far as it goes, and then goes on in its operator loop. */
  lemma {:induction false} TermEmits(p: Parser, t: Term, more: seq<Token>) returns (q: Parser)
    requires p.toks == Written(t) + more && Fits(t, p.vm)
    ensures ParseExpr(p) == ParseExprLoop(q, Saved(t, p.vm.end, q.vm.end)) && q.toks == more
    ensures Emitted(t, p.vm, q.vm)
    decreases t, 1
  {
    match t
    case Operand(leaf) =>
      StartsWithLeaf(p, leaf, more);
      q := ParseOperand(Rewind(Next(p))).0;
      assert TermBytes(t, ExprNames(leaf, p.vm.names)) == ExprBytes(leaf, ExprNames(leaf, p.vm.names));
    case Then(left, op, arg, _) =>
      SizePositive(Intended(arg));
      ExprNamesGrow(Intended(arg), ExprNames(Intended(left), p.vm.names));
      assert p.toks == Written(left) + ([Op(op)] + ArgTokens(t) + more);
      var first := TermEmits(p, left, [Op(op)] + ArgTokens(t) + more);
      EmittedSize(left, p.vm, first.vm);
      var second := ArgParses(first, t, more);
      q := Joined(p, t, first, second);
  }

  lemma EmittedSize(t: Term, v: Vm, w: Vm)
    requires Emitted(t, v, w)
    ensures w.end == v.end + ExprSize(Intended(t)) && |w.code| == |v.code|
    ensures w.names == ExprNames(Intended(t), v.names)
  {
    TermSize(t, ExprNames(Intended(t), v.names));
  }

  /** The argument of an operator. */
  lemma {:induction false} ArgParses(p: Parser, t: Term, more: seq<Token>) returns (q: Parser)
    requires t.Then? && p.toks == [Op(t.op)] + ArgTokens(t) + more && Fits(t.arg, p.vm)
    ensures ParseOperandOrExpr(Next(p)) == (q, OK) && q.toks == more && Emitted(t.arg, p.vm, q.vm)
    decreases t, 0
  {
    var arg := t.arg;
    if t.parens || arg.Then? {
      var inside := ParseOperand(Next(p)).0;
      assert Next(p).toks == [LeftParen] + (Written(arg) + ([RightParen] + more));
      var end := TermEmits(inside, arg, [RightParen] + more);
      q := ParseExprLoop(end, Saved(arg, inside.vm.end, end.vm.end)).0;
      assert ([RightParen] + more)[1..] == more;
    } else {
      assert Next(p).toks == [LeafToken(arg.leaf)] + more;
      OperandAppends(Next(p), arg.leaf, more);
      q := ParseOperand(Next(p)).0;
      var n := ExprNames(arg.leaf, p.vm.names);
      assert TermBytes(arg, n) == ExprBytes(arg.leaf, n);
    }
  }

  /** The operator is put in front of both arguments if it is the first one of the level, and
      otherwise in front of the second. */
  lemma Joined(p: Parser, t: Term, first: Parser, second: Parser) returns (q: Parser)
    requires t.Then? && Fits(t, p.vm) && first.toks != [] && first.toks[0] == Op(t.op)
    requires ParseExpr(p) == ParseExprLoop(first, Saved(t.left, p.vm.end, first.vm.end))
    requires ParseOperandOrExpr(Next(first)) == (second, OK)
    requires Emitted(t.left, p.vm, first.vm) && Emitted(t.arg, first.vm, second.vm)
    ensures ParseExpr(p) == ParseExprLoop(q, q.vm.end) && q.toks == second.toks && Emitted(t, p.vm, q.vm)
  {
    EmittedSize(t.left, p.vm, first.vm);
    EmittedSize(t.arg, first.vm, second.vm);
    var n1, n2 := first.vm.names, second.vm.names;
    JoinedBytes(t, p.vm.names, n1, n2);
    var node, a, b := NodeBytes(LVM_ARITH_OP, ArithCode(t.op)), TermBytes(t.left, n1), TermBytes(t.arg, n2);
    if t.left.Operand? {
      q := LoopRound(p.vm, first, second, t.op, a, b, n1, n2);
    } else {
      q := LaterRound(p.vm, first, second, t.op, a, b, n1, n2);
    }
  }

  /** A round for an operator that is not the first one of its level. */
  lemma LaterRound(u: Vm, p: Parser, q: Parser, op: ArithOp, a: seq<byte>, b: seq<byte>, n1: seq<string>,
                   n2: seq<string>) returns (next: Parser)
    requires p.toks != [] && p.toks[0] == Op(op) && ParseOperandOrExpr(Next(p)) == (q, OK)
    requires Appended(u, p.vm, a, n1) && Appended(p.vm, q.vm, b, n2) && b != []
    requires p.vm.names == n1 && p.vm.end + |b| + 4 < |p.vm.code|
    ensures ParseExprLoop(p, p.vm.end) == ParseExprLoop(next, next.vm.end) && next.toks == q.toks
    ensures Appended(u, next.vm, a + (NodeBytes(LVM_ARITH_OP, ArithCode(op)) + b), n2)
  {
    var node := NodeBytes(LVM_ARITH_OP, ArithCode(op));
    assert Appended(p.vm, p.vm, [], n1) by {
      assert p.vm.code[..p.vm.end] + [] == p.vm.code[..p.vm.end];
    }
    next := LoopRound(p.vm, p, q, op, [], b, n1, n2);
    assert [] + b == b;
    AppendedTwice(u, p.vm, next.vm, a, node + b, n1, n2);
  }

  lemma JoinedBytes(t: Term, n0: seq<string>, n1: seq<string>, n2: seq<string>)
    requires t.Then? && n1 == ExprNames(Intended(t.left), n0) && n2 == ExprNames(Intended(t.arg), n1)
    requires |n2| <= VARIABLE_SLOTS
    ensures |n1| <= VARIABLE_SLOTS && ExprKnown(Intended(t), n2) && Known(t, n2)
    ensures ExprKnown(Intended(t.left), n1) && ExprKnown(Intended(t.arg), n2) && Known(t.left, n1) && Known(t.arg, n2)
    ensures |TermBytes(t.left, n1)| == ExprSize(Intended(t.left)) >= 8
    ensures |TermBytes(t.arg, n2)| == ExprSize(Intended(t.arg)) >= 8
    ensures var node, a, b := NodeBytes(LVM_ARITH_OP, ArithCode(t.op)), TermBytes(t.left, n1), TermBytes(t.arg, n2);
            TermBytes(t, n2) == if t.left.Operand? then node + (a + b) else a + (node + b)
  {
    ExprNamesGrow(Intended(t.arg), n1);
    ExprNamesKnow(Intended(t.left), n0);
    ExprNamesKnow(Intended(t), n0);
    PartsKnown(t.left, n1);
    PartsKnown(t, n2);
    PartsKnown(t.left, n2);
    PartsKnown(t.arg, n2);
    TermSize(t.left, n1);
    TermSize(t.arg, n2);
    TermStable(t.left, n1, n2);
    ThenBytes(t, n2);
  }
}
