/** What the parser of WHERE clauses accepts and consumes, whatever the engine does: a recogniser on
    tokens alone. */
module AqlTokens {
  import opened LvmCode
  import opened AqlCompile
  import opened AqlMeaning

  // ----- The recogniser -----

  /** Whether the tokens were accepted, and those that are left in either case. */
  datatype Read = Read(ok: bool, toks: seq<Token>)

  predicate IsOperand(t: Token) {
    t.Identifier? || t.Integer? || t.StringValue? || t.FloatValue?
  }

  predicate StartsWith(t: seq<Token>, first: Token) {
    t != [] && t[0] == first
  }

  function Tail(t: seq<Token>): seq<Token> {
    if t == [] then [] else t[1..]
  }

  /** An operand or an expression in parentheses, and the operators after it. */
  function ExprRead(t: seq<Token>): (r: Read)
    ensures |r.toks| <= |t| && (r.ok ==> |r.toks| < |t|)
    decreases |t|, 0
  {
    if StartsWith(t, LeftParen) then
      var r := ExprRead(t[1..]);
      if !r.ok then r else if StartsWith(r.toks, RightParen) then LoopRead(r.toks[1..]) else Read(false, Tail(r.toks))
    else if t != [] && IsOperand(t[0]) then LoopRead(t[1..])
    else Read(false, Tail(t))
  }

  /** The operators and their right arguments. A token after an operator that is no operand is passed
      over, and an expression has to follow. */
  function LoopRead(t: seq<Token>): (r: Read)
    ensures |r.toks| <= |t|
    decreases |t|, 1
  {
    if StartsWith(t, RightParen) then Read(true, t[1..])
    else if t == [] || !t[0].Op? then Read(true, t)
    else if |t| >= 2 && IsOperand(t[1]) then LoopRead(t[2..])
    else
      var r := ExprRead(Tail(t[1..]));
      if r.ok then LoopRead(r.toks) else r
  }

  /** Two expressions with a relation between them. */
  function ComparisonRead(t: seq<Token>): (r: Read)
    ensures |r.toks| <= |t| && (r.ok ==> |r.toks| < |t|)
  {
    var r := ExprRead(t);
    if !r.ok then r else if r.toks != [] && r.toks[0].Rel? then ExprRead(r.toks[1..]) else Read(false, Tail(r.toks))
  }

  /** How a clause ends. */
  datatype How = Done | BrokenOff | Wrong

  datatype End = End(how: How, toks: seq<Token>)

  function WhereEnd(t: seq<Token>): (e: End)
    ensures |e.toks| <= |t|
    decreases |t|, 0
  {
    var r := ComparisonRead(t);
    if r.ok then ChainEnd(r.toks) else End(Wrong, r.toks)
  }

  /** The connectives after a comparison. */
  function ChainEnd(t: seq<Token>): (e: End)
    ensures |e.toks| <= |t|
    decreases |t|, 1
  {
    if t == [] || !t[0].Connect? then End(Done, t)
    else if StartsWith(t[1..], LeftParen) then
      var e := WhereEnd(t[2..]);
      if e.how.Wrong? then e else if StartsWith(e.toks, RightParen) then ChainEnd(e.toks[1..])
      else End(Wrong, Tail(e.toks))
    else
      var r := ComparisonRead(t[1..]);
      if r.ok then ChainEnd(r.toks) else End(BrokenOff, r.toks)
  }

  // ----- It agrees with the parser -----

  function Status(how: How): int {
    match how
    case Done => OK
    case BrokenOff => ZERO
    case Wrong => SYNTAX_ERROR
  }

  /** The parser's result is that of the recogniser. */
  predicate SameRead(r: (Parser, int), read: Read) {
    r.1 == (if read.ok then OK else SYNTAX_ERROR) && r.0.toks == read.toks
  }

  lemma {:induction false} ExprAgrees(p: Parser)
    ensures SameRead(ParseExpr(p), ExprRead(p.toks))
    decreases |p.toks|, 2
  {
    var q := Next(p);
    if q.tok == LeftParen {
      ExprAgrees(q);
      var r := ParseExpr(q).0;
      if ParseExpr(q).1 == OK && Next(r).tok == RightParen {
        LoopAgrees(Next(r), p.vm.end);
      }
    } else if ParseOperand(Rewind(q)).1 == OK {
      LoopAgrees(ParseOperand(Rewind(q)).0, p.vm.end);
    }
  }

  lemma {:induction false} LoopAgrees(p: Parser, saved: nat)
    ensures SameRead(ParseExprLoop(p, saved), LoopRead(p.toks))
    decreases |p.toks|, 1
  {
    var q := Next(p);
    if q.tok.Op? {
      var r, status := ParseOperandOrExpr(q).0, ParseOperandOrExpr(q).1;
      if ParseOperand(q).1 != OK {
        ExprAgrees(ParseOperand(q).0);
      }
      if status == OK {
        LoopAgrees(r.(vm := InsertOperator(r.vm, saved, NodeBytes(LVM_ARITH_OP, ArithCode(q.tok.op)))),
                   ShiftedEnd(r.vm, saved));
      }
    }
  }

  lemma ComparisonAgrees(p: Parser)
    ensures SameRead(ParseComparison(p), ComparisonRead(p.toks))
  {
    var jumped := p.(vm := JumpToOperand(p.vm));
    ExprAgrees(jumped);
    var q := ParseExpr(jumped).0;
    var r := Next(q.(vm := SetEnd(q.vm, p.vm.end)));
    if ParseExpr(jumped).1 == OK && r.tok.Rel? {
      ExprAgrees(r.(vm := SetEnd(Emit(r.vm, NodeBytes(LVM_CMP_OP, RelCode(r.tok.rel))), q.vm.end)));
    }
  }

  /** The status of a clause and the tokens it leaves depend on the tokens alone. */
  lemma {:induction false} WhereAgrees(p: Parser)
    ensures var (q, status) := ParseWhere(p); var e := WhereEnd(p.toks); status == Status(e.how) && q.toks == e.toks
    decreases |p.toks|, 2
  {
    ComparisonAgrees(p);
    if ParseComparison(p).1 == OK {
      ChainAgrees(ParseComparison(p).0, 0);
    }
  }

  lemma {:induction false} ChainAgrees(p: Parser, saved: nat)
    ensures var (q, status) := ParseWhereLoop(p, saved); var e := ChainEnd(p.toks);
            status == Status(e.how) && q.toks == e.toks
    decreases |p.toks|, 1
  {
    var q := Next(p);
    if q.tok.Connect? {
      var vm := InsertOperator(q.vm, saved, NodeBytes(LVM_CMP_OP, ConnectiveCode(q.tok.conn)));
      var newSaved := ShiftedEnd(q.vm, saved);
      var r := Next(q.(vm := vm));
      if r.tok == LeftParen {
        WhereAgrees(r);
        var s := ParseWhere(r).0;
        if !IsError(ParseWhere(r).1) && Next(s).tok == RightParen {
          ChainAgrees(Next(s), newSaved);
        }
      } else {
        ComparisonAgrees(Rewind(r));
        if ParseComparison(Rewind(r)).1 == OK {
          ChainAgrees(ParseComparison(Rewind(r)).0, newSaved);
        }
      }
    }
  }

  // ----- What it makes of the supported grammar -----

  lemma LeafReads(leaf: Leaf, rest: seq<Token>)
    ensures ExprRead([LeafToken(leaf)] + rest) == LoopRead(rest)
  {
    assert ([LeafToken(leaf)] + rest)[1..] == rest;
  }

  lemma OperatorReads(op: ArithOp, t: seq<Token>)
    ensures LoopRead([Op(op)] + t)
            == if t != [] && IsOperand(t[0]) then LoopRead(t[1..])
               else if ExprRead(Tail(t)).ok then LoopRead(ExprRead(Tail(t)).toks) else ExprRead(Tail(t))
  {
    assert ([Op(op)] + t)[1..] == t;
    assert t != [] ==> ([Op(op)] + t)[2..] == t[1..];
  }

  lemma NestedReads(left: Leaf, op: ArithOp, inside: seq<Token>)
    requires ExprRead(inside).ok
    ensures ExprRead([LeafToken(left)] + ([Op(op)] + ([LeftParen] + inside))) == LoopRead(ExprRead(inside).toks)
  {
    LeafReads(left, [Op(op)] + ([LeftParen] + inside));
    OperatorReads(op, [LeftParen] + inside);
    assert Tail([LeftParen] + inside) == inside;
  }

  lemma {:induction false} SideReads(s: Side, rest: seq<Token>)
    requires Ends(rest)
    ensures ExprRead(SideTokens(s) + rest) == Read(true, AfterSide(rest))
    decreases s
  {
    match s
    case Plain(leaf) => LeafReads(leaf, rest);
    case Flat(left, op, right) =>
      var more := [LeafToken(right)] + rest;
      assert SideTokens(s) + rest == [LeafToken(left)] + ([Op(op)] + more);
      LeafReads(left, [Op(op)] + more);
      OperatorReads(op, more);
      assert more[1..] == rest;
    case Nested(left, op, inner) =>
      var inside := SideTokens(inner) + ([RightParen] + rest);
      assert SideTokens(s) + rest == [LeafToken(left)] + ([Op(op)] + ([LeftParen] + inside));
      SideReads(inner, [RightParen] + rest);
      assert ExprRead(inside) == Read(true, rest) by {
        assert ([RightParen] + rest)[1..] == rest;
      }
      NestedReads(left, op, inside);
  }

  lemma ComparisonReads(c: Comparison, rest: seq<Token>)
    requires Ends(rest)
    ensures ComparisonRead(ComparisonTokens(c) + rest) == Read(true, AfterSide(rest))
  {
    var more := SideTokens(c.right) + rest;
    assert ComparisonTokens(c) + rest == SideTokens(c.left) + ([Rel(c.rel)] + more);
    SideReads(c.left, [Rel(c.rel)] + more);
    assert ([Rel(c.rel)] + more)[1..] == more;
    SideReads(c.right, rest);
  }

  /** After a chain of comparisons the parser goes on behind it, less one closing parenthesis. */
  lemma {:induction false} WhereReads(w: Where, rest: seq<Token>)
    requires Ends(rest)
    ensures ComparisonRead(WhereTokens(w) + rest).ok && WhereEnd(WhereTokens(w) + rest) == ChainEnd(AfterSide(rest))
    decreases w
  {
    if w.One? {
      ComparisonReads(w.c, rest);
    } else {
      var more := WhereTokens(w.rest) + rest;
      assert WhereTokens(w) + rest == ComparisonTokens(w.c) + ([Connect(w.conn)] + more);
      ComparisonReads(w.c, [Connect(w.conn)] + more);
      WhereReads(w.rest, rest);
      ChainGoesOn(w.conn, w.rest, rest);
    }
  }

  lemma ChainGoesOn(conn: Connective, w: Where, rest: seq<Token>)
    requires ComparisonRead(WhereTokens(w) + rest).ok
    ensures ChainEnd([Connect(conn)] + (WhereTokens(w) + rest)) == WhereEnd(WhereTokens(w) + rest)
  {
    var t := WhereTokens(w) + rest;
    WhereStartsWithLeaf(w);
    assert ([Connect(conn)] + t)[1..] == t && t[0] == WhereTokens(w)[0];
  }

  // ----- What is left are the last tokens -----

  predicate IsSuffix(s: seq<Token>, t: seq<Token>) {
    |s| <= |t| && t[|t| - |s|..] == s
  }

  lemma SuffixOf(s: seq<Token>, t: seq<Token>, k: nat)
    requires k <= |t| && IsSuffix(s, t[k..])
    ensures IsSuffix(s, t)
  {
  }

  lemma SuffixBoth(r: seq<Token>, s: seq<Token>, t: seq<Token>)
    requires IsSuffix(r, s) && IsSuffix(s, t)
    ensures IsSuffix(r, t)
  {
    assert t[|t| - |s|..][|s| - |r|..] == t[|t| - |r|..];
  }

  lemma {:induction false} ExprSuffix(t: seq<Token>)
    ensures IsSuffix(ExprRead(t).toks, t)
    decreases |t|, 0
  {
    if StartsWith(t, LeftParen) {
      var r := ExprRead(t[1..]);
      ExprSuffix(t[1..]);
      SuffixOf(r.toks, t, 1);
      if r.ok && StartsWith(r.toks, RightParen) {
        LoopSuffix(r.toks[1..]);
        SuffixOf(LoopRead(r.toks[1..]).toks, r.toks, 1);
        SuffixBoth(LoopRead(r.toks[1..]).toks, r.toks, t);
      } else if r.ok {
        SuffixBoth(Tail(r.toks), r.toks, t);
      }
    } else if t != [] && IsOperand(t[0]) {
      LoopSuffix(t[1..]);
      SuffixOf(LoopRead(t[1..]).toks, t, 1);
    }
  }

  lemma {:induction false} LoopSuffix(t: seq<Token>)
    ensures IsSuffix(LoopRead(t).toks, t)
    decreases |t|, 1
  {
    if t != [] && t[0].Op? {
      if |t| >= 2 && IsOperand(t[1]) {
        LoopSuffix(t[2..]);
        SuffixOf(LoopRead(t[2..]).toks, t, 2);
      } else {
        var u := Tail(t[1..]);
        var r := ExprRead(u);
        assert IsSuffix(r.toks, t) by {
          ExprSuffix(u);
          TailSuffix(t, u);
          SuffixBoth(r.toks, u, t);
        }
        if r.ok {
          LoopSuffix(r.toks);
          SuffixBoth(LoopRead(r.toks).toks, r.toks, t);
        }
      }
    }
  }

  lemma TailSuffix(t: seq<Token>, u: seq<Token>)
    requires t != [] && u == Tail(t[1..])
    ensures IsSuffix(u, t) && |u| < |t|
  {
    if |t| >= 2 {
      assert u == t[2..];
    }
  }

  lemma ComparisonSuffix(t: seq<Token>)
    ensures IsSuffix(ComparisonRead(t).toks, t)
  {
    var r := ExprRead(t);
    ExprSuffix(t);
    if r.ok && r.toks != [] && r.toks[0].Rel? {
      ExprSuffix(r.toks[1..]);
      SuffixOf(ExprRead(r.toks[1..]).toks, r.toks, 1);
      SuffixBoth(ExprRead(r.toks[1..]).toks, r.toks, t);
    } else if r.ok {
      SuffixBoth(Tail(r.toks), r.toks, t);
    }
  }
}
