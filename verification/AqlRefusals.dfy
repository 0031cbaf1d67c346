/** Clauses outside the supported grammar: those that break off after a connective, and parentheses
    around comparisons. */
module AqlRefusals {
  import opened LvmCode
  import opened AqlCompile
  import opened AqlMeaning
  import opened AqlTokens

  // ----- Clauses that break off -----

  predicate NoConnective(t: seq<Token>) {
    forall k :: 0 <= k < |t| ==> !t[k].Connect?
  }

  /** After a chain of comparisons and a connective the clause ends with status 0, which no caller takes
      for an error, exactly if no comparison can be read there, or one can and the clause breaks off
      later; it ends without an error exactly if one can be read and the rest does. */
  lemma BrokenComparisonIsAccepted(p: Parser, w: Where, conn: Connective, rest: seq<Token>)
    requires p.toks == WhereTokens(w) + ([Connect(conn)] + rest) && !StartsWith(rest, LeftParen)
    ensures var r, status := ComparisonRead(rest), ParseWhere(p).1;
            && (status == ZERO <==> !r.ok || ChainEnd(r.toks).how.BrokenOff?)
            && (status == OK <==> r.ok && ChainEnd(r.toks).how.Done?)
            && (!r.ok ==> !IsError(status))
    ensures NoConnective(rest) ==> ParseWhere(p).1 == if ComparisonRead(rest).ok then OK else ZERO
  {
    var r := ComparisonRead(rest);
    WhereAgrees(p);
    WhereReads(w, [Connect(conn)] + rest);
    assert ([Connect(conn)] + rest)[1..] == rest;
    if NoConnective(rest) {
      ComparisonSuffix(rest);
    }
  }

  /** A clause as a whole breaks off exactly if its first comparison can be read and what follows it
      breaks off. */
  lemma BreaksOff(p: Parser)
    ensures ParseWhere(p).1 == 0 <==>
            ComparisonRead(p.toks).ok && ChainEnd(ComparisonRead(p.toks).toks).how.BrokenOff?
    ensures ParseWhere(p).1 == 2 <==> ComparisonRead(p.toks).ok && ChainEnd(ComparisonRead(p.toks).toks).how.Done?
    ensures ParseWhere(p).1 in {0, 2, 3}
  {
    WhereAgrees(p);
  }

  // ----- What a comparison needs -----

  predicate HasOperand(t: seq<Token>) {
    exists k :: 0 <= k < |t| && IsOperand(t[k])
  }

  lemma HasOperandIn(t: seq<Token>, from: nat, to: nat)
    requires from <= to <= |t| && HasOperand(t[from..to])
    ensures HasOperand(t[..to])
  {
    var k :| 0 <= k < to - from && IsOperand(t[from..to][k]);
    assert t[..to][from + k] == t[from..to][k];
  }

  /** An expression that can be read contains an operand. */
  lemma {:induction false} ExprHasOperand(t: seq<Token>)
    requires ExprRead(t).ok
    ensures HasOperand(t[..|t| - |ExprRead(t).toks|])
    decreases |t|
  {
    var left := |t| - |ExprRead(t).toks|;
    if StartsWith(t, LeftParen) {
      var r := ExprRead(t[1..]);
      ExprHasOperand(t[1..]);
      var to := |t| - |r.toks|;
      assert t[1..][..to - 1] == t[1..to];
      HasOperandIn(t, 1, to);
      assert t[..to] == t[..left][..to];
      HasOperandLonger(t[..left], to);
    } else {
      assert t[..left][0] == t[0];
    }
  }

  lemma HasOperandLonger(t: seq<Token>, to: nat)
    requires to <= |t| && HasOperand(t[..to])
    ensures HasOperand(t)
  {
    var k :| 0 <= k < to && IsOperand(t[..to][k]);
    assert IsOperand(t[k]);
  }

  /** A comparison that can be read has a relation with an operand before it and one behind it. */
  lemma ComparisonNeeds(t: seq<Token>)
    requires ComparisonRead(t).ok
    ensures exists k :: 0 <= k < |t| && t[k].Rel? && HasOperand(t[..k]) && HasOperand(t[k + 1..])
  {
    var r := ExprRead(t);
    var k := |t| - |r.toks|;
    ExprSuffix(t);
    ExprHasOperand(t);
    assert t[k] == r.toks[0] && t[k + 1..] == r.toks[1..];
    ExprHasOperand(r.toks[1..]);
    HasOperandLonger(t[k + 1..], |r.toks[1..]| - |ExprRead(r.toks[1..]).toks|);
  }

  /** So a clause breaks off if one of them is missing. */
  lemma BrokenFamilies(p: Parser, w: Where, conn: Connective, rest: seq<Token>)
    requires p.toks == WhereTokens(w) + ([Connect(conn)] + rest) && !StartsWith(rest, LeftParen)
    requires forall k :: 0 <= k < |rest| && rest[k].Rel? ==> !HasOperand(rest[..k]) || !HasOperand(rest[k + 1..])
    ensures ParseWhere(p).1 == ZERO
  {
    BrokenComparisonIsAccepted(p, w, conn, rest);
    if ComparisonRead(rest).ok {
      ComparisonNeeds(rest);
    }
  }

  // ----- Parentheses around comparisons -----

  /** What follows a chain of comparisons: more of them, with or without parentheses around. */
  datatype Following = NoMore | Bare(conn: Connective, w: Where, more: Following)
      | Grouped(conn: Connective, w: Where, more: Following)

  function TailTokens(t: Following): seq<Token> {
    match t
    case NoMore => []
    case Bare(conn, w, more) => [Connect(conn)] + (WhereTokens(w) + TailTokens(more))
    case Grouped(conn, w, more) => [Connect(conn), LeftParen] + (WhereTokens(w) + ([RightParen] + TailTokens(more)))
  }

  predicate HasGroup(t: Following) {
    match t
    case NoMore => false
    case Bare(_, _, more) => HasGroup(more)
    case Grouped(_, _, _) => true
  }

  /** Nothing that the clause would take for its own. */
  predicate Closed(rest: seq<Token>) {
    rest == [] || !(rest[0].Op? || rest[0].Connect? || rest[0].RightParen?)
  }

  /** The closing parenthesis of a group is taken by the last operand in it. The group goes on with what
      follows, and the parenthesis it asks for in the end is missing. */
  lemma {:induction false} TailEnd(t: Following, rest: seq<Token>)
    requires Closed(rest)
    ensures var e := ChainEnd(TailTokens(t) + rest); if HasGroup(t) then e.how.Wrong? else e == End(Done, rest)
    decreases t
  {
    match t
    case NoMore => assert TailTokens(t) + rest == rest;
    case Bare(conn, w, more) =>
      var follows := TailTokens(more) + rest;
      assert TailTokens(t) + rest == [Connect(conn)] + (WhereTokens(w) + follows);
      TailStarts(more, rest);
      WhereReads(w, follows);
      ChainGoesOn(conn, w, follows);
      TailEnd(more, rest);
    case Grouped(conn, w, more) =>
      var follows := TailTokens(more) + rest;
      var group := WhereTokens(w) + ([RightParen] + follows);
      assert TailTokens(t) + rest == [Connect(conn), LeftParen] + group;
      WhereReads(w, [RightParen] + follows);
      assert ([RightParen] + follows)[1..] == follows;
      TailEnd(more, rest);
      var whole := [Connect(conn), LeftParen] + group;
      assert whole[1..][0] == LeftParen && whole[2..] == group;
  }

  lemma TailStarts(t: Following, rest: seq<Token>)
    requires Closed(rest)
    ensures Ends(TailTokens(t) + rest) && AfterSide(TailTokens(t) + rest) == TailTokens(t) + rest
  {
    if t.NoMore? {
      assert TailTokens(t) + rest == rest;
    }
  }

  /** A clause with parentheses around some of its comparisons, not the first, is a syntax error. */
  lemma GroupIsSyntaxError(p: Parser, w: Where, t: Following, rest: seq<Token>)
    requires p.toks == WhereTokens(w) + (TailTokens(t) + rest) && Closed(rest)
    ensures ParseWhere(p).1 == SYNTAX_ERROR <==> HasGroup(t)
    ensures !HasGroup(t) ==> ParseWhere(p).1 == OK && ParseWhere(p).0.toks == rest
  {
    WhereAgrees(p);
    TailStarts(t, rest);
    WhereReads(w, TailTokens(t) + rest);
    TailEnd(t, rest);
  }

  function Opening(n: nat): seq<Token> {
    if n == 0 then [] else [LeftParen] + Opening(n - 1)
  }

  lemma {:induction false} OpeningFails(n: nat, s: Side, rel: RelOp, more: seq<Token>)
    requires n > 0
    ensures !ExprRead(Opening(n) + (SideTokens(s) + ([Rel(rel)] + more))).ok
  {
    var inside := SideTokens(s) + ([Rel(rel)] + more);
    var t := Opening(n) + inside;
    assert t == [LeftParen] + (Opening(n - 1) + inside);
    assert t[1..] == Opening(n - 1) + inside;
    if n == 1 {
      assert t[1..] == inside;
      SideReads(s, [Rel(rel)] + more);
    } else {
      OpeningFails(n - 1, s, rel, more);
    }
  }

  lemma ExprFails(p: Parser)
    requires !ExprRead(p.toks).ok
    ensures ParseWhere(p).1 == SYNTAX_ERROR
  {
    WhereAgrees(p);
  }

  /** A clause that begins with parentheses around a comparison is a syntax error, whatever follows: they
      are read as an expression. */
  lemma LeadingGroupIsSyntaxError(p: Parser, n: nat, c: Comparison, more: seq<Token>)
    requires n > 0 && p.toks == Opening(n) + (ComparisonTokens(c) + more)
    ensures ParseWhere(p).1 == SYNTAX_ERROR
  {
    assert !ExprRead(p.toks).ok by {
      assert ComparisonTokens(c) + more == SideTokens(c.left) + ([Rel(c.rel)] + (SideTokens(c.right) + more));
      OpeningFails(n, c.left, c.rel, SideTokens(c.right) + more);
    }
    ExprFails(p);
  }
}
