/** The recursive-descent parser for WHERE clauses, on a mutable lexer and engine. Every method
    is one of the parsing functions of AqlCompile carried out in place. */
module AqlParser {
  import opened LvmCode
  import opened LvmEngine
  import C = AqlCompile

  // ----- Neither an error nor a write past a buffer is ever undone -----

  predicate KeepsFlags(v: C.Vm, w: C.Vm) {
    (v.bad ==> w.bad) && (v.error ==> w.error)
  }

  lemma InsertKeepsFlags(v: C.Vm, at: nat, node: seq<byte>)
    ensures KeepsFlags(v, C.InsertOperator(v, at, node))
  {
  }

  lemma OperandKeepsFlags(p: C.Parser)
    ensures KeepsFlags(p.vm, C.ParseOperand(p).0.vm)
  {
  }

  lemma {:induction false} ExprKeepsFlags(p: C.Parser)
    ensures KeepsFlags(p.vm, C.ParseExpr(p).0.vm)
    decreases |p.toks|, 2
  {
    var q := C.Next(p);
    if q.tok == C.LeftParen {
      ExprKeepsFlags(q);
      var r := C.ParseExpr(q).0;
      ExprLoopKeepsFlags(C.Next(r), p.vm.end);
    } else {
      OperandKeepsFlags(C.Rewind(q));
      ExprLoopKeepsFlags(C.ParseOperand(C.Rewind(q)).0, p.vm.end);
    }
  }

  lemma {:induction false} ExprLoopKeepsFlags(p: C.Parser, saved: nat)
    ensures KeepsFlags(p.vm, C.ParseExprLoop(p, saved).0.vm)
    decreases |p.toks|, 1
  {
    var q := C.Next(p);
    if q.tok.Op? {
      OperandOrExprKeepsFlags(q);
      var r := C.ParseOperandOrExpr(q).0;
      var node := NodeBytes(LVM_ARITH_OP, ArithCode(q.tok.op));
      InsertKeepsFlags(r.vm, saved, node);
      ExprLoopKeepsFlags(r.(vm := C.InsertOperator(r.vm, saved, node)), C.ShiftedEnd(r.vm, saved));
    }
  }

  lemma {:induction false} OperandOrExprKeepsFlags(p: C.Parser)
    ensures KeepsFlags(p.vm, C.ParseOperandOrExpr(p).0.vm)
    decreases |p.toks|, 3
  {
    OperandKeepsFlags(p);
    ExprKeepsFlags(C.ParseOperand(p).0);
  }

  lemma ComparisonKeepsFlags(p: C.Parser)
    ensures KeepsFlags(p.vm, C.ParseComparison(p).0.vm)
  {
    ExprKeepsFlags(p.(vm := C.JumpToOperand(p.vm)));
    var q := C.ParseExpr(p.(vm := C.JumpToOperand(p.vm))).0;
    var r := C.Next(q.(vm := C.SetEnd(q.vm, p.vm.end)));
    if r.tok.Rel? {
      ExprKeepsFlags(r.(vm := C.SetEnd(C.Emit(r.vm, NodeBytes(LVM_CMP_OP, RelCode(r.tok.rel))), q.vm.end)));
    }
  }

  lemma {:induction false} WhereKeepsFlags(p: C.Parser)
    ensures KeepsFlags(p.vm, C.ParseWhere(p).0.vm)
    decreases |p.toks|, 2
  {
    ComparisonKeepsFlags(p);
    WhereLoopKeepsFlags(C.ParseComparison(p).0, 0);
  }

  lemma {:induction false} WhereLoopKeepsFlags(p: C.Parser, saved: nat)
    ensures KeepsFlags(p.vm, C.ParseWhereLoop(p, saved).0.vm)
    decreases |p.toks|, 1
  {
    var q := C.Next(p);
    if q.tok.Connect? {
      var node := NodeBytes(LVM_CMP_OP, ConnectiveCode(q.tok.conn));
      InsertKeepsFlags(q.vm, saved, node);
      var r := C.Next(q.(vm := C.InsertOperator(q.vm, saved, node)));
      if r.tok == C.LeftParen {
        WhereKeepsFlags(r);
        WhereLoopKeepsFlags(C.Next(C.ParseWhere(r).0), C.ShiftedEnd(q.vm, saved));
      } else {
        ComparisonKeepsFlags(C.Rewind(r));
        WhereLoopKeepsFlags(C.ParseComparison(C.Rewind(r)).0, C.ShiftedEnd(q.vm, saved));
      }
    }
  }

  // ----- The parser object -----

  class Parser {
    const vm: Lvm
    var input: seq<C.Token>
    var prev: seq<C.Token>
    var token: C.Token

    constructor (tokens: seq<C.Token>, engine: Lvm)
      ensures vm == engine && input == tokens && prev == [] && token == C.NoToken
    {
      vm, input, prev, token := engine, tokens, [], C.NoToken;
    }

    ghost predicate Valid()
      reads this, vm
    {
      vm.Valid()
    }

    ghost function View(): C.Parser
      reads this, vm, vm.code
    {
      C.Parser(input, prev, token, vm.View())
    }

    /** NEXT: read a token and remember where it started. */
    method Next()
      modifies this
      ensures View() == C.Next(old(View()))
    {
      prev := input;
      if input == [] {
        token := C.NoToken;
      } else {
        token := input[0];
        input := input[1..];
      }
    }

    /** REWIND: unread the last token. */
    method Rewind()
      modifies this
      ensures View() == C.Rewind(old(View()))
    {
      input := prev;
    }

    method ParseOperand() returns (status: int)
      requires Valid() && !C.ParseOperand(View()).0.vm.bad
      modifies this, vm`end, vm`error, vm`names, vm.code
      ensures Valid() && (View(), status) == C.ParseOperand(old(View()))
    {
      Next();
      match token {
        case Identifier(name) =>
          vm.RegisterVariable(name);
          vm.SetVariable(name);
        case Integer(l) => vm.SetLong(l);
        case StringValue =>
        case FloatValue =>
        case _ => return C.SYNTAX_ERROR;
      }
      status := C.OK;
    }

    method InsertOperator(saved: nat, node: word, op: word) returns (newSaved: nat)
      requires Valid() && node in {LVM_ARITH_OP, LVM_CMP_OP}
      requires !C.InsertOperator(View().vm, saved, NodeBytes(node, op)).bad
      modifies vm`end, vm`error, vm.code
      ensures Valid() && View() == old(View()).(vm := C.InsertOperator(old(View()).vm, saved, NodeBytes(node, op)))
      ensures newSaved == C.ShiftedEnd(old(View()).vm, saved)
    {
      newSaved := vm.ShiftForOperator(saved);
      if node == LVM_ARITH_OP {
        vm.SetOp(op);
      } else {
        vm.SetRelation(op);
      }
      var _ := vm.SetEnd(newSaved);
    }

    method ParseExpr() returns (status: int)
      requires Valid() && !C.ParseExpr(View()).0.vm.bad
      modifies this, vm`end, vm`error, vm`names, vm.code
      ensures Valid() && (View(), status) == C.ParseExpr(old(View()))
      decreases |input|, 2
    {
      ghost var start := View();
      ghost var result := C.ParseExpr(start);
      var saved := vm.end;
      Next();
      if token == C.LeftParen {
        FirstGroup(start);
        status := ParseExpr();
        if C.IsError(status) {
          return C.SYNTAX_ERROR;
        }
        Next();
        if token != C.RightParen {
          return C.SYNTAX_ERROR;
        }
      } else {
        Rewind();
        FirstOperand(start);
        status := ParseOperand();
        if C.IsError(status) {
          return C.SYNTAX_ERROR;
        }
      }
      assert C.ParseExprLoop(View(), saved) == result && |input| <= |start.toks|;
      status := ParseOperators(saved);
    }

    /** The loop of `parse_expr` over the operators after the first operand. */
    method ParseOperators(first: nat) returns (status: int)
      requires Valid() && !C.ParseExprLoop(View(), first).0.vm.bad
      modifies this, vm`end, vm`error, vm`names, vm.code
      ensures Valid() && (View(), status) == C.ParseExprLoop(old(View()), first)
      decreases |input|, 1
    {
      ghost var result := C.ParseExprLoop(View(), first);
      var saved := first;
      while true
        invariant Valid() && |input| <= old(|input|)
        invariant C.ParseExprLoop(View(), saved) == result
        decreases |input|
      {
        ghost var before := View();
        Next();
        if token == C.RightParen {
          return C.OK;
        }
        if !token.Op? {
          Rewind();
          return C.OK;
        }
        var op := ArithCode(token.op);
        NextOperand(before, saved);
        status := ParseOperandOrExpr();
        if C.IsError(status) {
          return C.SYNTAX_ERROR;
        }
        saved := InsertOperator(saved, LVM_ARITH_OP, op);
      }
    }

    /** `!PARSE(operand) && !PARSE(expr)` */
    method ParseOperandOrExpr() returns (status: int)
      requires Valid() && !C.ParseOperandOrExpr(View()).0.vm.bad
      modifies this, vm`end, vm`error, vm`names, vm.code
      ensures Valid() && (View(), status) == C.ParseOperandOrExpr(old(View()))
      decreases |input|, 3
    {
      ghost var start := View();
      if C.ParseOperand(start).0.vm.bad {
        ExprKeepsFlags(C.ParseOperand(start).0);
      }
      status := ParseOperand();
      if C.IsError(status) {
        status := ParseExpr();
      }
    }

    method ParseComparison() returns (status: int)
      requires Valid() && !C.ParseComparison(View()).0.vm.bad
      modifies this, vm`end, vm`error, vm`names, vm.code
      ensures Valid() && (View(), status) == C.ParseComparison(old(View()))
    {
      ghost var start := View();
      ghost var jumped := start.(vm := C.JumpToOperand(start.vm));
      LeftSide(start);
      var saved := vm.JumpToOperand();
      assert View() == jumped;
      status := ParseExpr();
      if C.IsError(status) {
        return C.SYNTAX_ERROR;
      }
      saved := vm.SetEnd(saved);
      Next();
      if !token.Rel? {
        return C.SYNTAX_ERROR;
      }
      RightSide(start);
      vm.SetRelation(RelCode(token.rel));
      var _ := vm.SetEnd(saved);
      status := ParseExpr();
      if C.IsError(status) {
        return C.SYNTAX_ERROR;
      }
      return C.OK;
    }

    method ParseWhere() returns (status: int)
      requires Valid() && !C.ParseWhere(View()).0.vm.bad
      modifies this, vm`end, vm`error, vm`names, vm.code
      ensures Valid() && (View(), status) == C.ParseWhere(old(View()))
      decreases |input|, 2
    {
      ghost var start := View();
      if C.ParseComparison(start).0.vm.bad {
        WhereLoopKeepsFlags(C.ParseComparison(start).0, 0);
      }
      status := ParseComparison();
      if C.IsError(status) {
        return C.SYNTAX_ERROR;
      }
      status := ParseConnectives();
    }

    /** The loop of `parse_where` over the connectives after the first comparison. */
    method ParseConnectives() returns (status: int)
      requires Valid() && !C.ParseWhereLoop(View(), 0).0.vm.bad
      modifies this, vm`end, vm`error, vm`names, vm.code
      ensures Valid() && (View(), status) == C.ParseWhereLoop(old(View()), 0)
      decreases |input|, 1
    {
      ghost var result := C.ParseWhereLoop(View(), 0);
      var saved := 0;
      while true
        invariant Valid() && |input| <= old(|input|)
        invariant C.ParseWhereLoop(View(), saved) == result
        decreases |input|
      {
        ghost var before := View();
        Next();
        if !token.Connect? {
          Rewind();
          return C.OK;
        }
        NextComparison(before, saved);
        saved := InsertOperator(saved, LVM_CMP_OP, ConnectiveCode(token.conn));
        Next();
        if token == C.LeftParen {
          status := ParseWhere();
          if C.IsError(status) {
            return C.SYNTAX_ERROR;
          }
          Next();
          if token != C.RightParen {
            return C.SYNTAX_ERROR;
          }
        } else {
          Rewind();
          status := ParseComparison();
          if C.IsError(status) {
            return C.ZERO;
          }
        }
      }
    }
  }

  // ----- What a run without a write past a buffer promises of its parts -----

  lemma FirstGroup(p: C.Parser)
    requires C.Next(p).tok == C.LeftParen && !C.ParseExpr(p).0.vm.bad
    ensures !C.ParseExpr(C.Next(p)).0.vm.bad
  {
    var r := C.ParseExpr(C.Next(p)).0;
    if r.vm.bad {
      ExprLoopKeepsFlags(C.Next(r), p.vm.end);
    }
  }

  lemma FirstOperand(p: C.Parser)
    requires C.Next(p).tok != C.LeftParen && !C.ParseExpr(p).0.vm.bad
    ensures !C.ParseOperand(C.Rewind(C.Next(p))).0.vm.bad
  {
    var r := C.ParseOperand(C.Rewind(C.Next(p))).0;
    if r.vm.bad {
      ExprLoopKeepsFlags(r, p.vm.end);
    }
  }

  lemma NextOperand(p: C.Parser, saved: nat)
    requires C.Next(p).tok.Op? && !C.ParseExprLoop(p, saved).0.vm.bad
    ensures var q := C.Next(p);
            var (r, status) := C.ParseOperandOrExpr(q);
            !r.vm.bad
            && (!C.IsError(status) ==>
                  !C.InsertOperator(r.vm, saved, NodeBytes(LVM_ARITH_OP, ArithCode(q.tok.op))).bad)
  {
    var q := C.Next(p);
    var (r, status) := C.ParseOperandOrExpr(q);
    var node := NodeBytes(LVM_ARITH_OP, ArithCode(q.tok.op));
    if r.vm.bad {
      InsertKeepsFlags(r.vm, saved, node);
    }
    if C.InsertOperator(r.vm, saved, node).bad {
      ExprLoopKeepsFlags(r.(vm := C.InsertOperator(r.vm, saved, node)), C.ShiftedEnd(r.vm, saved));
    }
  }

  lemma LeftSide(p: C.Parser)
    requires !C.ParseComparison(p).0.vm.bad
    ensures !C.ParseExpr(p.(vm := C.JumpToOperand(p.vm))).0.vm.bad
  {
    var q := C.ParseExpr(p.(vm := C.JumpToOperand(p.vm))).0;
    var r := C.Next(q.(vm := C.SetEnd(q.vm, p.vm.end)));
    if q.vm.bad && r.tok.Rel? {
      ExprKeepsFlags(r.(vm := C.SetEnd(C.Emit(r.vm, NodeBytes(LVM_CMP_OP, RelCode(r.tok.rel))), q.vm.end)));
    }
  }

  lemma RightSide(p: C.Parser)
    requires !C.ParseComparison(p).0.vm.bad
    ensures var (q, status) := C.ParseExpr(p.(vm := C.JumpToOperand(p.vm)));
            var r := C.Next(q.(vm := C.SetEnd(q.vm, p.vm.end)));
            !C.IsError(status) && r.tok.Rel? ==>
              !C.SetEnd(C.Emit(r.vm, NodeBytes(LVM_CMP_OP, RelCode(r.tok.rel))), q.vm.end).bad
  {
    var (q, status) := C.ParseExpr(p.(vm := C.JumpToOperand(p.vm)));
    var r := C.Next(q.(vm := C.SetEnd(q.vm, p.vm.end)));
    if !C.IsError(status) && r.tok.Rel? {
      var vm := C.SetEnd(C.Emit(r.vm, NodeBytes(LVM_CMP_OP, RelCode(r.tok.rel))), q.vm.end);
      if vm.bad {
        ExprKeepsFlags(r.(vm := vm));
      }
    }
  }

  lemma NextComparison(p: C.Parser, saved: nat)
    requires C.Next(p).tok.Connect? && !C.ParseWhereLoop(p, saved).0.vm.bad
    ensures var q := C.Next(p);
            var vm := C.InsertOperator(q.vm, saved, NodeBytes(LVM_CMP_OP, ConnectiveCode(q.tok.conn)));
            var r := C.Next(q.(vm := vm));
            !vm.bad
            && (r.tok == C.LeftParen ==> !C.ParseWhere(r).0.vm.bad)
            && (r.tok != C.LeftParen ==> !C.ParseComparison(C.Rewind(r)).0.vm.bad)
  {
    var q := C.Next(p);
    var vm := C.InsertOperator(q.vm, saved, NodeBytes(LVM_CMP_OP, ConnectiveCode(q.tok.conn)));
    var newSaved := C.ShiftedEnd(q.vm, saved);
    var r := C.Next(q.(vm := vm));
    if r.tok == C.LeftParen {
      if vm.bad {
        WhereKeepsFlags(r);
      }
      var s := C.ParseWhere(r).0;
      if s.vm.bad {
        WhereLoopKeepsFlags(C.Next(s), newSaved);
      }
    } else {
      if vm.bad {
        ComparisonKeepsFlags(C.Rewind(r));
      }
      var s := C.ParseComparison(C.Rewind(r)).0;
      if s.vm.bad {
        WhereLoopKeepsFlags(s, newSaved);
      }
    }
  }
}
