/** Compiling a WHERE clause into the prefix bytecode of the logic engine.

    The parser emits operands as it meets them and makes room for an operator in front of
    them afterwards, by shifting the bytes already emitted. Parser and emitter are given here
    as functions on values; `AqlParser` has the same steps on mutable objects. */
module AqlCompile {
  import opened LvmCode

  datatype Token =
    | Identifier(name: string)
    | Integer(l: long)
    | StringValue
    | FloatValue
    | LeftParen
    | RightParen
    | Op(op: ArithOp)
    | Rel(rel: RelOp)
    | Connect(conn: Connective)
    | OtherToken
    | NoToken

  const ZERO := 0
  const OK := 2
  const SYNTAX_ERROR := 3

  /** AQL_ERROR: only the codes from SYNTAX_ERROR up are errors. */
  predicate IsError(status: int) {
    status >= SYNTAX_ERROR
  }

  // ----- The emitter -----

  /** The part of the engine that emission changes. `bad` says that a byte was written past the
      buffer or a variable past the table, which the source leaves unchecked. */
  datatype Vm = Vm(code: seq<byte>, end: nat, error: bool, names: seq<string>, bad: bool)

  function Emit(v: Vm, b: seq<byte>): Vm {
    if v.end + |b| <= |v.code| then
      v.(code := v.code[..v.end] + b + v.code[v.end + |b|..], end := v.end + |b|)
    else v.(end := v.end + |b|, bad := true)
  }

  /** Leave room for an operator in front of the operand that comes next. */
  function JumpToOperand(v: Vm): Vm {
    if v.end + 4 >= |v.code| then v.(error := true) else v.(end := v.end + 4)
  }

  predicate ShiftRefused(v: Vm, at: nat) {
    v.end + 2 > |v.code| || at >= v.end
  }

  /** Move the bytes from `at` up by the size of an operator and continue at `at`. */
  function ShiftForOperator(v: Vm, at: nat): Vm {
    if ShiftRefused(v, at) then v.(error := true)
    else if v.end + 4 > |v.code| then v.(end := at, bad := true)
    else v.(code := v.code[..at + 4] + v.code[at..v.end] + v.code[v.end + 4..], end := at)
  }

  /** Where the code will end once the operator is in the gap. */
  function ShiftedEnd(v: Vm, at: nat): nat {
    if ShiftRefused(v, at) then 0 else v.end + 4
  }

  function SetEnd(v: Vm, end: nat): Vm {
    if end >= |v.code| then v.(error := true) else v.(end := end)
  }

  function Register(v: Vm, name: string): Vm {
    if name in v.names then v
    else v.(names := v.names + [name], bad := v.bad || |v.names| >= VARIABLE_SLOTS)
  }

  function SetVariable(v: Vm, name: string): Vm
    requires name in v.names
  {
    if IdOf(name, v.names) < 8 then Emit(v, VarBytes(IdOf(name, v.names))) else v
  }

  /** Put an operator in front of everything emitted from `at` on. */
  function InsertOperator(v: Vm, at: nat, node: seq<byte>): Vm {
    SetEnd(Emit(ShiftForOperator(v, at), node), ShiftedEnd(v, at))
  }

  // ----- The parser -----

  /** The lexer: the tokens still to come, those to come before the last one was read, and the
      last one; beside it, the engine. */
  datatype Parser = Parser(toks: seq<Token>, prev: seq<Token>, tok: Token, vm: Vm)

  function Next(p: Parser): Parser {
    if p.toks == [] then p.(prev := p.toks, tok := NoToken)
    else p.(prev := p.toks, tok := p.toks[0], toks := p.toks[1..])
  }

  function Rewind(p: Parser): Parser {
    p.(toks := p.prev)
  }

  function ParseOperand(p: Parser): (Parser, int) {
    var q := Next(p);
    match q.tok
    case Identifier(name) => (q.(vm := SetVariable(Register(q.vm, name), name)), OK)
    case Integer(l) => (q.(vm := Emit(q.vm, ConstBytes(l))), OK)
    case StringValue => (q, OK)
    case FloatValue => (q, OK)
    case _ => (q, SYNTAX_ERROR)
  }

  function ParseExpr(p: Parser): (r: (Parser, int))
    ensures |r.0.toks| <= |p.toks|
    decreases |p.toks|, 2
  {
    var q := Next(p);
    if q.tok == LeftParen then
      var (r, status) := ParseExpr(q);
      if IsError(status) then (r, SYNTAX_ERROR)
      else if Next(r).tok != RightParen then (Next(r), SYNTAX_ERROR)
      else ParseExprLoop(Next(r), p.vm.end)
    else
      var (r, status) := ParseOperand(Rewind(q));
      if IsError(status) then (r, SYNTAX_ERROR) else ParseExprLoop(r, p.vm.end)
  }

  /** The operators after the first operand; a closing parenthesis is consumed. */
  function ParseExprLoop(p: Parser, saved: nat): (r: (Parser, int))
    ensures |r.0.toks| <= |p.toks|
    decreases |p.toks|, 1
  {
    var q := Next(p);
    if q.tok == RightParen then (q, OK)
    else if !q.tok.Op? then (Rewind(q), OK)
    else
      var (r, status) := ParseOperandOrExpr(q);
      if IsError(status) then (r, SYNTAX_ERROR)
      else ParseExprLoop(r.(vm := InsertOperator(r.vm, saved, NodeBytes(LVM_ARITH_OP, ArithCode(q.tok.op)))),
                         ShiftedEnd(r.vm, saved))
  }

  /** A token that is no operand is consumed all the same before an expression is tried. */
  function ParseOperandOrExpr(p: Parser): (r: (Parser, int))
    ensures |r.0.toks| <= |p.toks|
    decreases |p.toks|, 3
  {
    var (r, status) := ParseOperand(p);
    if IsError(status) then ParseExpr(r) else (r, status)
  }

  function ParseComparison(p: Parser): (r: (Parser, int))
    ensures |r.0.toks| <= |p.toks|
  {
    var (q, status) := ParseExpr(p.(vm := JumpToOperand(p.vm)));
    if IsError(status) then (q, SYNTAX_ERROR)
    else
      var r := Next(q.(vm := SetEnd(q.vm, p.vm.end)));
      if !r.tok.Rel? then (r, SYNTAX_ERROR)
      else
        var vm := SetEnd(Emit(r.vm, NodeBytes(LVM_CMP_OP, RelCode(r.tok.rel))), q.vm.end);
        var (s, status2) := ParseExpr(r.(vm := vm));
        (s, if IsError(status2) then SYNTAX_ERROR else OK)
  }

  function ParseWhere(p: Parser): (r: (Parser, int))
    ensures |r.0.toks| <= |p.toks|
    decreases |p.toks|, 2
  {
    var (q, status) := ParseComparison(p);
    if IsError(status) then (q, SYNTAX_ERROR) else ParseWhereLoop(q, 0)
  }

  /** The connectives after the first comparison. A comparison that does not parse after a
      connective ends the clause with status 0, which is no error. */
  function ParseWhereLoop(p: Parser, saved: nat): (r: (Parser, int))
    ensures |r.0.toks| <= |p.toks|
    decreases |p.toks|, 1
  {
    var q := Next(p);
    if !q.tok.Connect? then (Rewind(q), OK)
    else
      var vm := InsertOperator(q.vm, saved, NodeBytes(LVM_CMP_OP, ConnectiveCode(q.tok.conn)));
      var newSaved := ShiftedEnd(q.vm, saved);
      var r := Next(q.(vm := vm));
      if r.tok == LeftParen then
        var (s, status) := ParseWhere(r);
        if IsError(status) || Next(s).tok != RightParen then (if IsError(status) then s else Next(s), SYNTAX_ERROR)
        else ParseWhereLoop(Next(s), newSaved)
      else
        var (s, status) := ParseComparison(Rewind(r));
        if IsError(status) then (s, ZERO) else ParseWhereLoop(s, newSaved)
  }
}
