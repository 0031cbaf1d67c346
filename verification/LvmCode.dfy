/** The bytecode of the Antelope logic engine and what it means.

    Code is a buffer of bytes. A node is a two-byte node type followed by a two-byte
    operator, or by an operand of a two-byte type and a four-byte value: the layout of
    the enums and the union on a target with 16-bit `int` and 32-bit `long`. */
module LvmCode {
  type byte = x: int | 0 <= x < 256
  type word = x: int | 0 <= x < 0x1_0000
  /** The C type `long`. */
  type long = x: int | LONG_MIN <= x <= LONG_MAX

  const LONG_MIN := -0x8000_0000
  const LONG_MAX := 0x7FFF_FFFF

  // Node types, operators, operand types and status codes, with the values of lvm.h.
  const LVM_ARITH_OP: word := 0x10
  const LVM_OPERAND: word := 0x20
  const LVM_CMP_OP: word := 0x40
  const LVM_NOT_CODE: word := 0x83
  const LVM_VARIABLE: word := 0
  const LVM_LONG: word := 2

  const FALSE := 0
  const TRUE := 1
  const SEMANTIC_ERROR := 3
  const MATH_ERROR := 4
  const EXECUTION_ERROR := 8
  const DERIVATION_ERROR := 9

  /** The largest number of variables the table of the engine holds. */
  const VARIABLE_SLOTS := 7

  datatype ArithOp = Add | Sub | Mul | Div
  datatype RelOp = Eq | Neq | Ge | Geq | Le | Leq
  datatype Connective = And | Or

  /** An arithmetic expression over named variables. */
  datatype Expr = Const(l: long) | Var(name: string) | Arith(op: ArithOp, left: Expr, right: Expr)

  /** A condition; `Not` is executed by the engine although the query language never emits it. */
  datatype Cond =
    | Cmp(rel: RelOp, left: Expr, right: Expr)
    | Join(conn: Connective, c1: Cond, c2: Cond)
    | Not(c: Cond)

  // ----- What expressions and conditions mean -----

  datatype Number = Number(l: long) | NumberError
  datatype Truth = Truth(b: bool) | TruthError

  /** Two's-complement wrap to 32 bits. */
  function Wrap(x: int): (l: long)
    ensures LONG_MIN <= x <= LONG_MAX ==> l == x
    ensures (x - l) % 0x1_0000_0000 == 0
  {
    var m := x % 0x1_0000_0000;
    if m <= LONG_MAX then m else m - 0x1_0000_0000
  }

  /** Division that truncates toward zero, as in C. */
  function Quotient(a: int, b: int): int
    requires b != 0
  {
    var q := Abs(a) / Abs(b);
    if (a >= 0) == (b > 0) then q else -q
  }

  function Abs(x: int): int {
    if x < 0 then -x else x
  }

  function Compute(op: ArithOp, a: long, b: long): Number {
    match op
    case Add => Number(Wrap(a + b))
    case Sub => Number(Wrap(a - b))
    case Mul => Number(Wrap(a * b))
    case Div => if b == 0 then NumberError else Number(Wrap(Quotient(a, b)))
  }

  /** The value of an expression; an error if any division in it is by zero. */
  function Meaning(e: Expr, env: string -> long): Number {
    match e
    case Const(l) => Number(l)
    case Var(name) => Number(env(name))
    case Arith(op, left, right) =>
      var a := Meaning(left, env);
      var b := Meaning(right, env);
      if a.Number? && b.Number? then Compute(op, a.l, b.l) else NumberError
  }

  predicate Compare(rel: RelOp, a: long, b: long) {
    match rel
    case Eq => a == b
    case Neq => a != b
    case Ge => a > b
    case Geq => a >= b
    case Le => a < b
    case Leq => a <= b
  }

  /** The truth value of a condition; an error if any division anywhere in it is by zero. */
  function Holds(c: Cond, env: string -> long): Truth {
    match c
    case Cmp(rel, left, right) =>
      var a := Meaning(left, env);
      var b := Meaning(right, env);
      if a.Number? && b.Number? then Truth(Compare(rel, a.l, b.l)) else TruthError
    case Join(conn, c1, c2) =>
      var a := Holds(c1, env);
      var b := Holds(c2, env);
      if a.Truth? && b.Truth? then Truth(if conn == And then a.b && b.b else a.b || b.b) else TruthError
    case Not(c) =>
      var a := Holds(c, env);
      if a.Truth? then Truth(!a.b) else TruthError
  }

  // ----- Bytes -----

  function ArithCode(op: ArithOp): word {
    match op case Add => 0x11 case Sub => 0x12 case Mul => 0x13 case Div => 0x14
  }

  function RelCode(rel: RelOp): word {
    match rel case Eq => 0x41 case Neq => 0x42 case Ge => 0x43 case Geq => 0x44 case Le => 0x45 case Leq => 0x46
  }

  function ConnectiveCode(conn: Connective): word {
    match conn case And => 0x81 case Or => 0x82
  }

  function WordBytes(w: word): (b: seq<byte>)
    ensures |b| == 2
  {
    [w % 256, w / 256]
  }

  function WordAt(code: seq<byte>, at: nat): word
    requires at + 2 <= |code|
  {
    code[at] as int + 256 * code[at + 1] as int
  }

  function LongBytes(l: long): (b: seq<byte>)
    ensures |b| == 4
  {
    var u := l % 0x1_0000_0000;
    [u % 256, u / 256 % 256, u / 256 / 256 % 256, u / 256 / 256 / 256]
  }

  function LongAt(code: seq<byte>, at: nat): long
    requires at + 4 <= |code|
  {
    Wrap(code[at] as int + 0x100 * code[at + 1] as int
         + 0x1_0000 * code[at + 2] as int + 0x100_0000 * code[at + 3] as int)
  }

  /** The identifier a name gets: its first position in the variable table. */
  function IdOf(name: string, names: seq<string>): (id: nat)
    requires name in names
    ensures id < |names| && names[id] == name
  {
    if names[0] == name then 0 else IdOf(name, names[1..]) + 1
  }

  function NodeBytes(kind: word, op: word): (b: seq<byte>)
    ensures |b| == 4
  {
    WordBytes(kind) + WordBytes(op)
  }

  function ConstBytes(l: long): (b: seq<byte>)
    ensures |b| == 8
  {
    WordBytes(LVM_OPERAND) + WordBytes(LVM_LONG) + LongBytes(l)
  }

  function VarBytes(id: byte): (b: seq<byte>)
    ensures |b| == 8
  {
    WordBytes(LVM_OPERAND) + WordBytes(LVM_VARIABLE) + [id, 0, 0, 0]
  }

  predicate ExprKnown(e: Expr, names: seq<string>) {
    match e
    case Const(_) => true
    case Var(name) => name in names
    case Arith(_, left, right) => ExprKnown(left, names) && ExprKnown(right, names)
  }

  predicate CondKnown(c: Cond, names: seq<string>) {
    match c
    case Cmp(_, left, right) => ExprKnown(left, names) && ExprKnown(right, names)
    case Join(_, c1, c2) => CondKnown(c1, names) && CondKnown(c2, names)
    case Not(c) => CondKnown(c, names)
  }

  function ExprSize(e: Expr): nat {
    if e.Arith? then 4 + ExprSize(e.left) + ExprSize(e.right) else 8
  }

  lemma SizePositive(e: Expr)
    ensures ExprSize(e) >= 8
  {
  }

  function CondSize(c: Cond): nat {
    match c
    case Cmp(_, left, right) => 4 + ExprSize(left) + ExprSize(right)
    case Join(_, c1, c2) => 4 + CondSize(c1) + CondSize(c2)
    case Not(c) => 4 + CondSize(c)
  }

  /** The prefix form of an expression. */
  function ExprBytes(e: Expr, names: seq<string>): (b: seq<byte>)
    requires ExprKnown(e, names) && |names| <= VARIABLE_SLOTS
    ensures |b| == ExprSize(e)
  {
    match e
    case Const(l) => ConstBytes(l)
    case Var(name) => VarBytes(IdOf(name, names))
    case Arith(op, left, right) =>
      NodeBytes(LVM_ARITH_OP, ArithCode(op)) + ExprBytes(left, names) + ExprBytes(right, names)
  }

  /** The prefix form of a condition. */
  function CondBytes(c: Cond, names: seq<string>): (b: seq<byte>)
    requires CondKnown(c, names) && |names| <= VARIABLE_SLOTS
    ensures |b| == CondSize(c)
  {
    match c
    case Cmp(rel, left, right) =>
      NodeBytes(LVM_CMP_OP, RelCode(rel)) + ExprBytes(left, names) + ExprBytes(right, names)
    case Join(conn, c1, c2) =>
      NodeBytes(LVM_CMP_OP, ConnectiveCode(conn)) + CondBytes(c1, names) + CondBytes(c2, names)
    case Not(c) => NodeBytes(LVM_CMP_OP, LVM_NOT_CODE) + CondBytes(c, names)
  }

  // ----- Execution of arbitrary bytes -----

  /** What an evaluator leaves behind: a value (0 or 1 for a truth value) and the instruction
      pointer, an error status and the pointer, or a read outside the code or the variables. */
  datatype Outcome = Value(l: long, ip: nat) | Failed(status: int, ip: nat) | OutOfBounds

  /** One argument of an operator: an arithmetic node or an operand. */
  function RunOperand(code: seq<byte>, ip: nat, vars: seq<long>): (r: Outcome)
    ensures r.Value? ==> ip < r.ip <= |code|
    decreases |code| - ip, 0
  {
    if ip + 4 > |code| then OutOfBounds
    else if WordAt(code, ip) == LVM_ARITH_OP then RunExpr(code, ip + 4, WordAt(code, ip + 2), vars)
    else if WordAt(code, ip) != LVM_OPERAND then Failed(SEMANTIC_ERROR, ip + 2)
    else if ip + 8 > |code| then OutOfBounds
    else if WordAt(code, ip + 2) == LVM_LONG then Value(LongAt(code, ip + 4), ip + 8)
    else if WordAt(code, ip + 2) != LVM_VARIABLE then Value(0, ip + 8)
    else if code[ip + 4] >= |vars| then OutOfBounds
    else Value(vars[code[ip + 4]], ip + 8)
  }

  function Apply(op: word, a: long, b: long, ip: nat): Outcome {
    if op == ArithCode(Add) then Value(Wrap(a + b), ip)
    else if op == ArithCode(Sub) then Value(Wrap(a - b), ip)
    else if op == ArithCode(Mul) then Value(Wrap(a * b), ip)
    else if op == ArithCode(Div) then
      if b == 0 then Failed(MATH_ERROR, ip) else Value(Wrap(Quotient(a, b)), ip)
    else Failed(EXECUTION_ERROR, ip)
  }

  function RunExpr(code: seq<byte>, ip: nat, op: word, vars: seq<long>): (r: Outcome)
    requires ip <= |code|
    ensures r.Value? ==> ip < r.ip <= |code|
    decreases |code| - ip, 1
  {
    var a := RunOperand(code, ip, vars);
    if !a.Value? then a else
    var b := RunOperand(code, a.ip, vars);
    if !b.Value? then b else Apply(op, a.l, b.l, b.ip)
  }

  predicate IsConnective(op: word) {
    op / 0x80 % 2 == 1
  }

  function Flag(b: bool): long {
    if b then TRUE else FALSE
  }

  function Relate(op: word, a: long, b: long, ip: nat): Outcome {
    if op == RelCode(Eq) then Value(Flag(a == b), ip)
    else if op == RelCode(Neq) then Value(Flag(a != b), ip)
    else if op == RelCode(Ge) then Value(Flag(a > b), ip)
    else if op == RelCode(Geq) then Value(Flag(a >= b), ip)
    else if op == RelCode(Le) then Value(Flag(a < b), ip)
    else if op == RelCode(Leq) then Value(Flag(a <= b), ip)
    else Failed(EXECUTION_ERROR, ip)
  }

  /** One argument of a connective: a comparison or a connective. */
  function RunCondition(code: seq<byte>, ip: nat, vars: seq<long>): (r: Outcome)
    ensures r.Value? ==> ip < r.ip <= |code|
    decreases |code| - ip, 0
  {
    if ip + 4 > |code| then OutOfBounds
    else if WordAt(code, ip) != LVM_CMP_OP then Failed(SEMANTIC_ERROR, ip + 2)
    else RunLogic(code, ip + 4, WordAt(code, ip + 2), vars)
  }

  function RunLogic(code: seq<byte>, ip: nat, op: word, vars: seq<long>): (r: Outcome)
    requires ip <= |code|
    ensures r.Value? ==> ip < r.ip <= |code|
    decreases |code| - ip, 1
  {
    if IsConnective(op) then
      var a := RunCondition(code, ip, vars);
      if !a.Value? then a
      else if op == LVM_NOT_CODE then Value(Flag(a.l == 0), a.ip)
      else
        var b := RunCondition(code, a.ip, vars);
        if !b.Value? then b
        else if op == ConnectiveCode(And) then Value(Flag(a.l == TRUE && b.l == TRUE), b.ip)
        else Value(Flag(a.l == TRUE || b.l == TRUE), b.ip)
    else
      var a := RunOperand(code, ip, vars);
      if !a.Value? then a else
      var b := RunOperand(code, a.ip, vars);
      if !b.Value? then b else Relate(op, a.l, b.l, b.ip)
  }

  /** The whole program: it has to start with a comparison or a connective. */
  function Run(code: seq<byte>, vars: seq<long>): Outcome {
    if |code| < 4 then OutOfBounds
    else if WordAt(code, 0) != LVM_CMP_OP then Failed(EXECUTION_ERROR, 2)
    else RunLogic(code, 4, WordAt(code, 2), vars)
  }

  // ----- Executing a prefix form gives the meaning of what it is the prefix form of -----

  /** `part` stands at position `at` of `code`. */
  predicate Stands(code: seq<byte>, at: nat, part: seq<byte>) {
    at + |part| <= |code| && code[at..at + |part|] == part
  }

  /** The variable table of the engine holds the values that `env` gives to the names. */
  ghost predicate Agrees(names: seq<string>, vars: seq<long>, env: string -> long) {
    |names| <= |vars| && forall i :: 0 <= i < |names| ==> vars[i] == env(names[i])
  }

  lemma StandsSplit(code: seq<byte>, at: nat, a: seq<byte>, b: seq<byte>)
    requires Stands(code, at, a + b)
    ensures Stands(code, at, a) && Stands(code, at + |a|, b)
  {
    var ab := code[at..at + |a + b|];
    assert code[at..at + |a|] == ab[..|a|] == a;
    assert code[at + |a|..at + |a| + |b|] == ab[|a|..] == b;
  }

  lemma WordStands(code: seq<byte>, at: nat, w: word)
    requires Stands(code, at, WordBytes(w))
    ensures WordAt(code, at) == w
  {
    assert code[at] == code[at..at + 2][0];
    assert code[at + 1] == code[at..at + 2][1];
  }

  lemma Base256(u: nat)
    ensures u % 256 + 256 * (u / 256 % 256) + 0x1_0000 * (u / 256 / 256 % 256) + 0x100_0000 * (u / 256 / 256 / 256) == u
  {
    var q1 := u / 256;
    var q2 := q1 / 256;
    var q3 := q2 / 256;
    assert u == 256 * q1 + u % 256;
    assert q1 == 256 * q2 + q1 % 256;
    assert q2 == 256 * q3 + q2 % 256;
  }

  lemma WrapUnsigned(l: long)
    ensures Wrap(l % 0x1_0000_0000) == l
  {
    if l < 0 {
      assert l % 0x1_0000_0000 == l + 0x1_0000_0000;
    }
  }

  lemma LongRoundTrip(l: long)
    ensures LongAt(LongBytes(l), 0) == l
  {
    Base256(l % 0x1_0000_0000);
    WrapUnsigned(l);
  }

  lemma LongStands(code: seq<byte>, at: nat, l: long)
    requires Stands(code, at, LongBytes(l))
    ensures LongAt(code, at) == l
  {
    LongRoundTrip(l);
    var part := code[at..at + 4];
    assert part == LongBytes(l);
    assert forall k :: 0 <= k < 4 ==> code[at + k] == part[k];
  }

  lemma NodeStands(code: seq<byte>, at: nat, kind: word, op: word, rest: seq<byte>)
    requires Stands(code, at, NodeBytes(kind, op) + rest)
    ensures at + 4 <= |code| && WordAt(code, at) == kind && WordAt(code, at + 2) == op
    ensures Stands(code, at + 4, rest)
  {
    StandsSplit(code, at, NodeBytes(kind, op), rest);
    StandsSplit(code, at, WordBytes(kind), WordBytes(op));
    WordStands(code, at, kind);
    WordStands(code, at + 2, op);
  }

  lemma ConstStands(code: seq<byte>, at: nat, l: long)
    requires Stands(code, at, ConstBytes(l))
    ensures at + 8 <= |code| && WordAt(code, at) == LVM_OPERAND && WordAt(code, at + 2) == LVM_LONG
    ensures LongAt(code, at + 4) == l
  {
    assert ConstBytes(l) == NodeBytes(LVM_OPERAND, LVM_LONG) + LongBytes(l);
    NodeStands(code, at, LVM_OPERAND, LVM_LONG, LongBytes(l));
    LongStands(code, at + 4, l);
  }

  lemma VarStands(code: seq<byte>, at: nat, id: byte)
    requires Stands(code, at, VarBytes(id))
    ensures at + 8 <= |code| && WordAt(code, at) == LVM_OPERAND && WordAt(code, at + 2) == LVM_VARIABLE
    ensures code[at + 4] == id
  {
    assert VarBytes(id) == NodeBytes(LVM_OPERAND, LVM_VARIABLE) + [id, 0, 0, 0];
    NodeStands(code, at, LVM_OPERAND, LVM_VARIABLE, [id, 0, 0, 0]);
    assert code[at + 4] == code[at + 4..at + 8][0];
  }

  // ----- The prefix form, read off the code node by node -----

  predicate NodeAt(code: seq<byte>, at: nat, kind: word, op: word) {
    at + 4 <= |code| && WordAt(code, at) == kind && WordAt(code, at + 2) == op
  }

  /** Where the prefix form of `e` that stands at `at` ends; 0 if none stands there. */
  function ExprEnd(code: seq<byte>, at: nat, e: Expr, names: seq<string>): nat
    decreases e
  {
    match e
    case Const(l) =>
      if at + 8 <= |code| && NodeAt(code, at, LVM_OPERAND, LVM_LONG) && LongAt(code, at + 4) == l then at + 8 else 0
    case Var(name) =>
      if at + 8 <= |code| && NodeAt(code, at, LVM_OPERAND, LVM_VARIABLE) && name in names
          && code[at + 4] == IdOf(name, names)
      then at + 8 else 0
    case Arith(op, left, right) =>
      if !NodeAt(code, at, LVM_ARITH_OP, ArithCode(op)) then 0 else
      var mid := ExprEnd(code, at + 4, left, names);
      if mid == 0 then 0 else ExprEnd(code, mid, right, names)
  }

  function CondEnd(code: seq<byte>, at: nat, c: Cond, names: seq<string>): nat
    decreases c
  {
    match c
    case Cmp(rel, left, right) =>
      if !NodeAt(code, at, LVM_CMP_OP, RelCode(rel)) then 0 else
      var mid := ExprEnd(code, at + 4, left, names);
      if mid == 0 then 0 else ExprEnd(code, mid, right, names)
    case Join(conn, c1, c2) =>
      if !NodeAt(code, at, LVM_CMP_OP, ConnectiveCode(conn)) then 0 else
      var mid := CondEnd(code, at + 4, c1, names);
      if mid == 0 then 0 else CondEnd(code, mid, c2, names)
    case Not(c) => if NodeAt(code, at, LVM_CMP_OP, LVM_NOT_CODE) then CondEnd(code, at + 4, c, names) else 0
  }

  lemma NodeSplits(code: seq<byte>, at: nat, kind: word, op: word, l: seq<byte>, r: seq<byte>)
    requires Stands(code, at, NodeBytes(kind, op) + l + r)
    ensures NodeAt(code, at, kind, op) && Stands(code, at + 4, l) && Stands(code, at + 4 + |l|, r)
  {
    assert NodeBytes(kind, op) + l + r == NodeBytes(kind, op) + (l + r);
    NodeStands(code, at, kind, op, l + r);
    StandsSplit(code, at + 4, l, r);
  }

  lemma LeafStands(code: seq<byte>, at: nat, e: Expr, names: seq<string>)
    requires !e.Arith? && ExprKnown(e, names) && |names| <= VARIABLE_SLOTS
    requires Stands(code, at, ExprBytes(e, names))
    ensures ExprEnd(code, at, e, names) == at + 8
  {
    if e.Const? {
      ConstStands(code, at, e.l);
    } else {
      VarStands(code, at, IdOf(e.name, names));
    }
  }

  lemma {:induction false} ArithStands(code: seq<byte>, at: nat, e: Expr, names: seq<string>)
    requires e.Arith? && ExprKnown(e, names) && |names| <= VARIABLE_SLOTS
    requires Stands(code, at, ExprBytes(e, names))
    ensures ExprEnd(code, at, e, names) == at + |ExprBytes(e, names)| > 0
    decreases e, 0
  {
    var l, r := ExprBytes(e.left, names), ExprBytes(e.right, names);
    var mid := at + 4 + |l|;
    assert NodeAt(code, at, LVM_ARITH_OP, ArithCode(e.op)) by {
      NodeSplits(code, at, LVM_ARITH_OP, ArithCode(e.op), l, r);
    }
    assert ExprEnd(code, at + 4, e.left, names) == mid by {
      NodeSplits(code, at, LVM_ARITH_OP, ArithCode(e.op), l, r);
      ExprStands(code, at + 4, e.left, names);
    }
    assert ExprEnd(code, mid, e.right, names) == mid + |r| by {
      NodeSplits(code, at, LVM_ARITH_OP, ArithCode(e.op), l, r);
      ExprStands(code, mid, e.right, names);
    }
  }

  lemma {:induction false} ExprStands(code: seq<byte>, at: nat, e: Expr, names: seq<string>)
    requires ExprKnown(e, names) && |names| <= VARIABLE_SLOTS
    requires Stands(code, at, ExprBytes(e, names))
    ensures ExprEnd(code, at, e, names) == at + |ExprBytes(e, names)| > 0
    decreases e, 1
  {
    if e.Arith? {
      ArithStands(code, at, e, names);
    } else {
      LeafStands(code, at, e, names);
    }
  }

  lemma CmpStands(code: seq<byte>, at: nat, c: Cond, names: seq<string>)
    requires c.Cmp? && CondKnown(c, names) && |names| <= VARIABLE_SLOTS
    requires Stands(code, at, CondBytes(c, names))
    ensures CondEnd(code, at, c, names) == at + |CondBytes(c, names)| > 0
  {
    var l, r := ExprBytes(c.left, names), ExprBytes(c.right, names);
    var mid := at + 4 + |l|;
    assert NodeAt(code, at, LVM_CMP_OP, RelCode(c.rel)) by {
      NodeSplits(code, at, LVM_CMP_OP, RelCode(c.rel), l, r);
    }
    assert ExprEnd(code, at + 4, c.left, names) == mid by {
      NodeSplits(code, at, LVM_CMP_OP, RelCode(c.rel), l, r);
      ExprStands(code, at + 4, c.left, names);
    }
    assert ExprEnd(code, mid, c.right, names) == mid + |r| by {
      NodeSplits(code, at, LVM_CMP_OP, RelCode(c.rel), l, r);
      ExprStands(code, mid, c.right, names);
    }
  }

  lemma {:induction false} JoinStands(code: seq<byte>, at: nat, c: Cond, names: seq<string>)
    requires c.Join? && CondKnown(c, names) && |names| <= VARIABLE_SLOTS
    requires Stands(code, at, CondBytes(c, names))
    ensures CondEnd(code, at, c, names) == at + |CondBytes(c, names)| > 0
    decreases c, 0
  {
    var l, r := CondBytes(c.c1, names), CondBytes(c.c2, names);
    var mid := at + 4 + |l|;
    assert NodeAt(code, at, LVM_CMP_OP, ConnectiveCode(c.conn)) by {
      NodeSplits(code, at, LVM_CMP_OP, ConnectiveCode(c.conn), l, r);
    }
    assert CondEnd(code, at + 4, c.c1, names) == mid by {
      NodeSplits(code, at, LVM_CMP_OP, ConnectiveCode(c.conn), l, r);
      CondStands(code, at + 4, c.c1, names);
    }
    assert CondEnd(code, mid, c.c2, names) == mid + |r| by {
      NodeSplits(code, at, LVM_CMP_OP, ConnectiveCode(c.conn), l, r);
      CondStands(code, mid, c.c2, names);
    }
  }

  /** Where the bytes of a condition stand, its prefix form is read off the code. */
  lemma {:induction false} CondStands(code: seq<byte>, at: nat, c: Cond, names: seq<string>)
    requires CondKnown(c, names) && |names| <= VARIABLE_SLOTS
    requires Stands(code, at, CondBytes(c, names))
    ensures CondEnd(code, at, c, names) == at + |CondBytes(c, names)| > 0
    decreases c, 1
  {
    match c
    case Cmp(_, _, _) => CmpStands(code, at, c, names);
    case Join(_, _, _) => JoinStands(code, at, c, names);
    case Not(d) =>
      NodeStands(code, at, LVM_CMP_OP, LVM_NOT_CODE, CondBytes(d, names));
      CondStands(code, at + 4, d, names);
  }

  // ----- Running a prefix form -----

  ghost predicate Evaluates(r: Outcome, n: Number, ip: nat) {
    if n.Number? then r == Value(n.l, ip) else r.Failed? && r.status == MATH_ERROR
  }

  ghost predicate Decides(r: Outcome, t: Truth, ip: nat) {
    if t.Truth? then r == Value(Flag(t.b), ip) else r.Failed? && r.status == MATH_ERROR
  }

  lemma ApplyIsCompute(op: ArithOp, a: long, b: long, ip: nat)
    ensures Evaluates(Apply(ArithCode(op), a, b, ip), Compute(op, a, b), ip)
  {
    match op case Add => case Sub => case Mul => case Div =>
  }

  lemma RelateIsCompare(rel: RelOp, a: long, b: long, ip: nat)
    ensures Relate(RelCode(rel), a, b, ip) == Value(Flag(Compare(rel, a, b)), ip)
    ensures !IsConnective(RelCode(rel))
  {
    match rel case Eq => case Neq => case Ge => case Geq => case Le => case Leq =>
  }

  /** Two arguments evaluated one after the other; the operator is applied to their values. */
  lemma PairRuns(code: seq<byte>, ip: nat, mid: nat, end: nat, op: ArithOp, vars: seq<long>, a: Number, b: Number)
    requires ip <= |code|
    requires Evaluates(RunOperand(code, ip, vars), a, mid)
    requires Evaluates(RunOperand(code, mid, vars), b, end)
    ensures Evaluates(RunExpr(code, ip, ArithCode(op), vars),
                      if a.Number? && b.Number? then Compute(op, a.l, b.l) else NumberError, end)
  {
    if a.Number? && b.Number? {
      ApplyIsCompute(op, a.l, b.l, end);
    }
  }

  lemma ComparisonRuns(code: seq<byte>, ip: nat, mid: nat, end: nat, rel: RelOp, vars: seq<long>, a: Number, b: Number)
    requires ip <= |code|
    requires Evaluates(RunOperand(code, ip, vars), a, mid)
    requires Evaluates(RunOperand(code, mid, vars), b, end)
    ensures Decides(RunLogic(code, ip, RelCode(rel), vars),
                    if a.Number? && b.Number? then Truth(Compare(rel, a.l, b.l)) else TruthError, end)
  {
    RelateIsCompare(rel, 0, 0, end);
    if a.Number? && b.Number? {
      RelateIsCompare(rel, a.l, b.l, end);
    }
  }

  lemma ConnectiveRuns(code: seq<byte>, ip: nat, mid: nat, end: nat, conn: Connective, vars: seq<long>, a: Truth,
                       b: Truth)
    requires ip <= |code|
    requires Decides(RunCondition(code, ip, vars), a, mid)
    requires Decides(RunCondition(code, mid, vars), b, end)
    ensures Decides(RunLogic(code, ip, ConnectiveCode(conn), vars),
                    if a.Truth? && b.Truth? then Truth(if conn == And then a.b && b.b else a.b || b.b) else TruthError,
                    end)
  {
    match conn case And => case Or =>
  }

  lemma {:induction false} ExprRuns(code: seq<byte>, ip: nat, e: Expr, names: seq<string>, vars: seq<long>,
                                    env: string -> long)
    requires Agrees(names, vars, env) && ExprEnd(code, ip, e, names) > 0
    ensures Evaluates(RunOperand(code, ip, vars), Meaning(e, env), ExprEnd(code, ip, e, names))
    decreases e
  {
    if e.Arith? {
      var mid := ExprEnd(code, ip + 4, e.left, names);
      ExprRuns(code, ip + 4, e.left, names, vars, env);
      ExprRuns(code, mid, e.right, names, vars, env);
      PairRuns(code, ip + 4, mid, ExprEnd(code, mid, e.right, names), e.op, vars, Meaning(e.left, env),
               Meaning(e.right, env));
    }
  }

  lemma CmpRuns(code: seq<byte>, ip: nat, c: Cond, names: seq<string>, vars: seq<long>, env: string -> long)
    requires c.Cmp? && Agrees(names, vars, env) && CondEnd(code, ip, c, names) > 0
    ensures Decides(RunCondition(code, ip, vars), Holds(c, env), CondEnd(code, ip, c, names))
  {
    var mid := ExprEnd(code, ip + 4, c.left, names);
    ExprRuns(code, ip + 4, c.left, names, vars, env);
    ExprRuns(code, mid, c.right, names, vars, env);
    ComparisonRuns(code, ip
        + 4, mid, ExprEnd(code, mid, c.right, names), c.rel, vars, Meaning(c.left, env), Meaning(c.right, env));
  }

  /** Running the prefix form that stands at `ip` gives what `Holds` says. */
  lemma {:induction false} CondRuns(code: seq<byte>, ip: nat, c: Cond, names: seq<string>, vars: seq<long>,
                                    env: string -> long)
    requires Agrees(names, vars, env) && CondEnd(code, ip, c, names) > 0
    ensures Decides(RunCondition(code, ip, vars), Holds(c, env), CondEnd(code, ip, c, names))
    decreases c
  {
    match c
    case Cmp(_, _, _) => CmpRuns(code, ip, c, names, vars, env);
    case Join(conn, c1, c2) =>
      var mid := CondEnd(code, ip + 4, c1, names);
      CondRuns(code, ip + 4, c1, names, vars, env);
      CondRuns(code, mid, c2, names, vars, env);
      ConnectiveRuns(code, ip + 4, mid, CondEnd(code, mid, c2, names), conn, vars, Holds(c1, env), Holds(c2, env));
    case Not(d) =>
      CondRuns(code, ip + 4, d, names, vars, env);
  }

  /** Executing code that starts with the prefix form of a condition gives its truth value,
      or MATH_ERROR when a division anywhere in it is by zero, and consumes exactly the
      bytes of the prefix form. */
  lemma ExecutionIsMeaning(code: seq<byte>, c: Cond, names: seq<string>, vars: seq<long>, env: string -> long)
    requires CondKnown(c, names) && |names| <= VARIABLE_SLOTS && Agrees(names, vars, env)
    requires Stands(code, 0, CondBytes(c, names))
    ensures Decides(Run(code, vars), Holds(c, env), |CondBytes(c, names)|)
  {
    CondStands(code, 0, c, names);
    CondRuns(code, 0, c, names, vars, env);
  }
}
