/** What the arithmetic and the comparisons of the logic engine are as arithmetic on integers. */
module LvmArithmetic {
  import opened LvmCode

  const MODULUS := 0x1_0000_0000

  /** The same 32 bits. */
  predicate Congruent(a: int, b: int) {
    (a - b) % MODULUS == 0
  }

  /** `r` can remain of `a` divided by `b` in C: smaller than the divisor, and with the sign of the
      dividend unless it is 0. */
  predicate IsRest(a: int, b: int, r: int) {
    -Abs(b) < r < Abs(b) && (r > 0 ==> a > 0) && (r < 0 ==> a < 0)
  }

  predicate IsQuotient(a: int, b: int, q: int) {
    IsRest(a, b, a - q * b)
  }

  // ----- Division -----

  lemma DivisionRest(a: nat, b: int) returns (n: int)
    requires b > 0
    ensures n == a / b && 0 <= n * b <= a < n * b + b
  {
    n := a / b;
    assert a == n * b + a % b;
  }

  lemma Negated(n: int, b: int)
    ensures (-n) * b == -(n * b) && n * -b == -(n * b)
  {
  }

  lemma SignedTimes(n: int, b: int, positive: bool)
    ensures (if positive == (b > 0) then n else -n) * b == if positive then n * Abs(b) else -(n * Abs(b))
  {
    Negated(n, b);
    Negated(-n, b);
  }

  lemma RestOf(a: int, b: int, q: int, n: int)
    requires 0 <= n * Abs(b) <= Abs(a) < n * Abs(b) + Abs(b)
    requires q == if (a >= 0) == (b > 0) then n else -n
    ensures IsQuotient(a, b, q)
  {
    SignedTimes(n, b, a >= 0);
    var p := n * Abs(b);
    assert a - q * b == a - if a >= 0 then p else -p;
  }

  lemma QuotientIsQuotient(a: int, b: int)
    requires b != 0
    ensures IsQuotient(a, b, Quotient(a, b))
  {
    var n := DivisionRest(Abs(a), Abs(b));
    var q := if (a >= 0) == (b > 0) then n else -n;
    RestOf(a, b, q, n);
    assert q == Quotient(a, b);
  }

  lemma ProductGrows(d: nat, b: int)
    requires d > 0 && b > 0
    ensures d * b >= b
  {
  }

  /** A quotient is not another one plus `d`, in terms of the two products `p` and `p + e`. */
  lemma RestsAreClose(a: int, b: int, p: int, e: int)
    requires b != 0
    requires IsRest(a, b, a - p) && IsRest(a, b, a - p - e)
    ensures Abs(e) < Abs(b)
  {
  }

  lemma AbsOfProduct(d: int, b: int)
    ensures Abs(d * b) == Abs(d) * Abs(b)
  {
    Negated(d, b);
    Negated(-d, b);
  }

  /** There is no other quotient. */
  lemma OneQuotient(a: int, b: int, p: int, q: int)
    requires b != 0 && IsQuotient(a, b, p) && IsQuotient(a, b, q)
    ensures p == q
  {
    var d, e := q - p, (q - p) * b;
    assert e == q * b - p * b;
    RestsAreClose(a, b, p * b, e);
    if d != 0 {
      ProductGrows(Abs(d), Abs(b));
      AbsOfProduct(d, b);
      assert false;
    }
  }

  lemma QuotientIsUnique(a: int, b: int, q: int)
    requires b != 0 && IsQuotient(a, b, q)
    ensures q == Quotient(a, b)
  {
    QuotientIsQuotient(a, b);
    OneQuotient(a, b, q, Quotient(a, b));
  }

  // ----- One operator -----

  lemma SameBits(x: int, l: long)
    ensures Wrap(x) == l <==> Congruent(l, x)
  {
  }

  /** Sums, differences and products are right up to a multiple of 2^32, and a quotient is that of C; the
      only error is the division by zero. */
  lemma ComputeIsArithmetic(a: long, b: long, l: long)
    ensures Compute(Add, a, b) == Number(l) <==> Congruent(l, a + b)
    ensures Compute(Sub, a, b) == Number(l) <==> Congruent(l + b, a)
    ensures Compute(Mul, a, b) == Number(l) <==> Congruent(l, a * b)
    ensures Compute(Div, a, b) == Number(l) <==> b != 0 && exists q :: IsQuotient(a, b, q) && Congruent(l, q)
    ensures forall op :: Compute(op, a, b) == NumberError <==> op == Div && b == 0
  {
    SameBits(a + b, l);
    SameBits(a - b, l);
    SameBits(a * b, l);
    if b != 0 {
      QuotientIsQuotient(a, b);
      SameBits(Quotient(a, b), l);
      forall q | IsQuotient(a, b, q) ensures q == Quotient(a, b) {
        QuotientIsUnique(a, b, q);
      }
    }
  }

  lemma HalfOrLess(a: nat, b: int)
    requires b >= 2
    ensures 2 * (a / b) <= a
  {
    var n := DivisionRest(a, b);
    assert n * 2 <= n * b;
  }

  /** The quotient fits a `long` but for one pair of numbers. */
  lemma QuotientFits(a: long, b: long)
    requires b != 0
    ensures Compute(Div, a, b) == Number(if a == LONG_MIN && b == -1 then LONG_MIN else Quotient(a, b))
  {
    var q := Quotient(a, b);
    if b != 1 && b != -1 {
      HalfOrLess(Abs(a), Abs(b));
      assert -0x8000_0000 < q < 0x8000_0000;
    }
  }

  /** The operators by their codes in the bytecode. */
  lemma OperatorsByCode(a: long, b: long, l: long, ip: nat)
    ensures Apply(0x11, a, b, ip) == Value(l, ip) <==> Congruent(l, a + b)
    ensures Apply(0x12, a, b, ip) == Value(l, ip) <==> Congruent(l + b, a)
    ensures Apply(0x13, a, b, ip) == Value(l, ip) <==> Congruent(l, a * b)
    ensures Apply(0x14, a, b, ip) == Value(l, ip) <==> b != 0 && exists q :: IsQuotient(a, b, q) && Congruent(l, q)
    ensures Apply(0x14, a, 0, ip) == Failed(4, ip)
    ensures forall op: word :: !(0x11 <= op <= 0x14) ==> Apply(op, a, b, ip) == Failed(8, ip)
  {
    ComputeIsArithmetic(a, b, l);
    forall op ensures Evaluates(Apply(ArithCode(op), a, b, ip), Compute(op, a, b), ip) {
      ApplyIsCompute(op, a, b, ip);
    }
    assert ArithCode(Add) == 0x11 && ArithCode(Sub) == 0x12 && ArithCode(Mul) == 0x13 && ArithCode(Div) == 0x14;
  }

  /** The order of the integers: `<` if the distance has to be added; exactly one of `<`, `=` and `>` holds,
      and the other three are their negations. */
  lemma ComparisonsAreOrder(a: long, b: long)
    ensures Compare(Le, a, b) <==> a + Abs(b - a) == b && a != b
    ensures Compare(Ge, a, b) <==> Compare(Le, b, a)
    ensures Compare(Eq, a, b) <==> !Compare(Le, a, b) && !Compare(Ge, a, b)
    ensures Compare(Neq, a, b) <==> !Compare(Eq, a, b)
    ensures Compare(Geq, a, b) <==> !Compare(Le, a, b)
    ensures Compare(Leq, a, b) <==> !Compare(Ge, a, b)
  {
  }

  /** The relations by their codes in the bytecode. */
  lemma RelationsByCode(a: long, b: long, ip: nat)
    ensures Relate(0x41, a, b, ip) == Value(if a - b == 0 then 1 else 0, ip)
    ensures Relate(0x42, a, b, ip) == Value(if a - b == 0 then 0 else 1, ip)
    ensures Relate(0x43, a, b, ip) == Value(if a - b > 0 then 1 else 0, ip)
    ensures Relate(0x44, a, b, ip) == Value(if b - a > 0 then 0 else 1, ip)
    ensures Relate(0x45, a, b, ip) == Value(if b - a > 0 then 1 else 0, ip)
    ensures Relate(0x46, a, b, ip) == Value(if a - b > 0 then 0 else 1, ip)
    ensures forall op: word :: !(0x41 <= op <= 0x46) ==> Relate(op, a, b, ip) == Failed(8, ip)
  {
    forall rel ensures Relate(RelCode(rel), a, b, ip) == Value(Flag(Compare(rel, a, b)), ip) {
      RelateIsCompare(rel, a, b, ip);
    }
    assert RelCode(Eq) == 0x41 && RelCode(Neq) == 0x42 && RelCode(Ge) == 0x43;
    assert RelCode(Geq) == 0x44 && RelCode(Le) == 0x45 && RelCode(Leq) == 0x46;
  }

  /** The arguments of operators and relations by their codes: a constant, the value of a variable, 0 for other
      operands, or the value of an arithmetic node; anything else is a semantic error. */
  lemma ArgumentsByCode(code: seq<byte>, ip: nat, vars: seq<long>)
    requires ip + 8 <= |code|
    ensures code[ip..ip + 4] == [0x20, 0, 2, 0] ==> RunOperand(code, ip, vars) == Value(LongAt(code, ip + 4), ip + 8)
    ensures code[ip..ip + 4] == [0x20, 0, 0, 0] && code[ip + 4] < |vars| ==>
              RunOperand(code, ip, vars) == Value(vars[code[ip + 4]], ip + 8)
    ensures code[ip..ip + 4] == [0x20, 0, 1, 0] ==> RunOperand(code, ip, vars) == Value(0, ip + 8)
    ensures forall op: byte :: code[ip..ip + 4] == [0x10, 0, op, 0] ==>
              RunOperand(code, ip, vars) == RunExpr(code, ip + 4, op, vars)
    ensures code[ip] !in {0x10, 0x20} ==> RunOperand(code, ip, vars) == Failed(3, ip + 2)
  {
    var part := code[ip..ip + 4];
    assert forall k :: 0 <= k < 4 ==> part[k] == code[ip + k];
  }

  /** The connectives by their codes, on arguments that are 0 or 1. */
  lemma ConnectivesByCode(code: seq<byte>, ip: nat, vars: seq<long>, a: Outcome, b: Outcome)
    requires ip <= |code| && a == RunCondition(code, ip, vars) && a.Value? && 0 <= a.l <= 1
    requires b == RunCondition(code, a.ip, vars)
    ensures RunLogic(code, ip, 0x83, vars) == Value(1 - a.l, a.ip)
    ensures !b.Value? ==> RunLogic(code, ip, 0x81, vars) == b && RunLogic(code, ip, 0x82, vars) == b
    ensures b.Value? && 0 <= b.l <= 1 ==>
              RunLogic(code, ip, 0x81, vars) == Value(if a.l < b.l then a.l else b.l, b.ip)
              && RunLogic(code, ip, 0x82, vars) == Value(if a.l > b.l then a.l else b.l, b.ip)
  {
  }

  // ----- Bytes -----

  /** Adding 2^32 to a negative number keeps its bytes. */
  lemma SameBytes(v: long)
    ensures var w := if v < 0 then v + 0x1_0000_0000 else v;
            w / 0x100_0000 % 0x100 == v / 0x100_0000 % 0x100 && w / 0x1_0000 % 0x100 == v / 0x1_0000 % 0x100
            && w / 0x100 % 0x100 == v / 0x100 % 0x100 && w % 0x100 == v % 0x100
  {
    var w := v as int + 0x1_0000_0000;
    assert w / 0x100_0000 == v / 0x100_0000 + 0x100;
    assert w / 0x1_0000 == v / 0x1_0000 + 0x1_0000;
    assert w / 0x100 == v / 0x100 + 0x100_0000;
  }

  lemma BytesOfLong(k: long)
    ensures LongBytes(k) == [k % 0x100, k / 0x100 % 0x100, k / 0x1_0000 % 0x100, k / 0x100_0000 % 0x100]
  {
    var u: nat := k % 0x1_0000_0000;
    assert u == if k < 0 then k + 0x1_0000_0000 else k;
    BytesOfUnsigned(u);
    SameBytes(k);
  }

  lemma BytesOfUnsigned(u: nat)
    requires u < 0x1_0000_0000
    ensures [u % 256, u / 256 % 256, u / 256 / 256 % 256, u / 256 / 256 / 256]
            == [u % 0x100, u / 0x100 % 0x100, u / 0x1_0000 % 0x100, u / 0x100_0000 % 0x100]
  {
    assert u / 256 / 256 == u / 0x1_0000 && u / 256 / 256 / 256 == u / 0x100_0000;
  }

  lemma BytesOfNode(kind: byte, op: byte)
    ensures NodeBytes(kind, op) == [kind, 0, op, 0]
  {
  }

  lemma BytesOfOperands(id: byte, k: long)
    ensures VarBytes(id) == [0x20, 0, 0, 0, id, 0, 0, 0]
    ensures ConstBytes(k) ==
            [0x20, 0, 2, 0, k % 0x100, k / 0x100 % 0x100, k / 0x1_0000 % 0x100, k / 0x100_0000 % 0x100]
  {
    BytesOfLong(k);
    var l := LongBytes(k);
    assert ConstBytes(k) == [0x20, 0, 2, 0] + l;
  }

  /** A comparison of a variable with a constant, byte by byte. */
  lemma BytesOfComparison(rel: RelOp, x: string, k: long, names: seq<string>)
    requires x in names && |names| <= VARIABLE_SLOTS
    ensures CondBytes(Cmp(rel, Var(x), Const(k)), names) ==
            [0x40, 0, match rel case Eq => 0x41 case Neq => 0x42 case Ge => 0x43 case Geq => 0x44 case Le => 0x45
             case Leq => 0x46, 0]
            + [0x20, 0, 0, 0, IdOf(x, names), 0, 0, 0]
            + [0x20, 0, 2, 0, k % 0x100, k / 0x100 % 0x100, k / 0x1_0000 % 0x100, k / 0x100_0000 % 0x100]
  {
    BytesOfNode(LVM_CMP_OP, RelCode(rel));
    BytesOfOperands(IdOf(x, names), k);
    CondBytesOfComparison(rel, x, k, names);
  }

  lemma CondBytesOfComparison(rel: RelOp, x: string, k: long, names: seq<string>)
    requires x in names && |names| <= VARIABLE_SLOTS
    ensures CondBytes(Cmp(rel, Var(x), Const(k)), names) ==
            NodeBytes(LVM_CMP_OP, RelCode(rel)) + VarBytes(IdOf(x, names)) + ConstBytes(k)
  {
  }

  /** An operator stands in front of its arguments. */
  lemma BytesOfOperator(op: ArithOp, l: Expr, r: Expr, names: seq<string>)
    requires ExprKnown(l, names) && ExprKnown(r, names) && |names| <= VARIABLE_SLOTS
    ensures ExprBytes(Arith(op, l, r), names) ==
            [0x10, 0, match op case Add => 0x11 case Sub => 0x12 case Mul => 0x13 case Div => 0x14, 0]
            + ExprBytes(l, names) + ExprBytes(r, names)
  {
    BytesOfNode(LVM_ARITH_OP, ArithCode(op));
  }

  /** And so does a connective. */
  lemma BytesOfConnective(c1: Cond, c2: Cond, names: seq<string>)
    requires CondKnown(c1, names) && CondKnown(c2, names) && |names| <= VARIABLE_SLOTS
    ensures CondBytes(Join(And, c1, c2), names) == [0x40, 0, 0x81, 0] + CondBytes(c1, names) + CondBytes(c2, names)
    ensures CondBytes(Join(Or, c1, c2), names) == [0x40, 0, 0x82, 0] + CondBytes(c1, names) + CondBytes(c2, names)
    ensures CondBytes(Not(c1), names) == [0x40, 0, 0x83, 0] + CondBytes(c1, names)
  {
    BytesOfNode(LVM_CMP_OP, ConnectiveCode(And));
    BytesOfNode(LVM_CMP_OP, ConnectiveCode(Or));
    BytesOfNode(LVM_CMP_OP, LVM_NOT_CODE);
  }

  // ----- Whole expressions -----

  predicate DivisionFree(e: Expr) {
    e.Arith? ==> e.op != Div && DivisionFree(e.left) && DivisionFree(e.right)
  }

  function ExactOf(op: ArithOp, x: int, y: int): int
    requires op != Div
  {
    match op case Add => x + y case Sub => x - y case Mul => x * y
  }

  /** The value of an expression without divisions over the integers. */
  function Exact(e: Expr, env: string -> long): int
    requires DivisionFree(e)
  {
    match e
    case Const(l) => l
    case Var(name) => env(name)
    case Arith(op, left, right) =>
      ExactOf(op, Exact(left, env), Exact(right, env))
  }

  lemma Multiple(x: int, k: int)
    requires x == MODULUS * k
    ensures x % MODULUS == 0
  {
  }

  lemma CongruentTrans(a: int, b: int, c: int)
    requires Congruent(a, b) && Congruent(b, c)
    ensures Congruent(a, c)
  {
  }

  lemma CongruentSum(a: int, b: int, x: int, y: int)
    requires Congruent(a, x) && Congruent(b, y)
    ensures Congruent(a + b, x + y) && Congruent(a - b, x - y)
  {
  }

  lemma CongruentProduct(a: int, b: int, x: int, y: int)
    requires Congruent(a, x) && Congruent(b, y)
    ensures Congruent(a * b, x * y)
  {
    var i, j := (a - x) / MODULUS, (b - y) / MODULUS;
    assert a == x + MODULUS * i && b == y + MODULUS * j;
    assert a * b == x * b + MODULUS * (i * b);
    assert x * b == x * y + MODULUS * (x * j);
    Multiple(a * b - x * y, x * j + i * b);
  }

  /** Whatever overflows on the way, the value has the last 32 bits of the exact one, so that it is the exact
      one if that fits a `long`. */
  lemma {:induction false} OverflowsCancel(e: Expr, env: string -> long)
    requires DivisionFree(e)
    ensures Meaning(e, env).Number? && Congruent(Meaning(e, env).l, Exact(e, env))
    ensures LONG_MIN <= Exact(e, env) <= LONG_MAX ==> Meaning(e, env) == Number(Exact(e, env))
    decreases e
  {
    if e.Arith? {
      OverflowsCancel(e.left, env);
      OverflowsCancel(e.right, env);
      var a, b := Meaning(e.left, env).l, Meaning(e.right, env).l;
      var x, y := Exact(e.left, env), Exact(e.right, env);
      OneOverflow(e.op, a, b, x, y);
    }
    SameBits(Exact(e, env), Meaning(e, env).l);
  }

  lemma OneOverflow(op: ArithOp, a: long, b: long, x: int, y: int)
    requires op != Div && Congruent(a, x) && Congruent(b, y)
    ensures Congruent(Compute(op, a, b).l, ExactOf(op, x, y))
  {
    var l := Compute(op, a, b).l;
    match op
    case Add =>
      SameBits(a + b, l);
      CongruentSum(a, b, x, y);
      CongruentTrans(l, a + b, x + y);
    case Sub =>
      SameBits(a - b, l);
      CongruentSum(a, b, x, y);
      CongruentTrans(l, a - b, x - y);
    case Mul =>
      SameBits(a * b, l);
      CongruentProduct(a, b, x, y);
      CongruentTrans(l, a * b, x * y);
  }
}
