/** Deriving value ranges from the bytecode of a condition, and when they can be trusted. */
module LvmDerive {
  import opened LvmCode

  /** What is known about one variable; meaningless unless `derived`. */
  datatype Range = Range(derived: bool, min: long, max: long)

  /** The number of entries the derivation loops walk over. */
  const RANGE_SLOTS := 8

  type Ranges = r: seq<Range> | |r| == RANGE_SLOTS witness
    [NOTHING, NOTHING, NOTHING, NOTHING, NOTHING, NOTHING, NOTHING, NOTHING]

  const NOTHING := Range(false, 0, 0)

  /** The table after it was filled with zeroes. */
  const UNDERIVED: Ranges := [NOTHING, NOTHING, NOTHING, NOTHING, NOTHING, NOTHING, NOTHING, NOTHING]

  function Larger(a: long, b: long): long { if a > b then a else b }
  function Smaller(a: long, b: long): long { if a < b then a else b }

  /** The entry for one variable of an intersection (`conj`) or of a union; when neither side
      derived the variable the entry that was there stays. */
  function Merge(conj: bool, before: Range, a: Range, b: Range): Range {
    if !a.derived && !b.derived then before
    else if !b.derived then Range(true, a.min, a.max)
    else if !a.derived then Range(true, b.min, b.max)
    else if conj then Range(true, Larger(a.min, b.min), Smaller(a.max, b.max))
    else Range(true, Smaller(a.min, b.min), Larger(a.max, b.max))
  }

  function MergeAll(conj: bool, before: Ranges, a: Ranges, b: Ranges): Ranges {
    seq(RANGE_SLOTS, i requires 0 <= i < RANGE_SLOTS => Merge(conj, before[i], a[i], b[i]))
  }

  /** The range of a variable compared by operator `op` with the constant `k`. */
  function RangeOf(op: word, k: long): Range {
    if op == RelCode(Eq) then Range(true, k, k)
    else if op == RelCode(Ge) then Range(true, Wrap(k + 1), LONG_MAX)
    else if op == RelCode(Geq) then Range(true, k, LONG_MAX)
    else if op == RelCode(Le) then Range(true, LONG_MIN, Wrap(k - 1))
    else if op == RelCode(Leq) then Range(true, LONG_MIN, k)
    else Range(false, LONG_MIN, LONG_MAX)
  }

  datatype Derivation = Derived(ranges: Ranges, ip: nat) | Refused(ip: nat) | OutOfCode

  /** The entry of variable `id` becomes the range for a comparison with `k`. */
  function DeriveOne(op: word, id: byte, k: long, ip: nat, before: Ranges): Derivation {
    if id >= RANGE_SLOTS || !RangeOf(op, k).derived then Refused(ip) else Derived(before[id := RangeOf(op, k)], ip)
  }

  /** A comparison of a variable with a constant, or of two constants. */
  function DeriveComparison(code: seq<byte>, ip: nat, op: word, before: Ranges): Derivation {
    if ip + 2 > |code| then OutOfCode
    else if WordAt(code, ip) != LVM_OPERAND then Refused(ip + 2)
    else if ip + 10 > |code| then OutOfCode
    else if WordAt(code, ip + 8) != LVM_OPERAND then Refused(ip + 10)
    else if ip + 16 > |code| then OutOfCode
    else if WordAt(code, ip + 2) != LVM_VARIABLE
        then DeriveOne(op, code[ip + 12], LongAt(code, ip + 4), ip + 16, before)
    else if WordAt(code, ip + 10) != LVM_VARIABLE
        then DeriveOne(op, code[ip + 4], LongAt(code, ip + 12), ip + 16, before)
    else Refused(ip + 16)
  }

  /** The node type in front of the operator is skipped, not inspected. */
  function DeriveAt(code: seq<byte>, ip: nat, before: Ranges): (r: Derivation)
    ensures r.Derived? ==> ip < r.ip <= |code|
    decreases |code| - ip
  {
    if ip + 4 > |code| then OutOfCode
    else
      var op := WordAt(code, ip + 2);
      if !IsConnective(op) then DeriveComparison(code, ip + 4, op, before)
      else if op != ConnectiveCode(And) && op != ConnectiveCode(Or) then Refused(ip + 4)
      else
        var a := DeriveAt(code, ip + 4, UNDERIVED);
        if !a.Derived? then a else
        var b := DeriveAt(code, a.ip, UNDERIVED);
        if !b.Derived? then b
        else Derived(MergeAll(op == ConnectiveCode(And), before, a.ranges, b.ranges), b.ip)
  }

  // ----- The same on conditions -----

  datatype Option<+T> = None | Some(value: T)

  /** The ranges that derivation computes for a condition, starting from `before`. */
  function Derive(c: Cond, names: seq<string>, before: Ranges): Option<Ranges>
    requires CondKnown(c, names) && |names| <= VARIABLE_SLOTS
    decreases c
  {
    match c
    case Cmp(rel, left, right) =>
      if rel == Neq || left.Arith? || right.Arith? || (left.Var? && right.Var?) then None
      else if left.Var? then Some(before[IdOf(left.name, names) := RangeOf(RelCode(rel), right.l)])
      else if right.Var? then Some(before[IdOf(right.name, names) := RangeOf(RelCode(rel), left.l)])
      else if LongBytes(right.l)[0] < RANGE_SLOTS
          then Some(before[LongBytes(right.l)[0] := RangeOf(RelCode(rel), left.l)])
      else None
    case Join(conn, c1, c2) =>
      var a := Derive(c1, names, UNDERIVED);
      var b := Derive(c2, names, UNDERIVED);
      if a.Some? && b.Some? then Some(MergeAll(conn == And, before, a.value, b.value)) else None
    case Not(_) => None
  }

  ghost predicate Agree(d: Derivation, o: Option<Ranges>, ip: nat) {
    if o.Some? then d == Derived(o.value, ip) else d.Refused?
  }

  lemma RelCodes(rel: RelOp, k: long)
    ensures !IsConnective(RelCode(rel)) && (RangeOf(RelCode(rel), k).derived <==> rel != Neq)
  {
    match rel case Eq => case Neq => case Ge => case Geq => case Le => case Leq =>
  }

  lemma ConnectiveCodes(conn: Connective)
    ensures IsConnective(ConnectiveCode(conn))
    ensures ConnectiveCode(And) != ConnectiveCode(Or)
  {
    match conn case And => case Or =>
  }

  /** The bytes of a long determine its lowest byte. */
  lemma LowByte(code: seq<byte>, at: nat, m: long)
    requires at + 4 <= |code| && LongAt(code, at) == m
    ensures code[at] == LongBytes(m)[0]
  {
    var rest := code[at + 1] as int + 0x100 * code[at + 2] as int + 0x1_0000 * code[at + 3] as int;
    var sum := code[at] as int + 256 * rest;
    assert m == Wrap(sum) && 0 <= sum < 0x1_0000_0000;
    assert m % 0x1_0000_0000 == sum;
    assert sum % 256 == code[at];
  }

  /** What stands at `at` when an operand does. */
  lemma OperandAt(code: seq<byte>, at: nat, e: Expr, names: seq<string>)
    requires ExprKnown(e, names) && |names| <= VARIABLE_SLOTS && ExprEnd(code, at, e, names) > 0
    ensures at + 4 <= |code| && (WordAt(code, at) == LVM_OPERAND <==> !e.Arith?)
    ensures !e.Arith? ==> ExprEnd(code, at, e, names) == at + 8 <= |code|
    ensures e.Var? ==> WordAt(code, at + 2) == LVM_VARIABLE && code[at + 4] == IdOf(e.name, names) < RANGE_SLOTS
    ensures e.Const? ==>
            WordAt(code, at + 2) == LVM_LONG && LongAt(code, at + 4) == e.l && code[at + 4] == LongBytes(e.l)[0]
  {
    if e.Const? {
      LowByte(code, at + 4, e.l);
    }
  }

  lemma ComparisonDerives(code: seq<byte>, ip: nat, c: Cond, names: seq<string>, before: Ranges)
    requires c.Cmp? && CondKnown(c, names) && |names| <= VARIABLE_SLOTS && CondEnd(code, ip, c, names) > 0
    ensures Agree(DeriveAt(code, ip, before), Derive(c, names, before), CondEnd(code, ip, c, names))
  {
    var op := RelCode(c.rel);
    assert NodeAt(code, ip, LVM_CMP_OP, op);
    OperandAt(code, ip + 4, c.left, names);
    OperandAt(code, ExprEnd(code, ip + 4, c.left, names), c.right, names);
    RelCodes(c.rel, 0);
    assert DeriveAt(code, ip, before) == DeriveComparison(code, ip + 4, op, before);
    if c.left.Const? {
      RelCodes(c.rel, c.left.l);
    } else if c.right.Const? {
      RelCodes(c.rel, c.right.l);
    }
  }

  /** Derivation over the bytecode of a condition computes `Derive`. */
  lemma {:induction false} BytecodeDerives(code: seq<byte>, ip: nat, c: Cond, names: seq<string>, before: Ranges)
    requires CondKnown(c, names) && |names| <= VARIABLE_SLOTS && CondEnd(code, ip, c, names) > 0
    ensures Agree(DeriveAt(code, ip, before), Derive(c, names, before), CondEnd(code, ip, c, names))
    decreases c
  {
    match c
    case Cmp(_, _, _) => ComparisonDerives(code, ip, c, names, before);
    case Join(conn, c1, c2) =>
      ConnectiveCodes(conn);
      BytecodeDerives(code, ip + 4, c1, names, UNDERIVED);
      BytecodeDerives(code, CondEnd(code, ip + 4, c1, names), c2, names, UNDERIVED);
    case Not(_) =>
  }

  // ----- Soundness -----

  function CondVars(c: Cond): set<string> {
    match c
    case Cmp(_, left, right) => (if left.Var? then {left.name} else {}) + (if right.Var? then {right.name} else {})
    case Join(_, c1, c2) => CondVars(c1) + CondVars(c2)
    case Not(c) => CondVars(c)
  }

  /** Every comparison has its variable on the left and a constant on the right, and both
      sides of every OR constrain the same variables. */
  predicate Derivable(c: Cond) {
    match c
    case Cmp(_, left, right) => left.Var? && right.Const?
    case Join(conn, c1, c2) => Derivable(c1) && Derivable(c2) && (conn == Or ==> CondVars(c1) == CondVars(c2))
    case Not(_) => false
  }

  predicate Within(r: Range, l: long) {
    r.derived ==> r.min <= l <= r.max
  }

  /** Every derived range holds the value its variable has. */
  ghost predicate Covers(ranges: Ranges, names: seq<string>, env: string -> long) {
    forall i :: 0 <= i < |names| && i < RANGE_SLOTS ==> Within(ranges[i], env(names[i]))
  }

  /** Exactly the variables in the set are derived. */
  ghost predicate DerivesExactly(ranges: Ranges, names: seq<string>, vars: set<string>) {
    forall i :: 0 <= i < RANGE_SLOTS ==>
      (ranges[i].derived <==> exists x :: x in vars && x in names && IdOf(x, names) == i)
  }

  lemma {:induction false} DerivedExactly(c: Cond, names: seq<string>)
    requires CondKnown(c, names) && |names| <= VARIABLE_SLOTS && Derivable(c)
    requires Derive(c, names, UNDERIVED).Some?
    ensures DerivesExactly(Derive(c, names, UNDERIVED).value, names, CondVars(c))
    decreases c
  {
    match c
    case Cmp(rel, left, right) => RelCodes(rel, right.l);
    case Join(conn, c1, c2) =>
      DerivedExactly(c1, names);
      DerivedExactly(c2, names);
      var a, b := Derive(c1, names, UNDERIVED).value, Derive(c2, names, UNDERIVED).value;
      var r := Derive(c, names, UNDERIVED).value;
      forall i | 0 <= i < RANGE_SLOTS
        ensures r[i].derived <==> exists x :: x in CondVars(c) && x in names && IdOf(x, names) == i
      {
        assert r[i] == Merge(conn == And, UNDERIVED[i], a[i], b[i]);
        assert r[i].derived <==> a[i].derived || b[i].derived;
      }
  }

  lemma ComparisonSound(rel: RelOp, k: long, l: long)
    requires rel != Neq && Compare(rel, l, k)
    ensures Within(RangeOf(RelCode(rel), k), l)
  {
    match rel case Eq => case Ge => case Geq => case Le => case Leq =>
  }

  /** For conditions in the derivable form, nested in any way: whenever the condition is
      true of a row, the row's values lie in the derived ranges. */
  lemma {:induction false} DerivationSound(c: Cond, names: seq<string>, env: string -> long)
    requires CondKnown(c, names) && |names| <= VARIABLE_SLOTS && Derivable(c)
    requires Derive(c, names, UNDERIVED).Some?
    requires Holds(c, env) == Truth(true)
    ensures Covers(Derive(c, names, UNDERIVED).value, names, env)
    decreases c
  {
    match c
    case Cmp(rel, left, right) => ComparisonSound(rel, right.l, env(left.name));
    case Join(conn, c1, c2) =>
      var a, b := Derive(c1, names, UNDERIVED).value, Derive(c2, names, UNDERIVED).value;
      var r := Derive(c, names, UNDERIVED).value;
      if conn == And {
        DerivationSound(c1, names, env);
        DerivationSound(c2, names, env);
      } else {
        DerivedExactly(c1, names);
        DerivedExactly(c2, names);
        if Holds(c1, env).b {
          DerivationSound(c1, names, env);
        } else {
          DerivationSound(c2, names, env);
        }
      }
      forall i | 0 <= i < |names| && i < RANGE_SLOTS ensures Within(r[i], env(names[i])) {
        assert r[i] == Merge(conn == And, UNDERIVED[i], a[i], b[i]);
        if conn == Or {
          assert a[i].derived <==> b[i].derived;
        }
      }
  }

  // ----- Exactness -----

  predicate InRange(r: Range, l: long) {
    r.min <= l <= r.max
  }

  /** `r` is the smallest interval that holds both others. */
  ghost predicate IsHull(r: Range, a: Range, b: Range) {
    (InRange(a, r.min) || InRange(b, r.min)) && (InRange(a, r.max) || InRange(b, r.max))
    && forall l: long :: InRange(a, l) || InRange(b, l) ==> InRange(r, l)
  }

  /** What a variable that only one side constrains gets is the range of that side; an AND of two ranges
      holds exactly the values that both hold, and an OR of two is the smallest interval that holds both. */
  lemma MergeIsExact(before: Range, a: Range, b: Range)
    ensures forall conj :: Merge(conj, before, a, b).derived <==> before.derived || a.derived || b.derived
    ensures forall conj :: !a.derived && !b.derived ==> Merge(conj, before, a, b) == before
    ensures forall conj :: a.derived && !b.derived ==> Merge(conj, before, a, b) == a
    ensures forall conj :: b.derived && !a.derived ==> Merge(conj, before, a, b) == b
    ensures a.derived && b.derived ==>
              forall l: long :: InRange(Merge(true, before, a, b), l) <==> InRange(a, l) && InRange(b, l)
    ensures a.derived && b.derived && a.min <= a.max && b.min <= b.max ==> IsHull(Merge(false, before, a, b), a, b)
  {
  }

  predicate Satisfiable(rel: RelOp, k: long) {
    !(rel == Ge && k == LONG_MAX) && !(rel == Le && k == LONG_MIN)
  }

  ghost predicate ComparisonIsExact(rel: RelOp, k: long) {
    RangeOf(RelCode(rel), k).derived && forall l: long :: InRange(RangeOf(RelCode(rel), k), l) <==> Compare(rel, l, k)
  }

  /** The range of a comparison holds exactly the values that satisfy it, unless it is an inequality or no
      value satisfies it; then every value is in the range, since its end wraps around. */
  lemma ComparisonExact(rel: RelOp, k: long)
    ensures ComparisonIsExact(rel, k) <==> rel != Neq && Satisfiable(rel, k)
    ensures !Satisfiable(rel, k) ==> RangeOf(RelCode(rel), k) == Range(true, LONG_MIN, LONG_MAX)
  {
    match rel
    case Eq =>
    case Neq =>
    case Ge => assert !Satisfiable(rel, k) ==> !Compare(rel, 0, k) && InRange(RangeOf(RelCode(rel), k), 0);
    case Geq =>
    case Le => assert !Satisfiable(rel, k) ==> !Compare(rel, 0, k) && InRange(RangeOf(RelCode(rel), k), 0);
    case Leq =>
  }

  /** Comparisons of variables with constants, each of which some value satisfies, joined by AND. */
  predicate Conjunction(c: Cond) {
    match c
    case Cmp(rel, left, right) => left.Var? && right.Const? && rel != Neq && Satisfiable(rel, right.l)
    case Join(conn, c1, c2) => conn == And && Conjunction(c1) && Conjunction(c2)
    case Not(_) => false
  }

  /** `l` satisfies every comparison on `x`. */
  predicate SatisfiesAll(c: Cond, x: string, l: long)
    requires Conjunction(c)
  {
    match c
    case Cmp(rel, left, right) => left.name == x ==> Compare(rel, l, right.l)
    case Join(_, c1, c2) => SatisfiesAll(c1, x, l) && SatisfiesAll(c2, x, l)
  }

  lemma OneComparisonExact(rel: RelOp, y: string, k: long, names: seq<string>, x: string, l: long)
    requires rel != Neq && Satisfiable(rel, k) && x in names && y in names && |names| <= VARIABLE_SLOTS
    ensures var r := UNDERIVED[IdOf(y, names) := RangeOf(RelCode(rel), k)][IdOf(x, names)];
            (r.derived <==> x == y) && (Within(r, l) <==> (y == x ==> Compare(rel, l, k)))
  {
    ComparisonExact(rel, k);
  }

  /** The derived range of a variable holds exactly the values that satisfy every comparison on it. */
  lemma {:induction false} ConjunctionIsExact(c: Cond, names: seq<string>, x: string, l: long)
    requires Conjunction(c) && CondKnown(c, names) && |names| <= VARIABLE_SLOTS && x in names
    ensures Derive(c, names, UNDERIVED).Some?
    ensures var r := Derive(c, names, UNDERIVED).value[IdOf(x, names)];
            (r.derived <==> x in CondVars(c)) && (Within(r, l) <==> SatisfiesAll(c, x, l))
    decreases c
  {
    match c
    case Cmp(rel, left, right) => OneComparisonExact(rel, left.name, right.l, names, x, l);
    case Join(_, c1, c2) =>
      ConjunctionIsExact(c1, names, x, l);
      ConjunctionIsExact(c2, names, x, l);
      var i := IdOf(x, names);
      var a, b := Derive(c1, names, UNDERIVED).value[i], Derive(c2, names, UNDERIVED).value[i];
      MergeIsExact(NOTHING, a, b);
      assert Derive(c, names, UNDERIVED).value[i] == Merge(true, NOTHING, a, b);
  }

  lemma {:induction false} ConjunctionHolds(c: Cond, names: seq<string>, env: string -> long)
    requires Conjunction(c) && CondKnown(c, names)
    ensures Holds(c, env) == Truth(true) <==>
            forall i :: 0 <= i < |names| ==> SatisfiesAll(c, names[i], env(names[i]))
    ensures Holds(c, env).Truth?
    decreases c
  {
    match c
    case Cmp(rel, left, right) =>
      var k := IdOf(left.name, names);
      assert SatisfiesAll(c, names[k], env(names[k])) <==> Compare(rel, env(left.name), right.l);
    case Join(_, c1, c2) =>
      ConjunctionHolds(c1, names, env);
      ConjunctionHolds(c2, names, env);
  }

  /** A row satisfies such a condition exactly if all its values lie in the derived ranges. */
  lemma ConjunctionIsItsRanges(c: Cond, names: seq<string>, env: string -> long)
    requires Conjunction(c) && CondKnown(c, names) && |names| <= VARIABLE_SLOTS
    requires forall i, j :: 0 <= i < j < |names| ==> names[i] != names[j]
    ensures Derive(c, names, UNDERIVED).Some?
    ensures Holds(c, env) == Truth(true) <==> Covers(Derive(c, names, UNDERIVED).value, names, env)
  {
    ConjunctionHolds(c, names, env);
    if names == [] {
      NoNames(c);
    }
    forall i | 0 <= i < |names|
      ensures Derive(c, names, UNDERIVED).Some?
      ensures Within(Derive(c, names, UNDERIVED).value[i], env(names[i])) <==>
              SatisfiesAll(c, names[i], env(names[i]))
    {
      assert IdOf(names[i], names) == i;
      ConjunctionIsExact(c, names, names[i], env(names[i]));
    }
  }

  lemma {:induction false} NoNames(c: Cond)
    requires Conjunction(c)
    ensures !CondKnown(c, [])
    decreases c
  {
    if c.Join? {
      NoNames(c.c1);
    }
  }

  /** Some value satisfies every comparison on `x` of one of the two sides. */
  predicate SatisfiesEither(c1: Cond, c2: Cond, x: string, l: long)
    requires Conjunction(c1) && Conjunction(c2)
  {
    SatisfiesAll(c1, x, l) || SatisfiesAll(c2, x, l)
  }

  /** The range of an OR of two such conditions reaches from the least to the greatest value that one of
      them lets `x` have. */
  lemma OrIsHull(c1: Cond, c2: Cond, names: seq<string>, x: string, l1: long, l2: long)
    requires Conjunction(c1) && Conjunction(c2) && CondKnown(Join(Or, c1, c2), names) && |names| <= VARIABLE_SLOTS
    requires x in names && x in CondVars(c1) && x in CondVars(c2)
    requires SatisfiesAll(c1, x, l1) && SatisfiesAll(c2, x, l2)
    ensures Derive(Join(Or, c1, c2), names, UNDERIVED).Some?
    ensures var r := Derive(Join(Or, c1, c2), names, UNDERIVED).value[IdOf(x, names)];
            r.derived && SatisfiesEither(c1, c2, x, r.min) && SatisfiesEither(c1, c2, x, r.max)
            && forall l :: SatisfiesEither(c1, c2, x, l) ==> InRange(r, l)
  {
    ConjunctionIsExact(c1, names, x, l1);
    ConjunctionIsExact(c2, names, x, l2);
    var i := IdOf(x, names);
    var a, b := Derive(c1, names, UNDERIVED).value[i], Derive(c2, names, UNDERIVED).value[i];
    var r := Derive(Join(Or, c1, c2), names, UNDERIVED).value[i];
    assert r == Merge(false, NOTHING, a, b);
    MergeIsExact(NOTHING, a, b);
    forall l: long
      ensures InRange(a, l) <==> SatisfiesAll(c1, x, l)
      ensures InRange(b, l) <==> SatisfiesAll(c2, x, l)
    {
      ConjunctionIsExact(c1, names, x, l);
      ConjunctionIsExact(c2, names, x, l);
    }
  }

  // ----- Where soundness stops -----

  /** Whether the range derived for `k rel x`, a comparison with the constant on the left,
      holds every `x` that satisfies it. */
  ghost predicate ReversedSound(rel: RelOp, k: long) {
    forall x: long :: Compare(rel, k, x) ==> Within(RangeOf(RelCode(rel), k), x)
  }

  /** With the constant on the left the operator is read as if it stood on the right. That is
      sound exactly for equality and at the end of the value range where the comparison
      excludes nothing or everything. */
  lemma ConstantOnTheLeft(rel: RelOp, k: long)
    requires rel != Neq
    ensures ReversedSound(rel, k) <==>
            match rel
            case Eq => true
            case Ge => k == LONG_MIN || k == LONG_MAX
            case Le => k == LONG_MIN || k == LONG_MAX
            case Geq => k == LONG_MIN
            case Leq => k == LONG_MAX
  {
    match rel
    case Eq =>
    case Ge => assert k != LONG_MIN ==> Compare(Ge, k, LONG_MIN);
    case Geq => assert Compare(Geq, k, LONG_MIN);
    case Le => assert k != LONG_MAX ==> Compare(Le, k, LONG_MAX);
    case Leq => assert Compare(Leq, k, LONG_MAX);
  }

  /** A variable on the right is derived all the same, from the operator as it stands. */
  lemma ConstantLeftDerives(rel: RelOp, k: long, x: string, names: seq<string>)
    requires x in names && |names| <= VARIABLE_SLOTS && rel != Neq
    ensures Derive(Cmp(rel, Const(k), Var(x)), names, UNDERIVED) ==
            Some(UNDERIVED[IdOf(x, names) := RangeOf(RelCode(rel), k)])
  {
  }

  /** Of a comparison of two constants the second one is taken for a variable: the one with the number in its
      lowest byte gets the range of the first. It is refused if there is no such variable. */
  lemma TwoConstantsDerive(rel: RelOp, k: long, m: long, names: seq<string>)
    requires |names| <= VARIABLE_SLOTS && rel != Neq
    ensures Derive(Cmp(rel, Const(k), Const(m)), names, UNDERIVED) ==
            if m % 256 < 8 then Some(UNDERIVED[m % 256 := RangeOf(RelCode(rel), k)]) else None
  {
    assert LongBytes(m)[0] == m % 256;
  }

  /** Whether every row that satisfies the comparison of two constants lies in the ranges derived from it. */
  ghost predicate TwoConstantsSound(rel: RelOp, k: long, m: long, names: seq<string>)
    requires |names| <= VARIABLE_SLOTS && rel != Neq && m % 256 < |names|
  {
    forall env: string -> long :: Holds(Cmp(rel, Const(k), Const(m)), env) == Truth(true) ==>
      Covers(UNDERIVED[m % 256 := RangeOf(RelCode(rel), k)], names, env)
  }

  /** That is so exactly if the comparison is false, or the range excludes nothing. */
  lemma TwoConstants(rel: RelOp, k: long, m: long, names: seq<string>)
    requires |names| <= VARIABLE_SLOTS && rel != Neq && m % 256 < |names|
    ensures TwoConstantsSound(rel, k, m, names) <==> !Compare(rel, k, m) || Full(RangeOf(RelCode(rel), k))
  {
    var r := RangeOf(RelCode(rel), k);
    RelCodes(rel, k);
    if Compare(rel, k, m) && !Full(r) {
      var l := Outside(r);
      var env := (name: string) => l;
      assert Holds(Cmp(rel, Const(k), Const(m)), env) == Truth(true);
      assert !Within(UNDERIVED[m % 256 := r][m % 256], env(names[m % 256]));
    }
  }

  /** `x r1 j OR y r2 k` over different variables: each range comes from one side alone. */
  function OrOfTwo(x: string, r1: RelOp, j: long, y: string, r2: RelOp, k: long): Cond {
    Join(Or, Cmp(r1, Var(x), Const(j)), Cmp(r2, Var(y), Const(k)))
  }

  predicate Full(r: Range) {
    r.min == LONG_MIN && r.max == LONG_MAX
  }

  lemma Satisfied(rel: RelOp, k: long) returns (l: long)
    requires Satisfiable(rel, k)
    ensures Compare(rel, l, k)
  {
    l := match rel
      case Eq => k
      case Neq => if k == 0 then 1 else 0
      case Ge => LONG_MAX
      case Geq => LONG_MAX
      case Le => LONG_MIN
      case Leq => LONG_MIN;
  }

  lemma Outside(r: Range) returns (l: long)
    requires r.derived && !Full(r)
    ensures !Within(r, l)
  {
    l := if r.min == LONG_MIN then LONG_MAX else LONG_MIN;
  }

  /** Whether the ranges derived for `x r1 j OR y r2 k` hold every row that satisfies it. */
  ghost predicate OrSound(x: string, r1: RelOp, j: long, y: string, r2: RelOp, k: long, names: seq<string>)
    requires x in names && y in names
  {
    forall env: string -> long :: Compare(r1, env(x), j) || Compare(r2, env(y), k) ==>
      Covers(OrRanges(x, r1, j, y, r2, k, names), names, env)
  }

  /** The ranges of `x r1 j OR y r2 k`. */
  function OrRanges(x: string, r1: RelOp, j: long, y: string, r2: RelOp, k: long, names: seq<string>): Ranges
    requires x in names && y in names
  {
    var a := if IdOf(x, names) < RANGE_SLOTS then UNDERIVED[IdOf(x, names) := RangeOf(RelCode(r1), j)] else UNDERIVED;
    var b := if IdOf(y, names) < RANGE_SLOTS then UNDERIVED[IdOf(y, names) := RangeOf(RelCode(r2), k)] else UNDERIVED;
    MergeAll(false, UNDERIVED, a, b)
  }

  /** A comparison of a variable with a constant, derived and evaluated. */
  lemma OneMeaning(x: string, rel: RelOp, k: long, names: seq<string>, env: string -> long)
    requires x in names && |names| <= VARIABLE_SLOTS && rel != Neq
    ensures var c := Cmp(rel, Var(x), Const(k));
            CondKnown(c, names) && Holds(c, env) == Truth(Compare(rel, env(x), k))
            && Derive(c, names, UNDERIVED) == Some(UNDERIVED[IdOf(x, names) := RangeOf(RelCode(rel), k)])
  {
  }

  lemma JoinMeaning(c1: Cond, c2: Cond, names: seq<string>, env: string -> long, a: Ranges, b: Ranges)
    requires CondKnown(c1, names) && CondKnown(c2, names) && |names| <= VARIABLE_SLOTS && Holds(c1, env).Truth?
             && Holds(c2, env).Truth?
    requires Derive(c1, names, UNDERIVED) == Some(a) && Derive(c2, names, UNDERIVED) == Some(b)
    ensures CondKnown(Join(Or, c1, c2), names)
            && Holds(Join(Or, c1, c2), env) == Truth(Holds(c1, env).b || Holds(c2, env).b)
    ensures Derive(Join(Or, c1, c2), names, UNDERIVED) == Some(MergeAll(false, UNDERIVED, a, b))
  {
  }

  /** What `x r1 j OR y r2 k` means, and which ranges are derived from it. */
  lemma OrMeaning(x: string, r1: RelOp, j: long, y: string, r2: RelOp, k: long, names: seq<string>, env: string -> long)
    requires x in names && y in names && |names| <= VARIABLE_SLOTS && r1 != Neq && r2 != Neq
    ensures Holds(OrOfTwo(x, r1, j, y, r2, k), env) == Truth(Compare(r1, env(x), j) || Compare(r2, env(y), k))
    ensures CondKnown(OrOfTwo(x, r1, j, y, r2, k), names)
    ensures Derive(OrOfTwo(x, r1, j, y, r2, k), names, UNDERIVED) == Some(OrRanges(x, r1, j, y, r2, k, names))
  {
    OneMeaning(x, r1, j, names, env);
    OneMeaning(y, r2, k, names, env);
    var a, b := UNDERIVED[IdOf(x, names) := RangeOf(RelCode(r1), j)],
        UNDERIVED[IdOf(y, names) := RangeOf(RelCode(r2), k)];
    JoinMeaning(Cmp(r1, Var(x), Const(j)), Cmp(r2, Var(y), Const(k)), names, env, a, b);
  }

  lemma OrRangesAt(x: string, r1: RelOp, j: long, y: string, r2: RelOp, k: long, names: seq<string>)
    requires x != y && x in names && y in names && |names| <= VARIABLE_SLOTS && r1 != Neq && r2 != Neq
    ensures OrRanges(x, r1, j, y, r2, k, names)[IdOf(x, names)] == RangeOf(RelCode(r1), j)
    ensures OrRanges(x, r1, j, y, r2, k, names)[IdOf(y, names)] == RangeOf(RelCode(r2), k)
  {
    RelCodes(r1, j);
    RelCodes(r2, k);
  }

  /** An OR over two different variables is sound exactly when neither side excludes a value
      the other side would let through: a side constrains nothing, or the other is never true. */
  lemma OrOverDifferentVariables(x: string, r1: RelOp, j: long, y: string, r2: RelOp, k: long, names: seq<string>)
    requires x != y && x in names && y in names && |names| <= VARIABLE_SLOTS && r1 != Neq && r2 != Neq
    ensures OrSound(x, r1, j, y, r2, k, names) <==>
            (Full(RangeOf(RelCode(r1), j)) || !Satisfiable(r2, k))
                && (Full(RangeOf(RelCode(r2), k)) || !Satisfiable(r1, j))
  {
    var a, b := RangeOf(RelCode(r1), j), RangeOf(RelCode(r2), k);
    OrRangesAt(x, r1, j, y, r2, k, names);
    RelCodes(r1, j);
    RelCodes(r2, k);
    if Satisfiable(r2, k) && !Full(a) {
      var vy := Satisfied(r2, k);
      var vx := Outside(a);
      var env := name => if name == x then vx else vy;
      assert !Covers(OrRanges(x, r1, j, y, r2, k, names), names, env) by {
        assert !Within(OrRanges(x, r1, j, y, r2, k, names)[IdOf(x, names)], env(names[IdOf(x, names)]));
      }
    } else if Satisfiable(r1, j) && !Full(b) {
      var vx := Satisfied(r1, j);
      var vy := Outside(b);
      var env := name => if name == y then vy else vx;
      assert !Covers(OrRanges(x, r1, j, y, r2, k, names), names, env) by {
        assert !Within(OrRanges(x, r1, j, y, r2, k, names)[IdOf(y, names)], env(names[IdOf(y, names)]));
      }
    } else {
      forall env: string -> long | Compare(r1, env(x), j) || Compare(r2, env(y), k)
        ensures Covers(OrRanges(x, r1, j, y, r2, k, names), names, env)
      {
        BothSidesAllow(x, r1, j, y, r2, k, names, env);
      }
    }
  }

  lemma BothSidesAllow(x: string, r1: RelOp, j: long, y: string, r2: RelOp, k: long, names: seq<string>,
                       env: string -> long)
    requires x != y && x in names && y in names && |names| <= VARIABLE_SLOTS && r1 != Neq && r2 != Neq
    requires Full(RangeOf(RelCode(r1), j)) || !Satisfiable(r2, k)
    requires Full(RangeOf(RelCode(r2), k)) || !Satisfiable(r1, j)
    requires Compare(r1, env(x), j) || Compare(r2, env(y), k)
    ensures Covers(OrRanges(x, r1, j, y, r2, k, names), names, env)
  {
    var a, b := RangeOf(RelCode(r1), j), RangeOf(RelCode(r2), k);
    assert Within(a, env(x)) && Within(b, env(y)) by {
      if Compare(r1, env(x), j) {
        ComparisonSound(r1, j, env(x));
      }
      if Compare(r2, env(y), k) {
        ComparisonSound(r2, k, env(y));
      }
    }
    OrRangesAt(x, r1, j, y, r2, k, names);
    var r := OrRanges(x, r1, j, y, r2, k, names);
    forall i | 0 <= i < |names| && i < RANGE_SLOTS ensures Within(r[i], env(names[i])) {
      if i != IdOf(x, names) && i != IdOf(y, names) {
        assert !r[i].derived;
      }
    }
  }
}
