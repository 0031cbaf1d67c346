/** The logic engine as an object: its code buffer, instruction pointer and variable tables.
    The methods carry out the steps that LvmCode, LvmDerive and AqlCompile define on values. */
module LvmEngine {
  import opened LvmCode
  import opened LvmDerive
  import C = AqlCompile

  /** A status and a value report an outcome. */
  ghost predicate Reports(o: Outcome, status: int, l: long, ip: nat) {
    match o
    case Value(v, at) => status == TRUE && l == v && ip == at
    case Failed(s, at) => status == s && ip == at
    case OutOfBounds => false
  }

  /** A truth value or an error code reports an outcome. */
  ghost predicate ReportsTruth(o: Outcome, r: int, ip: nat) {
    match o
    case Value(v, at) => r == v && ip == at
    case Failed(s, at) => r == s && ip == at
    case OutOfBounds => false
  }

  predicate IsError(status: int) {
    status >= 2
  }

  lemma StatusIsError(code: seq<byte>, ip: nat, vars: seq<long>)
    ensures RunOperand(code, ip, vars).Failed? ==> IsError(RunOperand(code, ip, vars).status)
    decreases |code| - ip
  {
    if ip + 4 <= |code| && WordAt(code, ip) == LVM_ARITH_OP {
      StatusIsError(code, ip + 4, vars);
      if RunOperand(code, ip + 4, vars).Value? {
        StatusIsError(code, RunOperand(code, ip + 4, vars).ip, vars);
      }
    }
  }

  lemma ConditionStatus(code: seq<byte>, ip: nat, vars: seq<long>)
    ensures RunCondition(code, ip, vars).Failed? ==> IsError(RunCondition(code, ip, vars).status)
    ensures RunCondition(code, ip, vars).Value? ==> RunCondition(code, ip, vars).l in {FALSE, TRUE}
    decreases |code| - ip
  {
    if ip + 4 <= |code| && WordAt(code, ip) == LVM_CMP_OP {
      if IsConnective(WordAt(code, ip + 2)) {
        ConditionStatus(code, ip + 4, vars);
        if RunCondition(code, ip + 4, vars).Value? {
          ConditionStatus(code, RunCondition(code, ip + 4, vars).ip, vars);
        }
      } else {
        StatusIsError(code, ip + 4, vars);
        if RunOperand(code, ip + 4, vars).Value? {
          StatusIsError(code, RunOperand(code, ip + 4, vars).ip, vars);
        }
      }
    }
  }

  lemma EmitTwice(v: C.Vm, a: seq<byte>, b: seq<byte>)
    requires v.end + |a| + |b| <= |v.code|
    ensures C.Emit(C.Emit(v, a), b) == C.Emit(v, a + b)
  {
    var w := C.Emit(C.Emit(v, a), b);
    assert w.code == v.code[..v.end] + (a + b) + v.code[v.end + |a| + |b|..];
  }

  lemma Shifted(before: seq<byte>, at: nat, end: nat, after: seq<byte>)
    requires at <= end && end + 4 <= |before| == |after|
    requires forall k :: 0 <= k < at + 4 ==> after[k] == before[k]
    requires forall k :: at + 4 <= k < end + 4 ==> after[k] == before[k - 4]
    requires forall k :: end + 4 <= k < |before| ==> after[k] == before[k]
    ensures after == before[..at + 4] + before[at..end] + before[end + 4..]
  {
  }

  class Lvm {
    const code: array<byte>
    const vars: array<long>
    const derivations: array<Range>
    var end: nat
    var ip: nat
    var error: bool
    var names: seq<string>

    ghost predicate Valid()
      reads this
    {
      vars.Length == VARIABLE_SLOTS && derivations.Length == RANGE_SLOTS && |names| <= VARIABLE_SLOTS
      && end <= code.Length
      && code as object != vars && code as object != derivations && vars as object != derivations
    }

    /** What emission sees of the engine. */
    ghost function View(): C.Vm
      reads this, code
    {
      C.Vm(code[..], end, error, names, false)
    }

    /** lvm_reset on a buffer of the given size. */
    constructor (size: nat)
      ensures Valid() && View() == C.Vm(seq(size, _ => 0), 0, false, [], false)
      ensures ip == 0 && derivations[..] == UNDERIVED && (forall i :: 0 <= i < VARIABLE_SLOTS ==> vars[i] == 0)
      ensures fresh(code) && fresh(vars) && fresh(derivations)
    {
      code := new byte[size](_ => 0);
      vars := new long[VARIABLE_SLOTS](_ => 0);
      derivations := new Range[RANGE_SLOTS](_ => NOTHING);
      end, ip, error, names := 0, 0, false, [];
      new;
      assert code[..] == seq(size, _ => 0);
      assert derivations[..] == UNDERIVED;
    }

    // ----- Emission -----

    /** memcpy to the end of the code. */
    method Append(b: seq<byte>)
      requires Valid() && end + |b| <= code.Length
      modifies this`end, code
      ensures Valid() && View() == C.Emit(old(View()), b)
    {
      ghost var before := code[..];
      for i := 0 to |b|
        invariant end == old(end)
        invariant forall k :: 0 <= k < end ==> code[k] == before[k]
        invariant forall k :: 0 <= k < i ==> code[end + k] == b[k]
        invariant forall k :: end + i <= k < code.Length ==> code[k] == before[k]
      {
        code[end + i] := b[i];
      }
      assert code[..] == before[..end] + b + before[end + |b|..];
      end := end + |b|;
    }

    method SetType(kind: word)
      requires Valid() && end + 2 <= code.Length
      modifies this`end, code
      ensures Valid() && View() == C.Emit(old(View()), WordBytes(kind))
    {
      Append(WordBytes(kind));
    }

    method SetOp(op: word)
      requires Valid() && end + 4 <= code.Length
      modifies this`end, code
      ensures Valid() && View() == C.Emit(old(View()), NodeBytes(LVM_ARITH_OP, op))
    {
      EmitTwice(View(), WordBytes(LVM_ARITH_OP), WordBytes(op));
      SetType(LVM_ARITH_OP);
      Append(WordBytes(op));
    }

    method SetRelation(op: word)
      requires Valid() && end + 4 <= code.Length
      modifies this`end, code
      ensures Valid() && View() == C.Emit(old(View()), NodeBytes(LVM_CMP_OP, op))
    {
      EmitTwice(View(), WordBytes(LVM_CMP_OP), WordBytes(op));
      SetType(LVM_CMP_OP);
      Append(WordBytes(op));
    }

    /** lvm_set_operand: the node type, then the operand type and value. */
    method SetOperand(kind: word, value: seq<byte>)
      requires Valid() && |value| == 4 && end + 8 <= code.Length
      modifies this`end, code
      ensures Valid() && View() == C.Emit(old(View()), WordBytes(LVM_OPERAND) + WordBytes(kind) + value)
    {
      EmitTwice(View(), WordBytes(LVM_OPERAND), WordBytes(kind) + value);
      assert WordBytes(LVM_OPERAND) + WordBytes(kind) + value == WordBytes(LVM_OPERAND) + (WordBytes(kind) + value);
      SetType(LVM_OPERAND);
      Append(WordBytes(kind) + value);
    }

    method SetLong(l: long)
      requires Valid() && end + 8 <= code.Length
      modifies this`end, code
      ensures Valid() && View() == C.Emit(old(View()), ConstBytes(l))
    {
      SetOperand(LVM_LONG, LongBytes(l));
    }

    /** Position of a name in the variable table; the first free entry if it is not there. */
    method Lookup(name: string) returns (id: nat)
      requires Valid()
      ensures id == if name in names then IdOf(name, names) else |names|
    {
      id := 0;
      while id < |names| && names[id] != name
        invariant id <= |names| && name !in names[..id]
      {
        id := id + 1;
      }
      if id < |names| {
        FirstIsId(name, names, id);
      }
    }

    method RegisterVariable(name: string)
      requires Valid() && (name in names || |names| < VARIABLE_SLOTS)
      modifies this`names
      ensures Valid() && View() == C.Register(old(View()), name)
    {
      var id := Lookup(name);
      if id == |names| {
        names := names + [name];
      }
    }

    /** A name that is not registered gives the number of the first free entry. */
    method SetVariable(name: string)
      requires Valid() && end + 8 <= code.Length
      modifies this`end, code
      ensures Valid()
      ensures View() == C.Emit(old(View()), VarBytes(if name in names then IdOf(name, names) else |names|))
    {
      var id := Lookup(name);
      if id < 8 {
        SetOperand(LVM_VARIABLE, [id, 0, 0, 0]);
      }
    }

    /** A name that is not registered writes the first free entry, which nothing reads. */
    method SetVariableValue(name: string, value: long)
      requires Valid() && (name in names || |names| < VARIABLE_SLOTS)
      modifies vars
      ensures vars[..] == old(vars[..])[(if name in names then IdOf(name, names) else |names|) := value]
    {
      var id := Lookup(name);
      vars[id] := value;
    }

    method JumpToOperand() returns (old_end: nat)
      requires Valid()
      modifies this`end, this`error
      ensures Valid() && View() == C.JumpToOperand(old(View())) && old_end == old(end)
    {
      old_end := end;
      end := end + 4;
      if end >= code.Length {
        error := true;
        end := old_end;
      }
    }

    method SetEnd(to: nat) returns (old_end: nat)
      requires Valid()
      modifies this`end, this`error
      ensures Valid() && View() == C.SetEnd(old(View()), to) && old_end == old(end)
    {
      if to >= code.Length {
        error := true;
        return end;
      }
      old_end := end;
      end := to;
    }

    /** memmove of the bytes from `at` up, highest byte first. */
    method ShiftForOperator(at: nat) returns (newEnd: nat)
      requires Valid() && (C.ShiftRefused(View(), at) || end + 4 <= code.Length)
      modifies this`end, this`error, code
      ensures Valid() && View() == C.ShiftForOperator(old(View()), at) && newEnd == C.ShiftedEnd(old(View()), at)
    {
      if end + 2 > code.Length || at >= end {
        error := true;
        return 0;
      }
      assert end + 4 <= code.Length;
      ghost var before := code[..];
      var i := end;
      while i > at
        invariant at <= i <= end == old(end) && end + 4 <= code.Length && error == old(error)
        invariant forall k :: 0 <= k < i + 4 ==> code[k] == before[k]
        invariant forall k :: i + 4 <= k < end + 4 ==> code[k] == before[k - 4]
        invariant forall k :: end + 4 <= k < code.Length ==> code[k] == before[k]
      {
        i := i - 1;
        code[i + 4] := code[i];
      }
      newEnd := end + 4;
      Shifted(before, at, end, code[..]);
      end := at;
    }

    // ----- Execution -----

    method EvalExpr(op: word) returns (status: int, result: long)
      requires Valid() && ip <= code.Length
      requires !RunExpr(code[..], ip, op, vars[..]).OutOfBounds?
      modifies this`ip
      ensures Reports(old(RunExpr(code[..], ip, op, vars[..])), status, result, ip)
      decreases code.Length - ip
    {
      ghost var start := ip;
      var value: seq<long> := [];
      result := 0;
      while |value| < 2
        invariant |value| <= 2 && start <= ip <= code.Length
        invariant |value| == 0 ==> ip == start
        invariant |value| >= 1 ==> RunOperand(code[..], start, vars[..]).Value?
                                   && RunOperand(code[..], start, vars[..]).l == value[0]
        invariant |value| == 1 ==> ip == RunOperand(code[..], start, vars[..]).ip
        invariant |value| == 2 ==> RunOperand(code[..], RunOperand(code[..], start, vars[..]).ip, vars[..])
                                   == Value(value[1], ip)
      {
        StatusIsError(code[..], ip, vars[..]);
        var s, l := Operand();
        if IsError(s) {
          return s, 0;
        }
        value := value + [l];
      }
      if op == ArithCode(Add) {
        result := Wrap(value[0] as int + value[1] as int);
      } else if op == ArithCode(Sub) {
        result := Wrap(value[0] as int - value[1] as int);
      } else if op == ArithCode(Mul) {
        result := Wrap(value[0] as int * value[1] as int);
      } else if op == ArithCode(Div) {
        if value[1] == 0 {
          return MATH_ERROR, 0;
        }
        result := Wrap(Quotient(value[0], value[1]));
      } else {
        return EXECUTION_ERROR, 0;
      }
      status := TRUE;
    }

    /** One round of the loops in `eval_expr` and `eval_logic`: read an argument and its value. */
    method Operand() returns (status: int, l: long)
      requires Valid() && ip <= code.Length
      requires !RunOperand(code[..], ip, vars[..]).OutOfBounds?
      modifies this`ip
      ensures Reports(old(RunOperand(code[..], ip, vars[..])), status, l, ip)
      decreases code.Length - ip, 1
    {
      var kind := WordAt(code[..], ip);
      ip := ip + 2;
      l := 0;
      if kind == LVM_ARITH_OP {
        var op := WordAt(code[..], ip);
        ip := ip + 2;
        status, l := EvalExpr(op);
      } else if kind == LVM_OPERAND {
        var operandType := WordAt(code[..], ip);
        if operandType == LVM_LONG {
          l := LongAt(code[..], ip + 2);
        } else if operandType == LVM_VARIABLE {
          l := vars[code[ip + 2]];
        }
        ip := ip + 6;
        status := TRUE;
      } else {
        status := SEMANTIC_ERROR;
      }
    }

    method EvalLogic(op: word) returns (r: int)
      requires Valid() && ip <= code.Length
      requires !RunLogic(code[..], ip, op, vars[..]).OutOfBounds?
      modifies this`ip
      ensures ReportsTruth(old(RunLogic(code[..], ip, op, vars[..])), r, ip)
      decreases code.Length - ip
    {
      if IsConnective(op) {
        r := EvalConnective(op);
        return;
      }
      StatusIsError(code[..], ip, vars[..]);
      var s, l1 := Operand();
      if IsError(s) {
        return s;
      }
      StatusIsError(code[..], ip, vars[..]);
      var s2, l2 := Operand();
      if IsError(s2) {
        return s2;
      }
      if op == RelCode(Eq) { return Flag(l1 == l2); }
      if op == RelCode(Neq) { return Flag(l1 != l2); }
      if op == RelCode(Ge) { return Flag(l1 > l2); }
      if op == RelCode(Geq) { return Flag(l1 >= l2); }
      if op == RelCode(Le) { return Flag(l1 < l2); }
      if op == RelCode(Leq) { return Flag(l1 <= l2); }
      return EXECUTION_ERROR;
    }

    /** The part of `eval_logic` that handles NOT, AND and OR; both arguments are evaluated. */
    method EvalConnective(op: word) returns (r: int)
      requires Valid() && ip <= code.Length && IsConnective(op)
      requires !RunLogic(code[..], ip, op, vars[..]).OutOfBounds?
      modifies this`ip
      ensures ReportsTruth(old(RunLogic(code[..], ip, op, vars[..])), r, ip)
      decreases code.Length - ip, 1
    {
      ConditionStatus(code[..], ip, vars[..]);
      var a := Argument();
      if IsError(a) {
        return a;
      }
      if op == LVM_NOT_CODE {
        return Flag(a == 0);
      }
      ConditionStatus(code[..], ip, vars[..]);
      var b := Argument();
      if IsError(b) {
        return b;
      }
      return if op == ConnectiveCode(And) then Flag(a == TRUE && b == TRUE) else Flag(a == TRUE || b == TRUE);
    }

    method Argument() returns (r: int)
      requires Valid() && ip <= code.Length
      requires !RunCondition(code[..], ip, vars[..]).OutOfBounds?
      modifies this`ip
      ensures ReportsTruth(old(RunCondition(code[..], ip, vars[..])), r, ip)
      decreases code.Length - ip, 0
    {
      var kind := WordAt(code[..], ip);
      ip := ip + 2;
      if kind != LVM_CMP_OP {
        return SEMANTIC_ERROR;
      }
      var op := WordAt(code[..], ip);
      ip := ip + 2;
      r := EvalLogic(op);
    }

    /** lvm_execute: run the program from its start. */
    method Execute() returns (status: int)
      requires Valid() && !Run(code[..], vars[..]).OutOfBounds?
      modifies this`ip
      ensures ReportsTruth(Run(code[..], vars[..]), status, ip)
    {
      ip := 0;
      status := EXECUTION_ERROR;
      var kind := WordAt(code[..], ip);
      ip := ip + 2;
      if kind == LVM_CMP_OP {
        var op := WordAt(code[..], ip);
        ip := ip + 2;
        status := EvalLogic(op);
      }
    }

    // ----- Derivation -----

    /** create_intersection and create_union: walk over the tables entry by entry. */
    method MergeRanges(conj: bool, result: array<Range>, d1: array<Range>, d2: array<Range>)
      requires result.Length == d1.Length == d2.Length == RANGE_SLOTS && result != d1 && result != d2
      modifies result
      ensures result[..] == MergeAll(conj, old(result[..]), d1[..], d2[..])
    {
      for i := 0 to RANGE_SLOTS
        invariant forall k :: 0 <= k < i ==> result[k] == Merge(conj, old(result[k]), d1[k], d2[k])
        invariant forall k :: i <= k < RANGE_SLOTS ==> result[k] == old(result[k])
        invariant d1[..] == old(d1[..]) && d2[..] == old(d2[..])
      {
        if d1[i].derived && !d2[i].derived {
          result[i] := Range(true, d1[i].min, d1[i].max);
        } else if !d1[i].derived && d2[i].derived {
          result[i] := Range(true, d2[i].min, d2[i].max);
        } else if d1[i].derived {
          if conj {
            result[i] := Range(true, if d1[i].min > d2[i].min then d1[i].min else d2[i].min,
                                     if d1[i].max < d2[i].max then d1[i].max else d2[i].max);
          } else {
            result[i] := Range(true, if d1[i].min > d2[i].min then d2[i].min else d1[i].min,
                                     if d1[i].max < d2[i].max then d2[i].max else d1[i].max);
          }
        }
      }
      assert result[..] == MergeAll(conj, old(result[..]), d1[..], d2[..]);
    }

    /** derive_relation into the given table. When it fails no entry has become derived. */
    method DeriveRelation(ranges: array<Range>) returns (status: int)
      requires Valid() && ip <= code.Length && ranges.Length == RANGE_SLOTS
      requires ranges as object != code && ranges as object != vars
      requires !DeriveAt(code[..], ip, ranges[..]).OutOfCode?
      modifies this`ip, ranges
      ensures var d := old(DeriveAt(code[..], ip, ranges[..]));
              if d.Derived? then status == TRUE && ranges[..] == d.ranges && ip == d.ip
              else status == DERIVATION_ERROR && ip == d.ip
      ensures status != TRUE ==> forall i :: 0 <= i < RANGE_SLOTS ==> ranges[i].derived == old(ranges[i].derived)
      decreases code.Length - ip
    {
      ip := ip + 2;
      var op := WordAt(code[..], ip);
      ip := ip + 2;
      if IsConnective(op) {
        if op != ConnectiveCode(And) && op != ConnectiveCode(Or) {
          return DERIVATION_ERROR;
        }
        var d1 := new Range[RANGE_SLOTS](_ => NOTHING);
        var d2 := new Range[RANGE_SLOTS](_ => NOTHING);
        assert d1[..] == UNDERIVED && d2[..] == UNDERIVED;
        var s := DeriveRelation(d1);
        if IsError(s) {
          return DERIVATION_ERROR;
        }
        assert d2[..] == UNDERIVED;
        s := DeriveRelation(d2);
        if IsError(s) {
          return DERIVATION_ERROR;
        }
        MergeRanges(op == ConnectiveCode(And), ranges, d1, d2);
        return TRUE;
      }
      status := DeriveOperands(op, ranges);
    }

    /** The part of `derive_relation` that handles a comparison. */
    method DeriveOperands(op: word, ranges: array<Range>) returns (status: int)
      requires Valid() && ip <= code.Length && ranges.Length == RANGE_SLOTS
      requires ranges as object != code && ranges as object != vars
      requires !DeriveComparison(code[..], ip, op, ranges[..]).OutOfCode?
      modifies this`ip, ranges
      ensures var d := old(DeriveComparison(code[..], ip, op, ranges[..]));
              if d.Derived? then status == TRUE && ranges[..] == d.ranges && ip == d.ip
              else status == DERIVATION_ERROR && ip == d.ip
      ensures status != TRUE ==> forall i :: 0 <= i < RANGE_SLOTS ==> ranges[i].derived == old(ranges[i].derived)
    {
      var kind := WordAt(code[..], ip);
      ip := ip + 2;
      if kind != LVM_OPERAND {
        return DERIVATION_ERROR;
      }
      var first := ip;
      ip := ip + 6;
      kind := WordAt(code[..], ip);
      ip := ip + 2;
      if kind != LVM_OPERAND {
        return DERIVATION_ERROR;
      }
      var second := ip;
      ip := ip + 6;
      if WordAt(code[..], first) == LVM_VARIABLE && WordAt(code[..], second) == LVM_VARIABLE {
        return DERIVATION_ERROR;
      }
      var id, k;
      if WordAt(code[..], first) == LVM_VARIABLE {
        id, k := code[first + 2], LongAt(code[..], second + 2);
      } else {
        id, k := code[second + 2], LongAt(code[..], first + 2);
      }
      if id >= RANGE_SLOTS {
        return DERIVATION_ERROR;
      }
      var max, min := LONG_MAX, LONG_MIN;
      if op == RelCode(Eq) {
        max, min := k, k;
      } else if op == RelCode(Ge) {
        min := Wrap(k as int + 1);
      } else if op == RelCode(Geq) {
        min := k;
      } else if op == RelCode(Le) {
        max := Wrap(k as int - 1);
      } else if op == RelCode(Leq) {
        max := k;
      } else {
        ranges[id] := Range(ranges[id].derived, min, max);
        return DERIVATION_ERROR;
      }
      ranges[id] := Range(true, min, max);
      assert ranges[..] == old(ranges[..])[id := RangeOf(op, k)];
      status := TRUE;
    }

    /** lvm_derive; it continues from the instruction pointer, which is 0 after a reset. */
    method DeriveProgram() returns (status: int)
      requires Valid() && ip <= code.Length && !DeriveAt(code[..], ip, derivations[..]).OutOfCode?
      modifies this`ip, derivations
      ensures var d := old(DeriveAt(code[..], ip, derivations[..]));
              if d.Derived? then status == TRUE && derivations[..] == d.ranges else status == DERIVATION_ERROR
    {
      status := DeriveRelation(derivations);
    }

    method GetDerivedRange(name: string) returns (r: Option<Range>)
      requires Valid()
      ensures r == if name in names && derivations[IdOf(name, names)].derived then Some(derivations[IdOf(name, names)])
              else None
    {
      var i := 0;
      while i < |names|
        invariant i <= |names| && name !in names[..i]
      {
        if names[i] == name {
          FirstIsId(name, names, i);
          return if derivations[i].derived then Some(derivations[i]) else None;
        }
        i := i + 1;
      }
      return None;
    }
  }

  lemma FirstIsId(name: string, names: seq<string>, id: nat)
    requires id < |names| && names[id] == name && name !in names[..id]
    ensures IdOf(name, names) == id
  {
    assert id > 0 ==> names[..id][0] == names[0];
    if names[0] != name {
      assert names[1..][..id - 1] == names[..id][1..];
      FirstIsId(name, names[1..], id - 1);
    }
  }
}
