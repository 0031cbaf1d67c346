/** Clauses whose sides have any number of operators: what is emitted for them, what is executed
    instead of what was written, and when the two are the same. */
module AqlMisread {
  import opened LvmCode
  import opened AqlCompile
  import opened AqlMeaning
  import opened AqlChains

  // ----- Clauses -----

  datatype Terms = Terms(left: Term, rel: RelOp, right: Term)

  datatype Clause = Only(c: Terms) | More(c: Terms, conn: Connective, rest: Clause)

  function TermsTokens(c: Terms): seq<Token> {
    Written(c.left) + ([Rel(c.rel)] + Written(c.right))
  }

  function ClauseTokens(w: Clause): seq<Token> {
    match w
    case Only(c) => TermsTokens(c)
    case More(c, conn, rest) => TermsTokens(c) + ([Connect(conn)] + ClauseTokens(rest))
  }

  function IntendedCmp(c: Terms): Cond {
    Cmp(c.rel, Intended(c.left), Intended(c.right))
  }

  /** The operators read from the left, the connectives from the right. */
  function IntendedCond(w: Clause): Cond {
    match w
    case Only(c) => IntendedCmp(c)
    case More(c, conn, rest) => Join(conn, IntendedCmp(c), IntendedCond(rest))
  }

  predicate AllOneByOne(w: Clause) {
    OneByOne(w.c.left) && OneByOne(w.c.right) && (w.More? ==> AllOneByOne(w.rest))
  }

  // ----- What is executed -----

  /** Operators that wait for their second argument, and the expression that comes next. */
  function Wrapped(ps: seq<Partial>, e: Expr): Expr {
    if ps == [] then e else Arith(ps[0].op, ps[0].arg, Wrapped(ps[1..], e))
  }

  /** The comparison that the code for one begins with: the operators left over on the left side take
      the right side for their arguments. Those of the right side are left over for good. */
  function Regrouped(c: Terms): Cond {
    Cmp(c.rel, Head(c.left), Wrapped(Pending(c.left), Head(c.right)))
  }

  /** No comparison before the last one leaves operators over. */
  predicate NoneLeftInside(w: Clause) {
    w.More? ==> Pending(w.c.right) == [] && NoneLeftInside(w.rest)
  }

  function Misread(w: Clause): Cond {
    match w
    case Only(c) => Regrouped(c)
    case More(c, conn, rest) => Join(conn, Regrouped(c), Misread(rest))
  }

  // ----- What is emitted -----

  predicate TermsKnown(c: Terms, names: seq<string>) {
    Known(c.left, names) && Known(c.right, names)
  }

  predicate ClauseKnown(w: Clause, names: seq<string>) {
    TermsKnown(w.c, names) && (w.More? ==> ClauseKnown(w.rest, names))
  }

  function TermsBytes(c: Terms, names: seq<string>): seq<byte>
    requires TermsKnown(c, names) && |names| <= VARIABLE_SLOTS
  {
    NodeBytes(LVM_CMP_OP, RelCode(c.rel)) + TermBytes(c.left, names) + TermBytes(c.right, names)
  }

  function ClauseBytes(w: Clause, names: seq<string>): seq<byte>
    requires ClauseKnown(w, names) && |names| <= VARIABLE_SLOTS
  {
    match w
    case Only(c) => TermsBytes(c, names)
    case More(c, conn, rest) =>
      NodeBytes(LVM_CMP_OP, ConnectiveCode(conn)) + TermsBytes(c, names) + ClauseBytes(rest, names)
  }

  lemma TermsFacts(c: Terms, names: seq<string>)
    requires CondKnown(IntendedCmp(c), names) && |names| <= VARIABLE_SLOTS
    ensures TermsKnown(c, names) && |TermsBytes(c, names)| == CondSize(IntendedCmp(c)) >= 20
  {
    PartsKnown(c.left, names);
    PartsKnown(c.right, names);
    TermSize(c.left, names);
    TermSize(c.right, names);
  }

  lemma TermsStable(c: Terms, names: seq<string>, more: seq<string>)
    requires TermsKnown(c, names) && names <= more && |more| <= VARIABLE_SLOTS
    ensures TermsKnown(c, more) && TermsBytes(c, more) == TermsBytes(c, names)
  {
    TermStable(c.left, names, more);
    TermStable(c.right, names, more);
  }

  /** The comparison has been emitted. */
  ghost predicate TermsEmitted(c: Terms, v: Vm, w: Vm) {
    var n := CondNames(IntendedCmp(c), v.names);
    |n| <= VARIABLE_SLOTS && CondKnown(IntendedCmp(c), n) && TermsKnown(c, n) && Appended(v, w, TermsBytes(c, n), n)
  }

  ghost predicate ClauseEmitted(w: Clause, u: Vm, v: Vm) {
    var n := CondNames(IntendedCond(w), u.names);
    |n| <= VARIABLE_SLOTS && ClauseKnown(w, n) && Appended(u, v, ClauseBytes(w, n), n)
  }

  /** One side, and nothing of it left to read. */
  lemma SideEmits(p: Parser, t: Term, rest: seq<Token>)
    requires p.toks == Written(t) + rest && Fits(t, p.vm) && Ends(rest)
    ensures var (q, status) := ParseExpr(p);
            status == OK && q.toks == AfterSide(rest) && Emitted(t, p.vm, q.vm)
  {
    var q := TermEmits(p, t, rest);
    LoopEnds(q, Saved(t, p.vm.end, q.vm.end));
  }

  lemma TermsEmit(p: Parser, c: Terms, rest: seq<Token>)
    requires p.toks == TermsTokens(c) + rest && Ends(rest)
    requires |CondNames(IntendedCmp(c), p.vm.names)| <= VARIABLE_SLOTS
    requires p.vm.end + CondSize(IntendedCmp(c)) < |p.vm.code|
    ensures var (q, status) := ParseComparison(p);
            status == OK && q.toks == AfterSide(rest) && TermsEmitted(c, p.vm, q.vm)
  {
    SizePositive(Intended(c.right));
    var jumped := p.(vm := JumpToOperand(p.vm));
    var more := Written(c.right) + rest;
    assert jumped.toks == Written(c.left) + ([Rel(c.rel)] + more);
    ExprNamesGrow(Intended(c.right), ExprNames(Intended(c.left), p.vm.names));
    SideEmits(jumped, c.left, [Rel(c.rel)] + more);
    var left := ParseExpr(jumped).0;
    EmittedSize(c.left, jumped.vm, left.vm);
    var b := TermBytes(c.left, left.vm.names);
    TermSize(c.left, left.vm.names);
    LeftSideParses(p, b, left.vm.names, c.rel, more);
    var r := AfterOperator(p, c.rel);
    SideEmits(r, c.right, rest);
    TermsJoin(c, p.vm, r.vm, ParseExpr(r).0.vm);
  }

  lemma TermsJoin(c: Terms, u: Vm, v: Vm, w: Vm)
    requires var n1 := ExprNames(Intended(c.left), u.names);
             |n1| <= VARIABLE_SLOTS && Known(c.left, n1) && ExprKnown(Intended(c.left), n1)
             && Appended(u, v, NodeBytes(LVM_CMP_OP, RelCode(c.rel)) + TermBytes(c.left, n1), n1)
    requires Emitted(c.right, v, w)
    ensures TermsEmitted(c, u, w)
  {
    var n1, n2 := v.names, w.names;
    ExprNamesGrow(Intended(c.right), n1);
    ExprBytesStable(Intended(c.left), n1, n2);
    TermStable(c.left, n1, n2);
    AppendedTwice(u, v, w, NodeBytes(LVM_CMP_OP, RelCode(c.rel))
        + TermBytes(c.left, n1), TermBytes(c.right, n2), n1, n2);
  }

  lemma StartsWithOperand(t: Term)
    ensures Written(t) != [] && (Written(t)[0].Integer? || Written(t)[0].Identifier?)
  {
  }

  lemma ClauseStarts(w: Clause)
    ensures ClauseTokens(w) != [] && (ClauseTokens(w)[0].Integer? || ClauseTokens(w)[0].Identifier?)
  {
    StartsWithOperand(w.c.left);
    assert Written(w.c.left) <= TermsTokens(w.c) <= ClauseTokens(w);
  }

  /** The connectives behind a comparison `c`, which was emitted from `u` on. */
  lemma {:induction false} MoreEmits(u: Vm, p: Parser, c: Terms, conn: Connective, w: Clause, rest: seq<Token>)
    requires p.toks == [Connect(conn)] + (ClauseTokens(w) + rest) && EndsWhere(rest) && TermsEmitted(c, u, p.vm)
    requires |CondNames(IntendedCond(w), p.vm.names)| <= VARIABLE_SLOTS
    requires u.end + CondSize(Join(conn, IntendedCmp(c), IntendedCond(w))) < |u.code|
    ensures var (q, status) := ParseWhereLoop(p, u.end);
            status == OK && q.toks == AfterSide(rest) && ClauseEmitted(More(c, conn, w), u, q.vm)
    decreases w
  {
    var n := p.vm.names;
    TermsFacts(c, n);
    ClauseStarts(w);
    ConnectiveParses(u, p, TermsBytes(c, n), conn, ClauseTokens(w) + rest);
    var r := AfterConnective(p, u.end, conn);
    if w.Only? {
      TermsEmit(r, w.c, rest);
      WhereLoopEnds(ParseComparison(r).0, r.vm.end);
      OnlyEmitted(w, r.vm, ParseComparison(r).0.vm);
      MoreJoins(u, r.vm, ParseComparison(r).0.vm, c, conn, w);
    } else {
      FirstEmits(r, w, rest);
      MoreEmits(r.vm, ParseComparison(r).0, w.c, w.conn, w.rest, rest);
      MoreJoins(u, r.vm, ParseWhereLoop(ParseComparison(r).0, r.vm.end).0.vm, c, conn, w);
    }
  }

  lemma OnlyEmitted(w: Clause, u: Vm, v: Vm)
    requires w.Only? && TermsEmitted(w.c, u, v)
    ensures ClauseEmitted(w, u, v)
  {
  }

  /** The first comparison of a longer clause. */
  lemma FirstEmits(p: Parser, w: Clause, rest: seq<Token>)
    requires w.More? && p.toks == ClauseTokens(w) + rest
    requires |CondNames(IntendedCond(w), p.vm.names)| <= VARIABLE_SLOTS
    requires p.vm.end + CondSize(IntendedCond(w)) < |p.vm.code|
    ensures var (q, status) := ParseComparison(p);
            status == OK && q.toks == [Connect(w.conn)] + (ClauseTokens(w.rest) + rest) && TermsEmitted(w.c, p.vm, q.vm)
            && q.vm.names == CondNames(IntendedCmp(w.c), p.vm.names)
  {
    var more := [Connect(w.conn)] + (ClauseTokens(w.rest) + rest);
    CondNamesGrow(IntendedCond(w.rest), CondNames(IntendedCmp(w.c), p.vm.names));
    assert p.toks == TermsTokens(w.c) + more;
    TermsEmit(p, w.c, more);
  }

  lemma MoreJoins(u: Vm, v: Vm, x: Vm, c: Terms, conn: Connective, w: Clause)
    requires var n := CondNames(IntendedCmp(c), u.names);
             |n| <= VARIABLE_SLOTS && TermsKnown(c, n)
             && Appended(u, v, NodeBytes(LVM_CMP_OP, ConnectiveCode(conn)) + TermsBytes(c, n), n)
    requires ClauseEmitted(w, v, x)
    ensures ClauseEmitted(More(c, conn, w), u, x)
  {
    var n1, n2 := v.names, x.names;
    CondNamesGrow(IntendedCond(w), n1);
    TermsStable(c, n1, n2);
    AppendedTwice(u, v, x, NodeBytes(LVM_CMP_OP, ConnectiveCode(conn)) + TermsBytes(c, n1), ClauseBytes(w, n2), n1, n2);
  }

  /** A clause with any operators on any levels compiles without an error, to these bytes. */
  lemma ClauseCompiles(p: Parser, w: Clause, rest: seq<Token>)
    requires p.toks == ClauseTokens(w) + rest && EndsWhere(rest) && p.vm.end == 0
    requires |CondNames(IntendedCond(w), p.vm.names)| <= VARIABLE_SLOTS && CondSize(IntendedCond(w)) < |p.vm.code|
    ensures var (q, status) := ParseWhere(p);
            status == OK && q.toks == AfterSide(rest) && ClauseEmitted(w, p.vm, q.vm)
  {
    if w.Only? {
      TermsEmit(p, w.c, rest);
      WhereLoopEnds(ParseComparison(p).0, 0);
      OnlyEmitted(w, p.vm, ParseComparison(p).0.vm);
    } else {
      FirstEmits(p, w, rest);
      MoreEmits(p.vm, ParseComparison(p).0, w.c, w.conn, w.rest, rest);
    }
  }

  // ----- When that is the prefix form -----

  /** Nothing is left over of a term exactly if no level has two operators; otherwise the code for it
      begins with a smaller expression. */
  lemma {:induction false} LeftOver(t: Term)
    ensures OneByOne(t) <==> Pending(t) == []
    ensures OneByOne(t) ==> Head(t) == Intended(t)
    ensures !OneByOne(t) ==> ExprSize(Head(t)) < ExprSize(Intended(t))
    decreases t
  {
    if t.Then? {
      LeftOver(t.left);
      LeftOver(t.arg);
      if t.left.Operand? {
        assert Pending(t) == Pending(t.arg);
      }
    }
  }

  /** Where the expression at `at` ends, whatever it is. */
  function Skip(code: seq<byte>, at: nat): (r: nat)
    ensures r > at
    decreases |code| - at
  {
    if at + 8 > |code| || WordAt(code, at) != LVM_ARITH_OP then at + 8 else Skip(code, Skip(code, at + 4))
  }

  lemma {:induction false} SkipsExpr(code: seq<byte>, at: nat, e: Expr, names: seq<string>)
    requires ExprEnd(code, at, e, names) > 0
    ensures Skip(code, at) == ExprEnd(code, at, e, names) && at + 8 <= |code|
    decreases e
  {
    if e.Arith? {
      SkipsExpr(code, at + 4, e.left, names);
      SkipsExpr(code, ExprEnd(code, at + 4, e.left, names), e.right, names);
    }
  }

  /** Code cannot begin with the prefix forms of expressions of different sizes. */
  lemma SameSize(code: seq<byte>, d: Expr, e: Expr, names: seq<string>)
    requires ExprKnown(d, names) && ExprKnown(e, names) && |names| <= VARIABLE_SLOTS
    requires Stands(code, 0, ExprBytes(d, names)) && Stands(code, 0, ExprBytes(e, names))
    ensures ExprSize(d) == ExprSize(e)
  {
    ExprStands(code, 0, d, names);
    ExprStands(code, 0, e, names);
    SkipsExpr(code, 0, d, names);
    SkipsExpr(code, 0, e, names);
  }

  lemma TermExact(t: Term, names: seq<string>)
    requires ExprKnown(Intended(t), names) && |names| <= VARIABLE_SLOTS
    ensures Known(t, names) && (TermBytes(t, names) == ExprBytes(Intended(t), names) <==> OneByOne(t))
  {
    PartsKnown(t, names);
    LeftOver(t);
    var code := TermBytes(t, names);
    assert Stands(code, 0, ExprBytes(Head(t), names));
    if code == ExprBytes(Intended(t), names) {
      assert code[..|code|] == code;
      SameSize(code, Head(t), Intended(t), names);
    }
  }

  lemma SamePieces(n: seq<byte>, a: seq<byte>, b: seq<byte>, c: seq<byte>, d: seq<byte>)
    requires |a| == |c|
    ensures n + a + b == n + c + d <==> a == c && b == d
  {
    if n + a + b == n + c + d {
      assert (n + a + b)[|n|..|n| + |a|] == a && (n + a + b)[|n| + |a|..] == b;
      assert (n + c + d)[|n|..|n| + |a|] == c && (n + c + d)[|n| + |a|..] == d;
    }
  }

  lemma TermsExact(c: Terms, names: seq<string>)
    requires CondKnown(IntendedCmp(c), names) && |names| <= VARIABLE_SLOTS
    ensures TermsKnown(c, names)
    ensures TermsBytes(c, names) == CondBytes(IntendedCmp(c), names) <==> OneByOne(c.left) && OneByOne(c.right)
  {
    TermExact(c.left, names);
    TermExact(c.right, names);
    TermSize(c.left, names);
    SamePieces(NodeBytes(LVM_CMP_OP, RelCode(c.rel)), TermBytes(c.left, names), TermBytes(c.right, names),
               ExprBytes(Intended(c.left), names), ExprBytes(Intended(c.right), names));
  }

  /** The code is the prefix form of what was written exactly if no level has two operators. */
  lemma {:induction false} ClauseExact(w: Clause, names: seq<string>)
    requires CondKnown(IntendedCond(w), names) && |names| <= VARIABLE_SLOTS
    ensures ClauseKnown(w, names)
    ensures |ClauseBytes(w, names)| == CondSize(IntendedCond(w))
    ensures ClauseBytes(w, names) == CondBytes(IntendedCond(w), names) <==> AllOneByOne(w)
    decreases w
  {
    TermsExact(w.c, names);
    TermsFacts(w.c, names);
    if w.More? {
      ClauseExact(w.rest, names);
      SamePieces(NodeBytes(LVM_CMP_OP, ConnectiveCode(w.conn)), TermsBytes(w.c, names), ClauseBytes(w.rest, names),
                 CondBytes(IntendedCmp(w.c), names), CondBytes(IntendedCond(w.rest), names));
    }
  }

  // ----- What its execution gives -----

  lemma {:induction false} WrappedBytes(ps: seq<Partial>, e: Expr, names: seq<string>)
    requires PendingKnown(ps, names) && ExprKnown(e, names) && |names| <= VARIABLE_SLOTS
    ensures ExprKnown(Wrapped(ps, e), names)
    ensures PendingBytes(ps, names) + ExprBytes(e, names) == ExprBytes(Wrapped(ps, e), names)
    decreases |ps|
  {
    if ps != [] {
      WrappedBytes(ps[1..], e, names);
      AssociateBytes(PartialBytes(ps[0], names), PendingBytes(ps[1..], names), ExprBytes(e, names));
    }
  }

  lemma TermsRegrouped(c: Terms, names: seq<string>)
    requires TermsKnown(c, names) && |names| <= VARIABLE_SLOTS
    ensures CondKnown(Regrouped(c), names)
    ensures TermsBytes(c, names) == CondBytes(Regrouped(c), names) + PendingBytes(Pending(c.right), names)
  {
    WrappedBytes(Pending(c.left), Head(c.right), names);
    Regroup(NodeBytes(LVM_CMP_OP, RelCode(c.rel)), ExprBytes(Head(c.left), names), PendingBytes(Pending(c.left), names),
            ExprBytes(Head(c.right), names), PendingBytes(Pending(c.right), names));
  }

  lemma Regroup(n: seq<byte>, a: seq<byte>, b: seq<byte>, c: seq<byte>, d: seq<byte>)
    ensures n + (a + b) + (c + d) == n + a + (b + c) + d
  {
  }

  /** Running a clause: its regrouped comparisons are what counts, as long as nothing is left over
      between two of them, and what is left over after the last one is not looked at. */
  ghost predicate Executes(r: Outcome, w: Clause, env: string -> long, ip: nat) {
    if NoneLeftInside(w) then Decides(r, Holds(Misread(w), env), ip + CondSize(Misread(w)))
    else Fails(r)
  }

  lemma TermsRun(code: seq<byte>, ip: nat, c: Terms, names: seq<string>, vars: seq<long>, env: string -> long,
                 r: Outcome)
    requires TermsKnown(c, names) && |names| <= VARIABLE_SLOTS && Agrees(names, vars, env)
    requires Stands(code, ip, TermsBytes(c, names)) && r == RunCondition(code, ip, vars)
    ensures var mid := ip + CondSize(Regrouped(c));
            Decides(r, Holds(Regrouped(c), env), mid)
            && (Pending(c.right) != [] ==> mid + 4 <= |code| && WordAt(code, mid) == LVM_ARITH_OP)
  {
    TermsRegrouped(c, names);
    var over := PendingBytes(Pending(c.right), names);
    StandsSplit(code, ip, CondBytes(Regrouped(c), names), over);
    CondStands(code, ip, Regrouped(c), names);
    CondRuns(code, ip, Regrouped(c), names, vars, env);
    if Pending(c.right) != [] {
      PendingStands(code, ip + CondSize(Regrouped(c)), Pending(c.right), names);
    }
  }

  lemma PendingStands(code: seq<byte>, at: nat, ps: seq<Partial>, names: seq<string>)
    requires ps != [] && PendingKnown(ps, names) && |names| <= VARIABLE_SLOTS
    requires Stands(code, at, PendingBytes(ps, names))
    ensures at + 4 <= |code| && WordAt(code, at) == LVM_ARITH_OP
  {
    var node, arg := NodeBytes(LVM_ARITH_OP, ArithCode(ps[0].op)), ExprBytes(ps[0].arg, names);
    AssociateBytes(node, arg, PendingBytes(ps[1..], names));
    NodeStands(code, at, LVM_ARITH_OP, ArithCode(ps[0].op), arg + PendingBytes(ps[1..], names));
  }

  lemma {:induction false} ClauseRuns(code: seq<byte>, ip: nat, w: Clause, names: seq<string>, vars: seq<long>,
                                      env: string -> long, r: Outcome)
    requires ClauseKnown(w, names) && |names| <= VARIABLE_SLOTS && Agrees(names, vars, env)
    requires Stands(code, ip, ClauseBytes(w, names)) && r == RunCondition(code, ip, vars)
    ensures Executes(r, w, env, ip)
    decreases w
  {
    if w.Only? {
      TermsRun(code, ip, w.c, names, vars, env, r);
    } else {
      var first := RunCondition(code, ip + 4, vars);
      var next := FirstRun(code, ip, w, names, vars, env, first);
      var second := RunCondition(code, next, vars);
      ClauseRuns(code, next, w.rest, names, vars, env, second);
      MoreRuns(code, ip, next, w, vars, env, first, second, r);
    }
  }

  /** The first comparison of a longer clause, and what stands behind it. */
  ghost predicate FirstRuns(code: seq<byte>, ip: nat, next: nat, w: Clause, env: string -> long, first: Outcome)
    requires w.More?
  {
    var mid := ip + 4 + CondSize(Regrouped(w.c));
    && NodeAt(code, ip, LVM_CMP_OP, ConnectiveCode(w.conn))
    && Decides(first, Holds(Regrouped(w.c), env), mid)
    && if Pending(w.c.right) == [] then next == mid else mid + 4 <= |code| && WordAt(code, mid) == LVM_ARITH_OP
  }

  lemma FirstRun(code: seq<byte>, ip: nat, w: Clause, names: seq<string>, vars: seq<long>, env: string -> long,
                 first: Outcome) returns (next: nat)
    requires w.More? && ClauseKnown(w, names) && |names| <= VARIABLE_SLOTS && Agrees(names, vars, env)
    requires Stands(code, ip, ClauseBytes(w, names)) && first == RunCondition(code, ip + 4, vars)
    ensures Stands(code, next, ClauseBytes(w.rest, names)) && FirstRuns(code, ip, next, w, env, first)
  {
    next := ip + 4 + |TermsBytes(w.c, names)|;
    FirstParts(code, ip, w, names);
    FirstIs(code, ip, w, names, vars, env, first);
  }

  lemma FirstIs(code: seq<byte>, ip: nat, w: Clause, names: seq<string>, vars: seq<long>, env: string -> long,
                first: Outcome)
    requires w.More? && TermsKnown(w.c, names) && |names| <= VARIABLE_SLOTS && Agrees(names, vars, env)
    requires NodeAt(code, ip, LVM_CMP_OP, ConnectiveCode(w.conn)) && Stands(code, ip + 4, TermsBytes(w.c, names))
    requires first == RunCondition(code, ip + 4, vars)
    ensures FirstRuns(code, ip, ip + 4 + |TermsBytes(w.c, names)|, w, env, first)
  {
    TermsRun(code, ip + 4, w.c, names, vars, env, first);
    if Pending(w.c.right) == [] {
      NothingOver(w.c, names);
    }
  }

  lemma FirstParts(code: seq<byte>, ip: nat, w: Clause, names: seq<string>)
    requires w.More? && ClauseKnown(w, names) && |names| <= VARIABLE_SLOTS && Stands(code, ip, ClauseBytes(w, names))
    ensures NodeAt(code, ip, LVM_CMP_OP, ConnectiveCode(w.conn)) && Stands(code, ip + 4, TermsBytes(w.c, names))
    ensures Stands(code, ip + 4 + |TermsBytes(w.c, names)|, ClauseBytes(w.rest, names))
  {
    NodeSplits(code, ip, LVM_CMP_OP, ConnectiveCode(w.conn), TermsBytes(w.c, names), ClauseBytes(w.rest, names));
  }

  lemma NothingOver(c: Terms, names: seq<string>)
    requires TermsKnown(c, names) && |names| <= VARIABLE_SLOTS && Pending(c.right) == []
    ensures |TermsBytes(c, names)| == CondSize(Regrouped(c))
  {
    TermsRegrouped(c, names);
  }

  lemma MoreRuns(code: seq<byte>, ip: nat, next: nat, w: Clause, vars: seq<long>, env: string -> long,
                 first: Outcome, second: Outcome, r: Outcome)
    requires w.More? && FirstRuns(code, ip, next, w, env, first) && Executes(second, w.rest, env, next)
    requires r == RunCondition(code, ip, vars)
    requires first == RunCondition(code, ip + 4, vars) && second == RunCondition(code, next, vars)
    ensures Executes(r, w, env, ip)
  {
    if NoneLeftInside(w) {
      ConnectiveRuns(code, ip + 4, next, next + CondSize(Misread(w.rest)), w.conn, vars, Holds(Regrouped(w.c), env),
                     Holds(Misread(w.rest), env));
    } else {
      SecondFails(code, ip + 4, ip + 4 + CondSize(Regrouped(w.c)), w.conn, vars, Holds(Regrouped(w.c), env));
    }
  }

  predicate Fails(r: Outcome) {
    r.Failed? && r.status in {MATH_ERROR, SEMANTIC_ERROR}
  }

  lemma SecondFails(code: seq<byte>, ip: nat, mid: nat, conn: Connective, vars: seq<long>, t: Truth)
    requires ip <= |code| && Decides(RunCondition(code, ip, vars), t, mid)
    requires Fails(RunCondition(code, mid, vars)) || (mid + 4 <= |code| && WordAt(code, mid) == LVM_ARITH_OP)
    ensures Fails(RunLogic(code, ip, ConnectiveCode(conn), vars))
  {
    match conn case And => case Or =>
  }

  /** Clauses with any number of operators on a level, in full: they compile without an error. The code
      is the prefix form of what was written exactly if no level has two operators. Executed, it gives
      the truth value of the regrouped clause; if a comparison before the last one has a second operator
      somewhere on its right side, execution fails. */
  lemma OperatorChains(w: Clause, rest: seq<Token>, size: nat, vars: seq<long>, env: string -> long)
    requires EndsWhere(rest)
    requires |CondNames(IntendedCond(w), [])| <= VARIABLE_SLOTS && CondSize(IntendedCond(w)) < size
    requires Agrees(CondNames(IntendedCond(w), []), vars, env)
    ensures var (q, status) := ParseWhere(Parser(ClauseTokens(w) + rest, [], NoToken, Fresh(size)));
            var names := CondNames(IntendedCond(w), []);
            status == OK && q.toks == AfterSide(rest) && !q.vm.error && !q.vm.bad && CondKnown(IntendedCond(w), names)
            && q.vm.names == names && q.vm.end == CondSize(IntendedCond(w)) <= |q.vm.code|
            && (q.vm.code[..q.vm.end] == CondBytes(IntendedCond(w), names) <==> AllOneByOne(w))
            && Executes(Run(q.vm.code, vars), w, env, 0)
  {
    var p := Parser(ClauseTokens(w) + rest, [], NoToken, Fresh(size));
    var names := CondNames(IntendedCond(w), []);
    ClauseCompiles(p, w, rest);
    var q := ParseWhere(p).0;
    CondNamesKnow(IntendedCond(w), []);
    ClauseExact(w, names);
    assert q.vm.code[..q.vm.end] == ClauseBytes(w, names);
    RunsFromStart(q.vm.code, w, names, vars);
    ClauseRuns(q.vm.code, 0, w, names, vars, env, RunCondition(q.vm.code, 0, vars));
  }

  lemma RunsFromStart(code: seq<byte>, w: Clause, names: seq<string>, vars: seq<long>)
    requires ClauseKnown(w, names) && |names| <= VARIABLE_SLOTS && Stands(code, 0, ClauseBytes(w, names))
    ensures Run(code, vars) == RunCondition(code, 0, vars)
  {
    match w
    case Only(c) =>
      NodeSplits(code, 0, LVM_CMP_OP, RelCode(c.rel), TermBytes(c.left, names), TermBytes(c.right, names));
    case More(c, conn, rest) =>
      NodeSplits(code, 0, LVM_CMP_OP, ConnectiveCode(conn), TermsBytes(c, names), ClauseBytes(rest, names));
  }

  lemma {:induction false} CondNamesKnow(c: Cond, names: seq<string>)
    requires |CondNames(c, names)| <= VARIABLE_SLOTS
    ensures CondKnown(c, CondNames(c, names))
    decreases c
  {
    match c
    case Cmp(_, left, right) =>
      var mid := ExprNames(left, names);
      ExprNamesGrow(right, mid);
      ExprNamesKnow(left, names);
      ExprNamesKnow(right, mid);
      ExprBytesStable(left, mid, ExprNames(right, mid));
    case Join(_, c1, c2) =>
      var mid := CondNames(c1, names);
      CondNamesGrow(c2, mid);
      CondNamesKnow(c1, names);
      CondNamesKnow(c2, mid);
      CondBytesStable(c1, mid, CondNames(c2, mid));
    case Not(d) => CondNamesKnow(d, names);
  }

  // ----- The supported grammar -----

  lemma FlatTokens(t: Term)
    requires t.Then? && t.left.Operand? && t.arg.Operand? && !t.parens
    ensures Written(t) == [LeafToken(t.left.leaf), Op(t.op), LeafToken(t.arg.leaf)]
  {
    assert Written(t.left) == [LeafToken(t.left.leaf)];
    assert ArgTokens(t) == Written(t.arg) == [LeafToken(t.arg.leaf)];
  }

  /** The sides that `AqlMeaning` is about are the terms without two operators on a level. */
  function SideOf(t: Term): (s: Side)
    requires OneByOne(t)
    ensures SideTokens(s) == Written(t) && SideExpr(s) == Intended(t)
  {
    match t
    case Operand(leaf) => Plain(leaf)
    case Then(left, op, arg, parens) =>
      if parens || arg.Then? then Nested(left.leaf, op, SideOf(arg))
      else
        FlatTokens(t);
        Flat(left.leaf, op, arg.leaf)
  }

  function TermOf(s: Side): (t: Term)
    ensures OneByOne(t) && Written(t) == SideTokens(s) && Intended(t) == SideExpr(s)
  {
    match s
    case Plain(leaf) => Operand(leaf)
    case Flat(left, op, right) =>
      FlatTokens(Then(Operand(left), op, Operand(right), false));
      Then(Operand(left), op, Operand(right), false)
    case Nested(left, op, inner) => Then(Operand(left), op, TermOf(inner), true)
  }

  /** The two readings differ: 5 - 2 - 1 > 2 is false, but what is executed for it is true; and
      2 < 5 - 2 - 1 is executed as 2 < 5 - 2. */
  lemma RegroupingChangesMeaning(env: string -> long)
    ensures var chain := Then(Then(Operand(Const(5)), Sub, Operand(Const(2)), false), Sub, Operand(Const(1)), false);
            var left, right := Terms(chain, Ge, Operand(Const(2))), Terms(Operand(Const(2)), Le, chain);
            && Holds(IntendedCmp(left), env) == Truth(false) && Holds(Regrouped(left), env) == Truth(true)
            && Holds(IntendedCmp(right), env) == Truth(false) && Holds(Regrouped(right), env) == Truth(true)
  {
    assert Compute(Sub, 5, 2) == Number(3);
    assert Compute(Sub, 3, 1) == Number(2);
    assert Compute(Sub, 1, 2) == Number(-1);
    var inner := Then(Operand(Const(5)), Sub, Operand(Const(2)), false);
    var chain := Then(inner, Sub, Operand(Const(1)), false);
    assert Pending(inner) == [] && Pending(Operand(Const(1))) == [];
    assert Pending(chain) == [Partial(Sub, Const(1))];
    assert Wrapped(Pending(chain), Const(2)) == Arith(Sub, Const(1), Const(2));
  }
}
