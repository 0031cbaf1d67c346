/** A selection from its text to its result: compile the WHERE clause, derive ranges from the
    code, choose a plan, and run it. */
module AqlQuery {
  import opened LvmCode
  import opened LvmDerive
  import opened LvmEngine
  import opened IndexInline
  import opened RelationSelect
  import opened SelectionRun
  import opened AqlMeaning
  import C = AqlCompile
  import AqlParser

  /** DB_VM_BYTECODE_SIZE */
  const BYTECODE_SIZE := 128

  lemma {:induction false} ExprNamesDistinct(e: Expr, names: seq<string>)
    requires NoDuplicates(names)
    ensures NoDuplicates(ExprNames(e, names))
    decreases e
  {
    if e.Arith? {
      ExprNamesDistinct(e.left, names);
      ExprNamesDistinct(e.right, ExprNames(e.left, names));
    }
  }

  lemma {:induction false} CondNamesDistinct(c: Cond, names: seq<string>)
    requires NoDuplicates(names)
    ensures NoDuplicates(CondNames(c, names))
    decreases c
  {
    match c
    case Cmp(_, left, right) =>
      ExprNamesDistinct(left, names);
      ExprNamesDistinct(right, ExprNames(left, names));
    case Join(_, c1, c2) =>
      CondNamesDistinct(c1, names);
      CondNamesDistinct(c2, CondNames(c1, names));
    case Not(d) => CondNamesDistinct(d, names);
  }

  /** The clause fits the bytecode buffer and the variable table, and names numeric attributes. */
  ghost predicate Compilable(w: Where, attrMap: seq<Mapping>) {
    var names := CondNames(WhereCond(w), []);
    |names| <= VARIABLE_SLOTS && CondSize(WhereCond(w)) < BYTECODE_SIZE
    && (forall i :: 0 <= i < |names| ==> Mapped(attrMap, names[i]))
    && (forall k :: 0 <= k < |attrMap| ==> attrMap[k].attr.name in names || |names| < VARIABLE_SLOTS)
  }

  /** If the clause derives a range for the indexed attribute, the range can be searched for. */
  ghost predicate Searchable(q: Query, column: Column, k: nat)
    requires ValidQuery(q) && k < |q.attrMap|
  {
    var names := CondNames(q.cond, []);
    var name := q.attrMap[k].attr.name;
    |names| <= VARIABLE_SLOTS && CondKnown(q.cond, names)
    && forall ranges: Ranges ::
        Derive(q.cond, names, UNDERIVED) == Some(ranges) && name in names && ranges[IdOf(name, names)].derived ==>
         Indexable(q, names, column, k, ranges[IdOf(name, names)])
  }

  /** Compile a clause into a fresh engine. */
  method CompileWhere(tokens: seq<C.Token>, ghost w: Where, ghost rest: seq<C.Token>) returns (vm: Lvm)
    requires tokens == WhereTokens(w) + rest && EndsWhere(rest)
    requires |CondNames(WhereCond(w), [])| <= VARIABLE_SLOTS && CondSize(WhereCond(w)) < BYTECODE_SIZE
    ensures fresh(vm) && fresh(vm.code) && fresh(vm.vars) && fresh(vm.derivations)
    ensures vm.Valid() && vm.ip == 0 && vm.derivations[..] == UNDERIVED && vm.names == CondNames(WhereCond(w), [])
    ensures CondKnown(WhereCond(w), vm.names) && Stands(vm.code[..], 0, CondBytes(WhereCond(w), vm.names))
  {
    vm := new Lvm(BYTECODE_SIZE);
    var parser := new AqlParser.Parser(tokens, vm);
    WhereParses(parser.View(), w, rest);
    var status := parser.ParseWhere();
    assert vm.code[..vm.end] == CondBytes(WhereCond(w), vm.names);
  }

  /** The result of `SELECT ... WHERE w`: the projections of exactly the rows on which the clause,
      read as nested to the right, is true, in the order of the relation, whether or not the
      index is used. */
  method SelectWhere(tokens: seq<C.Token>, rows: seq<seq<byte>>, attrMap: seq<Mapping>, index: InlineIndex, k: nat,
                     ghost w: Where, ghost rest: seq<C.Token>)
    returns (result: seq<seq<byte>>, status: int)
    requires tokens == WhereTokens(w) + rest && EndsWhere(rest) && Compilable(w, attrMap)
    requires var q := Query(rows, attrMap, WhereCond(w), false);
             ValidQuery(q) && k < |attrMap| && IndexedBy(q, index.column, k) && Searchable(q, index.column, k)
    modifies index
    ensures result == Scan(Query(rows, attrMap, WhereCond(w), false))
    ensures status == 3 || status == -9
    ensures status == -9 <==>
              OneAbsent(RangeFor(WhereCond(w), CondNames(WhereCond(w), []), attrMap[k].attr.name), index.column)
    ensures status == -9 ==> result == []
  {
    var vm := CompileWhere(tokens, w, rest);
    CondNamesDistinct(WhereCond(w), []);
    var selection := new Selection(vm, index, rows, attrMap, false, WhereCond(w));
    result, status := selection.Run(k);
  }
}
