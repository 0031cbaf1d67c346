/** The selection loop as an object: one call of `relation_process_select` handles one row, taken
    from the index or from the relation. */
module SelectionRun {
  import opened LvmCode
  import opened LvmDerive
  import opened LvmEngine
  import opened IndexInline
  import opened RelationSelect

  ghost predicate NoDuplicates(names: seq<string>) {
    forall i, j :: 0 <= i < j < |names| ==> names[i] != names[j]
  }

  lemma {:induction false} IdOfEntry(names: seq<string>, i: nat)
    requires NoDuplicates(names) && i < |names|
    ensures names[i] in names && IdOf(names[i], names) == i
  {
    if i > 0 {
      IdOfEntry(names[1..], i - 1);
    }
  }

  /** The position of the indexed attribute with a derived range that comes last. */
  function LastChoice(attrs: seq<string>, indexed: seq<bool>, names: seq<string>, ranges: seq<Range>): Option<nat>
    requires |indexed| == |attrs| && |names| <= |ranges|
  {
    if attrs == [] then None
    else
      var k := |attrs| - 1;
      if indexed[k] && attrs[k] in names && ranges[IdOf(attrs[k], names)].derived then Some(k)
      else LastChoice(attrs[..k], indexed[..k], names, ranges)
  }

  /** The attribute at position `k` has an index and a derived range. */
  predicate Candidate(attrs: seq<string>, indexed: seq<bool>, names: seq<string>, ranges: seq<Range>, k: nat)
    requires |indexed| == |attrs| && |names| <= |ranges| && k < |attrs|
  {
    indexed[k] && attrs[k] in names && ranges[IdOf(attrs[k], names)].derived
  }

  /** The chosen attribute is the last one of those. */
  lemma {:induction false} ChoiceIsLast(attrs: seq<string>, indexed: seq<bool>, names: seq<string>, ranges: seq<Range>)
    requires |indexed| == |attrs| && |names| <= |ranges|
    ensures match LastChoice(attrs, indexed, names, ranges)
            case None => forall k :: 0 <= k < |attrs| ==> !Candidate(attrs, indexed, names, ranges, k)
            case Some(c) =>
              c < |attrs| && Candidate(attrs, indexed, names, ranges, c)
              && forall k :: c < k < |attrs| ==> !Candidate(attrs, indexed, names, ranges, k)
    decreases |attrs|
  {
    if attrs != [] {
      var n := |attrs| - 1;
      ChoiceIsLast(attrs[..n], indexed[..n], names, ranges);
      assert forall k :: 0 <= k < n ==>
        (Candidate(attrs[..n], indexed[..n], names, ranges, k) <==> Candidate(attrs, indexed, names, ranges, k));
    }
  }

  /** select_index. The smallest range is meant to win, but the bound it is compared with is never
      lowered, so that the last indexed attribute with a range wins. */
  method SelectIndex(vm: Lvm, attrs: seq<string>, indexed: seq<bool>)
    returns (choice: Option<nat>, low: long, high: long)
    requires vm.Valid() && |indexed| == |attrs|
    ensures choice == LastChoice(attrs, indexed, vm.names, vm.derivations[..])
    ensures choice.Some? ==> choice.value < |attrs| && attrs[choice.value] in vm.names
                             && vm.derivations[IdOf(attrs[choice.value], vm.names)] == Range(true, low, high)
  {
    choice, low, high := None, 0, 0;
    var minRange := 0xFFFF_FFFF;
    for k := 0 to |attrs|
      invariant choice == LastChoice(attrs[..k], indexed[..k], vm.names, vm.derivations[..])
      invariant choice.Some? ==> choice.value < k && attrs[choice.value] in vm.names
                                 && vm.derivations[IdOf(attrs[choice.value], vm.names)] == Range(true, low, high)
      invariant minRange == 0xFFFF_FFFF
    {
      assert attrs[..k + 1][..k] == attrs[..k] && indexed[..k + 1][..k] == indexed[..k];
      if indexed[k] {
        var r := vm.GetDerivedRange(attrs[k]);
        if r.Some? {
          var range := (r.value.max as int - r.value.min as int) % 0x1_0000_0000;
          if range <= minRange {
            choice, low, high := Some(k), r.value.min, r.value.max;
          }
        }
      }
    }
    assert attrs[..|attrs|] == attrs && indexed[..|attrs|] == indexed;
  }

  /** The attributes of a row go to the variables of the engine and to the result row. */
  method LoadRow(vm: Lvm, row: seq<byte>, attrMap: seq<Mapping>, resultRow: array<byte>)
    requires vm.Valid() && NoDuplicates(vm.names) && ValidMap(attrMap, |row|) && resultRow.Length == Width(attrMap)
    requires resultRow as object != vm.vars
    requires forall i :: 0 <= i < |vm.names| ==> Mapped(attrMap, vm.names[i])
    requires forall k :: 0 <= k < |attrMap| ==> attrMap[k].attr.name in vm.names || |vm.names| < VARIABLE_SLOTS
    modifies vm.vars, resultRow
    ensures Agrees(vm.names, vm.vars[..], RowEnv(row, attrMap))
    ensures forall value :: Records(row, attrMap, value) ==> Agrees(vm.names, vm.vars[..], value)
    ensures StoredWidth(attrMap) <= resultRow.Length && resultRow[..StoredWidth(attrMap)] == Project(row, attrMap)
  {
    for k := 0 to |attrMap|
      invariant Loaded(vm.names, vm.vars[..], row, attrMap[..k])
      invariant StoredWidth(attrMap[..k]) <= Width(attrMap[..k]) <= resultRow.Length
      invariant resultRow[..StoredWidth(attrMap[..k])] == Project(row, attrMap[..k])
    {
      LoadAttribute(vm, row, attrMap, k, resultRow);
    }
    assert attrMap[..|attrMap|] == attrMap;
    forall value | Records(row, attrMap, value) ensures Agrees(vm.names, vm.vars[..], value) {
      StoredValuesLoaded(vm.names, vm.vars[..], row, attrMap, value);
    }
  }

  lemma StoredValuesLoaded(names: seq<string>, vars: seq<long>, row: seq<byte>, attrMap: seq<Mapping>,
                           value: string -> long)
    requires AllPlaced(attrMap, |row|) && Records(row, attrMap, value) && Agrees(names, vars, RowEnv(row, attrMap))
    requires forall i :: 0 <= i < |names| ==> Mapped(attrMap, names[i])
    ensures Agrees(names, vars, value)
  {
    forall i | 0 <= i < |names| ensures vars[i] == value(names[i]) {
      var k :| 0 <= k < |attrMap| && Numeric(attrMap[k], names[i]);
      RowHoldsItsValues(row, attrMap, value, k);
    }
  }

  /** The variables that are attributes up to now have the values of the row. */
  ghost predicate Loaded(names: seq<string>, vars: seq<long>, row: seq<byte>, attrMap: seq<Mapping>) {
    |names| <= |vars| == VARIABLE_SLOTS && AllPlaced(attrMap, |row|)
    && forall i :: 0 <= i < |names| && Mapped(attrMap, names[i]) ==> vars[i] == ValueOf(row, attrMap, names[i])
  }

  /** One attribute of a row. */
  method LoadAttribute(vm: Lvm, row: seq<byte>, attrMap: seq<Mapping>, k: nat, resultRow: array<byte>)
    requires vm.Valid() && NoDuplicates(vm.names) && ValidMap(attrMap, |row|) && resultRow.Length == Width(attrMap)
    requires resultRow as object != vm.vars && k < |attrMap| && Loaded(vm.names, vm.vars[..], row, attrMap[..k])
    requires attrMap[k].attr.name in vm.names || |vm.names| < VARIABLE_SLOTS
    requires StoredWidth(attrMap[..k]) <= Width(attrMap[..k]) <= resultRow.Length
             && resultRow[..StoredWidth(attrMap[..k])] == Project(row, attrMap[..k])
    modifies vm.vars, resultRow
    ensures Loaded(vm.names, vm.vars[..], row, attrMap[..k + 1])
    ensures StoredWidth(attrMap[..k + 1]) <= Width(attrMap[..k + 1]) <= resultRow.Length
    ensures resultRow[..StoredWidth(attrMap[..k + 1])] == Project(row, attrMap[..k + 1])
  {
    var m := attrMap[k];
    assert WellPlaced(m, |row|);
    ghost var before := vm.vars[..];
    WidthGrows(attrMap, k + 1);
    ProjectStep(row, attrMap, k);
    LoadNumber(vm, row, m);
    VariablesStep(vm.names, before, vm.vars[..], row, attrMap, k);
    if m.attr.stored {
      StoredSoFar(attrMap, k);
      CopyAttribute(row, m, resultRow);
    }
  }

  /** The variable of a numeric attribute gets its value, which is stored with the high byte first. */
  method LoadNumber(vm: Lvm, row: seq<byte>, m: Mapping)
    requires vm.Valid() && WellPlaced(m, |row|) && (m.attr.name in vm.names || |vm.names| < VARIABLE_SLOTS)
    modifies vm.vars
    ensures var id := if m.attr.name in vm.names then IdOf(m.attr.name, vm.names) else |vm.names|;
            vm.vars[..] == if m.attr.domain == StringDomain then old(vm.vars[..])
                           else old(vm.vars[..])[id := NumberAt(row, m)]
    ensures forall v: int :: Fits(m.attr.domain, v) && Slice(row, m) == StoredBytes(m.attr.domain, v) ==>
              vm.vars[if m.attr.name in vm.names then IdOf(m.attr.name, vm.names) else |vm.names|] == v
  {
    if m.attr.domain == IntDomain {
      var l := ToInt(row[m.from] as int * 256 + row[m.from + 1] as int);
      vm.SetVariableValue(m.attr.name, l);
    } else if m.attr.domain == LongDomain {
      var l := Wrap(row[m.from] as int * 0x100_0000 + row[m.from + 1] as int * 0x1_0000
                    + row[m.from + 2] as int * 0x100 + row[m.from + 3] as int);
      vm.SetVariableValue(m.attr.name, l);
    }
    forall v: int | Fits(m.attr.domain, v) && Slice(row, m) == StoredBytes(m.attr.domain, v)
      ensures NumberAt(row, m) == v
    {
      StoredNumberIsRead(row, m, v);
    }
  }

  /** memcpy of one attribute into the result row. */
  method CopyAttribute(row: seq<byte>, m: Mapping, resultRow: array<byte>)
    requires WellPlaced(m, |row|) && m.to + m.attr.size <= resultRow.Length
    modifies resultRow
    ensures resultRow[..m.to + m.attr.size] == old(resultRow[..m.to]) + Slice(row, m)
  {
    for b := 0 to m.attr.size
      invariant resultRow[..m.to + b] == old(resultRow[..m.to]) + Slice(row, m)[..b]
    {
      resultRow[m.to + b] := row[m.from + b];
      assert resultRow[..m.to + b + 1] == resultRow[..m.to + b] + [row[m.from + b]];
    }
    assert Slice(row, m)[..m.attr.size] == Slice(row, m);
  }

  class Selection {
    const vm: Lvm
    const index: InlineIndex
    const rows: seq<seq<byte>>
    const attrMap: seq<Mapping>
    const inverse: bool
    const resultRow: array<byte>
    /** The condition whose prefix form the engine holds. */
    ghost const cond: Cond
    var searchIndex: bool
    var tupleId: nat
    var currentRow: nat

    constructor (engine: Lvm, inlineIndex: InlineIndex, stored: seq<seq<byte>>, mapping: seq<Mapping>, keepFalse: bool,
                 ghost c: Cond)
      ensures vm == engine && index == inlineIndex && rows == stored && attrMap == mapping && inverse == keepFalse
              && cond == c
      ensures resultRow.Length == Width(mapping) && fresh(resultRow) && !searchIndex && tupleId == 0
    {
      vm, index, rows, attrMap, inverse, cond := engine, inlineIndex, stored, mapping, keepFalse, c;
      resultRow := new byte[Width(mapping)](_ => 0);
      searchIndex, tupleId, currentRow := false, 0, 0;
    }

    ghost function Q(): Query {
      Query(rows, attrMap, cond, inverse)
    }

    /** The engine holds the prefix form of the condition, and every variable is an attribute. */
    ghost predicate Ready()
      reads this, vm, vm.code
    {
      vm.Valid() && ValidQuery(Q()) && resultRow.Length == Width(attrMap)
      && resultRow != vm.code && resultRow as object != vm.vars && resultRow as object != vm.derivations
      && NoDuplicates(vm.names) && CondKnown(cond, vm.names) && Stands(vm.code[..], 0, CondBytes(cond, vm.names))
      && (forall i :: 0 <= i < |vm.names| ==> Mapped(attrMap, vm.names[i]))
      && (forall k :: 0 <= k < |attrMap| ==> attrMap[k].attr.name in vm.names || |vm.names| < VARIABLE_SLOTS)
    }

    /** When the index is searched, its range is open and the rows it gives are rows of the relation. */
    ghost predicate Valid()
      reads this, vm, vm.code, index
    {
      Ready()
      && (searchIndex ==>
            index.Valid() && |index.column| == |rows| && index.column[0] <= index.minValue
                && index.column[0] <= index.maxValue
            && (index.nextItem > 0 ==>
                  index.cachedStart == Center(index.column, index.minValue)
                      && index.cachedEnd == Center(index.column, index.maxValue)
                  && Interval().Rows? && index.cachedStart + index.nextItem <= Interval().last + 1))
    }

    ghost function Interval(): Rows
      reads this, index
    {
      RangeRows(index.column, index.minValue, index.maxValue)
    }

    ghost predicate GivesRange(ranges: Ranges, k: nat)
      requires vm.Valid() && k < |attrMap|
      reads vm
    {
      attrMap[k].attr.name in vm.names && ranges[IdOf(attrMap[k].attr.name, vm.names)].derived
    }

    /** The next row to process and the end of the rows to process. */
    ghost function Position(): nat
      reads this, index
    {
      if !searchIndex then tupleId else if Interval().NoRows? then 0 else Interval().first + index.nextItem
    }

    ghost function End(): nat
      reads this, index
    {
      if !searchIndex then |rows| else if Interval().NoRows? then 0 else Interval().last + 1
    }

    /** The part of the row loop that runs the condition on the current row. */
    method ProcessRow(i: nat) returns (status: int)
      requires Ready() && i < |rows|
      modifies this`currentRow, vm`ip, vm.vars, resultRow
      ensures Ready()
      ensures StoredWidth(attrMap) <= resultRow.Length && resultRow[..StoredWidth(attrMap)] == Project(rows[i], attrMap)
      ensures status == if Wanted(Q(), i) then DB_GOT_ROW else DB_OK
      ensures currentRow == old(currentRow) + if Wanted(Q(), i) then 1 else 0
    {
      ghost var code := vm.code[..];
      LoadRow(vm, rows[i], attrMap, resultRow);
      assert vm.code[..] == code;
      ExecutionIsMeaning(code, cond, vm.names, vm.vars[..], RowEnv(rows[i], attrMap));
      var truth := vm.Execute();
      if truth == if inverse then FALSE else TRUE {
        currentRow := currentRow + 1;
        return DB_GOT_ROW;
      }
      return DB_OK;
    }

    /** The part of `relation_process_select` that asks the index for a row. */
    method FetchFromIndex() returns (status: int)
      requires Valid() && searchIndex
      modifies this`tupleId, index
      ensures Valid() && End() == old(End()) && Interval() == old(Interval())
      ensures old(Position()) < End() ==>
              status == DB_OK && tupleId == old(Position()) < |rows| && Position() == old(Position()) + 1
      ensures old(Position()) >= End() ==> status == if Interval().NoRows? then DB_INDEX_ERROR else DB_FINISHED
    {
      RangeIsCovered(index.column, index.minValue, index.maxValue);
      tupleId := index.GetNext();
      if tupleId == INVALID_TUPLE {
        return if index.nextItem == 0 then DB_INDEX_ERROR else DB_FINISHED;
      }
      status := DB_OK;
    }

    method ProcessSelect() returns (status: int)
      requires Valid()
      modifies this, vm`ip, vm.vars, index, resultRow
      ensures Valid() && searchIndex == old(searchIndex) && End() == old(End())
      ensures searchIndex ==> Interval() == old(Interval())
      ensures old(Position()) < End() ==>
                old(Position()) < |rows| && Position() == old(Position()) + 1
                && StoredWidth(attrMap) <= resultRow.Length
                    && resultRow[..StoredWidth(attrMap)] == Project(rows[old(Position())], attrMap)
                && status == (if Wanted(Q(), old(Position())) then DB_GOT_ROW else DB_OK)
                && currentRow == old(currentRow) + (if status == DB_GOT_ROW then 1 else 0)
      ensures old(Position()) >= End() ==>
                status == (if searchIndex && Interval().NoRows? then DB_INDEX_ERROR else DB_FINISHED)
                && currentRow == old(currentRow)
    {
      if searchIndex {
        status := FetchFromIndex();
        if status != DB_OK {
          return status;
        }
      }
      if tupleId >= |rows| {
        tupleId := tupleId + 1;
        return DB_FINISHED;
      }
      ghost var row := tupleId;
      tupleId := tupleId + 1;
      status := ProcessRow(tupleId - 1);
      assert row == old(Position());
    }

    /** Calling `ProcessSelect` until it reports the end, as the callers of the database do. */
    method Drain() returns (result: seq<seq<byte>>, status: int)
      requires Valid() && Position() <= End() <= |rows|
      modifies this, vm`ip, vm.vars, index, resultRow
      ensures result == Picked(Q(), old(Position()), old(End()))
      ensures status == if old(searchIndex && Interval().NoRows?) then DB_INDEX_ERROR else DB_FINISHED
      ensures currentRow == old(currentRow) + |result|
    {
      result := [];
      ghost var start, end, q := Position(), End(), Q();
      ghost var none, first := searchIndex && Interval().NoRows?, currentRow;
      while true
        invariant Valid() && End() == end && (searchIndex && Interval().NoRows?) == none
        invariant start <= Position() <= end && result == Picked(q, start, Position())
        invariant currentRow == first + |result|
        decreases end - Position()
      {
        ghost var position := Position();
        status := ProcessSelect();
        if status == DB_GOT_ROW {
          result := result + [resultRow[..StoredWidth(attrMap)]];
        } else if status != DB_OK {
          return;
        }
      }
    }

    /** The rows still to come are those of the scan. */
    ghost predicate Promising()
      reads this, vm, vm.code, index
    {
      Valid() && Position() <= End() <= |rows|
      && Picked(Q(), Position(), End()) == Scan(Q())
      && (searchIndex && Interval().NoRows? ==> Scan(Q()) == [])
    }

    /** The part of `select_index` that opens the chosen index. */
    method OpenIndex(low: long, high: long)
      requires Ready() && Increasing(index.column) && |index.column| == |rows|
      requires index.column[0] <= low && index.column[0] <= high && ToInt(low) == low && ToInt(high) == high
      requires IntervalIsScan(Q(), RangeRows(index.column, low, high))
      modifies this`searchIndex, index
      ensures Promising() && searchIndex && index.minValue == low && index.maxValue == high
    {
      var from, to := ToInt(low), ToInt(high);
      assert from == low && to == high;
      index.Open(from, to);
      searchIndex := true;
    }

    /** generate_selection_result: derive ranges, and use the index if it is over an attribute that
        got one. `k` is the indexed attribute. */
    method GenerateSelectionResult(k: nat)
      requires Ready() && k < |attrMap| && IndexedBy(Q(), index.column, k) && tupleId == 0 && !searchIndex
      requires vm.ip == 0 && vm.derivations[..] == UNDERIVED && !inverse
      requires forall ranges :: Derive(cond, vm.names, UNDERIVED) == Some(ranges) && GivesRange(ranges, k) ==>
                 Indexable(Q(), vm.names, index.column, k, ranges[IdOf(attrMap[k].attr.name, vm.names)])
      modifies this`searchIndex, vm`ip, vm.derivations, index
      ensures Promising()
      ensures RangeFor(cond, vm.names, attrMap[k].attr.name)
              == if searchIndex then Some(Range(true, index.minValue, index.maxValue)) else None
    {
      CondStands(vm.code[..], 0, cond, vm.names);
      BytecodeDerives(vm.code[..], 0, cond, vm.names, UNDERIVED);
      ghost var d := Derive(cond, vm.names, UNDERIVED);
      var derived := vm.DeriveProgram();
      if derived == TRUE {
        assert d == Some(vm.derivations[..]);
        var choice, low, high := SelectIndex(vm, [attrMap[k].attr.name], [true]);
        if choice.Some? {
          assert GivesRange(d.value, k);
          IndexRowsAreScan(Q(), vm.names, index.column, k, Range(true, low, high));
          OpenIndex(low, high);
        }
      }
    }

    /** A selection from its start to its end: whatever plan was chosen, the result is that of
        the scan. An index that does not hold the single value asked for reports an error. */
    method Run(k: nat) returns (result: seq<seq<byte>>, status: int)
      requires Ready() && k < |attrMap| && IndexedBy(Q(), index.column, k) && tupleId == 0 && !searchIndex
      requires vm.ip == 0 && vm.derivations[..] == UNDERIVED && !inverse
      requires forall ranges :: Derive(cond, vm.names, UNDERIVED) == Some(ranges) && GivesRange(ranges, k) ==>
                 Indexable(Q(), vm.names, index.column, k, ranges[IdOf(attrMap[k].attr.name, vm.names)])
      modifies this, vm`ip, vm.vars, vm.derivations, index, resultRow
      ensures result == Scan(Q())
      ensures status == DB_INDEX_ERROR || status == DB_FINISHED
      ensures status == DB_INDEX_ERROR <==>
              OneAbsent(RangeFor(cond, vm.names, attrMap[k].attr.name), index.column)
      ensures status == DB_INDEX_ERROR ==> Scan(Q()) == []
    {
      GenerateSelectionResult(k);
      if searchIndex {
        RangeIsCovered(index.column, index.minValue, index.maxValue);
      }
      result, status := Drain();
    }
  }

  /** The rows of an interval that are wanted are all that are wanted. */
  ghost predicate IntervalIsScan(q: Query, r: Rows)
    requires ValidQuery(q)
  {
    match r
    case NoRows => Scan(q) == []
    case Rows(first, last) => first <= last < |q.rows| && Picked(q, first, last + 1) == Scan(q)
  }

  lemma IndexRowsAreScan(q: Query, names: seq<string>, column: Column, k: nat, range: Range)
    requires ValidQuery(q) && Indexable(q, names, column, k, range) && !q.inverse
    ensures IntervalIsScan(q, RangeRows(column, range.min, range.max))
  {
    UnwantedOutside(q, names, column, k, range);
    CoveringIntervalIsScan(q, column, range.min, range.max);
  }

  /** One more attribute written to the variables keeps them in step with `ValueOf`. */
  lemma VariablesStep(names: seq<string>, before: seq<long>, after: seq<long>, row: seq<byte>, attrMap: seq<Mapping>,
                      k: nat)
    requires k < |attrMap| && AllPlaced(attrMap, |row|) && NoDuplicates(names) && |names| <= |before| == |after|
    requires forall i :: 0 <= i < |names| && Mapped(attrMap[..k], names[i]) ==>
             before[i] == ValueOf(row, attrMap[..k], names[i])
    requires var m := attrMap[k];
             var id := if m.attr.name in names then IdOf(m.attr.name, names) else |names|;
             if m.attr.domain == StringDomain then after == before
             else id < |before| && after == before[id := NumberAt(row, m)]
    ensures forall i :: 0 <= i < |names| && Mapped(attrMap[..k + 1], names[i]) ==>
              after[i] == ValueOf(row, attrMap[..k + 1], names[i])
  {
    forall i | 0 <= i < |names| && Mapped(attrMap[..k + 1], names[i])
      ensures after[i] == ValueOf(row, attrMap[..k + 1], names[i])
    {
      IdOfEntry(names, i);
      ValueOfStep(row, attrMap, k, names[i]);
    }
  }

  lemma ValueOfStep(row: seq<byte>, attrMap: seq<Mapping>, k: nat, name: string)
    requires k < |attrMap| && AllPlaced(attrMap, |row|)
    ensures ValueOf(row, attrMap[..k + 1], name) ==
              if Numeric(attrMap[k], name) then NumberAt(row, attrMap[k]) else ValueOf(row, attrMap[..k], name)
    ensures Mapped(attrMap[..k + 1], name) && !Numeric(attrMap[k], name) ==> Mapped(attrMap[..k], name)
  {
    var next := attrMap[..k + 1];
    assert next[..k] == attrMap[..k] && next[k] == attrMap[k];
    if Mapped(next, name) && !Numeric(attrMap[k], name) {
      var j :| 0 <= j < |next| && Numeric(next[j], name);
      assert Numeric(attrMap[..k][j], name);
    }
  }
}
