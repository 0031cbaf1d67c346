/** Ranges on their way to the index, where they are cut to 16 bits: an open lower end becomes 0, an
    open upper end -1, and an end beyond 16 bits wraps around. */
module RelationOpenRange {
  import opened LvmCode
  import opened LvmDerive
  import opened IndexInline
  import opened RelationSelect

  /** The rows that the index gives for a range, open or closed. */
  function CutRows(column: Column, range: Range): Rows {
    RangeRows(column, ToInt(range.min), ToInt(range.max))
  }

  /** The search stays within the column. */
  predicate InReach(column: Column, range: Range) {
    column[0] <= ToInt(range.min) && column[0] <= ToInt(range.max)
  }

  /** Every row that is wanted and satisfies the test is the one at `at`. */
  ghost predicate OnlyAt(q: Query, column: Column, from: int, to: int, at: nat)
    requires ValidQuery(q) && |column| == |q.rows|
  {
    forall i :: 0 <= i < |q.rows| && from <= column[i] <= to && Wanted(q, i) ==> i == at
  }

  /** The upper end: for a column without negative values the search runs away below its first row,
      and for the lower end it does so for a column of positive values. */
  lemma OpenRangeIsCut(column: Column)
    requires Increasing(column)
    ensures ToInt(LONG_MAX) == -1 && ToInt(LONG_MIN) == 0
    ensures Locate(column, ToInt(LONG_MAX)).Runaway? <==> column[0] >= 0
    ensures Locate(column, ToInt(LONG_MIN)).Runaway? <==> column[0] > 0
  {
    LocateStops(column, -1);
    LocateStops(column, 0);
  }

  /** A range that has become empty gives one row. */
  lemma EmptyRangeGivesOne(column: Column, low: long, high: long)
    requires Increasing(column) && column[0] <= high < low
    ensures RangeRows(column, low, high) == Rows(Center(column, low), Center(column, low))
  {
    LocateStops(column, low);
    LocateStops(column, high);
    SearchIsMonotone(column, high, low, 0, |column| - 1);
  }

  lemma OneRow(q: Query, column: Column, at: nat)
    requires ValidQuery(q) && |column| == |q.rows| && at < |q.rows|
    ensures Picked(q, at, at + 1) == Scan(q) <==> OnlyAt(q, column, LONG_MIN, LONG_MAX, at)
  {
    TrimmedScan(q, at, at + 1);
  }

  /** The values before `at` are below the target, and those behind it above. */
  ghost predicate Around(column: Column, target: long, at: nat) {
    forall i :: 0 <= i < |column| ==> (i < at ==> column[i] < target) && (i > at ==> column[i] > target)
  }

  lemma AroundCenter(column: Column, target: long)
    requires Increasing(column) && column[0] <= target
    ensures Around(column, target, Center(column, target))
  {
    LocateStops(column, target);
    var c := Center(column, target);
    forall i | 0 <= i < |column| ensures (i < c ==> column[i] < target) && (i > c ==> column[i] > target) {
      assert i + 1 < c ==> column[i] < column[c - 1];
      assert c + 1 < i ==> column[c + 1] < column[i];
    }
  }

  // ----- Any range -----

  /** Leaving out what is before `first` and behind `last`, with the values around them. */
  lemma LostRows(q: Query, column: Column, low: long, high: long, first: nat, last: nat)
    requires ValidQuery(q) && |column| == |q.rows| && first <= last < |q.rows| && low <= high
    requires Around(column, low, first) && Around(column, high, last)
    ensures Picked(q, first, last + 1) == Scan(q) <==>
              OnlyAt(q, column, LONG_MIN, low - 1, first) && OnlyAt(q, column, high + 1, LONG_MAX, last)
  {
    TrimmedScan(q, first, last + 1);
    if i :| 0 <= i < |q.rows| && !(first <= i < last + 1) && Wanted(q, i) {
      assert column[i] <= low - 1 || column[i] >= high + 1;
    }
  }

  lemma SearchOrder(column: Column, low: long, high: long)
    requires Increasing(column) && column[0] <= low <= high
    ensures Center(column, low) <= Center(column, high)
  {
    LocateStops(column, low);
    LocateStops(column, high);
    SearchIsMonotone(column, low, high, 0, |column| - 1);
  }

  /** The index finds nothing, and reports an error, exactly for a single value that no row has. */
  lemma NothingFound(q: Query, column: Column, low: long, high: long)
    requires ValidQuery(q) && |column| == |q.rows| && Increasing(column) && column[0] <= low <= high
    ensures RangeRows(column, low, high).NoRows? <==> low == high && low !in column
    ensures Scan(q) == [] <==> OnlyAt(q, column, LONG_MIN, LONG_MAX, |q.rows|)
  {
    RangeIsCovered(column, low, high);
    PickedCount(q, 0, |q.rows|);
    assert |Scan(q)| == 0 <==> Scan(q) == [];
  }

  /** The rows between two places are those of the scan. */
  ghost predicate PlanIsScan(q: Query, r: Rows)
    requires ValidQuery(q)
  {
    r.Rows? && r.first <= r.last < |q.rows| && Picked(q, r.first, r.last + 1) == Scan(q)
  }

  /** The plan for any range, open or closed, after it has been cut: if it is still a range, the rows
      outside it that are wanted have to be the ones where the two searches end; if it has become
      empty, only the row where the search for its lower end ends may be wanted at all; and if nothing
      is found, an error is reported. */
  lemma CutRangePlan(q: Query, column: Column, range: Range)
    requires ValidQuery(q) && |column| == |q.rows| && Increasing(column) && InReach(column, range)
    ensures var low, high, r := ToInt(range.min), ToInt(range.max), CutRows(column, range);
            var first, last := Center(column, low), Center(column, high);
            && (r.NoRows? <==> low == high && low !in column)
            && (r.Rows? ==> r == Rows(first, if low <= high then last else first) && r.first <= r.last < |q.rows|)
            && (r.NoRows? ==> (Scan(q) == [] <==> OnlyAt(q, column, LONG_MIN, LONG_MAX, |q.rows|)))
            && (r.Rows? ==>
                  (PlanIsScan(q, r) <==>
                     if low <= high
                     then OnlyAt(q, column, LONG_MIN, low - 1, first) && OnlyAt(q, column, high + 1, LONG_MAX, last)
                     else OnlyAt(q, column, LONG_MIN, LONG_MAX, first)))
  {
    var low, high := ToInt(range.min), ToInt(range.max);
    if low <= high {
      NothingFound(q, column, low, high);
      SearchOrder(column, low, high);
      AroundCenter(column, low);
      AroundCenter(column, high);
      LostRows(q, column, low, high, Center(column, low), Center(column, high));
      RangeIsCovered(column, low, high);
    } else {
      EmptyRangeGivesOne(column, low, high);
      OneRow(q, column, Center(column, low));
    }
  }

  // ----- Ranges with open ends -----

  /** A range without a lower end, the upper one of which is not cut: the rows with negative values are
      left out, except the one where the search for 0 ends. The plan returns the rows of the scan
      exactly if no other such row is wanted; if the upper end is negative too, exactly if no other row
      is wanted at all. */
  lemma OpenBelow(q: Query, names: seq<string>, column: Column, k: nat, range: Range)
    requires ValidQuery(q) && Ranged(q, names, column, k, range) && !q.inverse
    requires range.min == LONG_MIN && ToInt(range.max) == range.max && InReach(column, range)
    ensures CutRows(column, range).NoRows? <==> range.max == 0 && 0 !in column
    ensures CutRows(column, range).Rows? ==>
              (PlanIsScan(q, CutRows(column, range)) <==>
                 OnlyAt(q, column, LONG_MIN, if range.max < 0 then LONG_MAX else -1, Center(column, 0)))
  {
    OpenRangeIsCut(column);
    UnwantedOutside(q, names, column, k, range);
    CutRangePlan(q, column, range);
  }

  /** A range without an upper end, the lower one of which is not cut: the rows with values from 0 on are
      left out, except the one where the search for -1 ends. */
  lemma OpenAbove(q: Query, names: seq<string>, column: Column, k: nat, range: Range)
    requires ValidQuery(q) && Ranged(q, names, column, k, range) && !q.inverse
    requires range.max == LONG_MAX && ToInt(range.min) == range.min && InReach(column, range)
    ensures CutRows(column, range).NoRows? <==> range.min == -1 && -1 !in column
    ensures CutRows(column, range).Rows? ==>
              (PlanIsScan(q, CutRows(column, range)) <==>
                 if range.min < 0 then OnlyAt(q, column, 0, LONG_MAX, Center(column, -1))
                 else OnlyAt(q, column, LONG_MIN, LONG_MAX, Center(column, range.min)))
  {
    OpenRangeIsCut(column);
    UnwantedOutside(q, names, column, k, range);
    CutRangePlan(q, column, range);
  }

  /** A range that is open at both ends gives the row where the search for 0 ends and no other, so that
      the plan returns the rows of the scan exactly if no other row is wanted. */
  lemma OpenBoth(q: Query, column: Column, range: Range)
    requires ValidQuery(q) && |column| == |q.rows| && Increasing(column) && InReach(column, range)
    requires range.min == LONG_MIN && range.max == LONG_MAX
    ensures CutRows(column, range) == Rows(Center(column, 0), Center(column, 0))
    ensures PlanIsScan(q, CutRows(column, range)) <==> OnlyAt(q, column, LONG_MIN, LONG_MAX, Center(column, 0))
  {
    OpenRangeIsCut(column);
    CutRangePlan(q, column, range);
  }
}
