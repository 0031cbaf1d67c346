/** The inline index: range search over a column that is stored in ascending order, without any
    storage of its own. Tuple identifiers are unsigned 32-bit numbers. */
module IndexInline {
  import opened LvmCode

  const TWO_32 := 0x1_0000_0000
  const INVALID_TUPLE := TWO_32 - 1

  type Column = c: seq<long> | 0 < |c| < INVALID_TUPLE witness [0]

  ghost predicate Increasing(c: seq<long>) {
    forall i, j :: 0 <= i < j < |c| ==> c[i] < c[j]
  }

  // ----- The search as a function -----

  /** Where the search stops, or `Runaway` once `max` has wrapped around below 0. */
  datatype Stop = At(center: nat) | Runaway

  function Search(c: Column, target: long, min: nat, max: nat): (r: Stop)
    requires min <= max < |c|
    ensures r.At? ==> r.center < |c|
    decreases max - min
  {
    var center := min + (max - min) / 2;
    if c[center] == target then At(center)
    else if target > c[center] then
      if center < max then Search(c, target, center + 1, max) else At(center)
    else if center == 0 then Runaway
    else if min < center then Search(c, target, min, center - 1)
    else At(center)
  }

  function Locate(c: Column, target: long): Stop {
    Search(c, target, 0, |c| - 1)
  }

  /** The row where the search for a target ends. */
  function Center(c: Column, target: long): (r: nat)
    ensures r < |c|
  {
    match Locate(c, target)
    case At(center) => center
    case Runaway => 0
  }

  /** `at` is the target's place, the last place below it or the first place above it. */
  ghost predicate Beside(c: Column, target: long, at: nat) {
    at < |c|
    && (c[at] < target ==> at + 1 == |c| || target < c[at + 1])
    && (c[at] > target ==> at > 0 && c[at - 1] < target)
  }

  lemma {:induction false} SearchStops(c: Column, target: long, min: nat, max: nat)
    requires min <= max < |c| && target >= c[0]
    requires max + 1 < |c| ==> target < c[max + 1]
    requires min > 0 ==> c[min - 1] < target
    ensures var r := Search(c, target, min, max); r.At? && Beside(c, target, r.center)
    decreases max - min
  {
    var center := min + (max - min) / 2;
    if c[center] == target {
      StopsHere(c, target, min, max, center);
    } else if target > c[center] {
      if center < max {
        SearchStops(c, target, center + 1, max);
      } else {
        StopsHere(c, target, min, max, center);
      }
    } else if min < center {
      SearchStops(c, target, min, center - 1);
    } else {
      StopsHere(c, target, min, max, center);
    }
  }

  lemma StopsHere(c: Column, target: long, min: nat, max: nat, center: nat)
    requires min <= max < |c| && target >= c[0] && center == min + (max - min) / 2
    requires max + 1 < |c| ==> target < c[max + 1]
    requires min > 0 ==> c[min - 1] < target
    requires c[center] == target || (target > c[center] && center == max) || (target < c[center] && center == min)
    ensures Search(c, target, min, max) == At(center) && Beside(c, target, center)
  {
  }

  lemma {:induction false} SearchRunsAway(c: Column, target: long, max: nat)
    requires Increasing(c) && max < |c| && target < c[0]
    ensures Search(c, target, 0, max) == Runaway
    decreases max
  {
    var center := max / 2;
    assert c[0] <= c[center];
    if center > 0 {
      SearchRunsAway(c, target, center - 1);
    }
  }

  /** The upper bound wraps around below 0 exactly for targets below the first value; for all
      others the search ends beside its target. */
  lemma LocateStops(c: Column, target: long)
    requires Increasing(c)
    ensures Locate(c, target).Runaway? <==> target < c[0]
    ensures target >= c[0] ==> Beside(c, target, Center(c, target))
  {
    if target < c[0] {
      SearchRunsAway(c, target, |c| - 1);
    } else {
      SearchStops(c, target, 0, |c| - 1);
    }
  }

  /** A larger target is not found further down. */
  lemma {:induction false} SearchIsMonotone(c: Column, a: long, b: long, min: nat, max: nat)
    requires Increasing(c) && min <= max < |c| && a <= b
    requires Search(c, a, min, max).At? && Search(c, b, min, max).At?
    ensures Search(c, a, min, max).center <= Search(c, b, min, max).center
    decreases max - min
  {
    var center := min + (max - min) / 2;
    SearchWithin(c, a, min, max);
    SearchWithin(c, b, min, max);
    if b > c[center] && center < max {
      SearchWithin(c, b, center + 1, max);
      if a > c[center] {
        SearchIsMonotone(c, a, b, center + 1, max);
      } else if a < c[center] && min < center {
        SearchWithin(c, a, min, center - 1);
      }
    } else if a < c[center] && min < center {
      SearchWithin(c, a, min, center - 1);
      if b < c[center] {
        SearchIsMonotone(c, a, b, min, center - 1);
      }
    }
  }

  lemma {:induction false} SearchWithin(c: Column, target: long, min: nat, max: nat)
    requires min <= max < |c| && Search(c, target, min, max).At?
    ensures min <= Search(c, target, min, max).center <= max
    decreases max - min
  {
    var center := min + (max - min) / 2;
    if target > c[center] && center < max {
      SearchWithin(c, target, center + 1, max);
    } else if target < c[center] && min < center {
      SearchWithin(c, target, min, center - 1);
    }
  }

  // ----- Targets below the first value -----

  /** The bounds between two rounds of the search, or that it has stopped. */
  datatype Bounds = Between(min: nat, max: nat) | Stopped

  /** A round on unsigned 32-bit numbers. A row that is not in the relation is not read, and not
      reported either: it has the value that the memory held, which `stray` gives. */
  function Round(c: Column, stray: nat -> long, target: long, b: Bounds): Bounds {
    if b.Stopped? || b.min > b.max || b.max >= TWO_32 then Stopped
    else
      var center := b.min + (b.max - b.min) / 2;
      var value := if center < |c| then c[center] else stray(center);
      var next := if target > value then Between(center + 1, b.max) else Between(b.min, Decrement(center));
      if next.min <= next.max && target != value then next else Stopped
  }

  function Rounds(c: Column, stray: nat -> long, target: long, n: nat): Bounds {
    if n == 0 then Between(0, |c| - 1) else Round(c, stray, target, Rounds(c, stray, target, n - 1))
  }

  /** A search for a target below the first value stops only if the memory happens to hold a
      value that is not above the target, at a row that is not there. */
  lemma {:induction false} StopsByChance(c: Column, stray: nat -> long, target: long, n: nat)
    requires Increasing(c) && target < c[0] && forall k: nat :: k >= |c| ==> stray(k) > target
    ensures Rounds(c, stray, target, n).Between? && Rounds(c, stray, target, n).min == 0
    ensures Rounds(c, stray, target, n).max < TWO_32
  {
    if n > 0 {
      StopsByChance(c, stray, target, n - 1);
      var b := Rounds(c, stray, target, n - 1);
      var center := b.max / 2;
      if center < |c| {
        assert c[0] <= c[center];
      }
    }
  }

  /** One round of the search: the place probed and, unless it stops there, the bounds it leaves. */
  lemma SearchStep(c: Column, target: long, min: nat, max: nat, center: nat, stop: Stop)
    requires min <= max < |c| && target >= c[0] && Search(c, target, min, max) == stop
    requires center == min + (max - min) / 2
    ensures min <= center <= max
    ensures c[center] == target ==> stop == At(center)
    ensures target > c[center] && center < max ==> Search(c, target, center + 1, max) == stop
    ensures target > c[center] && center == max ==> stop == At(center)
    ensures target < c[center] ==> center > 0
    ensures target < c[center] && min < center ==> Search(c, target, min, center - 1) == stop
    ensures target < c[center] && min == center ==> stop == At(center)
  {
  }

  /** `center - 1` on unsigned 32-bit numbers. */
  function Decrement(center: nat): (r: nat)
    requires center < TWO_32
    ensures center > 0 ==> r == center - 1
  {
    (center - 1) % TWO_32
  }

  // ----- The rows of a range -----

  /** The first and the last row the index yields for [low, high]; none if the range is a single
      value that is not in the column. */
  datatype Rows = Rows(first: nat, last: nat) | NoRows

  function RangeRows(c: Column, low: long, high: long): Rows {
    var s := Locate(c, low);
    var e := Locate(c, high);
    if s.Runaway? || e.Runaway? then NoRows
    else if low == high && c[s.center] != low then NoRows
    else Rows(Center(c, low), if Center(c, low) <= Center(c, high) then Center(c, high) else Center(c, low))
  }

  /** The interval holds every row whose value is in the range, and besides those at most one
      row at either end. */
  lemma RangeIsCovered(c: Column, low: long, high: long)
    requires Increasing(c) && c[0] <= low && c[0] <= high
    ensures RangeRows(c, low, high).NoRows? <==> low == high && low !in c
    ensures RangeRows(c, low, high).Rows? ==>
              var r := RangeRows(c, low, high);
              r.first <= r.last < |c|
              && (forall i :: 0 <= i < |c| && low <= c[i] <= high ==> r.first <= i <= r.last)
              && (forall i :: r.first < i < r.last ==> low <= c[i] <= high)
  {
    LocateStops(c, low);
    LocateStops(c, high);
    var s, e := Center(c, low), Center(c, high);
    forall i | 0 <= i < |c|
      ensures low <= c[i] <= high ==> s <= i <= e
      ensures s < i < e ==> low <= c[i] <= high
      ensures c[s] != low && low == high ==> c[i] != low
    {
      assert i < s ==> c[i] <= c[s - 1];
      assert i > s ==> c[s + 1] <= c[i];
      assert i > e ==> c[e + 1] <= c[i];
      assert i < e ==> c[i] <= c[e - 1];
    }
  }

  // ----- The index as an object -----

  class InlineIndex {
    const column: Column
    /** The iterator: the range asked for and the number of rows already given. */
    var minValue: long
    var maxValue: long
    var nextItem: nat
    /** What the first call found, kept for the calls after it. */
    var cachedStart: nat
    var cachedEnd: nat

    constructor (c: Column)
      ensures column == c && nextItem == 0
    {
      column := c;
      minValue, maxValue, nextItem, cachedStart, cachedEnd := 0, 0, 0, 0, 0;
    }

    ghost predicate Valid()
      reads this
    {
      Increasing(column)
      && (nextItem > 0 ==> cachedStart < |column| && cachedEnd < |column| && nextItem <= |column|)
    }

    /** index_get_iterator. */
    method Open(low: long, high: long)
      requires Increasing(column)
      modifies this
      ensures Valid() && minValue == low && maxValue == high && nextItem == 0
    {
      minValue, maxValue, nextItem := low, high, 0;
    }

    /** The do-while loop of the source, with bounds that wrap around at 32 bits. */
    method BinarySearch(target: long, exactMatch: bool) returns (r: nat)
      requires target >= column[0]
      ensures r == if exactMatch && column[Center(column, target)] != target then INVALID_TUPLE
                   else Center(column, target)
      ensures Locate(column, target).At?
    {
      var max: nat, min: nat := |column| - 1, 0;
      var center: nat;
      ghost var stop := Locate(column, target);
      while true
        invariant min <= max < |column| && Search(column, target, min, max) == stop
        decreases max - min
      {
        center := min + (max - min) / 2;
        SearchStep(column, target, min, max, center, stop);
        if target > column[center] {
          min := center + 1;
        } else {
          max := Decrement(center);
        }
        if !(min <= max && target != column[center]) {
          break;
        }
      }
      if exactMatch && target != column[center] {
        return INVALID_TUPLE;
      }
      r := center;
    }

    /** range_search; `none` reports a value that is not in the column. */
    method RangeSearch() returns (none: bool, first: nat, last: nat)
      requires Increasing(column) && column[0] <= minValue && column[0] <= maxValue
      ensures none <==> RangeRows(column, minValue, maxValue).NoRows?
      ensures !none ==> first == Center(column, minValue) && last == Center(column, maxValue)
                        && first < |column| && last < |column|
    {
      var exactMatch := minValue == maxValue;
      last := 0;
      first := BinarySearch(minValue, exactMatch);
      if first == INVALID_TUPLE {
        return true, first, last;
      }
      last := BinarySearch(maxValue, exactMatch);
      if last == INVALID_TUPLE {
        return true, first, last;
      }
      none := false;
    }

    /** The rows of the range one after the other, then INVALID_TUPLE. */
    method GetNext() returns (id: nat)
      requires Valid() && column[0] <= minValue && column[0] <= maxValue
      requires nextItem > 0 ==> cachedStart == Center(column, minValue) && cachedEnd == Center(column, maxValue)
                                && RangeRows(column, minValue, maxValue).Rows?
                                && cachedStart + nextItem <= RangeRows(column, minValue, maxValue).last + 1
      modifies this
      ensures Valid() && minValue == old(minValue) && maxValue == old(maxValue)
      ensures var rows := RangeRows(column, minValue, maxValue);
              if rows.NoRows? then id == INVALID_TUPLE && nextItem == 0
              else
                nextItem > 0 && cachedStart == rows.first && cachedEnd == Center(column, maxValue)
                && if rows.first + old(nextItem) <= rows.last
                   then id == rows.first + old(nextItem) && nextItem == old(nextItem) + 1
                   else id == INVALID_TUPLE && nextItem == old(nextItem)
    {
      RangeIsCovered(column, minValue, maxValue);
      if nextItem == 0 {
        var none, first, last := RangeSearch();
        if none {
          cachedStart, cachedEnd := 0, 0;
          return INVALID_TUPLE;
        }
        cachedStart, cachedEnd := first, last;
        nextItem := nextItem + 1;
        return cachedStart;
      } else if cachedStart + nextItem <= cachedEnd {
        id := cachedStart + nextItem;
        nextItem := nextItem + 1;
        return id;
      }
      return INVALID_TUPLE;
    }

    /** Draining the index: every row of the interval once, in ascending order. */
    method Drain(low: long, high: long) returns (ids: seq<nat>)
      requires Increasing(column) && column[0] <= low && column[0] <= high
      modifies this
      ensures var rows := RangeRows(column, low, high);
              if rows.NoRows? then ids == []
              else |ids| == rows.last - rows.first + 1 && forall k :: 0 <= k < |ids| ==> ids[k] == rows.first + k
    {
      Open(low, high);
      ids := [];
      RangeIsCovered(column, low, high);
      ghost var rows := RangeRows(column, low, high);
      var id := GetNext();
      while id != INVALID_TUPLE
        invariant Valid() && minValue == low && maxValue == high
        invariant rows.NoRows? ==> id == INVALID_TUPLE && ids == []
        invariant rows.Rows? ==>
          nextItem > 0 && cachedStart == rows.first && cachedEnd == Center(column, high)
          && (id != INVALID_TUPLE ==> id == rows.first + |ids| <= rows.last && nextItem == |ids| + 1)
          && (id == INVALID_TUPLE ==> |ids| == rows.last - rows.first + 1)
        invariant forall k :: 0 <= k < |ids| ==> ids[k] == rows.first + k
        decreases rows.Rows?, if rows.Rows? then rows.last - rows.first + 1 - |ids| else 0, id != INVALID_TUPLE
      {
        ids := ids + [id];
        id := GetNext();
      }
    }
  }
}
