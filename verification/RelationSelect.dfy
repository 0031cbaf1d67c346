/** Processing a selection row by row, over all rows or over the rows an inline index gives, and
    why both return the same rows. */
module RelationSelect {
  import opened LvmCode
  import opened LvmDerive
  import opened LvmEngine
  import opened IndexInline
  import LvmArithmetic

  datatype Domain = IntDomain | LongDomain | StringDomain

  /** An attribute that is not stored is used by the condition only. */
  datatype Attribute = Attribute(name: string, domain: Domain, size: nat, stored: bool)

  /** An attribute of the result: where it is in a row and where it has its place in a result row. */
  datatype Mapping = Mapping(attr: Attribute, from: nat, to: nat)

  const DB_OK := 1
  const DB_GOT_ROW := 2
  const DB_FINISHED := 3
  const DB_INDEX_ERROR := -9

  /** A 16-bit `int`. */
  function ToInt(x: int): (r: int)
    ensures -0x8000 <= x < 0x8000 ==> r == x
    ensures -0x8000 <= r < 0x8000
  {
    (x + 0x8000) % 0x1_0000 - 0x8000
  }

  // ----- Rows -----

  /** The value of a stored number; both the row loop and the index read it in this way. */
  function NumberAt(row: seq<byte>, m: Mapping): long
    requires WellPlaced(m, |row|)
  {
    match m.attr.domain
    case IntDomain => ToInt(row[m.from] as int * 256 + row[m.from + 1] as int)
    case LongDomain =>
      Wrap(row[m.from] as int * 0x100_0000 + row[m.from + 1] as int * 0x1_0000
           + row[m.from + 2] as int * 0x100 + row[m.from + 3] as int)
    case StringDomain => 0
  }

  predicate Fits(domain: Domain, v: int) {
    if domain == IntDomain then -0x8000 <= v < 0x8000 else domain == LongDomain && LONG_MIN <= v <= LONG_MAX
  }

  /** db_value_to_phy: the bytes in which a number is stored, the high byte first. */
  function StoredBytes(domain: Domain, v: int): (b: seq<byte>)
    requires Fits(domain, v)
    ensures |b| == if domain == IntDomain then 2 else 4
  {
    if domain == IntDomain then [v / 0x100 % 0x100, v % 0x100]
    else [v / 0x100_0000 % 0x100, v / 0x1_0000 % 0x100, v / 0x100 % 0x100, v % 0x100]
  }

  predicate WellPlaced(m: Mapping, rowLength: nat) {
    m.from + m.attr.size <= rowLength
    && (m.attr.domain == IntDomain ==> m.attr.size == 2)
    && (m.attr.domain == LongDomain ==> m.attr.size == 4)
  }

  predicate AllPlaced(attrMap: seq<Mapping>, rowLength: nat) {
    forall k :: 0 <= k < |attrMap| ==> WellPlaced(attrMap[k], rowLength)
  }

  function Width(attrMap: seq<Mapping>): nat {
    if attrMap == [] then 0 else Width(attrMap[..|attrMap| - 1]) + attrMap[|attrMap| - 1].attr.size
  }

  function StoredWidth(attrMap: seq<Mapping>): nat {
    if attrMap == [] then 0
    else
      var last := attrMap[|attrMap| - 1];
      StoredWidth(attrMap[..|attrMap| - 1]) + if last.attr.stored then last.attr.size else 0
  }

  /** The attributes that only the condition uses come after those that were asked for. */
  ghost predicate StoredFirst(attrMap: seq<Mapping>) {
    forall j, k :: 0 <= j < k < |attrMap| && attrMap[k].attr.stored ==> attrMap[j].attr.stored
  }

  /** Inside the row, and side by side in the result. */
  ghost predicate ValidMap(attrMap: seq<Mapping>, rowLength: nat) {
    AllPlaced(attrMap, rowLength) && StoredFirst(attrMap)
    && forall k :: 0 <= k < |attrMap| ==> attrMap[k].to == Width(attrMap[..k])
  }

  function Slice(row: seq<byte>, m: Mapping): seq<byte>
    requires WellPlaced(m, |row|)
  {
    row[m.from..m.from + m.attr.size]
  }

  /** The result row: the attributes that were asked for, one after the other. */
  function Project(row: seq<byte>, attrMap: seq<Mapping>): (r: seq<byte>)
    requires AllPlaced(attrMap, |row|)
    ensures |r| == StoredWidth(attrMap)
  {
    if attrMap == [] then []
    else
      var last := attrMap[|attrMap| - 1];
      Project(row, attrMap[..|attrMap| - 1]) + if last.attr.stored then Slice(row, last) else []
  }

  predicate Numeric(m: Mapping, name: string) {
    m.attr.name == name && m.attr.domain != StringDomain
  }

  function ValueOf(row: seq<byte>, attrMap: seq<Mapping>, name: string): long
    requires AllPlaced(attrMap, |row|)
  {
    if attrMap == [] then 0
    else if Numeric(attrMap[|attrMap| - 1], name) then NumberAt(row, attrMap[|attrMap| - 1])
    else ValueOf(row, attrMap[..|attrMap| - 1], name)
  }

  /** The valuation a row gives to the numeric attributes. */
  function RowEnv(row: seq<byte>, attrMap: seq<Mapping>): string -> long
    requires AllPlaced(attrMap, |row|)
  {
    name => ValueOf(row, attrMap, name)
  }

  // ----- Numbers as they are stored -----

  lemma IntIsReadBack(h: byte, l: byte, v: int)
    requires -0x8000 <= v < 0x8000
    ensures ToInt(h as int * 256 + l as int) == v <==> h == v / 0x100 % 0x100 && l == v % 0x100
  {
    var u := h as int * 256 + l as int;
    assert u / 0x100 == h && u % 0x100 == l;
    var w := if v < 0 then v + 0x1_0000 else v;
    assert w / 0x100 % 0x100 == v / 0x100 % 0x100 && w % 0x100 == v % 0x100;
    assert ToInt(u) == v <==> u == w;
  }

  lemma LongIsReadBack(b3: byte, b2: byte, b1: byte, b0: byte, v: long)
    ensures Wrap(b3 as int * 0x100_0000 + b2 as int * 0x1_0000 + b1 as int * 0x100 + b0 as int) == v <==>
            b3 == v / 0x100_0000 % 0x100 && b2 == v / 0x1_0000 % 0x100 && b1 == v / 0x100 % 0x100 && b0 == v % 0x100
  {
    var u := b3 as int * 0x100_0000 + b2 as int * 0x1_0000 + b1 as int * 0x100 + b0 as int;
    var w := if v < 0 then v + 0x1_0000_0000 else v;
    assert Wrap(u) == v <==> u == w;
    BytesOf(b3, b2, b1, b0);
    LvmArithmetic.SameBytes(v);
    HighByteFirst(w);
  }

  lemma BytesOf(b3: byte, b2: byte, b1: byte, b0: byte)
    ensures var u := b3 as int * 0x100_0000 + b2 as int * 0x1_0000 + b1 as int * 0x100 + b0 as int;
            u / 0x100_0000 % 0x100 == b3 && u / 0x1_0000 % 0x100 == b2 && u / 0x100 % 0x100 == b1 && u % 0x100 == b0
  {
    var u1 := b3 as int * 0x1_0000 + b2 as int * 0x100 + b1 as int;
    var u2 := b3 as int * 0x100 + b2 as int;
    var u := u1 * 0x100 + b0 as int;
    assert u / 0x100 == u1;
    assert u / 0x1_0000 == u2;
    assert u / 0x100_0000 == b3;
  }

  lemma HighByteFirst(w: nat)
    requires w < 0x1_0000_0000
    ensures w == w / 0x100_0000 % 0x100 * 0x100_0000 + w / 0x1_0000 % 0x100 * 0x1_0000 + w / 0x100 % 0x100 * 0x100
                 + w % 0x100
  {
    assert w / 0x1_0000 == w / 0x100 / 0x100 && w / 0x100_0000 == w / 0x100 / 0x100 / 0x100;
  }

  /** A row holds the number `v` exactly if the bytes in which `v` is stored are at the place of the
      attribute. */
  lemma StoredNumberIsRead(row: seq<byte>, m: Mapping, v: int)
    requires WellPlaced(m, |row|) && Fits(m.attr.domain, v)
    ensures NumberAt(row, m) == v <==> Slice(row, m) == StoredBytes(m.attr.domain, v)
  {
    var s := Slice(row, m);
    assert forall i :: 0 <= i < |s| ==> s[i] == row[m.from + i];
    if m.attr.domain == IntDomain {
      IntIsReadBack(row[m.from], row[m.from + 1], v);
      assert s == [s[0], s[1]];
    } else {
      LongIsReadBack(row[m.from], row[m.from + 1], row[m.from + 2], row[m.from + 3], v);
      assert s == [s[0], s[1], s[2], s[3]];
    }
  }

  /** No later numeric attribute of the result has the same name. */
  ghost predicate Governs(attrMap: seq<Mapping>, k: nat) {
    k < |attrMap| && attrMap[k].attr.domain != StringDomain
    && forall j :: k < j < |attrMap| ==> !Numeric(attrMap[j], attrMap[k].attr.name)
  }

  /** The stored bytes of the attributes are those of the given values. */
  ghost predicate Records(row: seq<byte>, attrMap: seq<Mapping>, value: string -> long)
    requires AllPlaced(attrMap, |row|)
  {
    forall k :: 0 <= k < |attrMap| && Governs(attrMap, k) ==>
      Fits(attrMap[k].attr.domain, value(attrMap[k].attr.name))
      && Slice(row, attrMap[k]) == StoredBytes(attrMap[k].attr.domain, value(attrMap[k].attr.name))
  }

  /** The last attribute of a name. */
  lemma {:induction false} Governor(attrMap: seq<Mapping>, name: string, some: nat) returns (k: nat)
    requires some < |attrMap| && Numeric(attrMap[some], name)
    ensures Governs(attrMap, k) && attrMap[k].attr.name == name
    decreases |attrMap| - some
  {
    k := some;
    if j :| some < j < |attrMap| && Numeric(attrMap[j], name) {
      k := Governor(attrMap, name, j);
    }
  }

  /** The valuation that a row gives to its numeric attributes is the one whose values it stores. */
  lemma RowHoldsItsValues(row: seq<byte>, attrMap: seq<Mapping>, value: string -> long, k: nat)
    requires AllPlaced(attrMap, |row|) && Records(row, attrMap, value) && k < |attrMap|
             && attrMap[k].attr.domain != StringDomain
    ensures RowEnv(row, attrMap)(attrMap[k].attr.name) == value(attrMap[k].attr.name)
  {
    var g := Governor(attrMap, attrMap[k].attr.name, k);
    ValueOfLast(row, attrMap, g);
    StoredNumberIsRead(row, attrMap[g], value(attrMap[g].attr.name));
  }

  /** An expression depends on the names in it alone. */
  lemma {:induction false} MeaningFrame(e: Expr, names: seq<string>, a: string -> long, b: string -> long)
    requires ExprKnown(e, names) && forall i :: 0 <= i < |names| ==> a(names[i]) == b(names[i])
    ensures Meaning(e, a) == Meaning(e, b)
    decreases e
  {
    if e.Arith? {
      MeaningFrame(e.left, names, a, b);
      MeaningFrame(e.right, names, a, b);
    }
  }

  lemma {:induction false} HoldsFrame(c: Cond, names: seq<string>, a: string -> long, b: string -> long)
    requires CondKnown(c, names) && forall i :: 0 <= i < |names| ==> a(names[i]) == b(names[i])
    ensures Holds(c, a) == Holds(c, b)
    decreases c
  {
    match c
    case Cmp(_, left, right) =>
      MeaningFrame(left, names, a, b);
      MeaningFrame(right, names, a, b);
    case Join(_, c1, c2) =>
      HoldsFrame(c1, names, a, b);
      HoldsFrame(c2, names, a, b);
    case Not(d) => HoldsFrame(d, names, a, b);
  }

  // ----- Selections -----

  /** A selection; with `inverse` the rows for which the condition is false are kept. */
  datatype Query = Query(rows: seq<seq<byte>>, attrMap: seq<Mapping>, cond: Cond, inverse: bool)

  ghost predicate ValidQuery(q: Query) {
    |q.rows| < INVALID_TUPLE && forall i :: 0 <= i < |q.rows| ==> ValidMap(q.attrMap, |q.rows[i]|)
  }

  ghost predicate Wanted(q: Query, i: nat)
    requires ValidQuery(q) && i < |q.rows|
  {
    Holds(q.cond, RowEnv(q.rows[i], q.attrMap)) == Truth(!q.inverse)
  }

  predicate Mapped(attrMap: seq<Mapping>, name: string) {
    exists k :: 0 <= k < |attrMap| && Numeric(attrMap[k], name)
  }

  /** A row that stores the given values is wanted exactly if the condition is true of those values. */
  lemma WantedByStoredValues(q: Query, i: nat, names: seq<string>, value: string -> long)
    requires ValidQuery(q) && i < |q.rows| && CondKnown(q.cond, names)
    requires forall j :: 0 <= j < |names| ==> Mapped(q.attrMap, names[j])
    requires Records(q.rows[i], q.attrMap, value)
    ensures Wanted(q, i) <==> Holds(q.cond, value) == Truth(!q.inverse)
  {
    var env := RowEnv(q.rows[i], q.attrMap);
    forall j | 0 <= j < |names| ensures env(names[j]) == value(names[j]) {
      var k :| 0 <= k < |q.attrMap| && Numeric(q.attrMap[k], names[j]);
      RowHoldsItsValues(q.rows[i], q.attrMap, value, k);
    }
    HoldsFrame(q.cond, names, env, value);
  }

  /** The result rows of the rows from `from` up to `to`. */
  ghost function Picked(q: Query, from: nat, to: nat): seq<seq<byte>>
    requires ValidQuery(q) && to <= |q.rows|
  {
    if from >= to then []
    else Picked(q, from, to - 1) + if Wanted(q, to - 1) then [Project(q.rows[to - 1], q.attrMap)] else []
  }

  /** What a scan of the whole relation returns. */
  ghost function Scan(q: Query): seq<seq<byte>>
    requires ValidQuery(q)
  {
    Picked(q, 0, |q.rows|)
  }

  lemma {:induction false} PickedSplit(q: Query, a: nat, b: nat, c: nat)
    requires ValidQuery(q) && a <= b <= c <= |q.rows|
    ensures Picked(q, a, c) == Picked(q, a, b) + Picked(q, b, c)
  {
    if b < c {
      PickedSplit(q, a, b, c - 1);
    }
  }

  lemma {:induction false} PickedNone(q: Query, a: nat, b: nat)
    requires ValidQuery(q) && a <= b <= |q.rows|
    requires forall i :: a <= i < b ==> !Wanted(q, i)
    ensures Picked(q, a, b) == []
  {
    if a < b {
      PickedNone(q, a, b - 1);
    }
  }

  lemma {:induction false} PickedCount(q: Query, a: nat, b: nat)
    requires ValidQuery(q) && a <= b <= |q.rows|
    ensures |Picked(q, a, b)| == 0 <==> forall i :: a <= i < b ==> !Wanted(q, i)
  {
    if a < b {
      PickedCount(q, a, b - 1);
    }
  }

  /** A wanted row has its place in the result behind the wanted rows before it; a row that is not
      wanted has none. */
  lemma PlaceInScan(q: Query, i: nat)
    requires ValidQuery(q) && i < |q.rows|
    ensures |Picked(q, 0, i + 1)| == |Picked(q, 0, i)| + (if Wanted(q, i) then 1 else 0) <= |Scan(q)|
    ensures Wanted(q, i) ==> Scan(q)[|Picked(q, 0, i)|] == Project(q.rows[i], q.attrMap)
  {
    PickedSplit(q, 0, i + 1, |q.rows|);
  }

  /** Before a stored attribute there are only stored ones. */
  lemma {:induction false} StoredSoFar(attrMap: seq<Mapping>, k: nat)
    requires StoredFirst(attrMap) && k < |attrMap| && attrMap[k].attr.stored
    ensures StoredWidth(attrMap[..k]) == Width(attrMap[..k])
  {
    if k > 0 {
      assert attrMap[..k][..k - 1] == attrMap[..k - 1];
      StoredSoFar(attrMap, k - 1);
    }
  }

  lemma {:induction false} WidthGrows(attrMap: seq<Mapping>, k: nat)
    requires k <= |attrMap|
    ensures Width(attrMap[..k]) <= Width(attrMap)
    decreases |attrMap|
  {
    if k < |attrMap| {
      var shorter := attrMap[..|attrMap| - 1];
      assert attrMap[..k] == shorter[..k];
      WidthGrows(shorter, k);
    } else {
      assert attrMap[..k] == attrMap;
    }
  }

  lemma ProjectStep(row: seq<byte>, attrMap: seq<Mapping>, k: nat)
    requires k < |attrMap| && AllPlaced(attrMap, |row|)
    ensures Project(row, attrMap[..k + 1]) == Project(row, attrMap[..k]) + if attrMap[k].attr.stored
            then Slice(row, attrMap[k]) else []
    ensures Width(attrMap[..k + 1]) == Width(attrMap[..k]) + attrMap[k].attr.size
    ensures StoredWidth(attrMap[..k + 1]) == StoredWidth(attrMap[..k]) + if attrMap[k].attr.stored
            then attrMap[k].attr.size else 0
  {
    assert attrMap[..k + 1][..k] == attrMap[..k];
  }

  /** Attributes further on do not change the first bytes of the result. */
  lemma {:induction false} ProjectPrefix(row: seq<byte>, attrMap: seq<Mapping>, k: nat, n: nat)
    requires k <= n <= |attrMap| && AllPlaced(attrMap, |row|)
    ensures Project(row, attrMap[..k]) <= Project(row, attrMap[..n])
  {
    if k < n {
      ProjectPrefix(row, attrMap, k, n - 1);
      assert Project(row, attrMap[..n - 1]) <= Project(row, attrMap[..n]) by {
        ProjectStep(row, attrMap, n - 1);
      }
    }
  }

  lemma EndOfPrefix(whole: seq<byte>, a: seq<byte>, b: seq<byte>)
    requires a + b <= whole
    ensures |a| + |b| <= |whole| && whole[|a|..|a| + |b|] == b
  {
    assert (a + b)[|a|..] == b;
  }

  lemma CutOut(row: seq<byte>, m: Mapping, before: seq<byte>, whole: seq<byte>)
    requires WellPlaced(m, |row|) && |before| == m.to && before + Slice(row, m) <= whole
    ensures m.to + m.attr.size <= |whole|
    ensures whole[m.to..m.to + m.attr.size] == row[m.from..m.from + m.attr.size]
  {
    EndOfPrefix(whole, before, Slice(row, m));
  }

  /** The bytes of an attribute come behind those of the attributes before it. */
  lemma PlaceInResult(row: seq<byte>, attrMap: seq<Mapping>, k: nat) returns (before: seq<byte>)
    requires ValidMap(attrMap, |row|) && k < |attrMap| && attrMap[k].attr.stored
    ensures |before| == attrMap[k].to && before + Slice(row, attrMap[k]) <= Project(row, attrMap)
  {
    before := Project(row, attrMap[..k]);
    assert StoredWidth(attrMap[..k]) == attrMap[k].to by {
      StoredSoFar(attrMap, k);
    }
    assert Project(row, attrMap[..k + 1]) == Project(row, attrMap[..k]) + Slice(row, attrMap[k]) by {
      ProjectStep(row, attrMap, k);
    }
    ProjectPrefix(row, attrMap, k + 1, |attrMap|);
    assert attrMap[..|attrMap|] == attrMap;
  }

  /** An attribute of the result has the bytes of the row. */
  lemma ProjectedAttribute(row: seq<byte>, attrMap: seq<Mapping>, k: nat)
    requires ValidMap(attrMap, |row|) && k < |attrMap| && attrMap[k].attr.stored
    ensures var m, r := attrMap[k], Project(row, attrMap);
            m.to + m.attr.size <= |r| && r[m.to..m.to + m.attr.size] == row[m.from..m.from + m.attr.size]
  {
    var before := PlaceInResult(row, attrMap, k);
    CutOut(row, attrMap[k], before, Project(row, attrMap));
  }

  /** Leaving out a prefix and a suffix of the relation changes the result exactly when a row
      that is left out was wanted. */
  lemma TrimmedScan(q: Query, from: nat, to: nat)
    requires ValidQuery(q) && from <= to <= |q.rows|
    ensures Picked(q, from, to) == Scan(q) <==>
            forall i :: 0 <= i < |q.rows| && !(from <= i < to) ==> !Wanted(q, i)
  {
    var n := |q.rows|;
    PickedSplit(q, 0, from, n);
    PickedSplit(q, from, to, n);
    PickedCount(q, 0, from);
    PickedCount(q, to, n);
    assert |Scan(q)| == |Picked(q, 0, from)| + |Picked(q, from, to)| + |Picked(q, to, n)|;
    if Picked(q, 0, from) == [] && Picked(q, to, n) == [] {
      assert Scan(q) == Picked(q, from, to);
    }
  }

  // ----- The index plan -----

  /** The index is over attribute `k`: its column holds that attribute's value of every row. */
  ghost predicate IndexedBy(q: Query, column: Column, k: nat)
    requires ValidQuery(q)
  {
    k < |q.attrMap| && |column| == |q.rows| && Increasing(column)
    && q.attrMap[k].attr.domain == IntDomain
    && (forall j :: k < j < |q.attrMap| ==> q.attrMap[j].attr.name != q.attrMap[k].attr.name)
    && forall i :: 0 <= i < |column| ==> column[i] == NumberAt(q.rows[i], q.attrMap[k])
  }

  lemma {:induction false} ValueOfLast(row: seq<byte>, attrMap: seq<Mapping>, k: nat)
    requires AllPlaced(attrMap, |row|) && k < |attrMap| && attrMap[k].attr.domain != StringDomain
    requires forall j :: k < j < |attrMap| ==> !Numeric(attrMap[j], attrMap[k].attr.name)
    ensures ValueOf(row, attrMap, attrMap[k].attr.name) == NumberAt(row, attrMap[k])
    decreases |attrMap|
  {
    if k < |attrMap| - 1 {
      ValueOfLast(row, attrMap[..|attrMap| - 1], k);
    }
  }

  /** The condition is derivable, and gives the indexed attribute a range. */
  ghost predicate Ranged(q: Query, names: seq<string>, column: Column, k: nat, range: Range)
    requires ValidQuery(q)
  {
    IndexedBy(q, column, k) && |names| <= VARIABLE_SLOTS && CondKnown(q.cond, names) && Derivable(q.cond)
    && q.attrMap[k].attr.name in names
    && Derive(q.cond, names, UNDERIVED).Some?
    && range == Derive(q.cond, names, UNDERIVED).value[IdOf(q.attrMap[k].attr.name, names)]
    && range.derived
  }

  /** The range that a condition derives for a name, if it derives one. */
  function RangeFor(c: Cond, names: seq<string>, name: string): Option<Range>
    requires CondKnown(c, names) && |names| <= VARIABLE_SLOTS
  {
    var d := Derive(c, names, UNDERIVED);
    if d.Some? && name in names && d.value[IdOf(name, names)].derived then Some(d.value[IdOf(name, names)]) else None
  }

  /** A range of a single value that the column does not hold. */
  predicate OneAbsent(range: Option<Range>, column: seq<long>) {
    range.Some? && range.value.min == range.value.max && range.value.min !in column
  }

  /** Besides, the range is closed, fits an `int`, and starts at or above the first value of the
      column. */
  ghost predicate Indexable(q: Query, names: seq<string>, column: Column, k: nat, range: Range)
    requires ValidQuery(q)
  {
    Ranged(q, names, column, k, range)
    && ToInt(range.min) == range.min && ToInt(range.max) == range.max
    && column[0] <= range.min && column[0] <= range.max
  }

  /** Rows whose value lies outside the range do not satisfy the condition. */
  lemma OutsideRange(q: Query, names: seq<string>, column: Column, k: nat, range: Range, i: nat)
    requires ValidQuery(q) && Ranged(q, names, column, k, range) && i < |q.rows|
    requires Holds(q.cond, RowEnv(q.rows[i], q.attrMap)) == Truth(true)
    ensures range.min <= column[i] <= range.max
  {
    var env := RowEnv(q.rows[i], q.attrMap);
    var name := q.attrMap[k].attr.name;
    DerivationSound(q.cond, names, env);
    ValueOfLast(q.rows[i], q.attrMap, k);
    assert Within(Derive(q.cond, names, UNDERIVED).value[IdOf(name, names)], env(names[IdOf(name, names)]));
  }

  lemma UnwantedOutside(q: Query, names: seq<string>, column: Column, k: nat, range: Range)
    requires ValidQuery(q) && Ranged(q, names, column, k, range) && !q.inverse
    ensures forall i :: 0 <= i < |q.rows| && !(range.min <= column[i] <= range.max) ==> !Wanted(q, i)
  {
    forall i | 0 <= i < |q.rows| && Wanted(q, i) ensures range.min <= column[i] <= range.max {
      OutsideRange(q, names, column, k, range, i);
    }
  }

  /** The rows the index plan processes; none if the search reports an error. */
  ghost function IndexPlan(q: Query, column: Column, range: Range): Option<seq<seq<byte>>>
    requires ValidQuery(q) && |column| == |q.rows| && Increasing(column)
    requires column[0] <= range.min && column[0] <= range.max
  {
    RangeIsCovered(column, range.min, range.max);
    match RangeRows(column, range.min, range.max)
    case NoRows => None
    case Rows(first, last) => Some(Picked(q, first, last + 1))
  }

  lemma CoveringIntervalIsScan(q: Query, column: Column, low: long, high: long)
    requires ValidQuery(q) && |column| == |q.rows| && Increasing(column) && column[0] <= low && column[0] <= high
    requires forall i :: 0 <= i < |q.rows| && !(low <= column[i] <= high) ==> !Wanted(q, i)
    ensures match RangeRows(column, low, high)
            case NoRows => low == high && low !in column && Scan(q) == []
            case Rows(first, last) => first <= last < |q.rows| && Picked(q, first, last + 1) == Scan(q)
  {
    RangeIsCovered(column, low, high);
    match RangeRows(column, low, high)
    case NoRows => PickedNone(q, 0, |q.rows|);
    case Rows(first, last) => TrimmedScan(q, first, last + 1);
  }

  /** The index plan returns exactly the rows of the scan, in the same order; only when the
      range is a single value that no row has, it reports an error where the scan returns nothing. */
  lemma IndexPlanEqualsScan(q: Query, names: seq<string>, column: Column, k: nat, range: Range)
    requires ValidQuery(q) && Indexable(q, names, column, k, range) && !q.inverse
    ensures IndexPlan(q, column, range).Some? ==> IndexPlan(q, column, range).value == Scan(q)
    ensures IndexPlan(q, column, range).None? <==> range.min == range.max && range.min !in column
    ensures IndexPlan(q, column, range).None? ==> Scan(q) == []
  {
    UnwantedOutside(q, names, column, k, range);
    RangeIsCovered(column, range.min, range.max);
    CoveringIntervalIsScan(q, column, range.min, range.max);
  }

  lemma {:induction false} DerivableDecides(c: Cond, env: string -> long)
    requires Derivable(c)
    ensures Holds(c, env).Truth?
    decreases c
  {
    if c.Join? {
      DerivableDecides(c.c1, env);
      DerivableDecides(c.c2, env);
    }
  }

  /** Removal keeps the rows for which the condition is false, and goes through the same index.
      That equals the scan exactly when the index happens to give every row: all others, which
      should have been kept, are lost. */
  lemma InverseIndexPlan(q: Query, names: seq<string>, column: Column, k: nat, range: Range)
    requires ValidQuery(q) && Indexable(q, names, column, k, range) && q.inverse
    requires IndexPlan(q, column, range).Some?
    ensures IndexPlan(q, column, range).value == Scan(q)
            <==> RangeRows(column, range.min, range.max) == Rows(0, |q.rows| - 1)
  {
    WantedOutside(q, names, column, k, range);
    RangeIsCovered(column, range.min, range.max);
    WholeInterval(q, column, RangeRows(column, range.min, range.max));
  }

  lemma WantedOutside(q: Query, names: seq<string>, column: Column, k: nat, range: Range)
    requires ValidQuery(q) && Indexable(q, names, column, k, range) && q.inverse
    ensures forall i :: 0 <= i < |q.rows| && !(range.min <= column[i] <= range.max) ==> Wanted(q, i)
  {
    forall i | 0 <= i < |q.rows| && !Wanted(q, i) ensures range.min <= column[i] <= range.max {
      DerivableDecides(q.cond, RowEnv(q.rows[i], q.attrMap));
      OutsideRange(q, names, column, k, range, i);
    }
  }

  lemma WholeInterval(q: Query, column: Column, r: Rows)
    requires ValidQuery(q) && |column| == |q.rows| && r.Rows? && r.first <= r.last < |q.rows|
    requires forall i :: 0 <= i < |q.rows| && !(r.first <= i <= r.last) ==> Wanted(q, i)
    ensures Picked(q, r.first, r.last + 1) == Scan(q) <==> r == Rows(0, |q.rows| - 1)
  {
    TrimmedScan(q, r.first, r.last + 1);
    assert r.first > 0 ==> Wanted(q, 0);
    assert r.last < |q.rows| - 1 ==> Wanted(q, |q.rows| - 1);
  }
}
