/** The range tree of the max-heap index: a binary tree of key ranges stored level by level in an
    array, in which an entry (0,0) stands for an absent node. */
module MaxHeapTree {
  type word = x: int | 0 <= x < 0x1_0000

  datatype Node = Node(min: word, max: word)

  const BRANCH_FACTOR := 2
  const NODE_LIMIT := 511
  const NODE_DEPTH := 9
  const KEY_MIN: word := 0
  const KEY_MAX: word := 65535
  const EMPTY_NODE := Node(0, 0)

  type Nodes = s: seq<Node> | |s| == NODE_LIMIT witness seq(NODE_LIMIT, _ => EMPTY_NODE)

  predicate Contains(n: Node, key: word) {
    n.min <= key <= n.max
  }

  predicate Encloses(n: Node, m: Node) {
    n.min <= m.min && m.max <= n.max
  }

  /** The mean of a range, on unsigned 16-bit numbers. */
  function Mean(n: Node): word {
    if n.min <= n.max then n.min + (n.max - n.min) / 2
    else (n.min + (n.max - n.min + 0x1_0000) / 2) % 0x1_0000
  }

  function Parent(i: nat): nat
    requires i > 0
  {
    (i - 1) / 2
  }

  function Depth(i: nat): nat {
    if i == 0 then 0 else Depth(Parent(i)) + 1
  }

  function Pow2(n: nat): nat {
    if n == 0 then 1 else 2 * Pow2(n - 1)
  }

  // ----- The range a node has when it is present -----

  /** The bounds of position `i`: the whole key space at the root, and the lower or the upper half
      of the parent's range below it. */
  function Bounds(i: nat): (int, int) {
    if i == 0 then (KEY_MIN, KEY_MAX)
    else
      var (min, max) := Bounds(Parent(i));
      if i % 2 == 1 then (min, min + (max - min) / 2) else (min + (max - min) / 2 + 1, max)
  }

  /** A node whose index is below 2^d - 1 lies less than d levels deep. */
  lemma {:induction false} DepthAbove(i: nat, d: nat)
    requires i + 1 < Pow2(d)
    ensures Depth(i) < d
  {
    if i > 0 {
      DepthAbove(Parent(i), d - 1);
    }
  }

  lemma Pow2Values()
    ensures Pow2(8) == 256 && Pow2(9) == 512 && Pow2(16) == 65536
  {
    assert Pow2(4) == 16;
    assert Pow2(12) == 4096 by {
      assert Pow2(8) == 256;
    }
  }

  lemma DepthLimit(i: nat)
    requires i < NODE_LIMIT
    ensures Depth(i) < NODE_DEPTH
  {
    Pow2Values();
    DepthAbove(i, NODE_DEPTH);
  }

  lemma {:induction false} Pow2Monotone(a: nat, b: nat)
    requires a <= b
    ensures Pow2(a) <= Pow2(b)
  {
    if a < b {
      Pow2Monotone(a, b - 1);
    }
  }

  /** A node d levels deep covers exactly 2^(16-d) keys. */
  lemma {:induction false} BoundsWidth(i: nat)
    requires Depth(i) <= 16
    ensures var (min, max) := Bounds(i);
            0 <= min && max <= KEY_MAX && max - min + 1 == Pow2(16 - Depth(i))
  {
    if i == 0 {
      Pow2Values();
    } else {
      BoundsWidth(Parent(i));
    }
  }

  /** The range of a node that is present at position `i`. It has at least 2^8 keys; in particular
      it is not (0,0), so that the mark of an absent node is never a range that is present. */
  function RangeOf(i: nat): (n: Node)
    requires i < NODE_LIMIT
    ensures n.max - n.min >= 255
  {
    DepthLimit(i);
    BoundsWidth(i);
    Pow2Values();
    Pow2Monotone(8, 16 - Depth(i));
    Node(Bounds(i).0, Bounds(i).1)
  }

  /** A node d levels deep has exactly 2^(16-d) keys. */
  lemma RangeWidth(i: nat)
    requires i < NODE_LIMIT
    ensures Depth(i) < NODE_DEPTH && RangeOf(i).max - RangeOf(i).min + 1 == Pow2(16 - Depth(i))
  {
    DepthLimit(i);
    BoundsWidth(i);
  }

  /** The children of a node split its range at the mean. */
  lemma ChildRanges(i: nat)
    requires 2 * i + 2 < NODE_LIMIT
    ensures var n := RangeOf(i);
            RangeOf(2 * i + 1) == Node(n.min, Mean(n)) && RangeOf(2 * i + 2) == Node(Mean(n) + 1, n.max)
  {
    assert Parent(2 * i + 1) == i && Parent(2 * i + 2) == i;
    assert Bounds(2 * i + 1).1 - Bounds(2 * i + 1).0 == (Bounds(i).1 - Bounds(i).0) / 2;
  }

  // ----- Insertion and search over the array -----

  /** The slot `heap_insert` chooses: the scan descends into a node that encloses the range and
      steps to the next index otherwise, until it meets an absent node. -1 if there is none. */
  function InsertSlot(nodes: Nodes, r: Node, i: nat): (slot: int)
    ensures -1 <= slot < NODE_LIMIT
    decreases |nodes| - i
  {
    if i >= NODE_LIMIT then -1
    else if nodes[i] == EMPTY_NODE then i
    else if Encloses(nodes[i], r) then InsertSlot(nodes, r, 2 * i + 1)
    else InsertSlot(nodes, r, i + 1)
  }

  function HeapInsert(nodes: Nodes, r: Node): (Nodes, int) {
    if r.min > r.max || InsertSlot(nodes, r, 0) < 0 then (nodes, -1)
    else (nodes[InsertSlot(nodes, r, 0) := r], InsertSlot(nodes, r, 0))
  }

  /** The node `heap_find` returns when it starts at `i`: the first one from there on that
      contains the key and has room for children; -1 once it meets an absent node. */
  function Find(nodes: Nodes, key: word, i: nat): (found: int)
    ensures -1 <= found && 2 * found + 1 < NODE_LIMIT
    decreases |nodes| - i
  {
    if i >= NODE_LIMIT || nodes[i] == EMPTY_NODE then -1
    else if Contains(nodes[i], key) then if 2 * i + 1 >= NODE_LIMIT then -1 else i
    else Find(nodes, key, i + 1)
  }

  /** The two halves of a range. */
  function LowerHalf(n: Node): Node {
    Node(n.min, Mean(n))
  }

  function UpperHalf(n: Node): Node {
    Node((Mean(n) + 1) % 0x1_0000, n.max)
  }

  /** bucket_split: the two halves of a node are inserted from the root. */
  function Split(nodes: Nodes, i: nat): (Nodes, bool)
    requires i < NODE_LIMIT
  {
    var (left, l) := HeapInsert(nodes, LowerHalf(nodes[i]));
    if l < 0 then (left, false)
    else
      var (both, r) := HeapInsert(left, UpperHalf(nodes[i]));
      (both, r >= 0)
  }

  /** The node `insert_item` ends at: the last one found when the search goes on below each node
      that was found. */
  function Deepest(nodes: Nodes, key: word, from: nat, last: int): int
    decreases |nodes| - from
  {
    var b := Find(nodes, key, from);
    if b < from then last else Deepest(nodes, key, 2 * b + 1, b)
  }

  // ----- The invariant -----

  predicate Present(nodes: Nodes, i: nat) {
    i < NODE_LIMIT && nodes[i] != EMPTY_NODE
  }

  predicate HasChildren(nodes: Nodes, i: nat) {
    Present(nodes, 2 * i + 1)
  }

  /** A node that is present has the range of its position and a parent that is present. */
  predicate Fits(nodes: Nodes, i: nat)
    requires i < NODE_LIMIT
  {
    nodes[i] == EMPTY_NODE || (nodes[i] == RangeOf(i) && (i == 0 || Present(nodes, Parent(i))))
  }

  predicate SiblingsTogether(nodes: Nodes, i: nat) {
    2 * i + 2 < NODE_LIMIT ==> (Present(nodes, 2 * i + 1) <==> Present(nodes, 2 * i + 2))
  }

  ghost predicate Rooted(nodes: Nodes) {
    Present(nodes, 0) && forall i :: 0 <= i < NODE_LIMIT ==> Fits(nodes, i)
  }

  /** The invariant of the tree: every node that is present has the range of its position, so
      that siblings split the range of their parent; a node is present only below its parent, and
      siblings are present together. */
  ghost predicate WellFormed(nodes: Nodes) {
    Rooted(nodes) && forall i: nat :: SiblingsTogether(nodes, i)
  }

  lemma ParentPresent(nodes: Nodes, t: nat)
    requires Rooted(nodes) && Present(nodes, t) && t > 0
    ensures nodes[t] == RangeOf(t)
    ensures Present(nodes, Parent(t)) && 2 * Parent(t) + 2 < NODE_LIMIT
    ensures nodes[Parent(t)] == RangeOf(Parent(t))
    ensures t == 2 * Parent(t) + 1 || t == 2 * Parent(t) + 2
  {
    assert Fits(nodes, t);
    assert Fits(nodes, Parent(t));
    assert t == 2 * Parent(t) + 1 || t == 2 * Parent(t) + 2;
  }

  /** One step of the scan, from a node that encloses the range to a child that does. */
  lemma DescendStep(nodes: Nodes, r: Node, p: nat, t: nat)
    requires 2 * p + 2 < NODE_LIMIT && (t == 2 * p + 1 || t == 2 * p + 2)
    requires nodes[p] == RangeOf(p) && nodes[2 * p + 1] in {EMPTY_NODE, RangeOf(2 * p + 1)}
    requires t == 2 * p + 2 ==> nodes[2 * p + 1] != EMPTY_NODE
    requires r.min <= r.max && Encloses(RangeOf(t), r)
    ensures Encloses(RangeOf(p), r) && InsertSlot(nodes, r, p) == InsertSlot(nodes, r, t)
  {
    ChildRanges(p);
    assert InsertSlot(nodes, r, p) == InsertSlot(nodes, r, 2 * p + 1);
  }

  /** A right child has a left sibling that is present. */
  predicate Leftmost(nodes: Nodes, t: nat)
    requires 0 < t < NODE_LIMIT
  {
    t == 2 * Parent(t) + 2 ==> nodes[t - 1] != EMPTY_NODE
  }

  /** The scan for a range inside the range of a node that is present passes through that node. */
  lemma {:induction false} Descend(nodes: Nodes, r: Node, t: nat)
    requires Rooted(nodes) && Present(nodes, t)
    requires forall j: nat :: 0 < j <= t && Present(nodes, j) ==> Leftmost(nodes, j)
    requires r.min <= r.max && Encloses(RangeOf(t), r)
    ensures InsertSlot(nodes, r, 0) == InsertSlot(nodes, r, t)
    decreases t
  {
    if t > 0 {
      ParentPresent(nodes, t);
      assert Fits(nodes, 2 * Parent(t) + 1);
      assert Leftmost(nodes, t);
      DescendStep(nodes, r, Parent(t), t);
      Descend(nodes, r, Parent(t));
    }
  }

  lemma AllLeftmost(nodes: Nodes, t: nat)
    requires WellFormed(nodes) && Present(nodes, t) && t > 0
    ensures Leftmost(nodes, t)
  {
    assert SiblingsTogether(nodes, Parent(t));
  }

  /** The slot found for a range inside that of a node that is present. */
  lemma SlotBelow(nodes: Nodes, r: Node, b: nat)
    requires WellFormed(nodes) && Present(nodes, b) && r.min <= r.max && Encloses(RangeOf(b), r)
    ensures InsertSlot(nodes, r, 0) == InsertSlot(nodes, r, 2 * b + 1)
  {
    forall j: nat | 0 < j <= b && Present(nodes, j) ensures Leftmost(nodes, j) {
      AllLeftmost(nodes, j);
    }
    assert Fits(nodes, b);
    Descend(nodes, r, b);
  }

  /** Adding the first child keeps what the scan relies on. */
  lemma FirstChild(nodes: Nodes, b: nat)
    requires WellFormed(nodes) && Present(nodes, b) && 2 * b + 2 < NODE_LIMIT && !HasChildren(nodes, b)
    ensures var left: Nodes := nodes[2 * b + 1 := RangeOf(2 * b + 1)];
            Rooted(left) && forall j: nat :: 0 < j <= b && Present(left, j) ==> Leftmost(left, j)
  {
    var left: Nodes := nodes[2 * b + 1 := RangeOf(2 * b + 1)];
    forall i | 0 <= i < NODE_LIMIT ensures Fits(left, i) {
      assert Fits(nodes, i);
      assert Parent(2 * b + 1) == b;
    }
    forall j: nat | 0 < j <= b && Present(left, j) ensures Leftmost(left, j) {
      AllLeftmost(nodes, j);
    }
  }

  function WithChildren(nodes: Nodes, b: nat): Nodes
    requires 2 * b + 2 < NODE_LIMIT
  {
    nodes[2 * b + 1 := RangeOf(2 * b + 1)][2 * b + 2 := RangeOf(2 * b + 2)]
  }

  /** Both children together keep the invariant. */
  lemma ChildrenKeepWellFormed(nodes: Nodes, b: nat)
    requires WellFormed(nodes) && Present(nodes, b) && 2 * b + 2 < NODE_LIMIT
    ensures WellFormed(WithChildren(nodes, b))
  {
    var both := WithChildren(nodes, b);
    forall i | 0 <= i < NODE_LIMIT ensures Fits(both, i) {
      assert Fits(nodes, i);
      assert Parent(2 * b + 1) == b && Parent(2 * b + 2) == b;
    }
    forall i: nat ensures SiblingsTogether(both, i) {
      assert SiblingsTogether(nodes, i);
    }
  }

  lemma FirstSlot(nodes: Nodes, b: nat)
    requires WellFormed(nodes) && Present(nodes, b) && 2 * b + 2 < NODE_LIMIT && !HasChildren(nodes, b)
    ensures InsertSlot(nodes, RangeOf(2 * b + 1), 0) == 2 * b + 1
  {
    ChildRanges(b);
    SlotBelow(nodes, RangeOf(2 * b + 1), b);
  }

  lemma SecondSlot(nodes: Nodes, b: nat)
    requires WellFormed(nodes) && Present(nodes, b) && 2 * b + 2 < NODE_LIMIT && !HasChildren(nodes, b)
    ensures InsertSlot(nodes[2 * b + 1 := RangeOf(2 * b + 1)], RangeOf(2 * b + 2), 0) == 2 * b + 2
  {
    var left: Nodes, upper := nodes[2 * b + 1 := RangeOf(2 * b + 1)], RangeOf(2 * b + 2);
    assert left[b] == RangeOf(b) && left[2 * b + 2] == EMPTY_NODE by {
      assert Fits(nodes, b);
      assert SiblingsTogether(nodes, b);
    }
    ChildRanges(b);
    assert InsertSlot(left, upper, 0) == InsertSlot(left, upper, b) by {
      FirstChild(nodes, b);
      Descend(left, upper, b);
    }
    assert InsertSlot(left, upper, b) == InsertSlot(left, upper, 2 * b + 1);
    assert InsertSlot(left, upper, 2 * b + 1) == InsertSlot(left, upper, 2 * b + 2);
  }

  lemma Halves(i: nat)
    requires 2 * i + 2 < NODE_LIMIT
    ensures LowerHalf(RangeOf(i)) == RangeOf(2 * i + 1) && UpperHalf(RangeOf(i)) == RangeOf(2 * i + 2)
    ensures RangeOf(2 * i + 1).min <= RangeOf(2 * i + 1).max && RangeOf(2 * i + 2).min <= RangeOf(2 * i + 2).max
  {
    ChildRanges(i);
  }

  lemma InsertAt(nodes: Nodes, r: Node, slot: nat)
    requires r.min <= r.max && slot < NODE_LIMIT && InsertSlot(nodes, r, 0) == slot
    ensures HeapInsert(nodes, r) == (nodes[slot := r], slot)
  {
  }

  /** What a split does, given the slots the two scans find. */
  lemma SplitBySlots(nodes: Nodes, b: nat)
    requires 2 * b + 2 < NODE_LIMIT && nodes[b] == RangeOf(b)
    requires InsertSlot(nodes, RangeOf(2 * b + 1), 0) == 2 * b + 1
    requires InsertSlot(nodes[2 * b + 1 := RangeOf(2 * b + 1)], RangeOf(2 * b + 2), 0) == 2 * b + 2
    ensures Split(nodes, b) == (WithChildren(nodes, b), true)
  {
    Halves(b);
    var lower, upper := RangeOf(2 * b + 1), RangeOf(2 * b + 2);
    InsertAt(nodes, lower, 2 * b + 1);
    InsertAt(nodes[2 * b + 1 := lower], upper, 2 * b + 2);
  }

  /** A node without children that has room for them gets both. */
  lemma SplitSucceeds(nodes: Nodes, b: nat)
    requires WellFormed(nodes) && Present(nodes, b) && 2 * b + 2 < NODE_LIMIT && !HasChildren(nodes, b)
    ensures nodes[b] == RangeOf(b) && Split(nodes, b) == (WithChildren(nodes, b), true)
  {
    assert Fits(nodes, b);
    FirstSlot(nodes, b);
    SecondSlot(nodes, b);
    SplitBySlots(nodes, b);
  }

  /** A node whose children have no room for children of their own cannot be split, and nothing
      is changed. */
  lemma SplitFails(nodes: Nodes, b: nat)
    requires WellFormed(nodes) && Present(nodes, b) && 4 * b + 3 >= NODE_LIMIT
    requires 2 * b + 2 < NODE_LIMIT ==> HasChildren(nodes, b)
    ensures nodes[b] == RangeOf(b) && Split(nodes, b) == (nodes, false)
  {
    assert Fits(nodes, b);
    var lower := LowerHalf(RangeOf(b));
    SlotBelow(nodes, lower, b);
    if 2 * b + 2 < NODE_LIMIT {
      ChildRanges(b);
      assert Fits(nodes, 2 * b + 1);
    }
  }

  // ----- Paths -----

  /** The child of `i` whose range contains the key. */
  function ChildFor(i: nat, key: word): nat
    requires i < NODE_LIMIT
  {
    if key <= Mean(RangeOf(i)) then 2 * i + 1 else 2 * i + 2
  }

  /** Of two siblings exactly one contains a key of their parent. */
  lemma OneChild(i: nat, key: word)
    requires 2 * i + 2 < NODE_LIMIT && Contains(RangeOf(i), key)
    ensures Contains(RangeOf(2 * i + 1), key) <==> ChildFor(i, key) == 2 * i + 1
    ensures Contains(RangeOf(2 * i + 2), key) <==> ChildFor(i, key) == 2 * i + 2
  {
    ChildRanges(i);
  }

  /** The path of a key continues below `i` at a node that can hold a bucket. */
  predicate Continues(nodes: Nodes, key: word, i: nat)
    requires i < NODE_LIMIT
  {
    HasChildren(nodes, i) && 2 * ChildFor(i, key) + 1 < NODE_LIMIT
  }

  /** Looking below a node finds the child that contains the key, if there are children and they
      can have children of their own. */
  lemma FindBelow(nodes: Nodes, key: word, i: nat)
    requires WellFormed(nodes) && Present(nodes, i) && 2 * i + 2 < NODE_LIMIT && Contains(RangeOf(i), key)
    ensures Find(nodes, key, 2 * i + 1) == if Continues(nodes, key, i) then ChildFor(i, key) else -1
    ensures Continues(nodes, key, i) ==> OnPath(nodes, key, ChildFor(i, key)) && 2 * ChildFor(i, key) + 2 < NODE_LIMIT
  {
    OneChild(i, key);
    assert Fits(nodes, 2 * i + 1) && Fits(nodes, 2 * i + 2) && SiblingsTogether(nodes, i);
    if HasChildren(nodes, i) && ChildFor(i, key) == 2 * i + 2 {
      assert Find(nodes, key, 2 * i + 1) == Find(nodes, key, 2 * i + 2);
    }
  }

  /** The frontier: the last node on the path of a key from `i` down that can hold a bucket. */
  function Frontier(nodes: Nodes, key: word, i: nat): nat
    requires i < NODE_LIMIT
    decreases |nodes| - i
  {
    if Continues(nodes, key, i) then Frontier(nodes, key, ChildFor(i, key)) else i
  }

  /** `j` is on the path of the key. */
  predicate OnPath(nodes: Nodes, key: word, j: nat) {
    Present(nodes, j) && Contains(RangeOf(j), key)
  }

  /** The repeated search follows the path of the key to the frontier. */
  lemma {:induction false} DeepestIsFrontier(nodes: Nodes, key: word, i: nat)
    requires WellFormed(nodes) && OnPath(nodes, key, i) && 2 * i + 2 < NODE_LIMIT
    ensures Deepest(nodes, key, 2 * i + 1, i) == Frontier(nodes, key, i)
    ensures var f := Frontier(nodes, key, i);
            OnPath(nodes, key, f) && 2 * f + 2 < NODE_LIMIT && !Continues(nodes, key, f)
    decreases |nodes| - i
  {
    FindBelow(nodes, key, i);
    if Continues(nodes, key, i) {
      DeepestIsFrontier(nodes, key, ChildFor(i, key));
    }
  }

  /** The nodes on the path of a key that can hold a bucket, from the root to the frontier. */
  function Path(nodes: Nodes, key: word, i: nat): (p: seq<nat>)
    requires i < NODE_LIMIT
    ensures p != [] && p[0] == i
    decreases |nodes| - i
  {
    if Continues(nodes, key, i) then [i] + Path(nodes, key, ChildFor(i, key)) else [i]
  }

  lemma AncestorOnPath(nodes: Nodes, key: word, j: nat)
    requires WellFormed(nodes) && OnPath(nodes, key, j) && j > 0
    ensures OnPath(nodes, key, Parent(j)) && ChildFor(Parent(j), key) == j && HasChildren(nodes, Parent(j))
    ensures 2 * Parent(j) + 2 < NODE_LIMIT
  {
    ParentPresent(nodes, j);
    ChildRanges(Parent(j));
    AllLeftmost(nodes, j);
  }

  /** Each key has exactly one path from the root to the frontier: a node that can hold a bucket
      and contains the key is on that path. */
  lemma {:induction false} PathIsComplete(nodes: Nodes, key: word, j: nat) returns (k: nat)
    requires WellFormed(nodes) && OnPath(nodes, key, j) && 2 * j + 1 < NODE_LIMIT
    ensures k < |Path(nodes, key, 0)| && Path(nodes, key, 0)[k] == j
    ensures Path(nodes, key, 0)[k..] == Path(nodes, key, j)
    decreases j
  {
    var path := Path(nodes, key, 0);
    if j == 0 {
      k := 0;
    } else {
      AncestorOnPath(nodes, key, j);
      var p := Parent(j);
      k := PathIsComplete(nodes, key, p);
      assert path[k..] == [p] + Path(nodes, key, j);
      assert path[k + 1..] == path[k..][1..];
      k := k + 1;
      assert path[k] == path[k..][0];
    }
  }

  /** ... and every node on the path contains the key. */
  lemma {:induction false} PathIsSound(nodes: Nodes, key: word, i: nat, k: nat)
    requires WellFormed(nodes) && OnPath(nodes, key, i) && 2 * i + 2 < NODE_LIMIT && k < |Path(nodes, key, i)|
    ensures OnPath(nodes, key, Path(nodes, key, i)[k]) && 2 * Path(nodes, key, i)[k] + 2 < NODE_LIMIT
    decreases |nodes| - i
  {
    if k > 0 {
      FindBelow(nodes, key, i);
      PathIsSound(nodes, key, ChildFor(i, key), k - 1);
    }
  }

  /** A path has at most one node per level that can have children. */
  lemma {:induction false} PathLength(nodes: Nodes, key: word, i: nat)
    requires 2 * i + 1 < NODE_LIMIT
    ensures Depth(i) + |Path(nodes, key, i)| < NODE_DEPTH
    decreases |nodes| - i
  {
    if Continues(nodes, key, i) {
      assert Parent(ChildFor(i, key)) == i;
      PathLength(nodes, key, ChildFor(i, key));
    } else {
      assert Parent(2 * i + 1) == i;
      DepthLimit(2 * i + 1);
    }
  }

  const NO_NODES: Nodes := seq(NODE_LIMIT, _ => EMPTY_NODE)

  /** The tree after creation. */
  lemma CreationIsWellFormed()
    ensures HeapInsert(NO_NODES, Node(KEY_MIN, KEY_MAX)).1 == 0
    ensures WellFormed(HeapInsert(NO_NODES, Node(KEY_MIN, KEY_MAX)).0)
  {
    var nodes := HeapInsert(NO_NODES, Node(KEY_MIN, KEY_MAX)).0;
    assert nodes[0] == RangeOf(0) by {
      assert Bounds(0) == (KEY_MIN, KEY_MAX);
    }
    assert forall i :: 0 < i < NODE_LIMIT ==> nodes[i] == EMPTY_NODE;
  }
}
