/** The max-heap index over its range tree: every node that can have children has a bucket of
    key-value pairs, kept one after the other in the bucket file, and a counter of its next free
    slot. A pair goes to the bucket at the frontier of its key's path. The hash of a key, a
    random number generator seeded with it in the source, is an arbitrary function here. */
module MaxHeapIndex {
  import opened MaxHeapTree

  const BUCKET_SIZE := 128

  datatype Pair = Pair(key: word, value: word)

  const EMPTY_PAIR := Pair(0, 0)

  type count = n: nat | n <= BUCKET_SIZE
  type Bucket = s: seq<Pair> | |s| == BUCKET_SIZE witness seq(BUCKET_SIZE, _ => EMPTY_PAIR)
  type Pairs = s: seq<Pair> | |s| == NODE_LIMIT * BUCKET_SIZE witness seq(NODE_LIMIT * BUCKET_SIZE, _ => EMPTY_PAIR)
  type Counts = s: seq<count> | |s| == NODE_LIMIT witness seq(NODE_LIMIT, _ => 0)

  datatype Heap = Heap(nodes: Nodes, next: Counts, pairs: Pairs)

  function At(h: Heap, b: nat, s: nat): Pair
    requires b < NODE_LIMIT && s < BUCKET_SIZE
  {
    h.pairs[BUCKET_SIZE * b + s]
  }

  /** The part of a bucket that is in use. */
  function Filled(h: Heap, b: nat): seq<Pair>
    requires b < NODE_LIMIT
  {
    h.pairs[BUCKET_SIZE * b..BUCKET_SIZE * b + h.next[b]]
  }

  // ----- Insertion -----

  function Append(h: Heap, b: nat, p: Pair): (Heap, bool)
    requires b < NODE_LIMIT
  {
    if h.next[b] >= BUCKET_SIZE then (h, false)
    else (h.(pairs := h.pairs[BUCKET_SIZE * b + h.next[b] := p], next := h.next[b := h.next[b] + 1]), true)
  }

  function InsertItem(h: Heap, hash: word -> word, p: Pair): (Heap, bool) {
    var b := Deepest(h.nodes, hash(p.key), 0, -1);
    if b < 0 || b >= NODE_LIMIT then (h, false)
    else if h.next[b] < BUCKET_SIZE then Append(h, b, p)
    else
      var (nodes, split) := Split(h.nodes, b);
      var c := Find(nodes, hash(p.key), 2 * b + 1);
      if !split || c < 0 then (h.(nodes := nodes), false) else Append(h.(nodes := nodes), c, p)
  }

  /** The index after create. */
  function Created(): Heap {
    Heap(HeapInsert(NO_NODES, Node(KEY_MIN, KEY_MAX)).0, seq(NODE_LIMIT, _ => 0),
         seq(NODE_LIMIT * BUCKET_SIZE, _ => EMPTY_PAIR))
  }

  // ----- The invariant and the contents -----

  /** A slot in use holds a pair whose hashed key belongs to its node; a free one is empty. */
  predicate InPlace(h: Heap, hash: word -> word, b: nat, s: nat)
    requires b < NODE_LIMIT && s < BUCKET_SIZE
  {
    if s < h.next[b] then 2 * b + 2 < NODE_LIMIT && OnPath(h.nodes, hash(At(h, b, s).key), b)
    else At(h, b, s) == EMPTY_PAIR
  }

  ghost predicate Valid(h: Heap, hash: word -> word) {
    WellFormed(h.nodes) && forall b: nat, s: nat :: b < NODE_LIMIT && s < BUCKET_SIZE ==> InPlace(h, hash, b, s)
  }

  /** The pairs in the buckets below `n`. */
  function StoredBelow(h: Heap, n: nat): multiset<Pair>
    requires n <= NODE_LIMIT
  {
    if n == 0 then multiset{} else StoredBelow(h, n - 1) + multiset(Filled(h, n - 1))
  }

  /** Everything the index holds. */
  function Stored(h: Heap): multiset<Pair> {
    StoredBelow(h, NODE_LIMIT)
  }

  lemma {:induction false} SameStored(g: Heap, h: Heap, n: nat)
    requires n <= NODE_LIMIT && forall b :: 0 <= b < n ==> Filled(g, b) == Filled(h, b)
    ensures StoredBelow(g, n) == StoredBelow(h, n)
  {
    if n > 0 {
      SameStored(g, h, n - 1);
    }
  }

  lemma FilledByAppend(h: Heap, b: nat, p: Pair, c: nat)
    requires b < NODE_LIMIT && c < NODE_LIMIT && h.next[b] < BUCKET_SIZE
    ensures Filled(Append(h, b, p).0, c) == if c == b then Filled(h, b) + [p] else Filled(h, c)
  {
  }

  /** Appending a pair adds it to what is stored. */
  lemma {:induction false} StoredByAppend(h: Heap, b: nat, p: Pair, n: nat)
    requires b < n <= NODE_LIMIT && h.next[b] < BUCKET_SIZE
    ensures StoredBelow(Append(h, b, p).0, n) == StoredBelow(h, n) + multiset{p}
  {
    var g := Append(h, b, p).0;
    FilledByAppend(h, b, p, n - 1);
    if b == n - 1 {
      forall c | 0 <= c < b ensures Filled(g, c) == Filled(h, c) {
        FilledByAppend(h, b, p, c);
      }
      SameStored(g, h, b);
    } else {
      StoredByAppend(h, b, p, n - 1);
    }
  }

  /** What is stored is what the slots in use hold. */
  lemma {:induction false} StoredAt(h: Heap, n: nat, b: nat, s: nat)
    requires b < n <= NODE_LIMIT && s < h.next[b]
    ensures At(h, b, s) in StoredBelow(h, n)
  {
    if b == n - 1 {
      assert At(h, b, s) == Filled(h, b)[s];
    } else {
      StoredAt(h, n - 1, b, s);
    }
  }

  lemma {:induction false} SlotOf(h: Heap, n: nat, p: Pair) returns (b: nat, s: nat)
    requires n <= NODE_LIMIT && p in StoredBelow(h, n)
    ensures b < n && s < h.next[b] && At(h, b, s) == p
  {
    if p in multiset(Filled(h, n - 1)) {
      b := n - 1;
      assert p in Filled(h, b);
      s :| 0 <= s < |Filled(h, b)| && Filled(h, b)[s] == p;
    } else {
      b, s := SlotOf(h, n - 1, p);
    }
  }

  // ----- Insertion keeps the invariant -----

  lemma CreationIsValid(hash: word -> word)
    ensures Valid(Created(), hash) && Stored(Created()) == multiset{}
  {
    CreationIsWellFormed();
    NothingStored(NODE_LIMIT);
  }

  lemma {:induction false} NothingStored(n: nat)
    requires n <= NODE_LIMIT
    ensures StoredBelow(Created(), n) == multiset{}
  {
    if n > 0 {
      NothingStored(n - 1);
    }
  }

  lemma AppendKeepsValid(h: Heap, hash: word -> word, b: nat, p: Pair)
    requires Valid(h, hash) && 2 * b + 2 < NODE_LIMIT && OnPath(h.nodes, hash(p.key), b) && h.next[b] < BUCKET_SIZE
    ensures Valid(Append(h, b, p).0, hash)
  {
    var g := Append(h, b, p).0;
    forall c: nat, s: nat | c < NODE_LIMIT && s < BUCKET_SIZE ensures InPlace(g, hash, c, s) {
      assert InPlace(h, hash, c, s);
    }
  }

  /** New nodes keep every pair where it belongs. */
  lemma GrowthKeepsValid(h: Heap, hash: word -> word, b: nat)
    requires Valid(h, hash) && Present(h.nodes, b) && 2 * b + 2 < NODE_LIMIT
    ensures Valid(h.(nodes := WithChildren(h.nodes, b)), hash)
  {
    var g := h.(nodes := WithChildren(h.nodes, b));
    ChildrenKeepWellFormed(h.nodes, b);
    forall c: nat, s: nat | c < NODE_LIMIT && s < BUCKET_SIZE ensures InPlace(g, hash, c, s) {
      assert InPlace(h, hash, c, s);
    }
  }

  lemma RootOnPath(nodes: Nodes, key: word)
    requires WellFormed(nodes)
    ensures OnPath(nodes, key, 0) && Find(nodes, key, 0) == 0
  {
    assert Fits(nodes, 0);
    assert Bounds(0) == (KEY_MIN, KEY_MAX);
  }

  lemma DeepestStep(nodes: Nodes, key: word, from: nat, last: int)
    requires Find(nodes, key, from) == from
    ensures Deepest(nodes, key, from, last) == Deepest(nodes, key, 2 * from + 1, from)
  {
  }

  lemma SearchFromRoot(nodes: Nodes, key: word)
    requires WellFormed(nodes)
    ensures Deepest(nodes, key, 0, -1) == Frontier(nodes, key, 0)
    ensures var f := Frontier(nodes, key, 0);
            OnPath(nodes, key, f) && 2 * f + 2 < NODE_LIMIT && !Continues(nodes, key, f)
  {
    RootOnPath(nodes, key);
    DeepestStep(nodes, key, 0, -1);
    DeepestIsFrontier(nodes, key, 0);
  }

  /** A bucket of a node that is not present is free. */
  lemma AbsentIsFree(h: Heap, hash: word -> word, b: nat)
    requires Valid(h, hash) && b < NODE_LIMIT && !Present(h.nodes, b)
    ensures h.next[b] == 0
  {
    assert InPlace(h, hash, b, 0);
  }

  /** There is room for a key in the bucket at the frontier, or in the one that a split creates. */
  predicate HasRoom(h: Heap, key: word) {
    var f := Frontier(h.nodes, key, 0);
    f < NODE_LIMIT && (h.next[f] < BUCKET_SIZE || (!HasChildren(h.nodes, f) && 2 * ChildFor(f, key) + 1 < NODE_LIMIT))
  }

  lemma InsertWithSpace(h: Heap, hash: word -> word, p: Pair, f: nat)
    requires f < NODE_LIMIT && Deepest(h.nodes, hash(p.key), 0, -1) == f && h.next[f] < BUCKET_SIZE
    ensures InsertItem(h, hash, p) == Append(h, f, p)
  {
  }

  lemma InsertWithSplit(h: Heap, hash: word -> word, p: Pair, f: nat, nodes: Nodes, split: bool)
    requires f < NODE_LIMIT && Deepest(h.nodes, hash(p.key), 0, -1) == f && h.next[f] == BUCKET_SIZE
    requires Split(h.nodes, f) == (nodes, split)
    ensures var c := Find(nodes, hash(p.key), 2 * f + 1);
            InsertItem(h, hash, p) == if !split || c < 0 then (h.(nodes := nodes), false)
                else Append(h.(nodes := nodes), c, p)
  {
  }

  /** What an insertion does to the index: it keeps the invariant whether it succeeds or fails,
      stores the pair if it succeeds and loses none. */
  ghost predicate Conserves(h: Heap, hash: word -> word, p: Pair, r: (Heap, bool)) {
    Valid(r.0, hash) && Stored(r.0) == if r.1 then Stored(h) + multiset{p} else Stored(h)
  }

  lemma AppendConserves(h: Heap, hash: word -> word, b: nat, p: Pair)
    requires Valid(h, hash) && 2 * b + 2 < NODE_LIMIT && OnPath(h.nodes, hash(p.key), b) && h.next[b] < BUCKET_SIZE
    ensures Conserves(h, hash, p, Append(h, b, p))
  {
    AppendKeepsValid(h, hash, b, p);
    StoredByAppend(h, b, p, NODE_LIMIT);
  }

  /** A bucket at the frontier that is full is split if it has no children; the pair then goes to
      the child on its path, if that can have a bucket. */
  lemma InsertionAfterSplit(h: Heap, hash: word -> word, p: Pair, f: nat)
    requires Valid(h, hash) && OnPath(h.nodes, hash(p.key), f) && 2 * f + 2 < NODE_LIMIT && !HasChildren(h.nodes, f)
    requires Deepest(h.nodes, hash(p.key), 0, -1) == f && h.next[f] == BUCKET_SIZE
    ensures Conserves(h, hash, p, InsertItem(h, hash, p))
    ensures InsertItem(h, hash, p).1 <==> 2 * ChildFor(f, hash(p.key)) + 1 < NODE_LIMIT
  {
    var g, c := h.(nodes := WithChildren(h.nodes, f)), ChildFor(f, hash(p.key));
    SplitSucceeds(h.nodes, f);
    GrowthKeepsValid(h, hash, f);
    SameStored(g, h, NODE_LIMIT);
    InsertWithSplit(h, hash, p, f, g.nodes, true);
    FindBelow(g.nodes, hash(p.key), f);
    if 2 * c + 1 < NODE_LIMIT {
      assert !Present(h.nodes, c) by {
        assert SiblingsTogether(h.nodes, f);
      }
      AbsentIsFree(h, hash, c);
      AppendConserves(g, hash, c, p);
    }
  }

  /** A full bucket whose node has children already refuses the pair. */
  lemma InsertionRefused(h: Heap, hash: word -> word, p: Pair, f: nat)
    requires WellFormed(h.nodes) && Present(h.nodes, f) && 2 * f + 2 < NODE_LIMIT && HasChildren(h.nodes, f)
    requires !Continues(h.nodes, hash(p.key), f)
    requires Deepest(h.nodes, hash(p.key), 0, -1) == f && h.next[f] == BUCKET_SIZE
    ensures InsertItem(h, hash, p) == (h, false)
  {
    SplitFails(h.nodes, f);
    InsertWithSplit(h, hash, p, f, h.nodes, false);
  }

  /** An insertion conserves what is stored, and succeeds exactly if there is room. */
  lemma InsertionConserves(h: Heap, hash: word -> word, p: Pair)
    requires Valid(h, hash)
    ensures Conserves(h, hash, p, InsertItem(h, hash, p))
    ensures InsertItem(h, hash, p).1 <==> HasRoom(h, hash(p.key))
  {
    SearchFromRoot(h.nodes, hash(p.key));
    var f := Frontier(h.nodes, hash(p.key), 0);
    if h.next[f] < BUCKET_SIZE {
      InsertWithSpace(h, hash, p, f);
      AppendConserves(h, hash, f, p);
    } else if HasChildren(h.nodes, f) {
      InsertionRefused(h, hash, p, f);
    } else {
      InsertionAfterSplit(h, hash, p, f);
    }
  }

  // ----- Runs of insertions -----

  /** The index after inserting items in order, and the ones that were accepted. */
  function InsertAll(hash: word -> word, items: seq<Pair>): (Heap, multiset<Pair>) {
    if items == [] then (Created(), multiset{})
    else
      var (h, accepted) := InsertAll(hash, items[..|items| - 1]);
      var p := items[|items| - 1];
      (InsertItem(h, hash, p).0, if InsertItem(h, hash, p).1 then accepted + multiset{p} else accepted)
  }

  /** After any run of insertions from creation, successful or failing, the tree is well formed
      and the index holds exactly the items that were accepted. */
  lemma {:induction false} RunConserves(hash: word -> word, items: seq<Pair>)
    ensures Valid(InsertAll(hash, items).0, hash)
    ensures Stored(InsertAll(hash, items).0) == InsertAll(hash, items).1
  {
    if items == [] {
      CreationIsValid(hash);
    } else {
      RunConserves(hash, items[..|items| - 1]);
      InsertionConserves(InsertAll(hash, items[..|items| - 1]).0, hash, items[|items| - 1]);
    }
  }

  // ----- Lookup -----

  /** The bucket cache: one entry, as DB_HEAP_CACHE_LIMIT defaults to. */
  datatype Cache = Cache(valid: bool, id: nat, content: Bucket)

  datatype Found = Found(value: word) | NotFound

  function FirstEmpty(bucket: Bucket, i: count): count
    decreases |bucket| - i
  {
    if i == BUCKET_SIZE || bucket[i] == EMPTY_PAIR then i else FirstEmpty(bucket, i + 1)
  }

  /** bucket_load: a bucket that is not cached replaces the cached one, only the part in use being
      read; a counter of 0 is recomputed from the content. */
  function Load(h: Heap, c: Cache, b: nat): (Heap, Cache)
    requires b < NODE_LIMIT
  {
    if c.valid && c.id == b then (h, c)
    else
      var size := if h.next[b] == 0 then BUCKET_SIZE else h.next[b];
      var content := h.pairs[BUCKET_SIZE * b..BUCKET_SIZE * b + size] + c.content[size..];
      (if h.next[b] == 0 then h.(next := h.next[b := FirstEmpty(content, 0)]) else h, Cache(true, b, content))
  }

  /** The first slot from `i` on, below `n`, that holds the key; -1 if none does. */
  function SlotWith(bucket: Bucket, key: word, i: nat, n: count): (s: int)
    ensures -1 <= s < n
    ensures s >= 0 ==> bucket[s].key == key
    decreases n - i
  {
    if i >= n then -1 else if bucket[i].key == key then i else SlotWith(bucket, key, i + 1, n)
  }

  /** The buckets get_next visits: the nodes heap_find returns one below the other, at most `n`. */
  function Visited(nodes: Nodes, key: word, from: nat, n: nat): (v: seq<nat>)
    ensures forall k :: 0 <= k < |v| ==> v[k] < NODE_LIMIT
    decreases n, |nodes|
  {
    if n == 0 || Find(nodes, key, from) < 0 then []
    else [Find(nodes, key, from) as nat] + Visited(nodes, key, 2 * Find(nodes, key, from) + 1, n - 1)
  }

  /** The search in the visited buckets, from the last one up. */
  function SearchUp(h: Heap, c: Cache, key: word, visited: seq<nat>): (Heap, Cache, Found)
    requires forall k :: 0 <= k < |visited| ==> visited[k] < NODE_LIMIT
    decreases |visited|
  {
    if visited == [] then (h, c, NotFound)
    else
      var b := visited[|visited| - 1];
      var (g, d) := Load(h, c, b);
      var s := SlotWith(d.content, key, 0, g.next[b]);
      if s >= 0 then (g, d, Found(d.content[s].value)) else SearchUp(g, d, key, visited[..|visited| - 1])
  }

  /** The first get_next on a fresh iterator for a single key. */
  function Lookup(h: Heap, c: Cache, hash: word -> word, key: word): (Heap, Cache, Found) {
    SearchUp(h, c, key, Visited(h.nodes, hash(key), 0, NODE_DEPTH))
  }

  /** The cached bucket agrees with the stored one as far as that is in use. */
  predicate Coherent(h: Heap, c: Cache) {
    c.valid ==> c.id < NODE_LIMIT && c.content[..h.next[c.id]] == Filled(h, c.id)
  }

  /** Loading a bucket changes no counter, and what it returns agrees with what is stored. */
  lemma LoadIsFaithful(h: Heap, hash: word -> word, c: Cache, b: nat)
    requires Valid(h, hash) && Coherent(h, c) && b < NODE_LIMIT
    ensures Load(h, c, b).0 == h && Coherent(h, Load(h, c, b).1)
    ensures Load(h, c, b).1.valid && Load(h, c, b).1.id == b
  {
    if !(c.valid && c.id == b) && h.next[b] == 0 {
      assert InPlace(h, hash, b, 0);
      assert h.pairs[BUCKET_SIZE * b..BUCKET_SIZE * b + BUCKET_SIZE][0] == EMPTY_PAIR;
    }
  }

  lemma {:induction false} SlotWithIsComplete(bucket: Bucket, key: word, i: nat, n: count, j: nat)
    requires i <= j < n && bucket[j].key == key
    ensures SlotWith(bucket, key, i, n) >= 0
    decreases n - i
  {
    if bucket[i].key != key {
      SlotWithIsComplete(bucket, key, i + 1, n, j);
    }
  }

  /** No pair in use in the bucket has the key. */
  predicate LacksKey(h: Heap, key: word, b: nat)
    requires b < NODE_LIMIT
  {
    forall j :: 0 <= j < h.next[b] ==> At(h, b, j).key != key
  }

  /** Searching one bucket, once it is loaded. */
  lemma SearchOne(h: Heap, d: Cache, key: word, b: nat)
    requires b < NODE_LIMIT && d.valid && d.id == b && Coherent(h, d)
    ensures var s := SlotWith(d.content, key, 0, h.next[b]);
            if s >= 0 then Pair(key, d.content[s].value) in Stored(h)
            else LacksKey(h, key, b)
  {
    var s := SlotWith(d.content, key, 0, h.next[b]);
    assert forall j :: 0 <= j < h.next[b] ==> d.content[j] == At(h, b, j) by {
      assert forall j :: 0 <= j < h.next[b] ==> d.content[..h.next[b]][j] == Filled(h, b)[j];
    }
    if s >= 0 {
      StoredAt(h, NODE_LIMIT, b, s);
    }
    forall j | 0 <= j < h.next[b] && At(h, b, j).key == key ensures s >= 0 {
      SlotWithIsComplete(d.content, key, 0, h.next[b], j);
    }
  }

  /** The search of the visited buckets found a pair with the key, if there is one. */
  ghost predicate Finds(h: Heap, key: word, visited: seq<nat>, r: Found)
    requires forall k :: 0 <= k < |visited| ==> visited[k] < NODE_LIMIT
  {
    && (r.Found? ==> Pair(key, r.value) in Stored(h))
    && forall k, s :: 0 <= k < |visited| && 0 <= s < h.next[visited[k]] && At(h, visited[k], s).key == key ==> r.Found?
  }

  lemma {:induction false} SearchUpFinds(h: Heap, hash: word -> word, c: Cache, key: word, visited: seq<nat>)
    requires Valid(h, hash) && Coherent(h, c) && forall k :: 0 <= k < |visited| ==> visited[k] < NODE_LIMIT
    ensures var (g, d, r) := SearchUp(h, c, key, visited);
            g == h && Coherent(h, d) && Finds(h, key, visited, r)
    decreases |visited|
  {
    if visited != [] {
      var last := |visited| - 1;
      LoadIsFaithful(h, hash, c, visited[last]);
      var d := Load(h, c, visited[last]).1;
      SearchOne(h, d, key, visited[last]);
      SearchUpFinds(h, hash, d, key, visited[..last]);
      FindsOneMore(h, key, visited, SearchUp(h, d, key, visited[..last]).2);
    }
  }

  lemma FindsOneMore(h: Heap, key: word, visited: seq<nat>, r: Found)
    requires visited != [] && forall k :: 0 <= k < |visited| ==> visited[k] < NODE_LIMIT
    requires Finds(h, key, visited[..|visited| - 1], r)
    ensures LacksKey(h, key, visited[|visited| - 1]) ==> Finds(h, key, visited, r)
  {
    var shorter := visited[..|visited| - 1];
    forall k, s | 0 <= k < |visited| - 1 && 0 <= s < h.next[visited[k]] && At(h, visited[k], s).key == key
      ensures r.Found? {
      assert shorter[k] == visited[k];
    }
  }

  /** The visited buckets are the path of the key. */
  lemma {:induction false} VisitedIsPath(nodes: Nodes, key: word, i: nat, n: nat)
    requires WellFormed(nodes) && OnPath(nodes, key, i) && 2 * i + 2 < NODE_LIMIT && |Path(nodes, key, i)| <= n + 1
    ensures [i] + Visited(nodes, key, 2 * i + 1, n) == Path(nodes, key, i)
    decreases n
  {
    FindBelow(nodes, key, i);
    if Continues(nodes, key, i) {
      assert |Path(nodes, key, i)| >= 2;
      VisitedIsPath(nodes, key, ChildFor(i, key), n - 1);
    }
  }

  lemma VisitedStep(nodes: Nodes, key: word, from: nat, n: nat)
    requires n > 0 && Find(nodes, key, from) == from
    ensures Visited(nodes, key, from, n) == [from] + Visited(nodes, key, 2 * from + 1, n - 1)
  {
  }

  lemma VisitedFromRoot(nodes: Nodes, key: word)
    requires WellFormed(nodes)
    ensures Visited(nodes, key, 0, NODE_DEPTH) == Path(nodes, key, 0)
  {
    RootOnPath(nodes, key);
    PathLength(nodes, key, 0);
    VisitedIsPath(nodes, key, 0, NODE_DEPTH - 1);
    VisitedStep(nodes, key, 0, NODE_DEPTH);
  }

  /** Lookup agrees with a multimap: it returns a value stored under the key, and none exactly if
      no pair with the key is stored; it leaves the index as it was and the cache coherent. */
  lemma LookupIsExact(h: Heap, hash: word -> word, c: Cache, key: word)
    requires Valid(h, hash) && Coherent(h, c)
    ensures var (g, d, r) := Lookup(h, c, hash, key);
            g == h && Coherent(h, d)
            && (r.Found? ==> Pair(key, r.value) in Stored(h))
            && (r.NotFound? <==> forall v :: Pair(key, v) !in Stored(h))
  {
    VisitedFromRoot(h.nodes, hash(key));
    SearchUpFinds(h, hash, c, key, Path(h.nodes, hash(key), 0));
    var r := Lookup(h, c, hash, key).2;
    forall v ensures Pair(key, v) in Stored(h) ==> r.Found? {
      if Pair(key, v) in Stored(h) {
        StoredIsFound(h, hash, c, key, v);
      }
    }
  }

  lemma StoredIsFound(h: Heap, hash: word -> word, c: Cache, key: word, v: word)
    requires Valid(h, hash) && Coherent(h, c) && Pair(key, v) in Stored(h)
    ensures Lookup(h, c, hash, key).2.Found?
  {
    VisitedFromRoot(h.nodes, hash(key));
    var path := Path(h.nodes, hash(key), 0);
    SearchUpFinds(h, hash, c, key, path);
    var b, s := SlotOf(h, NODE_LIMIT, Pair(key, v));
    assert InPlace(h, hash, b, s);
    var k := PathIsComplete(h.nodes, hash(key), b);
    assert At(h, path[k], s).key == key;
  }

  /** ... and after any run of insertions with an empty cache, it finds a key exactly if an item
      with that key was accepted. */
  lemma LookupAfterRun(hash: word -> word, items: seq<Pair>, c: Cache, key: word)
    requires !c.valid
    ensures var (h, accepted) := InsertAll(hash, items);
            var r := Lookup(h, c, hash, key).2;
            (r.Found? ==> Pair(key, r.value) in accepted) && (r.NotFound? <==> forall v :: Pair(key, v) !in accepted)
  {
    RunConserves(hash, items);
    LookupIsExact(InsertAll(hash, items).0, hash, c, key);
  }

  /** The cache is not told of insertions: it stays coherent exactly if the pair does not go to the
      cached bucket, or happens to be in the cached copy of the slot already. */
  lemma InsertionAndCache(h: Heap, b: nat, p: Pair, c: Cache)
    requires b < NODE_LIMIT && h.next[b] < BUCKET_SIZE && Coherent(h, c)
    ensures Coherent(Append(h, b, p).0, c) <==> !(c.valid && c.id == b) || c.content[h.next[b]] == p
  {
    if c.valid {
      FilledByAppend(h, b, p, c.id);
      var n := h.next[b];
      if c.id == b {
        assert c.content[..n + 1] == c.content[..n] + [c.content[n]];
        assert Filled(Append(h, b, p).0, b)[n] == p;
      }
    }
  }

  /** A miss that is repeated after the key has been inserted: the empty bucket is still cached. */
  lemma StaleLookup(hash: word -> word, c: Cache, p: Pair)
    requires !c.valid && p.key != 0
    ensures var (h, d, first) := Lookup(Created(), c, hash, p.key);
            var (g, ok) := InsertItem(h, hash, p);
            first == NotFound && ok && Stored(g) == multiset{p} && Lookup(g, d, hash, p.key).2 == NotFound
  {
    var h := Created();
    CreationIsValid(hash);
    LookupIsExact(h, hash, c, p.key);
    var d := Lookup(h, c, hash, p.key).1;
    CreationIsWellFormed();
    assert !Continues(h.nodes, hash(p.key), 0);
    SearchFromRoot(h.nodes, hash(p.key));
    InsertWithSpace(h, hash, p, 0);
    InsertionConserves(h, hash, p);
    VisitedFromRoot(h.nodes, hash(p.key));
    assert Path(h.nodes, hash(p.key), 0) == [0];
    LookupInOne(h, c, p.key);
    LookupInOne(Append(h, 0, p).0, d, p.key);
  }

  lemma LookupInOne(h: Heap, c: Cache, key: word)
    requires h.next[0] <= 1 && key != 0
    requires c.valid ==> c.id == 0 && c.content[0] == EMPTY_PAIR
    requires !c.valid ==> h.next[0] == 0 && h.pairs[0] == EMPTY_PAIR
    ensures SearchUp(h, c, key, [0]).2 == NotFound
    ensures SearchUp(h, c, key, [0]).1.valid && SearchUp(h, c, key, [0]).1.id == 0
    ensures SearchUp(h, c, key, [0]).1.content[0] == EMPTY_PAIR
  {
    var (g, d) := Load(h, c, 0);
    assert d.content[0] == EMPTY_PAIR;
    assert g.next[0] <= 1;
    assert SlotWith(d.content, key, 0, g.next[0]) == -1;
    assert SearchUp(h, c, key, [0]) == SearchUp(g, d, key, []);
  }
}
