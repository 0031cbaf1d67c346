/** The max-heap index as an object: the node file, the bucket file, the counters of free slots
    and the one-entry bucket cache. The methods carry out what MaxHeapTree and MaxHeapIndex define
    on values. */
module MaxHeapStore {
  import opened MaxHeapTree
  import opened MaxHeapIndex

  lemma {:induction false} FindBounds(nodes: Nodes, key: word, from: nat)
    ensures Find(nodes, key, from) == -1 || Find(nodes, key, from) >= from
    decreases NODE_LIMIT - from
  {
    if from < NODE_LIMIT {
      FindBounds(nodes, key, from + 1);
    }
  }

  class HeapIndex {
    const nodes: array<Node>
    const next: array<count>
    const pairs: array<Pair>
    const bucket: array<Pair>
    const hash: word -> word
    var cached: bool
    var cachedId: nat

    ghost predicate Shape()
      reads this
    {
      nodes.Length == NODE_LIMIT && next.Length == NODE_LIMIT && pairs.Length == NODE_LIMIT * BUCKET_SIZE
      && bucket.Length == BUCKET_SIZE && pairs != bucket
    }

    ghost function View(): Heap
      requires Shape()
      reads this, nodes, next, pairs
    {
      Heap(nodes[..], next[..], pairs[..])
    }

    ghost function CacheView(): Cache
      requires Shape()
      reads this, bucket
    {
      Cache(cached, cachedId, bucket[..])
    }

    /** create, with the bucket cache empty. */
    constructor (hash: word -> word)
      ensures Shape() && this.hash == hash && View() == Created() && !cached
      ensures Valid(View(), hash) && Stored(View()) == multiset{}
    {
      this.hash := hash;
      nodes := new Node[NODE_LIMIT](_ => EMPTY_NODE);
      next := new count[NODE_LIMIT](_ => 0);
      pairs := new Pair[NODE_LIMIT * BUCKET_SIZE](_ => EMPTY_PAIR);
      bucket := new Pair[BUCKET_SIZE](_ => EMPTY_PAIR);
      cached, cachedId := false, 0;
      new;
      assert nodes[..] == NO_NODES;
      CreationIsValid(hash);
      CreationIsWellFormed();
      var slot := InsertNode(Node(KEY_MIN, KEY_MAX));
      assert next[..] == Created().next && pairs[..] == Created().pairs;
    }

    /** heap_insert. */
    method InsertNode(r: Node) returns (slot: int)
      requires Shape()
      modifies nodes
      ensures (nodes[..], slot) == HeapInsert(old(nodes[..]), r)
    {
      if r.min > r.max {
        return -1;
      }
      var i := 0;
      while i < NODE_LIMIT
        invariant nodes[..] == old(nodes[..]) && InsertSlot(nodes[..], r, 0) == InsertSlot(nodes[..], r, i)
      {
        if nodes[i] == EMPTY_NODE {
          nodes[i] := r;
          return i;
        } else if nodes[i].min <= r.min && r.max <= nodes[i].max {
          i := BRANCH_FACTOR * i + 1;
        } else {
          i := i + 1;
        }
      }
      return -1;
    }

    /** heap_find: the node found, and where the search goes on below it. */
    method FindNode(key: word, from: nat) returns (found: int, iterator_: nat)
      requires Shape()
      ensures found == Find(nodes[..], key, from)
      ensures iterator_ == if found < 0 then from else 2 * found + 1
    {
      var i := from;
      iterator_ := from;
      while i < NODE_LIMIT
        invariant Find(nodes[..], key, from) == Find(nodes[..], key, i)
      {
        if nodes[i] == EMPTY_NODE {
          break;
        } else if nodes[i].min <= key && key <= nodes[i].max {
          var firstChild := BRANCH_FACTOR * i + 1;
          if firstChild >= NODE_LIMIT {
            break;
          }
          return i, firstChild;
        } else {
          i := i + 1;
        }
      }
      found := -1;
    }

    /** bucket_split. */
    method SplitBucket(b: nat) returns (ok: bool)
      requires Shape() && b < NODE_LIMIT
      modifies nodes
      ensures (nodes[..], ok) == Split(old(nodes[..]), b)
    {
      var n := nodes[b];
      var small := InsertNode(LowerHalf(n));
      if small < 0 {
        return false;
      }
      var large := InsertNode(UpperHalf(n));
      ok := large >= 0;
    }

    /** bucket_append. */
    method AppendPair(b: nat, p: Pair) returns (ok: bool)
      requires Shape() && b < NODE_LIMIT
      modifies next, pairs
      ensures (View(), ok) == Append(old(View()), b, p)
    {
      if next[b] >= BUCKET_SIZE {
        return false;
      }
      pairs[b * BUCKET_SIZE + next[b]] := p;
      next[b] := next[b] + 1;
      ok := true;
    }

    /** The first loop of insert_item: the last node found on the way down, and where the search
        would go on below it. */
    method FindDeepest(key: word) returns (last: int, at: nat)
      requires Shape()
      ensures last == Deepest(nodes[..], key, 0, -1) && -1 <= last < NODE_LIMIT
      ensures last >= 0 ==> at == 2 * last + 1
    {
      ghost var tree: Nodes := nodes[..];
      last, at := -1, 0;
      while true
        invariant tree == nodes[..] && -1 <= last < NODE_LIMIT
        invariant at == if last < 0 then 0 else 2 * last + 1
        invariant Deepest(tree, key, 0, -1) == Deepest(tree, key, at, last)
        decreases NODE_LIMIT - last
      {
        FindBounds(tree, key, at);
        var b, below := FindNode(key, at);
        if b < 0 {
          break;
        }
        last, at := b, below;
      }
    }

    /** insert_item. */
    method InsertPair(p: Pair) returns (ok: bool)
      requires Shape()
      modifies nodes, next, pairs
      ensures (View(), ok) == InsertItem(old(View()), hash, p)
    {
      var last, at := FindDeepest(hash(p.key));
      if last < 0 {
        return false;
      }
      if next[last] == BUCKET_SIZE {
        var split := SplitBucket(last);
        if !split {
          return false;
        }
        var b;
        b, at := FindNode(hash(p.key), at);
        if b < 0 {
          return false;
        }
        ok := AppendPair(b, p);
      } else {
        ok := AppendPair(last, p);
      }
    }

    /** insert: the key and the tuple id are cut to 16 bits; a valid index stays valid, stores the
        pair or refuses it, and loses nothing. */
    method Insert(key: int, tuple: nat) returns (ok: bool)
      requires Shape()
      modifies nodes, next, pairs
      ensures var p := Pair(key % 0x1_0000, tuple % 0x1_0000);
              (View(), ok) == InsertItem(old(View()), hash, p)
              && (old(Valid(View(), hash)) ==> Conserves(old(View()), hash, p, (View(), ok)))
    {
      ghost var before := View();
      var p := Pair(key % 0x1_0000, tuple % 0x1_0000);
      ok := InsertPair(p);
      if Valid(before, hash) {
        InsertionConserves(before, hash, p);
      }
    }

    /** bucket_read: the part of the bucket that is in use, or all of it if nothing is. */
    method ReadBucket(b: nat)
      requires Shape() && b < NODE_LIMIT
      modifies bucket
      ensures var size := if next[b] == 0 then BUCKET_SIZE else next[b];
              bucket[..] == pairs[..][BUCKET_SIZE * b..BUCKET_SIZE * b + size] + old(bucket[..])[size..]
    {
      var size := if next[b] == 0 then BUCKET_SIZE else next[b];
      forall s | 0 <= s < size {
        bucket[s] := pairs[b * BUCKET_SIZE + s];
      }
      assert forall s :: 0 <= s < BUCKET_SIZE ==>
             bucket[s] == if s < size then pairs[b * BUCKET_SIZE + s] else old(bucket[s]);
    }

    /** The scan for the first free slot of the cached bucket. */
    method FirstFree() returns (i: count)
      requires Shape()
      ensures i == FirstEmpty(bucket[..], 0)
    {
      i := 0;
      while i < BUCKET_SIZE && bucket[i] != EMPTY_PAIR
        invariant FirstEmpty(bucket[..], 0) == FirstEmpty(bucket[..], i)
      {
        i := i + 1;
      }
    }

    /** bucket_load, into the one cache entry. */
    method LoadBucket(b: nat)
      requires Shape() && b < NODE_LIMIT
      modifies this, next, bucket
      ensures (View(), CacheView()) == Load(old(View()), old(CacheView()), b)
      ensures cached && cachedId == b
    {
      if cached && cachedId == b {
        return;
      }
      ReadBucket(b);
      cached, cachedId := true, b;
      if next[b] == 0 {
        var i := FirstFree();
        next[b] := i;
      }
    }

    /** The sequential search of the cached bucket. */
    method FindInBucket(key: word, n: count) returns (s: int)
      requires Shape()
      ensures s == SlotWith(bucket[..], key, 0, n)
    {
      s := 0;
      while s < n
        invariant 0 <= s <= n
        invariant SlotWith(bucket[..], key, 0, n) == SlotWith(bucket[..], key, s, n)
      {
        if bucket[s].key == key {
          return;
        }
        s := s + 1;
      }
      s := -1;
    }

    /** The first part of get_next: the path of nodes that can contain the key. */
    method VisitPath(key: word) returns (visited: seq<nat>)
      requires Shape()
      ensures visited == Visited(nodes[..], hash(key), 0, NODE_DEPTH)
    {
      visited := [];
      var at, i := 0, 0;
      while i < NODE_DEPTH
        invariant 0 <= i <= NODE_DEPTH
        invariant Visited(nodes[..], hash(key), 0, NODE_DEPTH)
                  == visited + Visited(nodes[..], hash(key), at, NODE_DEPTH - i)
      {
        var b;
        b, at := FindNode(hash(key), at);
        if b < 0 {
          break;
        }
        assert visited + ([b] + Visited(nodes[..], hash(key), at, NODE_DEPTH - i - 1))
            == (visited + [b]) + Visited(nodes[..], hash(key), at, NODE_DEPTH - i - 1);
        visited := visited + [b];
        i := i + 1;
      }
    }

    /** The second part: the search of the visited buckets from the bottom up. */
    method SearchBuckets(key: word, visited: seq<nat>) returns (r: Found)
      requires Shape() && forall k :: 0 <= k < |visited| ==> visited[k] < NODE_LIMIT
      modifies this, next, bucket
      ensures (View(), CacheView(), r) == SearchUp(old(View()), old(CacheView()), key, visited)
    {
      var k := |visited|;
      assert visited[..k] == visited;
      while k > 0
        invariant 0 <= k <= |visited|
        invariant SearchUp(View(), CacheView(), key, visited[..k])
                  == SearchUp(old(View()), old(CacheView()), key, visited)
      {
        k := k - 1;
        assert visited[..k + 1][..k] == visited[..k];
        LoadBucket(visited[k]);
        var s := FindInBucket(key, next[visited[k]]);
        if s >= 0 {
          return Found(bucket[s].value);
        }
      }
      r := NotFound;
    }

    /** get_next on a fresh iterator whose range is one key. */
    method GetNext(key: word) returns (r: Found)
      requires Shape()
      modifies this, next, bucket
      ensures (View(), CacheView(), r) == Lookup(old(View()), old(CacheView()), hash, key)
      ensures old(Valid(View(), hash) && Coherent(View(), CacheView())) ==>
                View() == old(View()) && Coherent(View(), CacheView())
                && (r.Found? ==> Pair(key, r.value) in Stored(View()))
                && (r.NotFound? <==> forall v :: Pair(key, v) !in Stored(View()))
    {
      ghost var h, c := View(), CacheView();
      var visited := VisitPath(key);
      r := SearchBuckets(key, visited);
      if Valid(h, hash) && Coherent(h, c) {
        LookupIsExact(h, hash, c, key);
      }
    }
  }
}
