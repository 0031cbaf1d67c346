/** Which value the index finds for a key under which several are stored, and how many pairs there can be. */
module MaxHeapDuplicates {
  import opened MaxHeapTree
  import opened MaxHeapIndex

  /** Slot `s` is the first one in bucket `b` that holds the key. */
  ghost predicate FirstIn(h: Heap, key: word, b: nat, s: nat) {
    b < NODE_LIMIT && s < h.next[b] && At(h, b, s).key == key && forall t :: 0 <= t < s ==> At(h, b, t).key != key
  }

  ghost predicate InBuckets(buckets: seq<nat>) {
    forall k :: 0 <= k < |buckets| ==> buckets[k] < NODE_LIMIT
  }

  /** The value of the first slot in the last of these buckets that has the key. */
  ghost predicate FoundIn(h: Heap, key: word, buckets: seq<nat>, value: word, k: nat, s: nat)
    requires InBuckets(buckets)
  {
    k < |buckets| && FirstIn(h, key, buckets[k], s) && At(h, buckets[k], s) == Pair(key, value)
    && forall l :: k < l < |buckets| ==> LacksKey(h, key, buckets[l])
  }

  ghost predicate FindsLast(h: Heap, key: word, buckets: seq<nat>, r: Found)
    requires InBuckets(buckets)
  {
    match r
    case Found(value) => exists k: nat, s: nat :: FoundIn(h, key, buckets, value, k, s)
    case NotFound => forall k :: 0 <= k < |buckets| ==> LacksKey(h, key, buckets[k])
  }

  lemma {:induction false} SlotIsFirst(bucket: Bucket, key: word, i: nat, n: count)
    requires i <= n
    ensures var s := SlotWith(bucket, key, i, n);
            forall t :: i <= t < (if s < 0 then n else s) ==> bucket[t].key != key
    ensures SlotWith(bucket, key, i, n) >= 0 ==> SlotWith(bucket, key, i, n) >= i
    decreases n - i
  {
    if i < n && bucket[i].key != key {
      SlotIsFirst(bucket, key, i + 1, n);
    }
  }

  /** The search of a bucket, once it is loaded. */
  lemma SearchOfBucket(h: Heap, d: Cache, key: word, b: nat)
    requires b < NODE_LIMIT && d.valid && d.id == b && Coherent(h, d)
    ensures var s := SlotWith(d.content, key, 0, h.next[b]);
            if s < 0 then LacksKey(h, key, b)
            else FirstIn(h, key, b, s) && At(h, b, s) == Pair(key, d.content[s].value)
  {
    SlotIsFirst(d.content, key, 0, h.next[b]);
    forall j | 0 <= j < h.next[b] ensures d.content[j] == At(h, b, j) {
      assert d.content[..h.next[b]][j] == Filled(h, b)[j];
    }
  }

  lemma LastBucket(h: Heap, key: word, buckets: seq<nat>, r: Found)
    requires InBuckets(buckets) && buckets != [] && LacksKey(h, key, buckets[|buckets| - 1])
    requires FindsLast(h, key, buckets[..|buckets| - 1], r)
    ensures FindsLast(h, key, buckets, r)
  {
    var shorter := buckets[..|buckets| - 1];
    if r.Found? {
      var k: nat, s: nat :| FoundIn(h, key, shorter, r.value, k, s);
      assert FoundIn(h, key, buckets, r.value, k, s) by {
        forall l | k < l < |buckets| ensures LacksKey(h, key, buckets[l]) {
          assert l < |shorter| ==> shorter[l] == buckets[l];
        }
      }
    } else {
      forall k | 0 <= k < |buckets| ensures LacksKey(h, key, buckets[k]) {
        assert k < |shorter| ==> shorter[k] == buckets[k];
      }
    }
  }

  lemma {:induction false} SearchFindsLast(h: Heap, hash: word -> word, c: Cache, key: word, buckets: seq<nat>)
    requires Valid(h, hash) && Coherent(h, c) && InBuckets(buckets)
    ensures FindsLast(h, key, buckets, SearchUp(h, c, key, buckets).2)
    decreases |buckets|
  {
    if buckets != [] {
      var last := |buckets| - 1;
      var b := buckets[last];
      LoadIsFaithful(h, hash, c, b);
      var d := Load(h, c, b).1;
      SearchOfBucket(h, d, key, b);
      var s := SlotWith(d.content, key, 0, h.next[b]);
      if s >= 0 {
        assert FoundIn(h, key, buckets, d.content[s].value, last, s);
      } else {
        SearchFindsLast(h, hash, d, key, buckets[..last]);
        LastBucket(h, key, buckets, SearchUp(h, d, key, buckets[..last]).2);
      }
    }
  }

  /** Of several values under a key, the first one in the deepest bucket on the path of the key is found. */
  lemma DeepestIsFound(h: Heap, hash: word -> word, c: Cache, key: word)
    requires Valid(h, hash) && Coherent(h, c)
    ensures InBuckets(Path(h.nodes, hash(key), 0))
    ensures FindsLast(h, key, Path(h.nodes, hash(key), 0), Lookup(h, c, hash, key).2)
  {
    VisitedFromRoot(h.nodes, hash(key));
    SearchFindsLast(h, hash, c, key, Path(h.nodes, hash(key), 0));
  }

  // ----- How much there is room for -----

  /** A bucket takes 128 pairs. */
  lemma BucketTakes(h: Heap, b: nat, p: Pair)
    requires b < NODE_LIMIT
    ensures Append(h, b, p).1 <==> h.next[b] < 128
    ensures !Append(h, b, p).1 ==> Append(h, b, p).0 == h
  {
  }

  lemma {:induction false} StoredCount(h: Heap, hash: word -> word, n: nat)
    requires Valid(h, hash) && n <= 511
    ensures |StoredBelow(h, n)| <= 128 * (if n < 255 then n else 255)
  {
    if n > 0 {
      StoredCount(h, hash, n - 1);
      assert |multiset(Filled(h, n - 1))| == h.next[n - 1];
      assert InPlace(h, hash, n - 1, 0);
    }
  }

  /** Only the nodes of the upper eight levels have buckets in use: no more than 32640 pairs are stored. */
  lemma AtMostStored(h: Heap, hash: word -> word)
    requires Valid(h, hash)
    ensures |Stored(h)| <= 32640
  {
    StoredCount(h, hash, 511);
  }
}
