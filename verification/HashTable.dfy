/**
  The hash table of libjansson: every pair of every bucket lives on one circular
  doubly linked list that runs through a sentinel, and a bucket is only a
  first/last window into that list.
 */
module HashTable {
  import opened Bytes
  const NPRIMES: nat := 29

  function Prime(k: nat): (p: nat)
    requires k < NPRIMES
    ensures p >= 5
  {
    match k
    case 0 => 5 case 1 => 13 case 2 => 23 case 3 => 53 case 4 => 97 case 5 => 193 case 6 => 389
    case 7 => 769 case 8 => 1543 case 9 => 3079 case 10 => 6151 case 11 => 12289 case 12 => 24593
    case 13 => 49157 case 14 => 98317 case 15 => 196613 case 16 => 393241 case 17 => 786433
    case 18 => 1572869 case 19 => 3145739 case 20 => 6291469 case 21 => 12582917 case 22 => 25165843
    case 23 => 50331653 case 24 => 100663319 case 25 => 201326611 case 26 => 402653189
    case 27 => 805306457 case _ => 1610612741
  }

  /** The bucket a hash belongs to. */
  function Index(hash: nat, n: nat): (b: nat)
    requires n > 0
    ensures b < n
  {
    hash % n
  }

  /** Keys are compared and hashed by their text alone; the serial rides along. */
  datatype ObjectKey<+K> = ObjectKey(serial: nat, text: K)

  datatype Slot<+K, +V> = Slot(key: ObjectKey<K>, value: V)

  datatype Release<+K, +V> = KeyFreed(key: ObjectKey<K>) | ValueFreed(value: V)

  class Node<K(0), V(0)> {
    const key: ObjectKey<K>
    const hash: nat
    var value: V
    var prev: Node<K, V>
    var next: Node<K, V>

    /** The list head, which is no pair; its key and value are never looked at. */
    constructor Sentinel()
      ensures fresh(this) && next == this && prev == this
    {
      var noText: K := *;
      key := ObjectKey(0, noText);
      hash := 0;
      prev := this;
      next := this;
    }

    constructor Pair(key: ObjectKey<K>, value: V, hash: nat)
      ensures fresh(this)
      ensures this.key == key && this.value == value && this.hash == hash
    {
      this.key := key;
      this.value := value;
      this.hash := hash;
      prev := this;
      next := this;
    }
  }

  datatype Bucket<K(0), V(0)> = Bucket(first: Node<K, V>, last: Node<K, V>)

  // ---------------------------------------------------------------- the ring

  /** Consecutive nodes of the walk point at each other. */
  ghost predicate Linked<K(0), V(0)>(walk: seq<Node<K, V>>, nodes: set<Node<K, V>>)
    reads nodes`prev, nodes`next
  {
    && (forall i :: 0 <= i < |walk| ==> walk[i] in nodes)
    && (forall i {:trigger walk[i].next} :: 0 <= i < |walk| - 1 ==> walk[i].next == walk[i+1])
    && (forall i {:trigger walk[i].prev} :: 1 <= i < |walk| ==> walk[i].prev == walk[i-1])
  }

  /** Names an element, so that Distinct is only used where it is asked for. */
  ghost function At<T>(s: seq<T>, i: nat): T
    requires i < |s|
  {
    s[i]
  }

  ghost predicate Distinct<T>(s: seq<T>) {
    forall i, j {:trigger At(s, i), At(s, j)} :: 0 <= i < j < |s| ==> At(s, i) != At(s, j)
  }

  ghost function Insert<T>(s: seq<T>, p: nat, x: T): (r: seq<T>)
    requires p <= |s|
    ensures |r| == |s| + 1 && r[p] == x
    ensures forall i :: 0 <= i < p ==> r[i] == s[i]
    ensures forall i :: p < i < |r| ==> r[i] == s[i-1]
  {
    s[..p] + [x] + s[p..]
  }

  ghost function Without<T>(s: seq<T>, k: nat): (r: seq<T>)
    requires k < |s|
    ensures |r| == |s| - 1
    ensures forall i :: 0 <= i < k ==> r[i] == s[i]
    ensures forall i :: k <= i < |r| ==> r[i] == s[i+1]
  {
    s[..k] + s[k+1..]
  }

  lemma Unique<T>(s: seq<T>, k: nat)
    requires Distinct(s) && k < |s|
    ensures forall j {:trigger s[j]} :: 0 <= j < |s| && j != k ==> s[j] != s[k]
  {
    forall j | 0 <= j < |s| && j != k
      ensures s[j] != s[k]
    {
      assert At(s, j) != At(s, k);
    }
  }

  lemma DistinctWithout<T>(s: seq<T>, k: nat)
    requires Distinct(s) && k < |s|
    ensures Distinct(Without(s, k))
  {
    var r := Without(s, k);
    forall i, j | 0 <= i < j < |r|
      ensures At(r, i) != At(r, j)
    {
      assert At(r, i) == At(s, if i < k then i else i + 1) && At(r, j) == At(s, if j < k then j else j + 1);
    }
  }

  /** From the sentinel around the ring and back to it. */
  ghost function Walk<K(0), V(0)>(list: Node<K, V>, pairs: seq<Node<K, V>>): (w: seq<Node<K, V>>)
    ensures |w| == |pairs| + 2 && w[0] == list && w[|pairs|+1] == list
    ensures forall i :: 0 <= i < |pairs| ==> w[i+1] == pairs[i]
  {
    [list] + pairs + [list]
  }

  /** A closed walk visits each node once before it returns to its start. */
  ghost predicate Closed<K(0), V(0)>(walk: seq<Node<K, V>>) {
    && |walk| >= 2 && walk[0] == walk[|walk|-1]
    && forall i, j :: 1 <= i < j < |walk| ==> walk[i] != walk[j]
  }

  lemma WalkClosed<K(0), V(0)>(list: Node<K, V>, pairs: seq<Node<K, V>>)
    requires Distinct(pairs) && list !in pairs
    ensures Closed(Walk(list, pairs))
  {
    var w := Walk(list, pairs);
    forall i, j | 1 <= i < j < |w|
      ensures w[i] != w[j]
    {
      assert w[i] == At(pairs, i - 1);
      assert j < |w| - 1 ==> w[j] == At(pairs, j - 1);
    }
  }

  lemma WalkInsert<K(0), V(0)>(list: Node<K, V>, pairs: seq<Node<K, V>>, p: nat, node: Node<K, V>)
    requires p <= |pairs|
    ensures Walk(list, Insert(pairs, p, node)) == Insert(Walk(list, pairs), p + 1, node)
  {
  }

  lemma WalkWithout<K(0), V(0)>(list: Node<K, V>, pairs: seq<Node<K, V>>, k: nat)
    requires k < |pairs|
    ensures Walk(list, Without(pairs, k)) == Without(Walk(list, pairs), k + 1)
  {
  }

  method ListInsert<K(0), V(0)>(list: Node<K, V>, node: Node<K, V>, ghost walk: seq<Node<K, V>>, ghost nodes: set<Node<K, V>>, ghost p: nat)
    requires Closed(walk) && Linked(walk, nodes) && 1 <= p < |walk| && list == walk[p]
    requires node !in walk && node in nodes
    modifies list`prev, {walk[p-1]}`next, node`prev, node`next
    ensures Linked(Insert(walk, p, node), nodes)
  {
    assert walk[p].prev == walk[p-1] && walk[p-1].next == walk[p];
    node.next := list;
    node.prev := list.prev;
    list.prev.next := node;
    list.prev := node;
  }

  method ListRemove<K(0), V(0)>(list: Node<K, V>, ghost walk: seq<Node<K, V>>, ghost nodes: set<Node<K, V>>, ghost k: nat)
    requires Closed(walk) && Linked(walk, nodes) && 1 <= k < |walk| - 1 && list == walk[k]
    modifies {walk[k-1]}`next, {walk[k+1]}`prev
    ensures Linked(Without(walk, k), nodes)
  {
    assert walk[k].prev == walk[k-1] && walk[k].next == walk[k+1];
    list.prev.next := list.next;
    list.next.prev := list.prev;
  }

  // ------------------------------------------------------------- the windows

  /** The bucket number at each ring position. */
  ghost function Buckets<K(0), V(0)>(pairs: seq<Node<K, V>>, n: nat): (ix: seq<nat>)
    requires n > 0
    ensures |ix| == |pairs|
    ensures forall i {:trigger ix[i]} :: 0 <= i < |ix| ==> ix[i] == Index(pairs[i].hash, n)
  {
    seq(|pairs|, i requires 0 <= i < |pairs| => Index(pairs[i].hash, n))
  }

  /** Ring position i lies in window b exactly when b is its bucket number: the
      windows are contiguous, disjoint and cover the ring. */
  ghost predicate Cover(ix: seq<nat>, n: nat, lo: seq<nat>, hi: seq<nat>) {
    && |lo| == |hi| == n
    && (forall b :: 0 <= b < n ==> lo[b] <= hi[b] <= |ix|)
    && (forall i :: 0 <= i < |ix| ==> ix[i] < n && lo[ix[i]] <= i < hi[ix[i]])
    && (forall b, i :: 0 <= b < n && lo[b] <= i < hi[b] ==> ix[i] == b)
  }

  /** One bucket's pointers mark the two ends of its window. */
  ghost predicate End<K(0), V(0)>(pairs: seq<Node<K, V>>, bucket: Bucket<K, V>, list: Node<K, V>, lo: nat, hi: nat) {
    && lo <= hi <= |pairs|
    && bucket == if lo == hi then Bucket(list, list) else Bucket(pairs[lo], pairs[hi-1])
  }

  ghost predicate Ends<K(0), V(0)>(pairs: seq<Node<K, V>>, bs: seq<Bucket<K, V>>, list: Node<K, V>, lo: seq<nat>, hi: seq<nat>) {
    && |bs| == |lo| == |hi|
    && forall b :: 0 <= b < |lo| ==> End(pairs, bs[b], list, lo[b], hi[b])
  }

  /** insert_to_bucket puts a pair in front of its window, or at the ring's end. */
  ghost function InsertAt(lo: seq<nat>, hi: seq<nat>, b: nat, size: nat): nat
    requires b < |lo| == |hi|
  {
    if lo[b] == hi[b] then size else lo[b]
  }

  ghost function LoAfterInsert(lo: seq<nat>, hi: seq<nat>, b: nat, p: nat): (r: seq<nat>)
    requires |lo| == |hi|
    ensures |r| == |lo|
  {
    seq(|lo|, c requires 0 <= c < |lo| =>
      if c == b then p else if lo[c] == hi[c] then 0 else if lo[c] >= p then lo[c] + 1 else lo[c])
  }

  ghost function HiAfterInsert(lo: seq<nat>, hi: seq<nat>, b: nat, p: nat): (r: seq<nat>)
    requires |lo| == |hi|
    ensures |r| == |lo|
  {
    seq(|lo|, c requires 0 <= c < |lo| =>
      if c == b then (if lo[c] == hi[c] then p + 1 else hi[c] + 1)
      else if lo[c] == hi[c] then 0 else if lo[c] >= p then hi[c] + 1 else hi[c])
  }

  /** No window but b's straddles position p. */
  ghost predicate Clear(lo: seq<nat>, hi: seq<nat>, p: nat, b: nat)
    requires |lo| == |hi|
  {
    forall c :: 0 <= c < |lo| && c != b ==> p < lo[c] || hi[c] <= p
  }

  lemma OtherWindows(ix: seq<nat>, n: nat, lo: seq<nat>, hi: seq<nat>, p: nat, b: nat)
    requires Cover(ix, n, lo, hi) && b < n && (p == |ix| || (p < |ix| && ix[p] == b))
    ensures Clear(lo, hi, p, b)
  {
  }

  lemma CoverInsert(ix: seq<nat>, n: nat, lo: seq<nat>, hi: seq<nat>, b: nat)
    requires Cover(ix, n, lo, hi) && b < n
    ensures var p := InsertAt(lo, hi, b, |ix|);
            Cover(Insert(ix, p, b), n, LoAfterInsert(lo, hi, b, p), HiAfterInsert(lo, hi, b, p))
  {
    var p := InsertAt(lo, hi, b, |ix|);
    var ix', lo', hi' := Insert(ix, p, b), LoAfterInsert(lo, hi, b, p), HiAfterInsert(lo, hi, b, p);
    OtherWindows(ix, n, lo, hi, p, b);
    CoveredAfterInsert(ix, n, lo, hi, b);
    WindowsFit(ix, n, lo, hi, b);
    hide InsertAt, Insert, LoAfterInsert, HiAfterInsert;
    forall c, i | 0 <= c < n && lo'[c] <= i < hi'[c]
      ensures ix'[i] == c
    {
      WindowAfterInsert(ix, n, lo, hi, b, c, i);
    }
  }

  lemma WindowsFit(ix: seq<nat>, n: nat, lo: seq<nat>, hi: seq<nat>, b: nat)
    requires Cover(ix, n, lo, hi) && b < n
    ensures var p := InsertAt(lo, hi, b, |ix|);
            var lo', hi' := LoAfterInsert(lo, hi, b, p), HiAfterInsert(lo, hi, b, p);
            p <= |ix| && forall c :: 0 <= c < n ==> lo'[c] <= hi'[c] <= |Insert(ix, p, b)|
  {
  }

  lemma WindowAfterInsert(ix: seq<nat>, n: nat, lo: seq<nat>, hi: seq<nat>, b: nat, c: nat, i: nat)
    requires Cover(ix, n, lo, hi) && b < n && c < n
    requires Clear(lo, hi, InsertAt(lo, hi, b, |ix|), b)
    requires var p := InsertAt(lo, hi, b, |ix|); LoAfterInsert(lo, hi, b, p)[c] <= i < HiAfterInsert(lo, hi, b, p)[c]
    ensures i < |Insert(ix, InsertAt(lo, hi, b, |ix|), b)| && Insert(ix, InsertAt(lo, hi, b, |ix|), b)[i] == c
  {
    var p := InsertAt(lo, hi, b, |ix|);
    var j := if i < p then i else i - 1;
    if i != p {
      assert lo[c] <= j < hi[c];
    }
  }

  lemma CoveredAfterInsert(ix: seq<nat>, n: nat, lo: seq<nat>, hi: seq<nat>, b: nat)
    requires Cover(ix, n, lo, hi) && b < n
    ensures var p := InsertAt(lo, hi, b, |ix|);
            var ix', lo', hi' := Insert(ix, p, b), LoAfterInsert(lo, hi, b, p), HiAfterInsert(lo, hi, b, p);
            forall i :: 0 <= i < |ix'| ==> ix'[i] < n && lo'[ix'[i]] <= i < hi'[ix'[i]]
  {
    var p := InsertAt(lo, hi, b, |ix|);
    var ix', lo', hi' := Insert(ix, p, b), LoAfterInsert(lo, hi, b, p), HiAfterInsert(lo, hi, b, p);
    OtherWindows(ix, n, lo, hi, p, b);
    forall i | 0 <= i < |ix'|
      ensures ix'[i] < n && lo'[ix'[i]] <= i < hi'[ix'[i]]
    {
      var j := if i < p then i else i - 1;
      if i != p {
        assert ix'[i] == ix[j] && lo[ix[j]] <= j < hi[ix[j]];
      }
    }
  }

  ghost function LoAfterRemove(lo: seq<nat>, hi: seq<nat>, b: nat, k: nat): (r: seq<nat>)
    requires |lo| == |hi|
    ensures |r| == |lo|
  {
    seq(|lo|, c requires 0 <= c < |lo| =>
      if c == b then lo[c] else if lo[c] == hi[c] then 0 else if lo[c] > k then lo[c] - 1 else lo[c])
  }

  ghost function HiAfterRemove(lo: seq<nat>, hi: seq<nat>, b: nat, k: nat): (r: seq<nat>)
    requires |lo| == |hi|
    ensures |r| == |lo|
  {
    seq(|lo|, c requires 0 <= c < |lo| =>
      if c != b && lo[c] == hi[c] then 0 else if hi[c] > k then hi[c] - 1 else hi[c])
  }

  lemma CoverRemove(ix: seq<nat>, n: nat, lo: seq<nat>, hi: seq<nat>, k: nat)
    requires Cover(ix, n, lo, hi) && k < |ix|
    ensures Cover(Without(ix, k), n, LoAfterRemove(lo, hi, ix[k], k), HiAfterRemove(lo, hi, ix[k], k))
  {
    var b := ix[k];
    var ix', lo', hi' := Without(ix, k), LoAfterRemove(lo, hi, b, k), HiAfterRemove(lo, hi, b, k);
    assert lo[b] <= k < hi[b];
    OtherWindows(ix, n, lo, hi, k, b);
    forall i | 0 <= i < |ix'|
      ensures ix'[i] < n && lo'[ix'[i]] <= i < hi'[ix'[i]]
    {
      var j := if i < k then i else i + 1;
      assert ix'[i] == ix[j] && lo[ix[j]] <= j < hi[ix[j]];
    }
    forall c, i | 0 <= c < n && lo'[c] <= i < hi'[c]
      ensures ix'[i] == c
    {
      var j := if i < k then i else i + 1;
      assert lo[c] <= j < hi[c];
    }
  }

  lemma EndsInsert<K(0), V(0)>(pairs: seq<Node<K, V>>, bs: seq<Bucket<K, V>>, list: Node<K, V>,
                         lo: seq<nat>, hi: seq<nat>, node: Node<K, V>, b: nat)
    requires Ends(pairs, bs, list, lo, hi) && b < |lo| && Clear(lo, hi, InsertAt(lo, hi, b, |pairs|), b)
    ensures var p := InsertAt(lo, hi, b, |pairs|);
            Ends(Insert(pairs, p, node), bs[b := Bucket(node, if lo[b] == hi[b] then node else bs[b].last)],
                 list, LoAfterInsert(lo, hi, b, p), HiAfterInsert(lo, hi, b, p))
  {
    var p := InsertAt(lo, hi, b, |pairs|);
    var lo', hi' := LoAfterInsert(lo, hi, b, p), HiAfterInsert(lo, hi, b, p);
    var bs' := bs[b := Bucket(node, if lo[b] == hi[b] then node else bs[b].last)];
    var pairs' := Insert(pairs, p, node);
    forall c | 0 <= c < |lo|
      ensures End(pairs', bs'[c], list, lo'[c], hi'[c])
    {
      assert End(pairs, bs[c], list, lo[c], hi[c]);
      assert c != b ==> p < lo[c] || hi[c] <= p;
    }
  }

  /** What hashtable_do_del writes to the bucket of the pair at ring position k. */
  ghost function BucketAfterRemove<K(0), V(0)>(pairs: seq<Node<K, V>>, bucket: Bucket<K, V>, list: Node<K, V>, k: nat): Bucket<K, V>
    requires k < |pairs|
  {
    if pairs[k] == bucket.first && pairs[k] == bucket.last then Bucket(list, list)
    else if pairs[k] == bucket.first then Bucket(Walk(list, pairs)[k+2], bucket.last)
    else if pairs[k] == bucket.last then Bucket(bucket.first, Walk(list, pairs)[k])
    else bucket
  }

  lemma EndRemove<K(0), V(0)>(pairs: seq<Node<K, V>>, bucket: Bucket<K, V>, list: Node<K, V>, lo: nat, hi: nat, k: nat)
    requires End(pairs, bucket, list, lo, hi) && lo <= k < hi && Distinct(pairs) && list !in pairs
    ensures End(Without(pairs, k), BucketAfterRemove(pairs, bucket, list, k), list, lo, hi - 1)
  {
    Unique(pairs, k);
    assert pairs[k] == bucket.first <==> k == lo;
    assert pairs[k] == bucket.last <==> k == hi - 1;
  }

  lemma EndShift<K(0), V(0)>(pairs: seq<Node<K, V>>, bucket: Bucket<K, V>, list: Node<K, V>, lo: nat, hi: nat, k: nat)
    requires End(pairs, bucket, list, lo, hi) && k < |pairs| && (k < lo || hi <= k)
    ensures End(Without(pairs, k), bucket, list,
                if lo == hi then 0 else if lo > k then lo - 1 else lo, if lo == hi then 0 else if hi > k then hi - 1 else hi)
  {
  }

  lemma EndsRemove<K(0), V(0)>(pairs: seq<Node<K, V>>, bs: seq<Bucket<K, V>>, list: Node<K, V>,
                         lo: seq<nat>, hi: seq<nat>, k: nat, b: nat, bucket: Bucket<K, V>)
    requires Ends(pairs, bs, list, lo, hi) && b < |lo| && lo[b] <= k < hi[b] && Clear(lo, hi, k, b)
    requires k < |pairs| && End(Without(pairs, k), bucket, list, lo[b], hi[b] - 1)
    ensures Ends(Without(pairs, k), bs[b := bucket], list, LoAfterRemove(lo, hi, b, k), HiAfterRemove(lo, hi, b, k))
  {
    var lo', hi' := LoAfterRemove(lo, hi, b, k), HiAfterRemove(lo, hi, b, k);
    var bs' := bs[b := bucket];
    var pairs' := Without(pairs, k);
    forall c | 0 <= c < |lo|
      ensures End(pairs', bs'[c], list, lo'[c], hi'[c])
    {
      if c != b {
        assert k < lo[c] || hi[c] <= k;
        assert End(pairs, bs[c], list, lo[c], hi[c]);
        EndShift(pairs, bs[c], list, lo[c], hi[c], k);
      }
    }
  }

  /** Everything about the ring that does not depend on the heap. */
  ghost predicate Shape<K(0), V(0)>(pairs: seq<Node<K, V>>, n: nat, bs: seq<Bucket<K, V>>, list: Node<K, V>,
                              lo: seq<nat>, hi: seq<nat>)
    requires n > 0
  {
    Distinct(pairs) && list !in pairs && Cover(Buckets(pairs, n), n, lo, hi) && Ends(pairs, bs, list, lo, hi)
  }

  lemma BucketsInsert<K(0), V(0)>(pairs: seq<Node<K, V>>, n: nat, p: nat, node: Node<K, V>)
    requires n > 0 && p <= |pairs|
    ensures Buckets(Insert(pairs, p, node), n) == Insert(Buckets(pairs, n), p, Index(node.hash, n))
  {
  }

  lemma DistinctInsert<T>(s: seq<T>, p: nat, x: T, y: T)
    requires Distinct(s) && x !in s && y !in s && x != y && p <= |s|
    ensures Distinct(Insert(s, p, x)) && y !in Insert(s, p, x)
  {
    var r := Insert(s, p, x);
    forall i, j | 0 <= i < j < |r|
      ensures At(r, i) != At(r, j)
    {
      assert i != p ==> r[i] == At(s, if i < p then i else i - 1);
      assert j != p ==> r[j] == At(s, if j < p then j else j - 1);
    }
  }

  lemma ShapeInsert<K(0), V(0)>(pairs: seq<Node<K, V>>, n: nat, bs: seq<Bucket<K, V>>, list: Node<K, V>,
                          lo: seq<nat>, hi: seq<nat>, node: Node<K, V>)
    requires n > 0 && Shape(pairs, n, bs, list, lo, hi) && node != list && node !in pairs
    ensures var b := Index(node.hash, n);
            var p := InsertAt(lo, hi, b, |pairs|);
            Shape(Insert(pairs, p, node), n, bs[b := Bucket(node, if lo[b] == hi[b] then node else bs[b].last)],
                  list, LoAfterInsert(lo, hi, b, p), HiAfterInsert(lo, hi, b, p))
  {
    var b := Index(node.hash, n);
    var ix := Buckets(pairs, n);
    var p := InsertAt(lo, hi, b, |pairs|);
    assert Buckets(Insert(pairs, p, node), n) == Insert(ix, p, b) by { BucketsInsert(pairs, n, p, node); }
    CoverInsert(ix, n, lo, hi, b);
    assert Clear(lo, hi, p, b) by { OtherWindows(ix, n, lo, hi, p, b); }
    EndsInsert(pairs, bs, list, lo, hi, node, b);
    DistinctInsert(pairs, p, node, list);
  }

  lemma ShapeRemove<K(0), V(0)>(pairs: seq<Node<K, V>>, n: nat, bs: seq<Bucket<K, V>>, list: Node<K, V>,
                          lo: seq<nat>, hi: seq<nat>, k: nat)
    requires n > 0 && Shape(pairs, n, bs, list, lo, hi) && k < |pairs|
    ensures var b := Index(pairs[k].hash, n);
            Shape(Without(pairs, k), n, bs[b := BucketAfterRemove(pairs, bs[b], list, k)], list,
                  LoAfterRemove(lo, hi, b, k), HiAfterRemove(lo, hi, b, k))
  {
    var b := Index(pairs[k].hash, n);
    var ix := Buckets(pairs, n);
    assert ix[k] == b && lo[b] <= k < hi[b];
    assert Buckets(Without(pairs, k), n) == Without(ix, k);
    CoverRemove(ix, n, lo, hi, k);
    assert Clear(lo, hi, k, b) by { OtherWindows(ix, n, lo, hi, k, b); }
    EndRemove(pairs, bs[b], list, lo[b], hi[b], k);
    DistinctWithout(pairs, k);
    EndsRemove(pairs, bs, list, lo, hi, k, b, BucketAfterRemove(pairs, bs[b], list, k));
  }

  // ------------------------------------------------------------ the contents

  /** Names a key, so that Indexed is only used where it is asked for. */
  ghost predicate Has<K, V>(m: map<K, V>, t: K) {
    t in m
  }

  /** nodeOf inverts the ring: a text's node, and no two pairs share a text. */
  ghost predicate Indexed<K(0), V(0)>(hashKey: K -> nat, pairs: seq<Node<K, V>>, nodeOf: map<K, Node<K, V>>) {
    && (forall i {:trigger At(pairs, i)} :: 0 <= i < |pairs| ==>
          && At(pairs, i).key.text in nodeOf && nodeOf[At(pairs, i).key.text] == At(pairs, i)
          && At(pairs, i).hash == hashKey(At(pairs, i).key.text))
    && (forall t {:trigger Has(nodeOf, t)} :: t in nodeOf && Has(nodeOf, t) ==> nodeOf[t] in pairs && nodeOf[t].key.text == t)
  }

  lemma IndexedFacts<K(0), V(0)>(hashKey: K -> nat, pairs: seq<Node<K, V>>, nodeOf: map<K, Node<K, V>>)
    requires Indexed(hashKey, pairs, nodeOf)
    ensures forall i {:trigger pairs[i]} :: 0 <= i < |pairs| ==>
              && pairs[i].key.text in nodeOf && nodeOf[pairs[i].key.text] == pairs[i]
              && pairs[i].hash == hashKey(pairs[i].key.text)
    ensures forall t {:trigger nodeOf[t]} :: t in nodeOf ==> nodeOf[t] in pairs && nodeOf[t].key.text == t
  {
    forall i | 0 <= i < |pairs|
      ensures pairs[i].key.text in nodeOf && nodeOf[pairs[i].key.text] == pairs[i]
      ensures pairs[i].hash == hashKey(pairs[i].key.text)
    {
      assert At(pairs, i) == pairs[i];
    }
    forall t | t in nodeOf
      ensures nodeOf[t] in pairs && nodeOf[t].key.text == t
    {
      assert Has(nodeOf, t);
    }
  }

  lemma OneText<K(0), V(0)>(hashKey: K -> nat, pairs: seq<Node<K, V>>, nodeOf: map<K, Node<K, V>>, text: K)
    requires Indexed(hashKey, pairs, nodeOf) && text in nodeOf
    ensures forall t :: t in nodeOf && nodeOf[t] == nodeOf[text] ==> t == text
  {
    IndexedFacts(hashKey, pairs, nodeOf);
  }

  lemma Position<K(0), V(0)>(hashKey: K -> nat, pairs: seq<Node<K, V>>, nodeOf: map<K, Node<K, V>>, text: K) returns (k: nat)
    requires Indexed(hashKey, pairs, nodeOf) && text in nodeOf
    ensures k < |pairs| && pairs[k] == nodeOf[text] && pairs[k].key.text == text && pairs[k].hash == hashKey(text)
  {
    IndexedFacts(hashKey, pairs, nodeOf);
    k :| 0 <= k < |pairs| && pairs[k] == nodeOf[text];
  }

  lemma {:induction false} IndexedSize<K(0), V(0)>(hashKey: K -> nat, pairs: seq<Node<K, V>>, nodeOf: map<K, Node<K, V>>)
    requires Indexed(hashKey, pairs, nodeOf) && Distinct(pairs)
    ensures |nodeOf| == |pairs|
    decreases |pairs|
  {
    IndexedFacts(hashKey, pairs, nodeOf);
    if pairs == [] {
      assert nodeOf.Keys == {};
    } else {
      var k := |pairs| - 1;
      var t := pairs[k].key.text;
      IndexedWithout(hashKey, pairs, nodeOf, k);
      DistinctWithout(pairs, k);
      IndexedSize(hashKey, Without(pairs, k), nodeOf - {t});
      assert nodeOf.Keys == (nodeOf - {t}).Keys + {t};
    }
  }

  lemma IndexedInsert<K(0), V(0)>(hashKey: K -> nat, pairs: seq<Node<K, V>>, nodeOf: map<K, Node<K, V>>, p: nat, node: Node<K, V>)
    requires Indexed(hashKey, pairs, nodeOf) && p <= |pairs| && node.key.text !in nodeOf && node.hash == hashKey(node.key.text)
    ensures Indexed(hashKey, Insert(pairs, p, node), nodeOf[node.key.text := node])
  {
    IndexedFacts(hashKey, pairs, nodeOf);
    var pairs', nodeOf' := Insert(pairs, p, node), nodeOf[node.key.text := node];
    forall i | 0 <= i < |pairs'|
      ensures pairs'[i].key.text in nodeOf' && nodeOf'[pairs'[i].key.text] == pairs'[i]
      ensures pairs'[i].hash == hashKey(pairs'[i].key.text)
    {
      assert i != p ==> pairs'[i] == pairs[if i < p then i else i - 1];
    }
    forall t | t in nodeOf'
      ensures nodeOf'[t] in pairs' && nodeOf'[t].key.text == t
    {
      if t == node.key.text {
        assert pairs'[p] == node;
      } else {
        var i :| 0 <= i < |pairs| && pairs[i] == nodeOf[t];
        assert pairs'[if i < p then i else i + 1] == nodeOf[t];
      }
    }
  }

  lemma IndexedWithout<K(0), V(0)>(hashKey: K -> nat, pairs: seq<Node<K, V>>, nodeOf: map<K, Node<K, V>>, k: nat)
    requires Indexed(hashKey, pairs, nodeOf) && Distinct(pairs) && k < |pairs|
    ensures Indexed(hashKey, Without(pairs, k), nodeOf - {pairs[k].key.text})
  {
    var t0 := pairs[k].key.text;
    IndexedFacts(hashKey, pairs, nodeOf);
    Unique(pairs, k);
    var pairs', nodeOf' := Without(pairs, k), nodeOf - {t0};
    forall i | 0 <= i < |pairs'|
      ensures pairs'[i].key.text in nodeOf' && nodeOf'[pairs'[i].key.text] == pairs'[i]
      ensures pairs'[i].hash == hashKey(pairs'[i].key.text)
    {
      var j := if i < k then i else i + 1;
      assert pairs'[i] == pairs[j] && pairs[j] != pairs[k];
    }
    forall t | t in nodeOf'
      ensures nodeOf'[t] in pairs' && nodeOf'[t].key.text == t
    {
      var i :| 0 <= i < |pairs| && pairs[i] == nodeOf[t];
      assert i != k;
      assert pairs'[if i < k then i else i - 1] == nodeOf[t];
    }
  }

  /** The map spelled out by the nodes. */
  ghost predicate Holds<K(0), V(0)>(nodeOf: map<K, Node<K, V>>, contents: map<K, Slot<K, V>>, nodes: set<Node<K, V>>)
    reads nodes`value
  {
    && nodeOf.Keys == contents.Keys
    && forall t {:trigger nodeOf[t]} :: t in nodeOf ==>
         nodeOf[t] in nodes && contents[t] == Slot(nodeOf[t].key, nodeOf[t].value)
  }

  method LinkBefore<K(0), V(0)>(at: Node<K, V>, node: Node<K, V>, ghost list: Node<K, V>, ghost pairs: seq<Node<K, V>>,
                          ghost nodes: set<Node<K, V>>, ghost p: nat)
    requires Distinct(pairs) && list !in pairs && Linked(Walk(list, pairs), nodes)
    requires node != list && node !in pairs && node in nodes
    requires p <= |pairs| && at == Walk(list, pairs)[p+1]
    modifies nodes`prev, nodes`next
    ensures Linked(Walk(list, Insert(pairs, p, node)), nodes)
    ensures forall n :: n in nodes && n != node && n != list && n !in pairs ==> n.next == old(n.next)
  {
    WalkClosed(list, pairs);
    WalkInsert(list, pairs, p, node);
    assert Walk(list, pairs)[p] in nodes;
    ListInsert(at, node, Walk(list, pairs), nodes, p + 1);
  }

  method Unlink<K(0), V(0)>(node: Node<K, V>, ghost list: Node<K, V>, ghost pairs: seq<Node<K, V>>,
                      ghost nodes: set<Node<K, V>>, ghost k: nat)
    requires Distinct(pairs) && list !in pairs && Linked(Walk(list, pairs), nodes)
    requires k < |pairs| && node == pairs[k]
    modifies nodes`prev, nodes`next
    ensures Linked(Walk(list, Without(pairs, k)), nodes)
  {
    WalkClosed(list, pairs);
    WalkWithout(list, pairs, k);
    assert Walk(list, pairs)[k] in nodes && Walk(list, pairs)[k+2] in nodes;
    ListRemove(node, Walk(list, pairs), nodes, k + 1);
  }

  lemma WalkNext<K(0), V(0)>(list: Node<K, V>, pairs: seq<Node<K, V>>, nodes: set<Node<K, V>>, i: nat)
    requires Linked(Walk(list, pairs), nodes) && i + 1 < |pairs|
    ensures pairs[i].next == pairs[i+1]
  {
    assert Walk(list, pairs)[i+1].next == Walk(list, pairs)[i+2];
  }

  /** The loop of hashtable_find_pair. */
  method ScanWindow<K(==, 0), V(0)>(list: Node<K, V>, bucket: Bucket<K, V>, text: K, hash: nat, ghost pairs: seq<Node<K, V>>,
                          ghost nodes: set<Node<K, V>>, ghost lo: nat, ghost hi: nat) returns (pair: Node?<K, V>)
    requires lo < hi <= |pairs| && bucket.first == pairs[lo] && bucket.last == pairs[hi-1]
    requires forall j :: lo <= j < hi && pairs[j] == bucket.last ==> j == hi - 1
    requires Linked(Walk(list, pairs), nodes)
    ensures pair == null ==> forall j :: lo <= j < hi ==> !(pairs[j].hash == hash && pairs[j].key.text == text)
    ensures pair != null ==> pair in pairs && pair.key.text == text
  {
    hide Linked, Walk;
    var l := bucket.first;
    ghost var i := lo;
    while true
      invariant lo <= i < hi && l == pairs[i]
      invariant forall j :: lo <= j < i ==> !(pairs[j].hash == hash && pairs[j].key.text == text)
      decreases hi - i
    {
      if l.hash == hash && l.key.text == text {
        return l;
      }
      if l == bucket.last {
        break;
      }
      WalkNext(list, pairs, nodes, i);
      l := l.next;
      i := i + 1;
    }
    return null;
  }

  /** From ring position i on, the old ring can still be walked to its end. */
  ghost predicate Unwalked<K(0), V(0)>(list: Node<K, V>, was: seq<Node<K, V>>, nodes: set<Node<K, V>>, i: nat)
    reads nodes`next
  {
    && (forall j :: 0 <= j < |was| ==> was[j] in nodes)
    && (forall j {:trigger was[j].next} :: i <= j < |was| ==> was[j].next == Walk(list, was)[j+2])
  }

  lemma WalkOn<K(0), V(0)>(list: Node<K, V>, pairs: seq<Node<K, V>>, nodes: set<Node<K, V>>)
    requires Linked(Walk(list, pairs), nodes)
    ensures list.next == Walk(list, pairs)[1] && Unwalked(list, pairs, nodes, 0)
  {
    var walk := Walk(list, pairs);
    assert walk[0].next == walk[1];
    forall j | 0 <= j < |pairs|
      ensures pairs[j] in nodes && pairs[j].next == walk[j+2]
    {
      assert walk[j+1] in nodes && walk[j+1].next == walk[j+2];
    }
  }

  /** The same nodes, in whatever order. */
  ghost predicate SameNodes<T>(s: seq<T>, t: seq<T>) {
    |s| == |t| && (forall x <- s :: x in t) && (forall x <- t :: x in s)
  }

  lemma EmptyShape<K(0), V(0)>(n: nat, bs: seq<Bucket<K, V>>, list: Node<K, V>)
    requires n > 0 && |bs| == n && forall b :: 0 <= b < n ==> bs[b] == Bucket(list, list)
    ensures Shape([], n, bs, list, seq(n, _ => 0), seq(n, _ => 0))
  {
  }

  lemma IndexedMoved<K(0), V(0)>(hashKey: K -> nat, was: seq<Node<K, V>>, pairs: seq<Node<K, V>>, nodeOf: map<K, Node<K, V>>)
    requires Indexed(hashKey, was, nodeOf) && SameNodes(was, pairs)
    ensures Indexed(hashKey, pairs, nodeOf)
  {
    IndexedFacts(hashKey, was, nodeOf);
    forall i | 0 <= i < |pairs|
      ensures pairs[i].key.text in nodeOf && nodeOf[pairs[i].key.text] == pairs[i]
      ensures pairs[i].hash == hashKey(pairs[i].key.text)
    {
      assert pairs[i] in was;
      var j :| 0 <= j < |was| && was[j] == pairs[i];
    }
  }

  lemma NothingHeld<K(0), V(0)>(hashKey: K -> nat, nodes: set<Node<K, V>>)
    ensures var none: map<K, Node<K, V>> := map[]; Indexed(hashKey, [], none) && Holds(none, map[], nodes)
  {
  }

  /** The work done so far: pairs inserted, pairs relinked by rehashes, and the
      number relinked by the latest rehash. */
  datatype Costs = Costs(inserts: nat, relinked: nat, latest: nat)

  /** With n buckets, the load stays at most one, and rehashing is paid for by inserts. */
  ghost predicate Accounts(n: nat, size: nat, costs: Costs) {
    && size <= n && size <= costs.inserts
    && costs.relinked <= 3 * costs.latest && costs.latest <= costs.inserts && 3 * costs.latest <= 2 * n
  }

  /** Each prime is at least half as large again as the one before it. */
  lemma PrimesGrow(k: nat)
    requires k + 1 < NPRIMES
    ensures 3 * Prime(k) <= 2 * Prime(k + 1)
  {
  }

  /** The ghost picture of a table: its ring, what its buckets hold, each bucket's
      window, the node of each text, and the nodes allocated so far. */
  datatype View<K(0), V(0)> = View(pairs: seq<Node<K, V>>, bs: seq<Bucket<K, V>>, lo: seq<nat>, hi: seq<nat>,
                             nodeOf: map<K, Node<K, V>>, nodes: set<Node<K, V>>)

  class HashTable<K(==, 0), V(0)> {
    var size: nat
    var buckets: array<Bucket<K, V>>
    var numBuckets: nat
    const list: Node<K, V>
    const hashKey: K -> nat

    /** The calls made to free_key and free_value so far. */
    var freed: seq<Release<K, V>>

    /** The finite map the table stands for, by key text. */
    ghost var contents: map<K, Slot<K, V>>

    ghost var view: View<K, V>
    ghost var costs: Costs
    ghost var Repr: set<object>

    /** The ring, its windows and the bucket array fit together. */
    ghost predicate Ring()
      reads this, Repr
    {
      && Repr == {this, buckets} + view.nodes && list in view.nodes
      && buckets.Length > 0 && buckets[..] == view.bs
      && Shape(view.pairs, |view.bs|, view.bs, list, view.lo, view.hi)
      && Linked(Walk(list, view.pairs), view.nodes)
    }

    ghost predicate Valid()
      reads this, Repr
      ensures Valid() ==> this in Repr
    {
      && Ring()
      && Indexed(hashKey, view.pairs, view.nodeOf)
      && Holds(view.nodeOf, contents, view.nodes)
      && size == |view.pairs|
      && numBuckets < NPRIMES && buckets.Length == Prime(numBuckets)
      && Accounts(buckets.Length, size, costs)
    }

    constructor Init(hashKey: K -> nat)
      ensures this.hashKey == hashKey
      ensures Valid() && fresh(Repr) && contents == map[]
      ensures freed == [] && costs == Costs(0, 0, 0)
    {
      this.hashKey := hashKey;
      size := 0;
      numBuckets := 0;
      var l := new Node<K, V>.Sentinel();
      list := l;
      buckets := new Bucket<K, V>[Prime(0)](_ => Bucket(l, l));
      freed := [];
      view := View([], seq(Prime(0), _ => Bucket(l, l)), seq(Prime(0), _ => 0), seq(Prime(0), _ => 0), map[], {l});
      contents := map[];
      costs := Costs(0, 0, 0);
      new;
      Repr := {this, buckets} + view.nodes;
      EmptyShape(Prime(0), view.bs, list);
    }

    function BucketIsEmpty(bucket: Bucket<K, V>): bool {
      bucket.first == list && bucket.first == bucket.last
    }

    method FindPair(index: nat, text: K, hash: nat) returns (pair: Node?<K, V>)
      requires Valid() && hash == hashKey(text) && index == Index(hash, buckets.Length)
      ensures pair == null <==> text !in contents
      ensures pair != null ==> text in view.nodeOf && pair == view.nodeOf[text]
    {
      TextInWindow(text);
      BucketEnds(index);
      if BucketIsEmpty(buckets[index]) {
        return null;
      }
      pair := ScanWindow(list, buckets[index], text, hash, view.pairs, view.nodes, view.lo[index], view.hi[index]);
    }

    /** A text's pair lies in the window of the bucket it hashes to. */
    lemma TextInWindow(text: K)
      requires Valid()
      ensures var b := Index(hashKey(text), buckets.Length);
              && view.lo[b] <= view.hi[b] <= |view.pairs|
              && (text in view.nodeOf ==> exists j :: view.lo[b] <= j < view.hi[b] && view.pairs[j] == view.nodeOf[text])
      ensures text in view.nodeOf <==> text in contents
      ensures text in view.nodeOf ==> view.nodeOf[text].hash == hashKey(text) && view.nodeOf[text].key.text == text
      ensures forall n :: n in view.pairs && n.key.text == text ==> text in view.nodeOf && n == view.nodeOf[text]
    {
      hide Linked, Distinct, Prime;
      IndexedFacts(hashKey, view.pairs, view.nodeOf);
      hide Indexed;
      var ix := Buckets(view.pairs, buckets.Length);
      if text in view.nodeOf {
        var j :| 0 <= j < |view.pairs| && view.pairs[j] == view.nodeOf[text];
        assert ix[j] == Index(hashKey(text), buckets.Length);
      }
    }

    lemma BucketEnds(b: nat)
      requires Ring() && b < buckets.Length
      ensures |view.lo| == |view.hi| == |view.bs| == buckets.Length && view.bs[b] == buckets[b]
      ensures End(view.pairs, buckets[b], list, view.lo[b], view.hi[b])
      ensures BucketIsEmpty(buckets[b]) <==> view.lo[b] == view.hi[b]
      ensures forall j :: view.lo[b] <= j < view.hi[b] && view.pairs[j] == buckets[b].last ==> j == view.hi[b] - 1
    {
      assert buckets[..][b] == buckets[b];
      if view.lo[b] < view.hi[b] {
        Unique(view.pairs, view.hi[b] - 1);
      }
    }

    method Get(text: K) returns (r: Option<V>)
      requires Valid()
      ensures r == if text in contents then Some(contents[text].value) else None
    {
      var hash := hashKey(text);
      var pair := FindPair(Index(hash, buckets.Length), text, hash);
      r := if pair == null then None else Some(pair.value);
    }

    /** insert_to_bucket: in front of the window, or at the ring's end if it is empty. */
    method InsertToBucket(index: nat, node: Node<K, V>)
      requires Ring() && index == Index(node.hash, buckets.Length)
      requires node in view.nodes && node != list && node !in view.pairs
      modifies this`view, buckets, view.nodes`prev, view.nodes`next
      ensures Ring() && view.nodes == old(view).nodes && view.nodeOf == old(view).nodeOf
      ensures view.pairs == Insert(old(view).pairs, InsertAt(old(view).lo, old(view).hi, index, |old(view).pairs|), node)
      ensures forall n :: n in view.nodes && n != node && n != list && n !in old(view).pairs ==> n.next == old(n.next)
    {
      hide Shape, Linked, Walk, InsertAt;
      RingDistinct();
      InsertPlace(index);
      ghost var p := InsertAt(view.lo, view.hi, index, |view.pairs|);
      ShapeInsert(view.pairs, |view.bs|, view.bs, list, view.lo, view.hi, node);
      var at, last := list, node;
      if !BucketIsEmpty(buckets[index]) {
        at, last := buckets[index].first, buckets[index].last;
      }
      LinkBefore(at, node, list, view.pairs, view.nodes, p);
      buckets[index] := Bucket(node, last);
      view := view.(pairs := Insert(view.pairs, p, node), bs := view.bs[index := Bucket(node, last)],
                    lo := LoAfterInsert(view.lo, view.hi, index, p), hi := HiAfterInsert(view.lo, view.hi, index, p));
    }

    /** What the new node comes to stand in front of. */
    lemma InsertPlace(index: nat)
      requires Ring() && index < buckets.Length
      ensures |view.lo| == |view.hi| == |view.bs| == buckets.Length && view.bs[index] == buckets[index]
      ensures BucketIsEmpty(buckets[index]) <==> view.lo[index] == view.hi[index]
      ensures var p := InsertAt(view.lo, view.hi, index, |view.pairs|);
              p <= |view.pairs|
              && (if BucketIsEmpty(buckets[index]) then list else buckets[index].first) == Walk(list, view.pairs)[p+1]
    {
      BucketEnds(index);
    }

    /** hashtable_do_rehash: the same nodes, relinked while the old ring is walked. */
    method Rehash()
      requires Valid() && size == buckets.Length && numBuckets + 1 < NPRIMES
      modifies this`numBuckets, this`buckets, this`view, this`costs, this`Repr, view.nodes`prev, view.nodes`next
      ensures Valid() && fresh(Repr - old(Repr)) && size < buckets.Length
      ensures numBuckets == old(numBuckets) + 1 && view.nodes == old(view).nodes
      ensures view.nodeOf == old(view).nodeOf && SameNodes(old(view).pairs, view.pairs)
      ensures costs == old(costs).(relinked := old(costs).relinked + size, latest := size)
    {
      hide Shape, Linked, Walk, Indexed, Holds, Unwalked;
      ghost var was := view.pairs;
      RingDistinct();
      var l := StartRehash();
      ghost var relinks := RelinkAll(l, was);
      IndexedMoved(hashKey, was, view.pairs, view.nodeOf);
      PrimesGrow(old(numBuckets));
      costs := costs.(relinked := costs.relinked + relinks, latest := relinks);
    }

    lemma RingDistinct()
      requires Ring()
      ensures Distinct(view.pairs) && list !in view.pairs
    {
    }

    /** A larger, empty bucket array and an empty ring; the old nodes still lead to the sentinel. */
    method StartRehash() returns (l: Node<K, V>)
      requires Ring() && numBuckets + 1 < NPRIMES
      modifies this`numBuckets, this`buckets, this`view, this`Repr, list`prev, list`next
      ensures Ring() && fresh(buckets) && view.nodes == old(view).nodes && view.nodeOf == old(view).nodeOf
      ensures numBuckets == old(numBuckets) + 1 && buckets.Length == Prime(numBuckets) && view.pairs == []
      ensures l == Walk(list, old(view).pairs)[1] && Unwalked(list, old(view).pairs, view.nodes, 0)
    {
      hide Shape, Linked;
      WalkOn(list, view.pairs, view.nodes);
      RingDistinct();
      numBuckets := numBuckets + 1;
      var newSize := Prime(numBuckets);
      buckets := new Bucket<K, V>[newSize](_ => Bucket(list, list));
      l := list.next;
      Repr := {this, buckets} + view.nodes;
      LoopBack(view.nodeOf);
    }

    /** An empty ring, for empty buckets. */
    method LoopBack(ghost nodeOf: map<K, Node<K, V>>)
      requires buckets.Length > 0 && list in view.nodes && Repr == {this, buckets} + view.nodes
      requires forall b :: 0 <= b < buckets.Length ==> buckets[b] == Bucket(list, list)
      modifies this`view, list`prev, list`next
      ensures Ring() && view.pairs == [] && view.nodeOf == nodeOf && view.nodes == old(view).nodes
    {
      list.next := list;
      list.prev := list;
      ghost var n := buckets.Length;
      EmptyShape(n, buckets[..], list);
      view := View([], buckets[..], seq(n, _ => 0), seq(n, _ => 0), nodeOf, view.nodes);
    }

    /** The walk over the old ring, and how many nodes it relinks. */
    method RelinkAll(first: Node<K, V>, ghost was: seq<Node<K, V>>) returns (ghost relinks: nat)
      requires Ring() && view.pairs == [] && Distinct(was) && list !in was
      requires first == Walk(list, was)[1] && Unwalked(list, was, view.nodes, 0)
      modifies this`view, buckets, view.nodes`prev, view.nodes`next
      ensures Ring() && view.nodes == old(view).nodes && view.nodeOf == old(view).nodeOf && SameNodes(was, view.pairs)
      ensures relinks == |was|
    {
      hide Shape, Linked, Unwalked;
      var l := first;
      relinks := 0;
      while l != list
        invariant relinks <= |was| && l == Walk(list, was)[relinks+1] && Unwalked(list, was, view.nodes, relinks)
        invariant Ring() && view.nodes == old(view).nodes && view.nodeOf == old(view).nodeOf
        invariant SameNodes(was[..relinks], view.pairs)
        decreases |was| - relinks
      {
        l := RelinkOne(l, was, relinks);
        relinks := relinks + 1;
      }
      assert was[..relinks] == was;
    }

    method RelinkOne(l: Node<K, V>, ghost was: seq<Node<K, V>>, ghost i: nat) returns (next: Node<K, V>)
      requires Ring() && Distinct(was) && list !in was
      requires i < |was| && l == was[i] && Unwalked(list, was, view.nodes, i)
      requires SameNodes(was[..i], view.pairs)
      modifies this`view, buckets, view.nodes`prev, view.nodes`next
      ensures Ring() && view.nodes == old(view).nodes && view.nodeOf == old(view).nodeOf
      ensures SameNodes(was[..i+1], view.pairs)
      ensures next == Walk(list, was)[i+2] && Unwalked(list, was, view.nodes, i + 1)
    {
      next := l.next;
      Unique(was, i);
      assert l !in view.pairs by { assert l !in was[..i]; }
      forall j | i < j < |was|
        ensures was[j] !in view.pairs
      {
        Unique(was, j);
        assert was[j] !in was[..i];
      }
      var index := Index(l.hash, buckets.Length);
      SameNodesInsert(was, view.pairs, i, InsertAt(view.lo, view.hi, index, |view.pairs|));
      InsertToBucket(index, l);
    }

    /** hashtable_set. The prime table must not be exhausted by the rehash. */
    method Set(key: ObjectKey<K>, value: V)
      requires Valid() && (size < buckets.Length || numBuckets + 1 < NPRIMES)
      modifies Repr
      ensures Valid() && fresh(Repr - old(Repr))
      ensures contents == SetSpec(old(contents), key, value)
      ensures key.text in contents && contents[key.text].value == value
      ensures contents[key.text].key == if key.text in old(contents) then old(contents)[key.text].key else key
      ensures contents.Keys == old(contents).Keys + {key.text}
      ensures forall t :: t in old(contents) && t != key.text ==> contents[t] == old(contents)[t]
      ensures freed == old(freed) + if key.text in old(contents)
                                    then [KeyFreed(key), ValueFreed(old(contents)[key.text].value)] else []
      ensures numBuckets == old(numBuckets) + if old(size) >= old(buckets.Length) then 1 else 0
      ensures costs.relinked == old(costs).relinked + if old(size) >= old(buckets.Length) then old(size) else 0
      ensures costs.inserts == old(costs).inserts + if key.text in old(contents) then 0 else 1
    {
      hide Shape, Linked, Walk, Indexed, SetSpec, Prime;
      if size >= buckets.Length {
        Rehash();
      }
      Put(key, value);
    }

    /** The part of hashtable_set after the rehash. */
    method Put(key: ObjectKey<K>, value: V)
      requires Valid() && size < buckets.Length
      modifies Repr
      ensures Valid() && fresh(Repr - old(Repr)) && numBuckets == old(numBuckets)
      ensures contents == SetSpec(old(contents), key, value)
      ensures freed == old(freed) + if key.text in old(contents)
                                    then [KeyFreed(key), ValueFreed(old(contents)[key.text].value)] else []
      ensures costs.relinked == old(costs).relinked
      ensures costs.inserts == old(costs).inserts + if key.text in old(contents) then 0 else 1
    {
      hide Shape, Linked, Walk, Indexed, Prime;
      var hash := hashKey(key.text);
      var index := Index(hash, buckets.Length);
      var pair := FindPair(index, key.text, hash);
      if pair != null {
        Replace(pair, key, value);
      } else {
        var node := new Node<K, V>.Pair(key, value, hash);
        Add(index, node);
      }
    }

    method Replace(pair: Node<K, V>, key: ObjectKey<K>, value: V)
      requires Valid() && key.text in view.nodeOf && pair == view.nodeOf[key.text]
      modifies pair`value, this`contents, this`freed
      ensures Valid()
      ensures contents == old(contents)[key.text := Slot(old(contents)[key.text].key, value)]
      ensures freed == old(freed) + [KeyFreed(key), ValueFreed(old(contents)[key.text].value)]
    {
      OneText(hashKey, view.pairs, view.nodeOf, key.text);
      freed := freed + [KeyFreed(key), ValueFreed(pair.value)];
      pair.value := value;
      contents := contents[key.text := Slot(pair.key, value)];
    }

    method Enlist(index: nat, node: Node<K, V>)
      requires Ring() && index == Index(node.hash, buckets.Length) && node !in view.nodes
      requires node !in view.pairs && Indexed(hashKey, view.pairs, view.nodeOf)
      requires node.key.text !in view.nodeOf && node.hash == hashKey(node.key.text)
      modifies this`view, this`Repr, buckets, view.nodes`prev, view.nodes`next, node
      ensures Ring() && Repr == old(Repr) + {node} && node.value == old(node.value)
      ensures view.nodes == old(view).nodes + {node} && view.nodeOf == old(view).nodeOf[node.key.text := node]
      ensures Indexed(hashKey, view.pairs, view.nodeOf) && |view.pairs| == |old(view).pairs| + 1
    {
      IndexedInsert(hashKey, view.pairs, view.nodeOf, InsertAt(view.lo, view.hi, index, |view.pairs|), node);
      LinkedMore(Walk(list, view.pairs), view.nodes, view.nodes + {node});
      view := view.(nodes := view.nodes + {node}, nodeOf := view.nodeOf[node.key.text := node]);
      Repr := Repr + {node};
      InsertToBucket(index, node);
    }

    method Add(index: nat, node: Node<K, V>)
      requires Valid() && size < buckets.Length && node !in Repr && node !in view.pairs && node.key.text !in contents
      requires node.hash == hashKey(node.key.text) && index == Index(node.hash, buckets.Length)
      modifies this`view, this`contents, this`costs, this`Repr, this`size, buckets, view.nodes`prev, view.nodes`next, node
      ensures Valid() && Repr == old(Repr) + {node}
      ensures contents == old(contents)[node.key.text := Slot(node.key, old(node.value))]
      ensures costs == old(costs).(inserts := old(costs).inserts + 1)
    {
      Enlist(index, node);
      size := size + 1;
      contents := contents[node.key.text := Slot(node.key, node.value)];
      costs := costs.(inserts := costs.inserts + 1);
    }

    /** hashtable_del: false stands for the source's -1. */
    method Del(text: K) returns (found: bool)
      requires Valid()
      modifies Repr
      ensures Valid() && Repr == old(Repr)
      ensures found <==> text in old(contents)
      ensures contents == old(contents) - {text}
      ensures freed == old(freed) + if found then [KeyFreed(old(contents)[text].key), ValueFreed(old(contents)[text].value)] else []
      ensures numBuckets == old(numBuckets) && costs == old(costs)
    {
      var hash := hashKey(text);
      var index := Index(hash, buckets.Length);
      var pair := FindPair(index, text, hash);
      if pair == null {
        return false;
      }
      Drop(index, pair, text);
      return true;
    }

    method Drop(index: nat, pair: Node<K, V>, ghost text: K)
      requires Valid() && text in view.nodeOf && pair == view.nodeOf[text]
      requires index == Index(hashKey(text), buckets.Length)
      modifies this`view, this`contents, this`freed, this`size, buckets, view.nodes`prev, view.nodes`next
      ensures Valid() && Repr == old(Repr) && contents == old(contents) - {text}
      ensures freed == old(freed) + [KeyFreed(old(contents)[text].key), ValueFreed(old(contents)[text].value)]
    {
      ghost var k := Position(hashKey, view.pairs, view.nodeOf, text);
      freed := freed + [KeyFreed(pair.key), ValueFreed(pair.value)];
      contents := contents - {text};
      Unhook(index, pair, k);
      size := size - 1;
    }

    /** Takes one pair out of its bucket and out of the ring. */
    method Unhook(index: nat, pair: Node<K, V>, ghost k: nat)
      requires Ring() && Indexed(hashKey, view.pairs, view.nodeOf)
      requires k < |view.pairs| && pair == view.pairs[k] && index == Index(pair.hash, buckets.Length)
      modifies this`view, buckets, view.nodes`prev, view.nodes`next
      ensures Ring() && Indexed(hashKey, view.pairs, view.nodeOf)
      ensures view.nodes == old(view).nodes && view.nodeOf == old(view).nodeOf - {pair.key.text}
      ensures |view.pairs| == |old(view).pairs| - 1
    {
      BucketEnds(index);
      ShapeRemove(view.pairs, |view.bs|, view.bs, list, view.lo, view.hi, k);
      IndexedWithout(hashKey, view.pairs, view.nodeOf, k);
      assert Walk(list, view.pairs)[k+1] == pair;
      var bucket := buckets[index];
      if pair == bucket.first && pair == bucket.last {
        bucket := Bucket(list, list);
      } else if pair == bucket.first {
        bucket := Bucket(pair.next, bucket.last);
      } else if pair == bucket.last {
        bucket := Bucket(bucket.first, pair.prev);
      }
      assert bucket == BucketAfterRemove(view.pairs, view.bs[index], list, k);
      Unlink(pair, list, view.pairs, view.nodes, k);
      buckets[index] := bucket;
      view := view.(pairs := Without(view.pairs, k), bs := view.bs[index := bucket], nodeOf := view.nodeOf - {pair.key.text},
                    lo := LoAfterRemove(view.lo, view.hi, index, k), hi := HiAfterRemove(view.lo, view.hi, index, k));
    }

    /** hashtable_iter: the first pair, or null. */
    method Iter() returns (iter: Node?<K, V>)
      requires Valid()
      ensures iter == if view.pairs == [] then null else view.pairs[0]
    {
      iter := IterNext(list, -1);
    }

    /** hashtable_iter_next; the sentinel stands before position 0. */
    method IterNext(iter: Node<K, V>, ghost i: int) returns (next: Node?<K, V>)
      requires Valid() && -1 <= i < |view.pairs| && iter == Walk(list, view.pairs)[i+1]
      ensures next == if i + 1 == |view.pairs| then null else view.pairs[i+1]
    {
      assert iter.next == Walk(list, view.pairs)[i+2];
      if iter.next == list {
        return null;
      }
      return iter.next;
    }

    /** hashtable_iter_set: the value under a live iterator is freed and replaced. */
    method IterSet(iter: Node<K, V>, value: V)
      requires Valid() && iter.key.text in view.nodeOf && iter == view.nodeOf[iter.key.text]
      modifies iter`value, this`contents, this`freed
      ensures Valid()
      ensures contents == old(contents)[iter.key.text := Slot(old(contents)[iter.key.text].key, value)]
      ensures freed == old(freed) + [ValueFreed(old(contents)[iter.key.text].value)]
    {
      OneText(hashKey, view.pairs, view.nodeOf, iter.key.text);
      freed := freed + [ValueFreed(iter.value)];
      iter.value := value;
      contents := contents[iter.key.text := Slot(iter.key, value)];
    }

    /** The walk of hashtable_do_clear: the calls that free every pair, in ring order. */
    method FreeingCalls() returns (calls: seq<Release<K, V>>, ghost slots: seq<Slot<K, V>>)
      requires Valid()
      ensures Lists(slots, contents) && calls == Releases(slots)
    {
      slots := [];
      calls := [];
      WalkOn(list, view.pairs, view.nodes);
      var l := list.next;
      ghost var i := 0;
      while l != list
        invariant |slots| == i <= |view.pairs| && l == Walk(list, view.pairs)[i+1]
        invariant forall j :: 0 <= j < i ==> slots[j] == Slot(view.pairs[j].key, view.pairs[j].value)
        invariant calls == Releases(slots)
        decreases |view.pairs| - i
      {
        assert l == view.pairs[i];
        var next := l.next;
        calls := calls + [KeyFreed(l.key), ValueFreed(l.value)];
        slots := slots + [Slot(l.key, l.value)];
        assert slots[..i] + [Slot(l.key, l.value)] == slots;
        l := next;
        i := i + 1;
      }
      AllListed(slots);
    }

    /** hashtable_clear: the bucket array keeps its size. */
    method Clear() returns (ghost slots: seq<Slot<K, V>>)
      requires Valid()
      modifies Repr
      ensures Valid() && Repr == old(Repr) && contents == map[]
      ensures Lists(slots, old(contents)) && freed == old(freed) + Releases(slots)
      ensures numBuckets == old(numBuckets) && costs == old(costs)
    {
      hide Shape, Linked, Walk, Lists, Releases, Prime, Indexed, Holds;
      var calls;
      calls, slots := FreeingCalls();
      freed := freed + calls;
      contents := map[];
      EmptyRing();
      size := 0;
      NothingHeld(hashKey, view.nodes);
    }

    method EmptyRing()
      requires Ring()
      modifies this`view, buckets, list`prev, list`next
      ensures Ring() && view.pairs == [] && view.nodeOf == map[] && view.nodes == old(view).nodes
    {
      hide Shape, Linked;
      ResetBuckets();
      LoopBack(map[]);
    }

    method ResetBuckets()
      modifies buckets
      ensures forall b :: 0 <= b < buckets.Length ==> buckets[b] == Bucket(list, list)
    {
      for i := 0 to buckets.Length
        invariant forall b :: 0 <= b < i ==> buckets[b] == Bucket(list, list)
      {
        buckets[i] := Bucket(list, list);
      }
    }

    /** hashtable_iter_at. */
    method IterAt(text: K) returns (iter: Node?<K, V>)
      requires Valid()
      ensures iter == null <==> text !in contents
      ensures iter != null ==> iter in view.pairs && Slot(iter.key, iter.value) == contents[text] && iter.key.text == text
    {
      var hash := hashKey(text);
      iter := FindPair(Index(hash, buckets.Length), text, hash);
      TextInWindow(text);
    }

    /** The iteration of do_dump: every live pair exactly once. */
    method Collect() returns (slots: seq<Slot<K, V>>)
      requires Valid()
      ensures Lists(slots, contents)
    {
      hide Shape, Linked, Indexed, Holds, Lists;
      slots := [];
      var iter := Iter();
      ghost var i := 0;
      while iter != null
        invariant |slots| == i <= |view.pairs|
        invariant iter == if i == |view.pairs| then null else view.pairs[i]
        invariant forall j :: 0 <= j < i ==> slots[j] == Slot(view.pairs[j].key, view.pairs[j].value)
        decreases |view.pairs| - i
      {
        slots := slots + [Slot(iter.key, iter.value)];
        iter := IterNext(iter, i);
        i := i + 1;
      }
      AllListed(slots);
    }

    /** The prime table lasts as long as there are fewer pairs than its last prime. */
    lemma Room()
      requires Valid() && |contents| < MAX_PRIME
      ensures size < buckets.Length || numBuckets + 1 < NPRIMES
    {
      IndexedSize(hashKey, view.pairs, view.nodeOf);
      assert |view.nodeOf.Keys| == |contents.Keys|;
      LastPrime(numBuckets);
    }

    lemma AllListed(slots: seq<Slot<K, V>>)
      requires Valid() && |slots| == |view.pairs|
      requires forall j :: 0 <= j < |slots| ==> slots[j] == Slot(view.pairs[j].key, view.pairs[j].value)
      ensures Lists(slots, contents)
    {
      IndexedFacts(hashKey, view.pairs, view.nodeOf);
      IndexedSize(hashKey, view.pairs, view.nodeOf);
      assert |view.nodeOf.Keys| == |contents.Keys|;
      forall j, k | 0 <= j < k < |slots|
        ensures slots[j].key.text != slots[k].key.text
      {
        Unique(view.pairs, k);
        assert view.pairs[j] != view.pairs[k];
      }
    }
  }

  /** The calls that free a list of pairs, in order. */
  ghost function Releases<K, V>(slots: seq<Slot<K, V>>): seq<Release<K, V>> {
    if slots == [] then []
    else var k := |slots| - 1; Releases(slots[..k]) + [KeyFreed(slots[k].key), ValueFreed(slots[k].value)]
  }

  /** The slots of a map, each exactly once. */
  ghost predicate Lists<K, V>(slots: seq<Slot<K, V>>, m: map<K, Slot<K, V>>) {
    && |slots| == |m|
    && (forall j :: 0 <= j < |slots| ==> slots[j].key.text in m && m[slots[j].key.text] == slots[j])
    && (forall j, k :: 0 <= j < k < |slots| ==> slots[j].key.text != slots[k].key.text)
  }

  /** hashtable_set on a plain map: a text already present keeps its stored key. */
  function SetSpec<K, V>(m: map<K, Slot<K, V>>, key: ObjectKey<K>, value: V): (r: map<K, Slot<K, V>>)
    ensures r.Keys == m.Keys + {key.text}
    ensures r[key.text].value == value && r[key.text].key == if key.text in m then m[key.text].key else key
    ensures forall t :: t in m && t != key.text ==> r[t] == m[t]
  {
    m[key.text := Slot(if key.text in m then m[key.text].key else key, value)]
  }

  // ------------------------------------------------------------- whole runs

  datatype Op<K, V> = SetOp(key: ObjectKey<K>, value: V) | GetOp(text: K) | DelOp(text: K) | ClearOp

  datatype Reply<V> = Done | Found(value: Option<V>) | Deleted(found: bool)

  /** One operation on a plain map. */
  function ApplyOp<K, V>(op: Op<K, V>, m: map<K, Slot<K, V>>): (map<K, Slot<K, V>>, Reply<V>) {
    match op
    case SetOp(key, value) => (SetSpec(m, key, value), Done)
    case GetOp(t) => (m, Found(if t in m then Some(m[t].value) else None))
    case DelOp(t) => (m - {t}, Deleted(t in m))
    case ClearOp => (map[], Done)
  }

  /** The map after a run of operations, and what each of them replied. */
  function ApplyOps<K, V>(ops: seq<Op<K, V>>): (map<K, Slot<K, V>>, seq<Reply<V>>) {
    if ops == [] then (map[], [])
    else
      var k := |ops| - 1;
      var (m, replies) := ApplyOps(ops[..k]);
      var (m', reply) := ApplyOp(ops[k], m);
      (m', replies + [reply])
  }

  // ------------------------------------------------------------- histories

  /** The operations that decide what is under a text. */
  predicate Decides<K(==), V>(op: Op<K, V>, text: K) {
    match op
    case SetOp(key, _) => key.text == text
    case GetOp(_) => false
    case DelOp(t) => t == text
    case ClearOp => true
  }

  /** Of the first n operations, number j is the last to decide what is under the text, and
      it sets it. */
  ghost predicate LastSet<K, V>(ops: seq<Op<K, V>>, n: nat, text: K, j: nat)
    requires n <= |ops|
  {
    j < n && ops[j].SetOp? && ops[j].key.text == text && forall k :: j < k < n ==> !Decides(ops[k], text)
  }

  /** Of the first n operations, number j sets a text that was absent, and which has been
      neither deleted nor cleared away since. */
  ghost predicate FirstSet<K, V>(ops: seq<Op<K, V>>, n: nat, text: K, j: nat)
    requires n <= |ops|
  {
    && j < n && ops[j].SetOp? && ops[j].key.text == text
    && (forall k :: j < k < n && Decides(ops[k], text) ==> ops[k].SetOp?)
    && !exists i: nat :: LastSet(ops, j, text, i)
  }

  /** A text is present as long as its last set has not been undone, with the value of that
      set and the key of the first one. */
  ghost predicate Remembers<K, V>(ops: seq<Op<K, V>>, n: nat, m: map<K, Slot<K, V>>, text: K)
    requires n <= |ops|
  {
    && (text in m <==> exists j: nat :: LastSet(ops, n, text, j))
    && (forall j: nat :: LastSet(ops, n, text, j) ==> text in m && m[text].value == ops[j].value)
    && (text in m ==> exists j: nat :: FirstSet(ops, n, text, j))
    && (forall j: nat :: FirstSet(ops, n, text, j) ==> text in m && m[text].key == ops[j].key)
  }

  lemma Undecided<K, V>(ops: seq<Op<K, V>>, n: nat, text: K, j: nat)
    requires n < |ops| && !Decides(ops[n], text)
    ensures LastSet(ops, n + 1, text, j) <==> LastSet(ops, n, text, j)
    ensures FirstSet(ops, n + 1, text, j) <==> FirstSet(ops, n, text, j)
  {
  }

  lemma NewestSet<K, V>(ops: seq<Op<K, V>>, n: nat, text: K, j: nat)
    requires n < |ops| && ops[n].SetOp? && ops[n].key.text == text
    ensures LastSet(ops, n + 1, text, j) <==> j == n
  {
    assert Decides(ops[n], text);
  }

  lemma OldestSet<K, V>(ops: seq<Op<K, V>>, n: nat, text: K, j: nat)
    requires n < |ops| && ops[n].SetOp? && ops[n].key.text == text
    ensures FirstSet(ops, n + 1, text, j) <==> FirstSet(ops, n, text, j) || (j == n && !exists i: nat :: LastSet(ops, n, text, i))
  {
    hide LastSet;
  }

  lemma SetDecides<K, V>(ops: seq<Op<K, V>>, n: nat, m: map<K, Slot<K, V>>, text: K)
    requires n < |ops| && Remembers(ops, n, m, text) && ops[n].SetOp? && ops[n].key.text == text
    ensures Remembers(ops, n + 1, ApplyOp(ops[n], m).0, text)
  {
    hide LastSet, FirstSet, SetSpec;
    forall j: nat
      ensures LastSet(ops, n + 1, text, j) <==> j == n
      ensures FirstSet(ops, n + 1, text, j) <==> FirstSet(ops, n, text, j) || (j == n && text !in m)
    {
      NewestSet(ops, n, text, j);
      OldestSet(ops, n, text, j);
    }
    assert LastSet(ops, n + 1, text, n);
    if text in m {
      var j :| FirstSet(ops, n, text, j);
      assert FirstSet(ops, n + 1, text, j);
    } else {
      assert FirstSet(ops, n + 1, text, n);
    }
  }

  lemma StepRemembers<K, V>(ops: seq<Op<K, V>>, n: nat, m: map<K, Slot<K, V>>, text: K)
    requires n < |ops| && Remembers(ops, n, m, text)
    ensures Remembers(ops, n + 1, ApplyOp(ops[n], m).0, text)
  {
    if !Decides(ops[n], text) {
      forall j: nat
        ensures LastSet(ops, n + 1, text, j) <==> LastSet(ops, n, text, j)
        ensures FirstSet(ops, n + 1, text, j) <==> FirstSet(ops, n, text, j)
      {
        Undecided(ops, n, text, j);
      }
      hide LastSet, FirstSet;
      if text in m {
        var i :| LastSet(ops, n, text, i);
        var j :| FirstSet(ops, n, text, j);
        assert LastSet(ops, n + 1, text, i) && FirstSet(ops, n + 1, text, j);
      }
    } else if ops[n].SetOp? {
      SetDecides(ops, n, m, text);
    }
  }

  /** The map after a run, told from the history of each text. */
  lemma {:induction false} RunRemembers<K, V>(ops: seq<Op<K, V>>, n: nat, text: K)
    requires n <= |ops|
    ensures |ApplyOps(ops[..n]).1| == n && Remembers(ops, n, ApplyOps(ops[..n]).0, text)
  {
    if n == 0 {
      assert ops[..n] == [];
    } else {
      RunRemembers(ops, n - 1, text);
      OneMore(ops, n);
      StepRemembers(ops, n - 1, ApplyOps(ops[..n-1]).0, text);
      hide ApplyOps, ApplyOp, Remembers;
    }
  }

  lemma OneMore<K, V>(ops: seq<Op<K, V>>, n: nat)
    requires 0 < n <= |ops|
    ensures var (m, reply) := ApplyOp(ops[n-1], ApplyOps(ops[..n-1]).0);
            ApplyOps(ops[..n]) == (m, ApplyOps(ops[..n-1]).1 + [reply])
  {
    assert ops[..n][..n-1] == ops[..n-1];
  }

  lemma {:induction false} Replies<K, V>(ops: seq<Op<K, V>>, n: nat, i: nat)
    requires i < n <= |ops|
    ensures |ApplyOps(ops[..n]).1| == n && ApplyOps(ops[..n]).1[i] == ApplyOp(ops[i], ApplyOps(ops[..i]).0).1
  {
    assert ops[..n][..n-1] == ops[..n-1];
    if i < n - 1 {
      Replies(ops, n - 1, i);
    } else if n > 1 {
      Replies(ops, n - 1, 0);
    }
  }

  /** In any run, a look-up finds the value of the last set of its text that has not been
      undone, and nothing if there is none; a deletion tells whether there was one. */
  lemma RunAnswers<K, V>(ops: seq<Op<K, V>>, i: nat)
    requires i < |ops|
    ensures |ApplyOps(ops).1| == |ops| && Answers(ops, i, ApplyOps(ops).1[i])
  {
    assert ops[..|ops|] == ops;
    Replies(ops, |ops|, i);
    match ops[i]
    case GetOp(t) => RunRemembers(ops, i, t);
    case DelOp(t) => RunRemembers(ops, i, t);
    case _ =>
  }

  /** What operation i is to reply, told from the operations before it. */
  ghost predicate Answers<K, V>(ops: seq<Op<K, V>>, i: nat, reply: Reply<V>)
    requires i < |ops|
  {
    match ops[i]
    case GetOp(t) =>
      && reply.Found? && (forall j: nat :: LastSet(ops, i, t, j) ==> reply.value == Some(ops[j].value))
      && (reply.value.Some? ==> exists j: nat :: LastSet(ops, i, t, j))
    case DelOp(t) => reply == Deleted(exists j: nat :: LastSet(ops, i, t, j))
    case _ => reply == Done
  }

  method Step<K(==, 0), V(0)>(table: HashTable<K, V>, op: Op<K, V>) returns (reply: Reply<V>)
    requires table.Valid() && (op.SetOp? ==> |table.contents| < MAX_PRIME)
    modifies table.Repr
    ensures table.Valid() && fresh(table.Repr - old(table.Repr))
    ensures (table.contents, reply) == ApplyOp(op, old(table.contents))
    ensures table.costs.inserts <= old(table.costs).inserts + 1
  {
    match op
    case SetOp(key, value) =>
      table.Room();
      table.Set(key, value);
      reply := Done;
    case GetOp(t) =>
      var r := table.Get(t);
      reply := Found(r);
    case DelOp(t) =>
      var found := table.Del(t);
      reply := Deleted(found);
    case ClearOp =>
      ghost var slots := table.Clear();
      reply := Done;
  }

  const MAX_PRIME: nat := 1610612741

  lemma LastPrime(k: nat)
    requires k < NPRIMES
    ensures k + 1 < NPRIMES || Prime(k) == MAX_PRIME
  {
  }

  /** Any run over a new table answers as the plain map does, and relinks at most three
      nodes for each one inserted. */
  method Run<K(==, 0), V(0)>(hashKey: K -> nat, ops: seq<Op<K, V>>) returns (table: HashTable<K, V>, replies: seq<Reply<V>>)
    requires forall i :: 0 <= i < |ops| && ops[i].SetOp? ==> |ApplyOps(ops[..i]).0| < MAX_PRIME
    ensures table.Valid() && (table.contents, replies) == ApplyOps(ops)
    ensures |replies| == |ops| && forall i :: 0 <= i < |ops| ==> Answers(ops, i, replies[i])
    ensures forall t :: Remembers(ops, |ops|, table.contents, t)
    ensures table.size <= table.buckets.Length
    ensures table.costs.relinked <= 3 * table.costs.inserts && table.costs.inserts <= |ops|
  {
    table := new HashTable<K, V>.Init(hashKey);
    replies := [];
    for i := 0 to |ops|
      invariant table.Valid() && fresh(table.Repr) && table.costs.inserts <= i
      invariant (table.contents, replies) == ApplyOps(ops[..i])
    {
      hide HashTable.Valid;
      var reply := Step(table, ops[i]);
      assert ops[..i+1][..i] == ops[..i];
      replies := replies + [reply];
    }
    assert ops[..|ops|] == ops;
    History(ops);
  }

  /** Every reply of a run, and the map it leaves, told from the history. */
  lemma History<K, V>(ops: seq<Op<K, V>>)
    ensures |ApplyOps(ops).1| == |ops| && forall i :: 0 <= i < |ops| ==> Answers(ops, i, ApplyOps(ops).1[i])
    ensures forall t :: Remembers(ops, |ops|, ApplyOps(ops).0, t)
  {
    assert ops[..|ops|] == ops;
    hide ApplyOps, Answers, Remembers;
    forall i | 0 <= i < |ops|
      ensures |ApplyOps(ops).1| == |ops| && Answers(ops, i, ApplyOps(ops).1[i])
    {
      RunAnswers(ops, i);
    }
    forall t
      ensures |ApplyOps(ops).1| == |ops| && Remembers(ops, |ops|, ApplyOps(ops).0, t)
    {
      RunRemembers(ops, |ops|, t);
    }
  }

  lemma LinkedMore<K(0), V(0)>(walk: seq<Node<K, V>>, nodes: set<Node<K, V>>, more: set<Node<K, V>>)
    requires Linked(walk, nodes) && nodes <= more
    ensures Linked(walk, more)
  {
  }

  lemma SameNodesInsert<T>(was: seq<T>, s: seq<T>, i: nat, p: nat)
    requires i < |was| && SameNodes(was[..i], s) && p <= |s|
    ensures SameNodes(was[..i+1], Insert(s, p, was[i]))
  {
    assert was[..i+1] == was[..i] + [was[i]];
  }
}
