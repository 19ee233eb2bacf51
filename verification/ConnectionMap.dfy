/** `connection_map`: a chained hash map from descriptors to connections. The hash function is a parameter:
    everything here holds for any of them, and the server passes `hash_key`. */
module ConnectionMap {
  import opened Bytes
  import opened Connection

  type HashFunction = int32 -> uint64

  class MapNode {
    const key: int32
    var conn: ClientConnection
    var next: MapNode?

    constructor (key: int32, conn: ClientConnection, next: MapNode?)
      ensures this.key == key && this.conn == conn && this.next == next
    {
      this.key, this.conn, this.next := key, conn, next;
    }
  }

  type Chain = seq<MapNode>
  type Contents = map<int32, ClientConnection>

  function Bucket(hash: uint64, capacity: nat): (b: nat)
    requires capacity > 0
    ensures b < capacity
  {
    hash % capacity
  }

  lemma BucketIsRemainder(hash: uint64, capacity: nat)
    requires capacity > 0
    ensures exists q: nat :: hash as int == q * capacity + Bucket(hash, capacity)
  {
    assert hash as int == hash / capacity * capacity + Bucket(hash, capacity);
  }

  /** The load test: as long as no entry is counted it depends on the sign of alpha alone. */
  predicate Overloaded(entries: nat, capacity: nat, alpha: real)
    requires capacity > 0
    ensures entries == 0 ==> (Overloaded(entries, capacity, alpha) <==> alpha < 0.0)
  {
    entries as real / capacity as real > alpha
  }

  // ---------- a snapshot of the nodes, so that chains can be spoken of without the heap ----------

  datatype Fields = Fields(conn: ClientConnection, next: MapNode?)
  type Snapshot = map<MapNode, Fields>

  ghost function Snap(ns: set<MapNode>): (s: Snapshot)
    reads ns
    ensures s.Keys == ns
  {
    map n | n in ns :: Fields(n.conn, n.next)
  }

  // ---------- one chain ----------

  ghost function First(c: Chain): MapNode? {
    if c == [] then null else c[0]
  }

  /** Following `next` from each node of the chain leads to the node after it, and from the last to null. */
  ghost predicate Chained(c: Chain, s: Snapshot) {
    c == [] || (c[0] in s && s[c[0]].next == First(c[1..]) && Chained(c[1..], s))
  }

  /** The nodes of a chain carry what the abstract map has for their keys. */
  ghost predicate Holding(c: Chain, s: Snapshot, m: Contents) {
    c == [] || (c[0] in s && c[0].key in m && m[c[0].key] == s[c[0]].conn && Holding(c[1..], s, m))
  }

  ghost predicate HasKey(c: Chain, key: int32) {
    c != [] && (c[0].key == key || HasKey(c[1..], key))
  }

  /** All keys of the chain belong into bucket b of the given capacity, and none occurs twice. */
  ghost predicate InBucket(hash: HashFunction, c: Chain, b: nat, capacity: nat)
    requires capacity > 0
  {
    c == [] || (Bucket(hash(c[0].key), capacity) == b && !HasKey(c[1..], c[0].key) && InBucket(hash, c[1..], b, capacity))
  }

  /** Bucket b starts at head and is in order. */
  ghost predicate BucketOk(hash: HashFunction, head: MapNode?, c: Chain, b: nat, capacity: nat, s: Snapshot, m: Contents)
    requires capacity > 0
  {
    head == First(c) && Chained(c, s) && Holding(c, s, m) && InBucket(hash, c, b, capacity)
  }

  // ---------- all chains ----------

  /** The first b buckets are in order. */
  ghost predicate Buckets(hash: HashFunction, heads: seq<MapNode?>, cs: seq<Chain>, s: Snapshot, m: Contents, b: nat)
    requires b <= |cs| == |heads|
  {
    b == 0 || (BucketOk(hash, heads[b - 1], cs[b - 1], b - 1, |cs|, s, m) && Buckets(hash, heads, cs, s, m, b - 1))
  }

  /** Every key of the map is in the chain of its bucket. */
  ghost predicate Covered(hash: HashFunction, cs: seq<Chain>, m: Contents) {
    |cs| > 0 && forall k {:trigger HasKey(cs[Bucket(hash(k), |cs|)], k)} :: k in m ==> HasKey(cs[Bucket(hash(k), |cs|)], k)
  }

  /** The node is in the chain of its bucket. */
  ghost predicate Linked(hash: HashFunction, cs: seq<Chain>, n: MapNode)
    requires |cs| > 0
  {
    n in cs[Bucket(hash(n.key), |cs|)]
  }

  /** None of the nodes is missing from the chains. */
  ghost predicate AllLinked(hash: HashFunction, cs: seq<Chain>, ns: set<MapNode>)
    requires |cs| > 0
  {
    forall n {:trigger Linked(hash, cs, n)} :: n in ns ==> Linked(hash, cs, n)
  }

  lemma SameAsNodes(hash: HashFunction, cs: seq<Chain>, ns: set<MapNode>)
    requires |cs| > 0 && AllLinked(hash, cs, ns) && AllIn(cs, ns)
    ensures forall n :: Linked(hash, cs, n) <==> n in ns
  {
  }

  /** With c as the chain of bucket x, the chains have all keys of m' if they had all of m. */
  ghost predicate KeysKept(hash: HashFunction, capacity: nat, x: nat, c: Chain, m: Contents, m': Contents)
    requires capacity > 0
  {
    forall k :: k in m' ==> HasKey(c, k) || (k in m && Bucket(hash(k), capacity) != x)
  }

  lemma CoveredAfter(hash: HashFunction, cs: seq<Chain>, x: nat, c: Chain, m: Contents, m': Contents)
    requires x < |cs| && Covered(hash, cs, m) && KeysKept(hash, |cs|, x, c, m, m')
    requires forall k :: HasKey(c, k) ==> Bucket(hash(k), |cs|) == x
    ensures Covered(hash, cs[x := c], m')
  {
  }

  lemma KeysKeptBySame(hash: HashFunction, cs: seq<Chain>, x: nat, c: Chain, m: Contents, key: int32, conn: ClientConnection)
    requires x < |cs| && Covered(hash, cs, m) && HasKey(c, key)
    requires forall k :: HasKey(cs[x], k) ==> HasKey(c, k)
    ensures KeysKept(hash, |cs|, x, c, m, m[key := conn])
  {
  }

  lemma KeysKeptByRemoval(hash: HashFunction, cs: seq<Chain>, x: nat, c: Chain, m: Contents, key: int32)
    requires x < |cs| && Covered(hash, cs, m)
    requires forall k :: k != key && HasKey(cs[x], k) ==> HasKey(c, k)
    ensures KeysKept(hash, |cs|, x, c, m, m - {key})
  {
  }

  lemma {:induction false} BucketAt(hash: HashFunction, heads: seq<MapNode?>, cs: seq<Chain>, s: Snapshot, m: Contents, b: nat, x: nat)
    requires x < b <= |cs| == |heads| && Buckets(hash, heads, cs, s, m, b)
    ensures BucketOk(hash, heads[x], cs[x], x, |cs|, s, m)
  {
    if x < b - 1 {
      BucketAt(hash, heads, cs, s, m, b - 1, x);
    }
  }

  /** Outside bucket x nothing has changed, neither the abstract map nor the nodes. */
  ghost predicate SameOutside(hash: HashFunction, capacity: nat, x: nat, s: Snapshot, m: Contents, s': Snapshot, m': Contents)
    requires capacity > 0
  {
    && (forall k :: k in m && Bucket(hash(k), capacity) != x ==> k in m' && m'[k] == m[k])
    && (forall n :: n in s && Bucket(hash(n.key), capacity) != x ==> n in s' && s'[n] == s[n])
  }

  lemma {:induction false} ChainKept(hash: HashFunction, c: Chain, b: nat, capacity: nat, s: Snapshot, m: Contents,
                                     x: nat, s': Snapshot, m': Contents)
    requires capacity > 0 && b != x && SameOutside(hash, capacity, x, s, m, s', m')
    requires Chained(c, s) && Holding(c, s, m) && InBucket(hash, c, b, capacity)
    ensures Chained(c, s') && Holding(c, s', m')
  {
    if c != [] {
      ChainKept(hash, c[1..], b, capacity, s, m, x, s', m');
    }
  }

  /** Bucket x has a new head and chain; the others are still in order. */
  lemma {:induction false} BucketsAfter(hash: HashFunction, heads: seq<MapNode?>, cs: seq<Chain>, s: Snapshot, m: Contents, b: nat,
                                        x: nat, head: MapNode?, c: Chain, s': Snapshot, m': Contents)
    requires b <= |cs| == |heads| && x < |cs| && Buckets(hash, heads, cs, s, m, b)
    requires SameOutside(hash, |cs|, x, s, m, s', m') && BucketOk(hash, head, c, x, |cs|, s', m')
    ensures Buckets(hash, heads[x := head], cs[x := c], s', m', b)
  {
    if b > 0 {
      BucketsAfter(hash, heads, cs, s, m, b - 1, x, head, c, s', m');
      if b - 1 != x {
        ChainKept(hash, cs[b - 1], b - 1, |cs|, s, m, x, s', m');
      }
    }
  }

  lemma EmptyBuckets(hash: HashFunction, heads: seq<MapNode?>, cs: seq<Chain>, s: Snapshot, m: Contents, b: nat)
    requires b <= |cs| == |heads| && forall i :: 0 <= i < |cs| ==> cs[i] == [] && heads[i] == null
    ensures Buckets(hash, heads, cs, s, m, b)
  {
  }

  lemma HasKeyInBucket(hash: HashFunction, c: Chain, b: nat, capacity: nat, key: int32)
    requires capacity > 0 && InBucket(hash, c, b, capacity) && HasKey(c, key)
    ensures Bucket(hash(key), capacity) == b
  {
  }

  lemma HoldingHas(c: Chain, s: Snapshot, m: Contents, key: int32)
    requires Holding(c, s, m) && HasKey(c, key)
    ensures key in m
  {
  }

  lemma {:induction false} HasKeySplit(a: Chain, b: Chain, key: int32)
    ensures HasKey(a + b, key) <==> HasKey(a, key) || HasKey(b, key)
  {
    if a == [] {
      assert a + b == b;
    } else {
      assert (a + b)[1..] == a[1..] + b;
      HasKeySplit(a[1..], b, key);
    }
  }

  lemma {:induction false} HoldingSplit(a: Chain, b: Chain, s: Snapshot, m: Contents)
    ensures Holding(a + b, s, m) <==> Holding(a, s, m) && Holding(b, s, m)
  {
    if a == [] {
      assert a + b == b;
    } else {
      assert (a + b)[1..] == a[1..] + b;
      HoldingSplit(a[1..], b, s, m);
    }
  }

  lemma OneFurther(done: Chain, rest: Chain, key: int32)
    requires rest != [] && rest[0].key != key && !HasKey(done, key)
    ensures done + [rest[0]] + rest[1..] == done + rest && !HasKey(done + [rest[0]], key)
    ensures HasKey(rest[1..], key) <==> HasKey(rest, key)
  {
    HasKeySplit(done, [rest[0]], key);
  }

  /** The search loop that `insert`, `contains`, `get` and `remove` share: done holds the nodes passed,
      rest the chain from cur on. */
  method Search(head: MapNode?, key: int32, ghost c: Chain, ghost ns: set<MapNode>)
    returns (prev: MapNode?, cur: MapNode?, ghost done: Chain, ghost rest: Chain)
    requires head == First(c) && Chained(c, Snap(ns))
    ensures c == done + rest && !HasKey(done, key) && cur == First(rest) && Chained(rest, Snap(ns))
    ensures prev == if done == [] then null else done[|done| - 1]
    ensures if HasKey(c, key) then cur != null && cur.key == key else cur == null
  {
    prev, cur, done, rest := null, head, [], c;
    while cur != null && cur.key != key
      invariant c == done + rest && !HasKey(done, key) && cur == First(rest) && Chained(rest, Snap(ns))
      invariant prev == if done == [] then null else done[|done| - 1]
      invariant HasKey(c, key) <==> HasKey(rest, key)
      decreases |rest|
    {
      OneFurther(done, rest, key);
      prev, cur, done, rest := cur, cur.next, done + [cur], rest[1..];
    }
  }

  // ---------- what the operations do to one chain ----------

  lemma {:induction false} HoldingElementwise(c: Chain, s: Snapshot, m: Contents)
    ensures Holding(c, s, m) <==> forall n :: n in c ==> n in s && n.key in m && m[n.key] == s[n].conn
  {
    if c != [] {
      HoldingElementwise(c[1..], s, m);
    }
  }

  lemma {:induction false} HasKeyElementwise(c: Chain, key: int32)
    ensures HasKey(c, key) <==> exists n :: n in c && n.key == key
  {
    if c != [] {
      HasKeyElementwise(c[1..], key);
    }
  }

  /** Only the `next` fields of the chain's own nodes matter. */
  lemma {:induction false} ChainedSame(c: Chain, s: Snapshot, s': Snapshot)
    requires Chained(c, s) && forall n :: n in c && n in s ==> n in s' && s'[n].next == s[n].next
    ensures Chained(c, s')
  {
    if c != [] {
      ChainedSame(c[1..], s, s');
    }
  }

  lemma {:induction false} ChainedNodes(c: Chain, s: Snapshot)
    requires Chained(c, s)
    ensures forall n :: n in c ==> n in s
  {
    if c != [] {
      ChainedNodes(c[1..], s);
    }
  }

  /** A new node in front of a chain that does not have its key. */
  lemma NewHead(hash: HashFunction, neo: MapNode, c: Chain, b: nat, capacity: nat, s: Snapshot, m: Contents, conn: ClientConnection)
    requires capacity > 0 && Bucket(hash(neo.key), capacity) == b && !HasKey(c, neo.key) && neo !in s
    requires BucketOk(hash, First(c), c, b, capacity, s, m)
    ensures BucketOk(hash, neo, [neo] + c, b, capacity, s[neo := Fields(conn, First(c))], m[neo.key := conn])
  {
    var s' := s[neo := Fields(conn, First(c))];
    assert ([neo] + c)[1..] == c;
    ChainedNodes(c, s);
    ChainedSame(c, s, s');
    HoldingElementwise(c, s, m);
    HasKeyElementwise(c, neo.key);
    HoldingElementwise(c, s', m[neo.key := conn]);
  }

  /** The node of a key gets another connection. */
  lemma NewConn(hash: HashFunction, cur: MapNode, c: Chain, b: nat, capacity: nat, s: Snapshot, m: Contents, conn: ClientConnection)
    requires capacity > 0 && cur in c && cur in s
    requires BucketOk(hash, First(c), c, b, capacity, s, m)
    ensures BucketOk(hash, First(c), c, b, capacity, s[cur := s[cur].(conn := conn)], m[cur.key := conn])
  {
    var s' := s[cur := s[cur].(conn := conn)];
    ChainedSame(c, s, s');
    HoldingElementwise(c, s, m);
    OneNodePerKey(hash, c, b, capacity, cur);
    HoldingElementwise(c, s', m[cur.key := conn]);
  }

  lemma {:induction false} OneNodePerKey(hash: HashFunction, c: Chain, b: nat, capacity: nat, cur: MapNode)
    requires capacity > 0 && InBucket(hash, c, b, capacity) && cur in c
    ensures forall n :: n in c && n.key == cur.key ==> n == cur
  {
    HasKeyElementwise(c[1..], c[0].key);
    if cur in c[1..] {
      OneNodePerKey(hash, c[1..], b, capacity, cur);
    }
  }

  // ---------- rehashing ----------

  /** The chains of the buckets from i on are in order. */
  ghost predicate BucketsFrom(hash: HashFunction, heads: seq<MapNode?>, cs: seq<Chain>, s: Snapshot, m: Contents, i: nat)
    requires i <= |cs| == |heads|
    decreases |cs| - i
  {
    i == |cs| || (BucketOk(hash, heads[i], cs[i], i, |cs|, s, m) && BucketsFrom(hash, heads, cs, s, m, i + 1))
  }

  lemma {:induction false} AllFromZero(hash: HashFunction, heads: seq<MapNode?>, cs: seq<Chain>, s: Snapshot, m: Contents, i: nat)
    requires i <= |cs| == |heads| && Buckets(hash, heads, cs, s, m, |cs|)
    ensures BucketsFrom(hash, heads, cs, s, m, i)
    decreases |cs| - i
  {
    if i < |cs| {
      BucketAt(hash, heads, cs, s, m, |cs|, i);
      AllFromZero(hash, heads, cs, s, m, i + 1);
    }
  }

  lemma {:induction false} BucketsFromKept(hash: HashFunction, heads: seq<MapNode?>, cs: seq<Chain>, s: Snapshot, m: Contents,
                                           i: nat, x: nat, s': Snapshot)
    requires x < i <= |cs| == |heads| && BucketsFrom(hash, heads, cs, s, m, i)
    requires SameOutside(hash, |cs|, x, s, m, s', m)
    ensures BucketsFrom(hash, heads, cs, s', m, i)
    decreases |cs| - i
  {
    if i < |cs| {
      ChainKept(hash, cs[i], i, |cs|, s, m, x, s', m);
      BucketsFromKept(hash, heads, cs, s, m, i + 1, x, s');
    }
  }

  ghost predicate HasKeyIn(hash: HashFunction, cs: seq<Chain>, k: int32)
    requires |cs| > 0
  {
    HasKey(cs[Bucket(hash(k), |cs|)], k)
  }

  /** Of the nodes ns, the new chains have exactly those of the old buckets before i and of the part of bucket i
      that is done. */
  ghost predicate Moved(hash: HashFunction, cs: seq<Chain>, cs2: seq<Chain>, ns: set<MapNode>, i: nat, done: Chain)
    requires |cs| > 0 && |cs2| > 0
  {
    forall n {:trigger Linked(hash, cs2, n)} :: n in ns ==>
      (Linked(hash, cs2, n) <==>
       if Bucket(hash(n.key), |cs|) < i then Linked(hash, cs, n) else Bucket(hash(n.key), |cs|) == i && n in done)
  }

  /** The new chains once n has been put in front of the one it belongs to. */
  ghost function Push(hash: HashFunction, cs2: seq<Chain>, n: MapNode): (r: seq<Chain>)
    requires |cs2| > 0
    ensures |r| == |cs2|
  {
    var b := Bucket(hash(n.key), |cs2|);
    cs2[b := [n] + cs2[b]]
  }

  lemma PushLinks(hash: HashFunction, cs2: seq<Chain>, n: MapNode, k: MapNode)
    requires |cs2| > 0
    ensures Linked(hash, Push(hash, cs2, n), k) <==> Linked(hash, cs2, k) || k == n
  {
  }

  lemma MovedStep(hash: HashFunction, cs: seq<Chain>, cs2: seq<Chain>, ns: set<MapNode>, i: nat, done: Chain, n: MapNode)
    requires |cs| > 0 && |cs2| > 0 && Moved(hash, cs, cs2, ns, i, done) && Bucket(hash(n.key), |cs|) == i
    ensures Moved(hash, cs, Push(hash, cs2, n), ns, i, done + [n])
  {
    forall k | k in ns
      ensures Linked(hash, Push(hash, cs2, n), k) <==>
              if Bucket(hash(k.key), |cs|) < i then Linked(hash, cs, k)
              else Bucket(hash(k.key), |cs|) == i && k in done + [n]
    {
      PushLinks(hash, cs2, n, k);
    }
  }

  /** A node still to be moved has a key that the new chains do not have. */
  lemma KeyNotMoved(hash: HashFunction, cs: seq<Chain>, cs2: seq<Chain>, ns: set<MapNode>, i: nat, done: Chain, rest: Chain)
    requires i < |cs| && |cs2| > 0 && rest != [] && cs[i] == done + rest && InBucket(hash, cs[i], i, |cs|)
    requires Moved(hash, cs, cs2, ns, i, done)
    requires forall n :: n in cs2[Bucket(hash(rest[0].key), |cs2|)] ==> n in ns
    ensures Bucket(hash(rest[0].key), |cs|) == i && !HasKeyIn(hash, cs2, rest[0].key)
  {
    var k := rest[0].key;
    var c := cs2[Bucket(hash(k), |cs2|)];
    InBucketSplit(hash, done, rest, i, |cs|);
    HasKeyElementwise(c, k);
    if HasKey(c, k) {
      var n :| n in c && n.key == k;
      assert Linked(hash, cs2, n);
      HasKeyElementwise(done, k);
      assert HasKey(done, k) && HasKey(rest, k);
    }
  }

  lemma MovedBucket(hash: HashFunction, cs: seq<Chain>, cs2: seq<Chain>, ns: set<MapNode>, i: nat)
    requires i < |cs| && |cs2| > 0 && Moved(hash, cs, cs2, ns, i, cs[i])
    ensures Moved(hash, cs, cs2, ns, i + 1, [])
  {
  }

  /** The nodes of the chains are all in ns. */
  ghost predicate AllIn(cs: seq<Chain>, ns: set<MapNode>) {
    forall b, n :: 0 <= b < |cs| && n in cs[b] ==> n in ns
  }

  /** In the end the new chains have every key and every node. */
  lemma MovedAll(hash: HashFunction, cs: seq<Chain>, cs2: seq<Chain>, ns: set<MapNode>, m: Contents)
    requires |cs| > 0 && |cs2| > 0 && Moved(hash, cs, cs2, ns, |cs|, [])
    requires Covered(hash, cs, m) && AllLinked(hash, cs, ns) && AllIn(cs, ns)
    ensures Covered(hash, cs2, m) && AllLinked(hash, cs2, ns)
  {
    forall k | k in m ensures HasKey(cs2[Bucket(hash(k), |cs2|)], k) {
      var c := cs[Bucket(hash(k), |cs|)];
      HasKeyElementwise(c, k);
      assert HasKey(c, k);
      var n :| n in c && n.key == k;
      assert Linked(hash, cs, n) && Linked(hash, cs2, n);
      HasKeyElementwise(cs2[Bucket(hash(k), |cs2|)], k);
    }
    forall n | n in ns ensures Linked(hash, cs2, n) {
      assert Linked(hash, cs, n);
    }
  }

  /** A node whose key the new chains do not have yet goes to the front of its new chain. */
  lemma PushOk(hash: HashFunction, heads2: seq<MapNode?>, cs2: seq<Chain>, s: Snapshot, m: Contents, n: MapNode)
    requires 0 < |cs2| == |heads2| && Buckets(hash, heads2, cs2, s, m, |cs2|)
    requires !HasKeyIn(hash, cs2, n.key) && n in s && n.key in m && m[n.key] == s[n].conn
    ensures var b := Bucket(hash(n.key), |cs2|);
            Buckets(hash, heads2[b := n], Push(hash, cs2, n), s[n := s[n].(next := heads2[b])], m, |cs2|)
  {
    var b := Bucket(hash(n.key), |cs2|);
    var s' := s[n := s[n].(next := heads2[b])];
    BucketAt(hash, heads2, cs2, s, m, |cs2|, b);
    var c := [n] + cs2[b];
    assert c[1..] == cs2[b];
    HasKeyElementwise(cs2[b], n.key);
    ChainedSame(cs2[b], s, s');
    HoldingElementwise(cs2[b], s, m);
    HoldingElementwise(cs2[b], s', m);
    BucketsAfter(hash, heads2, cs2, s, m, |cs2|, b, n, c, s', m);
  }

  /** In the middle of a rehash: done of bucket i has been moved, rest of it and the later buckets have not. */
  ghost predicate Rehashing(hash: HashFunction, heads: seq<MapNode?>, cs: seq<Chain>, heads2: seq<MapNode?>, cs2: seq<Chain>,
                            s: Snapshot, m: Contents, i: nat, done: Chain, rest: Chain)
  {
    && i < |cs| == |heads| && 0 < |cs2| == |heads2|
    && cs[i] == done + rest
    && Buckets(hash, heads2, cs2, s, m, |cs2|)
    && BucketsFrom(hash, heads, cs, s, m, i + 1)
    && Chained(rest, s) && Holding(rest, s, m) && InBucket(hash, cs[i], i, |cs|)
    && Moved(hash, cs, cs2, s.Keys, i, done)
  }

  lemma {:induction false} InBucketSplit(hash: HashFunction, a: Chain, b: Chain, x: nat, capacity: nat)
    requires capacity > 0 && InBucket(hash, a + b, x, capacity)
    ensures InBucket(hash, b, x, capacity) && forall k :: HasKey(a, k) ==> !HasKey(b, k)
  {
    if a == [] {
      assert a + b == b;
    } else {
      assert (a + b)[1..] == a[1..] + b;
      InBucketSplit(hash, a[1..], b, x, capacity);
      HasKeySplit(a[1..], b, a[0].key);
    }
  }

  /** The `next` of the first node does not matter to the chain behind it. */
  lemma TailKept(hash: HashFunction, c: Chain, b: nat, capacity: nat, s: Snapshot, m: Contents, next: MapNode?)
    requires capacity > 0 && c != [] && InBucket(hash, c, b, capacity) && Chained(c, s) && Holding(c, s, m)
    ensures var s' := s[c[0] := s[c[0]].(next := next)];
            Chained(c[1..], s') && Holding(c[1..], s', m)
  {
    var s' := s[c[0] := s[c[0]].(next := next)];
    DistinctHead(hash, c, b, capacity);
    ChainedSame(c[1..], s, s');
    HoldingElementwise(c[1..], s, m);
    HoldingElementwise(c[1..], s', m);
  }

  /** One node moved: the new chains have it in front, and its key was not there before. */
  lemma NodeMoves(hash: HashFunction, cs: seq<Chain>, heads2: seq<MapNode?>, cs2: seq<Chain>, s: Snapshot, m: Contents,
                  i: nat, done: Chain, rest: Chain)
    requires i < |cs| && 0 < |cs2| == |heads2| && rest != [] && cs[i] == done + rest && InBucket(hash, cs[i], i, |cs|)
    requires Buckets(hash, heads2, cs2, s, m, |cs2|) && Chained(rest, s) && Holding(rest, s, m)
    requires Moved(hash, cs, cs2, s.Keys, i, done)
    ensures var n := rest[0];
            var b := Bucket(hash(n.key), |cs2|);
            n in s && Buckets(hash, heads2[b := n], Push(hash, cs2, n), s[n := s[n].(next := heads2[b])], m, |cs2|)
            && Moved(hash, cs, Push(hash, cs2, n), s.Keys, i, done + [n])
  {
    var n := rest[0];
    var b := Bucket(hash(n.key), |cs2|);
    BucketAt(hash, heads2, cs2, s, m, |cs2|, b);
    ChainedNodes(cs2[b], s);
    KeyNotMoved(hash, cs, cs2, s.Keys, i, done, rest);
    PushOk(hash, heads2, cs2, s, m, n);
    MovedStep(hash, cs, cs2, s.Keys, i, done, n);
  }

  /** The same node gone from its old chain: overwriting its `next` disturbs nothing that is still to be moved. */
  lemma NodeLeaves(hash: HashFunction, heads: seq<MapNode?>, cs: seq<Chain>, s: Snapshot, m: Contents,
                   i: nat, done: Chain, rest: Chain, next: MapNode?)
    requires i < |cs| == |heads| && rest != [] && cs[i] == done + rest && InBucket(hash, cs[i], i, |cs|)
    requires BucketsFrom(hash, heads, cs, s, m, i + 1) && Chained(rest, s) && Holding(rest, s, m)
    ensures var s' := s[rest[0] := s[rest[0]].(next := next)];
            BucketsFrom(hash, heads, cs, s', m, i + 1) && Chained(rest[1..], s') && Holding(rest[1..], s', m)
  {
    var s' := s[rest[0] := s[rest[0]].(next := next)];
    InBucketSplit(hash, done, rest, i, |cs|);
    BucketsFromKept(hash, heads, cs, s, m, i + 1, i, s');
    TailKept(hash, rest, i, |cs|, s, m, next);
  }

  /** One turn of the inner loop on chains and snapshots. */
  lemma RehashStep(hash: HashFunction, heads: seq<MapNode?>, cs: seq<Chain>, heads2: seq<MapNode?>, cs2: seq<Chain>,
                   s: Snapshot, m: Contents, i: nat, done: Chain, rest: Chain)
    requires rest != [] && Rehashing(hash, heads, cs, heads2, cs2, s, m, i, done, rest)
    ensures rest[0] in s
    ensures var n := rest[0];
            var b := Bucket(hash(n.key), |cs2|);
            Rehashing(hash, heads, cs, heads2[b := n], Push(hash, cs2, n), s[n := s[n].(next := heads2[b])], m,
                      i, done + [n], rest[1..])
  {
    var n := rest[0];
    var b := Bucket(hash(n.key), |cs2|);
    NodeMoves(hash, cs, heads2, cs2, s, m, i, done, rest);
    NodeLeaves(hash, heads, cs, s, m, i, done, rest, heads2[b]);
    assert done + [n] + rest[1..] == done + rest;
    assert s[n := s[n].(next := heads2[b])].Keys == s.Keys;
  }

  lemma {:induction false} BucketsFromTail(hash: HashFunction, heads: seq<MapNode?>, heads': seq<MapNode?>, cs: seq<Chain>,
                                           s: Snapshot, m: Contents, i: nat)
    requires i <= |cs| == |heads| == |heads'| && BucketsFrom(hash, heads, cs, s, m, i)
    requires forall j :: i <= j < |cs| ==> heads'[j] == heads[j]
    ensures BucketsFrom(hash, heads', cs, s, m, i)
    decreases |cs| - i
  {
    if i < |cs| {
      BucketsFromTail(hash, heads, heads', cs, s, m, i + 1);
    }
  }

  lemma StartBucket(hash: HashFunction, heads: seq<MapNode?>, cs: seq<Chain>, heads2: seq<MapNode?>, cs2: seq<Chain>,
                    s: Snapshot, m: Contents, i: nat)
    requires i < |cs| == |heads| && 0 < |cs2| == |heads2|
    requires Buckets(hash, heads2, cs2, s, m, |cs2|) && BucketsFrom(hash, heads, cs, s, m, i) && Moved(hash, cs, cs2, s.Keys, i, [])
    ensures heads[i] == First(cs[i]) && Rehashing(hash, heads, cs, heads2, cs2, s, m, i, [], cs[i])
  {
    assert [] + cs[i] == cs[i];
  }

  /** A bucket whose nodes have all been moved is cleared. */
  lemma EndBucket(hash: HashFunction, heads: seq<MapNode?>, cs: seq<Chain>, heads2: seq<MapNode?>, cs2: seq<Chain>,
                  s: Snapshot, m: Contents, i: nat)
    requires i < |cs| && Rehashing(hash, heads, cs, heads2, cs2, s, m, i, cs[i], [])
    ensures BucketsFrom(hash, heads[i := null], cs, s, m, i + 1) && Moved(hash, cs, cs2, s.Keys, i + 1, [])
  {
    MovedBucket(hash, cs, cs2, s.Keys, i);
    BucketsFromTail(hash, heads, heads[i := null], cs, s, m, i + 1);
  }

  class ConnectionMap {
    var table: array<MapNode?>
    var entryCount: nat
    const alpha: real
    const hash: HashFunction
    ghost var chains: seq<Chain>
    ghost var nodes: set<MapNode>
    ghost var Contents: Contents

    ghost predicate Valid()
      reads this, table, nodes
    {
      && entryCount == 0
      && table.Length == |chains|
      && Covered(hash, chains, Contents) && AllLinked(hash, chains, nodes)
      && Buckets(hash, table[..], chains, Snap(nodes), Contents, |chains|)
    }

    /** `nodes` is exactly the set of nodes in the chains of the table. */
    lemma NodesAreLinked(n: MapNode)
      requires Valid()
      ensures n in nodes <==> Linked(hash, chains, n)
      ensures n in nodes <==> exists b :: 0 <= b < |chains| && n in chains[b]
    {
      forall b | 0 <= b < |chains| && n in chains[b] ensures n in nodes {
        BucketAt(hash, table[..], chains, Snap(nodes), Contents, |chains|, b);
        ChainedNodes(chains[b], Snap(nodes));
      }
      if n in nodes {
        assert Linked(hash, chains, n);
      }
    }

    /** The chains have no other nodes. */
    lemma ChainsWithin()
      requires Valid()
      ensures AllIn(chains, nodes)
    {
      forall b, n | 0 <= b < |chains| && n in chains[b] ensures n in nodes {
        NodesAreLinked(n);
      }
    }

    /** `connection_map_init` */
    constructor (alpha: real, hash: HashFunction)
      ensures Valid() && Contents == map[] && table.Length == 101
      ensures fresh(table) && nodes == {} && this.hash == hash && this.alpha == alpha
    {
      this.alpha, this.hash := alpha, hash;
      table := new MapNode?[101](_ => null);
      entryCount := 0;
      chains, nodes, Contents := seq(101, _ => []), {}, map[];
      new;
      EmptyBuckets(hash, table[..], chains, map[], map[], 101);
    }

    /** A key is in the map exactly if its chain has a node for it. */
    lemma KeyInChain(key: int32)
      requires Valid()
      ensures var b := Bucket(hash(key), |chains|);
              (key in Contents <==> HasKey(chains[b], key))
              && BucketOk(hash, table[b], chains[b], b, |chains|, Snap(nodes), Contents)
    {
      var b := Bucket(hash(key), |chains|);
      BucketAt(hash, table[..], chains, Snap(nodes), Contents, |chains|, b);
      if HasKey(chains[b], key) {
        HoldingHas(chains[b], Snap(nodes), Contents, key);
      }
    }

    /** `connection_map_contains` */
    method Contains(key: int32) returns (found: bool)
      requires Valid()
      ensures found <==> key in Contents
    {
      KeyInChain(key);
      var idx := Bucket(hash(key), table.Length);
      var prev, cur, done, rest := Search(table[idx], key, chains[idx], nodes);
      found := cur != null;
    }

    /** `connection_map_get` */
    method Get(key: int32) returns (conn: ClientConnection?)
      requires Valid()
      ensures conn == if key in Contents then Contents[key] else null
    {
      KeyInChain(key);
      var idx := Bucket(hash(key), table.Length);
      var prev, cur, done, rest := Search(table[idx], key, chains[idx], nodes);
      if cur == null {
        conn := null;
      } else {
        HoldingSplit(done, rest, Snap(nodes), Contents);
        conn := cur.conn;
      }
    }

    /** The ghost side of a change: the chain of bucket x is c now, and the map is m'. */
    ghost method Adopt(heads: seq<MapNode?>, cs: seq<Chain>, s: Snapshot, m: Contents,
                       x: nat, c: Chain, ns': set<MapNode>, s': Snapshot, m': Contents)
      requires entryCount == 0 && x < |cs| == |heads| && Covered(hash, cs, m) && Buckets(hash, heads, cs, s, m, |cs|)
      requires AllLinked(hash, cs[x := c], ns')
      requires table[..] == heads[x := First(c)]
      requires Snap(ns') == s'
      requires SameOutside(hash, |cs|, x, s, m, s', m')
      requires BucketOk(hash, First(c), c, x, |cs|, s', m')
      requires KeysKept(hash, |cs|, x, c, m, m')
      modifies this`chains, this`nodes, this`Contents
      ensures Valid() && Contents == m' && nodes == ns'
    {
      BucketsAfter(hash, heads, cs, s, m, |cs|, x, First(c), c, s', m');
      forall k | HasKey(c, k) ensures Bucket(hash(k), |cs|) == x {
        HasKeyInBucket(hash, c, x, |cs|, k);
      }
      CoveredAfter(hash, cs, x, c, m, m');
      chains, nodes, Contents := cs[x := c], ns', m';
    }

    /** `connection_map_insert` of a new key: a new node at the head of its chain. */
    method InsertNew(key: int32, conn: ClientConnection)
      requires Valid() && key !in Contents
      modifies this`chains, this`nodes, this`Contents, table
      ensures Valid() && Contents == old(Contents)[key := conn]
      ensures exists neo: MapNode :: fresh(neo) && neo.key == key && nodes == old(nodes) + {neo}
    {
      KeyInChain(key);
      var idx := Bucket(hash(key), table.Length);
      ghost var c, s := [], Snap(nodes);
      var neo := new MapNode(key, conn, table[idx]);
      c := [neo] + chains[idx];
      table[idx] := neo;
      NewHead(hash, neo, chains[idx], idx, |chains|, s, Contents, conn);
      SnapNew(nodes, neo);
      assert c[1..] == chains[idx];
      KeysKeptBySame(hash, chains, idx, c, Contents, key, conn);
      LinkedWith(hash, chains, nodes, neo);
      Adopt(old(table[..]), chains, s, Contents, idx, c, nodes + {neo}, s[neo := Fields(conn, neo.next)], Contents[key := conn]);
    }

    /** `connection_map_insert` of a key that is there already. */
    method Overwrite(key: int32, cur: MapNode, conn: ClientConnection)
      requires Valid() && key in Contents && cur.key == key
      requires cur in nodes && cur in chains[Bucket(hash(key), |chains|)]
      modifies this`chains, this`nodes, this`Contents, cur`conn
      ensures Valid() && Contents == old(Contents)[key := conn] && nodes == old(nodes)
    {
      KeyInChain(key);
      ghost var idx, s := Bucket(hash(key), |chains|), Snap(nodes);
      ghost var c, s', m' := chains[idx], s[cur := s[cur].(conn := conn)], Contents[key := conn];
      NewConn(hash, cur, c, idx, |chains|, s, Contents, conn);
      cur.conn := conn;
      SnapConn(nodes, s, cur);
      assert old(table[..])[idx := First(c)] == table[..];
      KeysKeptBySame(hash, chains, idx, c, Contents, key, conn);
      assert chains[idx := c] == chains;
      Adopt(old(table[..]), chains, s, Contents, idx, c, nodes, s', m');
    }

    /** One turn of the inner loop of `connection_map_resize`: cur, the first node still in the old chain,
        becomes the first node of its new chain. */
    method MoveNode(newTable: array<MapNode?>, cur: MapNode, i: nat, ghost cs2: seq<Chain>, ghost done: Chain, ghost rest: Chain)
      requires newTable != table && rest != [] && rest[0] == cur && |cs2| == newTable.Length
      requires Rehashing(hash, table[..], chains, newTable[..], cs2, Snap(nodes), Contents, i, done, rest)
      modifies newTable, nodes`next
      ensures Rehashing(hash, table[..], chains, newTable[..], Push(hash, cs2, cur), Snap(nodes), Contents,
                        i, done + [cur], rest[1..])
    {
      ghost var s, heads2 := Snap(nodes), newTable[..];
      RehashStep(hash, table[..], chains, heads2, cs2, s, Contents, i, done, rest);
      var idx := Bucket(hash(cur.key), newTable.Length);
      cur.next := newTable[idx];
      newTable[idx] := cur;
      SnapNext(nodes, s, cur);
      assert newTable[..] == heads2[idx := cur];
    }

    /** One bucket of `connection_map_resize`. */
    method MoveChain(newTable: array<MapNode?>, i: nat, ghost cs2: seq<Chain>) returns (ghost cs3: seq<Chain>)
      requires newTable != table && |cs2| == newTable.Length
      requires i < table.Length == |chains| && table[i] == First(chains[i])
      requires Rehashing(hash, table[..], chains, newTable[..], cs2, Snap(nodes), Contents, i, [], chains[i])
      modifies newTable, nodes`next
      ensures |cs3| == |cs2|
      ensures Rehashing(hash, table[..], chains, newTable[..], cs3, Snap(nodes), Contents, i, chains[i], [])
    {
      var cur := table[i];
      ghost var done: Chain, rest: Chain := [], chains[i];
      cs3 := cs2;
      while cur != null
        invariant |cs3| == |cs2| && cur == First(rest)
        invariant Rehashing(hash, table[..], chains, newTable[..], cs3, Snap(nodes), Contents, i, done, rest)
        decreases |rest|
      {
        var temp := cur.next;
        MoveNode(newTable, cur, i, cs3, done, rest);
        done, rest, cs3, cur := done + [cur], rest[1..], Push(hash, cs3, cur), temp;
      }
      assert done + rest == done;
    }

    /** What the outer loop of `connection_map_resize` keeps: buckets before i are in the new table. */
    ghost predicate Resizing(newTable: array<MapNode?>, cs2: seq<Chain>, i: nat)
      reads this, table, newTable, nodes
    {
      && i <= |chains| == table.Length && 0 < |chains| && 0 < |cs2| == newTable.Length
      && Buckets(hash, newTable[..], cs2, Snap(nodes), Contents, |cs2|)
      && BucketsFrom(hash, table[..], chains, Snap(nodes), Contents, i)
      && Moved(hash, chains, cs2, nodes, i, [])
    }

    /** One turn of the outer loop. */
    method MoveBucket(newTable: array<MapNode?>, i: nat, ghost cs2: seq<Chain>) returns (ghost cs3: seq<Chain>)
      requires newTable != table && Resizing(newTable, cs2, i) && i < |chains|
      modifies newTable, nodes`next, table
      ensures Resizing(newTable, cs3, i + 1) && |cs3| == |cs2|
    {
      StartBucket(hash, table[..], chains, newTable[..], cs2, Snap(nodes), Contents, i);
      cs3 := MoveChain(newTable, i, cs2);
      ghost var heads := table[..];
      EndBucket(hash, heads, chains, newTable[..], cs3, Snap(nodes), Contents, i);
      table[i] := null;
      assert table[..] == heads[i := null];
    }

    /** The new table takes the place of the old one. */
    method Install(newTable: array<MapNode?>, ghost cs2: seq<Chain>)
      requires entryCount == 0 && newTable.Length == |cs2| && Covered(hash, cs2, Contents) && AllLinked(hash, cs2, nodes)
      requires Buckets(hash, newTable[..], cs2, Snap(nodes), Contents, |cs2|)
      modifies this`table, this`chains
      ensures Valid() && table == newTable
    {
      table, chains := newTable, cs2;
    }

    /** `connection_map_resize`: every node is relinked in place into a table of twice the size;
        the abstract map stays as it is. */
    method Resize()
      requires Valid()
      modifies this`table, this`chains, table, nodes`next
      ensures Valid() && Contents == old(Contents)
      ensures forall n :: Linked(hash, chains, n) <==> Linked(hash, old(chains), n)
      ensures fresh(table) && table.Length == 2 * old(table.Length)
    {
      ChainsWithin();
      SameAsNodes(hash, chains, nodes);
      var newTable := new MapNode?[2 * table.Length](_ => null);
      ghost var cs2: seq<Chain> := seq(newTable.Length, _ => []);
      EmptyBuckets(hash, newTable[..], cs2, Snap(nodes), Contents, |cs2|);
      AllFromZero(hash, table[..], chains, Snap(nodes), Contents, 0);
      for i := 0 to table.Length
        invariant table == old(table) && chains == old(chains)
        invariant Resizing(newTable, cs2, i) && |cs2| == 2 * |chains|
      {
        cs2 := MoveBucket(newTable, i, cs2);
      }
      MovedAll(hash, chains, cs2, nodes, Contents);
      Install(newTable, cs2);
      ChainsWithin();
      SameAsNodes(hash, chains, nodes);
    }

    /** `connection_map_insert`. Nothing ever increments `entry_count`, so the load test compares 0 with alpha. */
    method Insert(key: int32, conn: ClientConnection)
      requires Valid()
      modifies this, table, nodes`conn, nodes`next
      ensures Valid() && Contents == old(Contents)[key := conn]
      ensures if key in old(Contents) then nodes == old(nodes)
              else exists neo: MapNode :: fresh(neo) && neo.key == key && nodes == old(nodes) + {neo}
      ensures table == old(table) || fresh(table)
      ensures table.Length == if key !in old(Contents) && alpha < 0.0 then 2 * old(table.Length) else old(table.Length)
    {
      KeyInChain(key);
      var idx := Bucket(hash(key), table.Length);
      var prev, cur, done, rest := Search(table[idx], key, chains[idx], nodes);
      if cur != null {
        ChainedNodes(rest, Snap(nodes));
        Overwrite(key, cur, conn);
        return;
      }
      InsertAndGrow(key, conn);
    }

    /** The end of `connection_map_insert`. */
    method InsertAndGrow(key: int32, conn: ClientConnection)
      requires Valid() && key !in Contents
      modifies this, table, nodes`next
      ensures Valid() && Contents == old(Contents)[key := conn]
      ensures exists neo: MapNode :: fresh(neo) && neo.key == key && nodes == old(nodes) + {neo}
      ensures table == old(table) || fresh(table)
      ensures table.Length == if alpha < 0.0 then 2 * old(table.Length) else old(table.Length)
    {
      InsertNew(key, conn);
      if Overloaded(entryCount, table.Length, alpha) {
        Resize();
      }
    }

    /** `connection_map_remove` as meant: the node is unlinked from its chain. */
    method Remove(key: int32)
      requires Valid()
      modifies this`chains, this`nodes, this`Contents, table, nodes`next
      ensures Valid() && Contents == old(Contents) - {key}
      ensures nodes == set n | n in old(nodes) && n.key != key
    {
      KeyInChain(key);
      var idx := Bucket(hash(key), table.Length);
      var prev, cur, done, rest := Search(table[idx], key, chains[idx], nodes);
      if cur != null {
        assert cur in done + rest;
        OnlyNodeWithKey(cur);
        Unlink(key, idx, prev, cur, done, rest);
      } else {
        NoNodeWithKey(key);
      }
    }

    /** `connection_map_remove` as written: with a predecessor it assigns to a local pointer, without one it
        assigns the node's own `next` to itself, so the node stays linked and the key stays in the map, although the
        node has been freed. What later calls read from the freed node is not described. */
    method RemoveAsWritten(key: int32) returns (freed: MapNode?)
      requires Valid()
      modifies nodes`next
      ensures Valid() && Contents == old(Contents) && Snap(nodes) == old(Snap(nodes))
      ensures freed == null <==> key !in Contents
      ensures freed != null ==> freed in chains[Bucket(hash(key), |chains|)] && freed.key == key
    {
      KeyInChain(key);
      var idx := Bucket(hash(key), table.Length);
      var prev, cur, done, rest := Search(table[idx], key, chains[idx], nodes);
      freed := cur;
      if cur != null && prev != null {
        prev := cur.next;
      } else if cur != null {
        assert done + rest == rest;
        ChainedNodes(rest, Snap(nodes));
        table[idx].next := cur.next;
        SameSnap(nodes, old(Snap(nodes)));
      }
    }

    /** The two assignments that take cur out of its chain: in the node before it, or in the table. */
    method Relink(idx: nat, prev: MapNode?, cur: MapNode, ghost done: Chain, ghost rest: Chain)
      requires idx < table.Length && rest != [] && rest[0] == cur && cur in nodes && cur.next == First(rest[1..])
      requires table[idx] == First(done + rest)
      requires prev == (if done == [] then null else done[|done| - 1]) && (prev != null ==> prev in nodes)
      modifies table, nodes`next
      ensures Snap(nodes) == Unlinked(old(Snap(nodes)), done, rest)
      ensures table[..] == old(table[..])[idx := First(done + rest[1..])]
    {
      ghost var s := Snap(nodes);
      if prev != null {
        prev.next := cur.next;
        SnapNext(nodes, s, prev);
      } else {
        table[idx] := cur.next;
        assert done + rest[1..] == rest[1..];
      }
    }

    method Unlink(key: int32, idx: nat, prev: MapNode?, cur: MapNode, ghost done: Chain, ghost rest: Chain)
      requires Valid() && idx < |chains| && idx == Bucket(hash(key), |chains|)
      requires chains[idx] == done + rest && rest != [] && rest[0] == cur && cur.key == key
      requires Chained(rest, Snap(nodes))
      requires prev == if done == [] then null else done[|done| - 1]
      requires BucketOk(hash, table[idx], chains[idx], idx, |chains|, Snap(nodes), Contents)
      modifies this`chains, this`nodes, this`Contents, table, nodes`next
      ensures Valid() && Contents == old(Contents) - {key}
      ensures nodes == old(nodes) - {cur}
    {
      ghost var s, c := Snap(nodes), done + rest[1..];
      UnlinkChain(hash, done, rest, idx, |chains|, s, Contents);
      UnlinkOutside(hash, done, rest, idx, |chains|, s, Contents);
      KeysKeptByRemoval(hash, chains, idx, c, Contents, key);
      LinkedWithout(hash, chains, nodes, done, rest);
      Relink(idx, prev, cur, done, rest);
      SnapWithout(nodes, cur);
      Adopt(old(table[..]), chains, s, Contents, idx, c, nodes - {cur}, Unlinked(s, done, rest) - {cur}, Contents - {key});
    }

    lemma NoNodeWithKey(key: int32)
      requires Valid() && key !in Contents
      ensures forall n :: n in nodes ==> n.key != key
    {
      KeyInChain(key);
      forall n | n in nodes ensures n.key != key {
        assert Linked(hash, chains, n);
        HasKeyElementwise(chains[Bucket(hash(key), |chains|)], key);
      }
    }

    lemma OnlyNodeWithKey(cur: MapNode)
      requires Valid() && cur in chains[Bucket(hash(cur.key), |chains|)]
      ensures forall n :: n in nodes && n.key == cur.key ==> n == cur
    {
      KeyInChain(cur.key);
      var b := Bucket(hash(cur.key), |chains|);
      OneNodePerKey(hash, chains[b], b, |chains|, cur);
      forall n | n in nodes && n.key == cur.key ensures n == cur {
        assert Linked(hash, chains, n);
      }
    }
  }

  lemma LinkedWith(hash: HashFunction, cs: seq<Chain>, ns: set<MapNode>, neo: MapNode)
    requires |cs| > 0 && AllLinked(hash, cs, ns)
    ensures AllLinked(hash, Push(hash, cs, neo), ns + {neo})
  {
    forall n | n in ns + {neo} ensures Linked(hash, Push(hash, cs, neo), n) {
      PushLinks(hash, cs, neo, n);
      assert n in ns ==> Linked(hash, cs, n);
    }
  }

  lemma LinkedWithout(hash: HashFunction, cs: seq<Chain>, ns: set<MapNode>, done: Chain, rest: Chain)
    requires |cs| > 0 && AllLinked(hash, cs, ns) && rest != [] && cs[Bucket(hash(rest[0].key), |cs|)] == done + rest
    ensures AllLinked(hash, cs[Bucket(hash(rest[0].key), |cs|) := done + rest[1..]], ns - {rest[0]})
  {
    var b := Bucket(hash(rest[0].key), |cs|);
    forall n | n in ns - {rest[0]} ensures Linked(hash, cs[b := done + rest[1..]], n) {
      assert Linked(hash, cs, n);
    }
  }

  /** The nodes once the one behind the last of done has been unlinked. */
  ghost function Unlinked(s: Snapshot, done: Chain, rest: Chain): Snapshot
    requires rest != [] && rest[0] in s && (done != [] ==> done[|done| - 1] in s)
  {
    if done == [] then s
    else
      var prev := done[|done| - 1];
      s[prev := s[prev].(next := s[rest[0]].next)]
  }

  lemma DistinctHead(hash: HashFunction, c: Chain, b: nat, capacity: nat)
    requires capacity > 0 && c != [] && InBucket(hash, c, b, capacity)
    ensures c[0] !in c[1..]
  {
    HasKeyElementwise(c[1..], c[0].key);
  }

  lemma {:induction false} ChainedUnlink(hash: HashFunction, done: Chain, rest: Chain, b: nat, capacity: nat, s: Snapshot)
    requires capacity > 0 && rest != [] && InBucket(hash, done + rest, b, capacity) && Chained(done + rest, s)
    ensures rest[0] in s && (done != [] ==> done[|done| - 1] in s)
    ensures Chained(done + rest[1..], Unlinked(s, done, rest))
    decreases |done|
  {
    if done == [] {
      assert done + rest == rest && done + rest[1..] == rest[1..];
    } else {
      DistinctHead(hash, done + rest, b, capacity);
      assert (done + rest)[1..] == done[1..] + rest;
      assert (done + rest[1..])[1..] == done[1..] + rest[1..];
      ChainedUnlink(hash, done[1..], rest, b, capacity, s);
      if |done| == 1 {
        assert done[1..] + rest == rest && done[1..] + rest[1..] == rest[1..];
        ChainedSame(rest[1..], s, Unlinked(s, done, rest));
      } else {
        assert done[|done| - 1] == done[1..][|done| - 2];
        assert done[|done| - 1] in done[1..] + rest;
      }
    }
  }

  lemma {:induction false} InBucketUnlink(hash: HashFunction, done: Chain, rest: Chain, b: nat, capacity: nat)
    requires capacity > 0 && rest != [] && InBucket(hash, done + rest, b, capacity)
    ensures InBucket(hash, done + rest[1..], b, capacity) && !HasKey(done + rest[1..], rest[0].key)
    decreases |done|
  {
    if done == [] {
      assert done + rest == rest && done + rest[1..] == rest[1..];
    } else {
      assert (done + rest)[1..] == done[1..] + rest;
      assert (done + rest[1..])[1..] == done[1..] + rest[1..];
      InBucketUnlink(hash, done[1..], rest, b, capacity);
      HasKeySplit(done[1..], rest, done[0].key);
      HasKeySplit(done[1..], rest[1..], done[0].key);
    }
  }

  lemma KeysAfterUnlink(done: Chain, rest: Chain, k: int32)
    requires rest != [] && k != rest[0].key
    ensures HasKey(done + rest[1..], k) <==> HasKey(done + rest, k)
  {
    HasKeySplit(done, rest, k);
    HasKeySplit(done, rest[1..], k);
  }

  lemma HoldingUnlink(done: Chain, rest: Chain, s: Snapshot, m: Contents)
    requires rest != [] && Holding(done + rest, s, m) && !HasKey(done + rest[1..], rest[0].key)
    requires rest[0] in s && (done != [] ==> done[|done| - 1] in s)
    ensures Holding(done + rest[1..], Unlinked(s, done, rest), m - {rest[0].key})
  {
    var c := done + rest[1..];
    HoldingElementwise(done + rest, s, m);
    HasKeyElementwise(c, rest[0].key);
    forall n | n in c ensures n in done + rest {
    }
    HoldingElementwise(c, Unlinked(s, done, rest), m - {rest[0].key});
  }

  lemma {:induction false} AllInBucket(hash: HashFunction, c: Chain, b: nat, capacity: nat)
    requires capacity > 0 && InBucket(hash, c, b, capacity)
    ensures forall n :: n in c ==> Bucket(hash(n.key), capacity) == b
  {
    if c != [] {
      AllInBucket(hash, c[1..], b, capacity);
    }
  }

  /** Only the node before the one unlinked changes, and it is in the same bucket. */
  lemma UnlinkOutside(hash: HashFunction, done: Chain, rest: Chain, b: nat, capacity: nat, s: Snapshot, m: Contents)
    requires capacity > 0 && rest != [] && InBucket(hash, done + rest, b, capacity)
    requires rest[0] in s && (done != [] ==> done[|done| - 1] in s)
    ensures SameOutside(hash, capacity, b, s, m, Unlinked(s, done, rest) - {rest[0]}, m - {rest[0].key})
  {
    AllInBucket(hash, done + rest, b, capacity);
    assert rest[0] in done + rest;
    assert done != [] ==> done[|done| - 1] in done + rest;
  }

  /** A node that is not in a chain does not matter to it. */
  lemma Forget(c: Chain, n: MapNode, s: Snapshot, m: Contents)
    requires Chained(c, s) && Holding(c, s, m) && !HasKey(c, n.key)
    ensures Chained(c, s - {n}) && Holding(c, s - {n}, m)
  {
    HasKeyElementwise(c, n.key);
    ChainedSame(c, s, s - {n});
    HoldingElementwise(c, s, m);
    HoldingElementwise(c, s - {n}, m);
  }

  /** The chain without the node of a key. */
  lemma UnlinkChain(hash: HashFunction, done: Chain, rest: Chain, b: nat, capacity: nat, s: Snapshot, m: Contents)
    requires capacity > 0 && rest != [] && BucketOk(hash, First(done + rest), done + rest, b, capacity, s, m)
    ensures rest[0] in s && (done != [] ==> done[|done| - 1] in s)
    ensures BucketOk(hash, First(done + rest[1..]), done + rest[1..], b, capacity, Unlinked(s, done, rest) - {rest[0]},
                     m - {rest[0].key})
    ensures forall k :: k != rest[0].key && HasKey(done + rest, k) ==> HasKey(done + rest[1..], k)
  {
    ChainedUnlink(hash, done, rest, b, capacity, s);
    InBucketUnlink(hash, done, rest, b, capacity);
    HoldingUnlink(done, rest, s, m);
    Forget(done + rest[1..], rest[0], Unlinked(s, done, rest), m - {rest[0].key});
    forall k | k != rest[0].key && HasKey(done + rest, k) ensures HasKey(done + rest[1..], k) {
      KeysAfterUnlink(done, rest, k);
    }
  }

  lemma SnapNext(ns: set<MapNode>, s: Snapshot, prev: MapNode)
    requires s.Keys == ns && prev in ns && prev.conn == s[prev].conn
    requires forall n :: n in ns && n != prev ==> s[n] == Fields(n.conn, n.next)
    ensures Snap(ns) == s[prev := s[prev].(next := prev.next)]
  {
  }

  lemma SameSnap(ns: set<MapNode>, s: Snapshot)
    requires s.Keys == ns && forall n :: n in ns ==> s[n] == Fields(n.conn, n.next)
    ensures Snap(ns) == s
  {
  }

  lemma SnapNew(ns: set<MapNode>, neo: MapNode)
    ensures Snap(ns + {neo}) == Snap(ns)[neo := Fields(neo.conn, neo.next)]
  {
  }

  lemma SnapWithout(ns: set<MapNode>, n: MapNode)
    ensures Snap(ns - {n}) == Snap(ns) - {n}
  {
  }

  lemma SnapConn(ns: set<MapNode>, s: Snapshot, cur: MapNode)
    requires s.Keys == ns && cur in ns && cur.next == s[cur].next
    requires forall n :: n in ns && n != cur ==> s[n] == Fields(n.conn, n.next)
    ensures Snap(ns) == s[cur := s[cur].(conn := cur.conn)]
  {
  }
}