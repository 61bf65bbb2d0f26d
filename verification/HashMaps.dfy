/**
The chained hash map from u32 to u32 (hash_map.c): buckets of linked nodes, grown by
relinking every node into twice as many buckets.
 */
module HashMaps {
  import opened Bytes
  import opened HashBuckets

  /** struct hash_node */
  class Node {
    const key: u32
    var value: u32
    var next: Node?

    constructor (key: u32, value: u32)
      ensures this.key == key && this.value == value
    {
      this.key, this.value, this.next := key, value, null;
    }
  }

  /** The nodes of a chain are linked in order, from head to the end. */
  ghost predicate ListAt(head: Node?, chain: seq<Node>)
    reads chain
  {
    && head == At(chain, 0)
    && forall i | 0 <= i < |chain| :: chain[i].next == At(chain, i + 1)
  }

  ghost function At(chain: seq<Node>, i: nat): Node? {
    if i < |chain| then chain[i] else null
  }

  predicate NoDuplicates(chain: seq<Node>) {
    forall i, j | 0 <= i < j < |chain| :: chain[i] != chain[j]
  }

  ghost predicate UniqueKeys(nodes: set<Node>) {
    forall n, n' | n in nodes && n' in nodes && n.key == n'.key :: n == n'
  }

  /** The map a set of nodes holds. */
  ghost function MapOf(nodes: set<Node>): map<u32, u32>
    requires UniqueKeys(nodes)
    reads nodes
  {
    map n | n in nodes :: n.key := n.value
  }

  /** struct hash_map */
  class HashMap {
    var numKeys: nat
    var numBuckets: nat
    var bucketMask: nat
    var buckets: array<Node?>
    ghost var log: nat               // num_buckets is 2^log
    ghost var chains: seq<seq<Node>> // the nodes of each bucket, in order
    ghost var nodes: set<Node>       // all nodes

    /** The chain of a bucket: its nodes, each in the bucket its key hashes to. */
    ghost predicate ChainOk(b: nat)
      requires b < |chains| && b < buckets.Length
      reads this`numBuckets, this`bucketMask, this`buckets, this`log, this`chains, this`nodes, buckets, nodes
    {
      && (forall n | n in chains[b] :: n in nodes && BucketOf(n.key, bucketMask) == b)
      && NoDuplicates(chains[b])
      && ListAt(buckets[b], chains[b])
    }

    /** Every node hangs in its own bucket, once, and no key occurs twice. */
    ghost predicate Linked()
      reads this`numBuckets, this`bucketMask, this`buckets, this`log, this`chains, this`nodes, buckets, nodes
    {
      && numBuckets == Pow2(log) && bucketMask == numBuckets - 1
      && buckets.Length == numBuckets == |chains|
      && (forall b | 0 <= b < numBuckets :: ChainOk(b))
      && (forall n | n in nodes :: BucketOf(n.key, bucketMask) < numBuckets && n in chains[BucketOf(n.key, bucketMask)])
      && UniqueKeys(nodes)
    }

    ghost predicate Valid()
      reads this, buckets, nodes
    {
      && Linked()
      && numKeys == |nodes|
      && numBuckets <= 0x4000_0000
      && (numKeys <= numBuckets || numBuckets == 0x4000_0000)
    }

    ghost function Contents(): map<u32, u32>
      requires UniqueKeys(nodes)
      reads this, nodes
    {
      MapOf(nodes)
    }

    /** hash_map_pick_bucket_count, with the logarithm of its result. */
    static method PickBucketCount(numKeys: nat) returns (buckets: nat, ghost log: nat)
      ensures buckets == Pow2(log) && buckets <= 0x4000_0000
      ensures numKeys <= buckets || buckets == 0x4000_0000
      ensures log > 0 ==> Pow2(log - 1) < numKeys
    {
      buckets, log := 1, 0;
      while buckets < numKeys && buckets < MAX_BUCKETS
        invariant buckets == Pow2(log) <= MAX_BUCKETS
        invariant log > 0 ==> Pow2(log - 1) < numKeys
      {
        DoubleFits(log);
        buckets, log := 2 * buckets, log + 1;
      }
    }

    /** hash_map_new */
    constructor (numKeys: nat)
      ensures Valid() && fresh(buckets) && nodes == {} && UniqueKeys(nodes) && Contents() == map[]
    {
      var n, k := PickBucketCount(numKeys);
      this.numKeys, numBuckets, bucketMask := 0, n, n - 1;
      buckets := new Node?[n](i => null);
      log, chains, nodes := k, seq(n, i => []), {};
    }

    /** hash_map_link */
    method Link(node: Node)
      requires Linked() && node !in nodes && forall n | n in nodes :: n.key != node.key
      modifies this`chains, this`nodes, buckets, node`next
      ensures Linked() && nodes == old(nodes) + {node}
    {
      hide BucketOf, Pow2;
      var b := BucketOf(node.key, bucketMask);
      BucketInRange(node.key, log);
      node.next := buckets[b];
      buckets[b] := node;
      chains := chains[b := [node] + chains[b]];
      nodes := nodes + {node};
      forall c | 0 <= c < numBuckets
        ensures ChainOk(c)
      {
        assert old(ChainOk(c));
      }
    }

    /** The loop of hash_map_get and hash_map_set: the node with a key, if any. */
    method Find(key: u32) returns (node: Node?)
      requires Linked()
      ensures node != null ==> node in nodes && node.key == key
      ensures node == null ==> forall n | n in nodes :: n.key != key
    {
      hide BucketOf, Pow2;
      var b := BucketOf(key, bucketMask);
      BucketInRange(key, log);
      assert ChainOk(b);
      ghost var i := 0;
      node := buckets[b];
      while node != null
        invariant i <= |chains[b]| && node == At(chains[b], i)
        invariant forall j | 0 <= j < i :: chains[b][j].key != key
        decreases |chains[b]| - i
      {
        if node.key == key {
          return;
        }
        node := node.next;
        i := i + 1;
      }
    }

    /** hash_map_get */
    method Get(key: u32) returns (value: Option<u32>)
      requires Valid()
      ensures value == if key in Contents() then Some(Contents()[key]) else None
    {
      var node := Find(key);
      if node != null {
        return Some(node.value);
      }
      return None;
    }

    /** The inner loop of hash_map_grow: relink the nodes of one old bucket. */
    method RelinkChain(head: Node?, ghost chain: seq<Node>, ghost moved: set<Node>)
      requires Linked() && ListAt(head, chain) && NoDuplicates(chain)
      requires moved == NodesOf(chain) && moved !! nodes && UniqueKeys(nodes + moved)
      modifies this`chains, this`nodes, buckets, moved`next
      ensures Linked() && nodes == old(nodes) + moved
    {
      hide BucketOf, Linked, UniqueKeys, NoDuplicates;
      ghost var i, start := 0, nodes;
      var node := head;
      Prefix(chain, 0);
      while node != null
        invariant i <= |chain| && node == At(chain, i)
        invariant Linked() && nodes == start + NodesOf(chain[..i])
        invariant forall j | i <= j < |chain| :: chain[j].next == At(chain, j + 1)
        decreases |chain| - i
      {
        var next := node.next;
        Prefix(chain, i);
        IsNew(start, chain, i);
        Link(node);
        Later(chain, i);
        node := next;
        i := i + 1;
      }
      Prefix(chain, |chain|);
    }

    /** An empty bucket array of twice the size. */
    method StartOver()
      requires Linked()
      modifies this`numBuckets, this`bucketMask, this`buckets, this`log, this`chains, this`nodes
      ensures Linked() && nodes == {} && numBuckets == 2 * old(numBuckets) && fresh(buckets)
    {
      hide BucketOf;
      numBuckets := 2 * numBuckets;
      bucketMask := numBuckets - 1;
      buckets := new Node?[numBuckets](i => null);
      log, chains, nodes := log + 1, seq(numBuckets, i => []), {};
    }

    /** hash_map_grow: relink every node into twice as many buckets. */
    method Grow()
      requires Linked()
      modifies this`numBuckets, this`bucketMask, this`buckets, this`log, this`chains, this`nodes, nodes`next
      ensures Linked() && nodes == old(nodes) && UniqueKeys(nodes) && Contents() == old(Contents())
      ensures numBuckets == 2 * old(numBuckets) && fresh(buckets)
    {
      hide BucketOf, ListAt, NoDuplicates, Before, Sorted, UniqueKeys;
      ghost var all, lists, mask := nodes, chains, bucketMask;
      var oldNumBuckets, oldBuckets := numBuckets, buckets;
      OldChains();
      StartOver();
      BeforeNone(all, mask);
      var b := 0;
      while b < oldNumBuckets
        invariant b <= oldNumBuckets && numBuckets == 2 * oldNumBuckets && fresh(buckets)
        invariant Linked() && nodes == Before(all, mask, b)
        invariant forall c | b <= c < oldNumBuckets :: ListAt(oldBuckets[c], lists[c])
      {
        ghost var moved := NodesOf(lists[b]);
        BeforeOne(lists, all, mask, b, moved);
        RelinkChain(oldBuckets[b], lists[b], moved);
        b := b + 1;
      }
      BeforeAll(lists, all, mask);
      KeysAreUnique();
    }

    /** Allocating a node and linking it. */
    method LinkNew(key: u32, value: u32)
      requires Linked() && forall n | n in nodes :: n.key != key
      modifies this`chains, this`nodes, buckets
      ensures Linked() && fresh(nodes - old(nodes)) && |nodes| == |old(nodes)| + 1
      ensures UniqueKeys(nodes) && Contents() == old(Contents())[key := value]
    {
      hide BucketOf, Linked, UniqueKeys, Pow2;
      KeysAreUnique();
      var node := new Node(key, value);
      Link(node);
      KeysAreUnique();
      MapOfMore(old(nodes), node);
    }

    /** hash_map_insert: grow first when the load factor would exceed one. */
    method Insert(key: u32, value: u32)
      requires Valid() && forall n | n in nodes :: n.key != key
      modifies this, buckets, nodes`next
      ensures Valid() && fresh(nodes - old(nodes)) && (buckets == old(buckets) || fresh(buckets))
      ensures Contents() == old(Contents())[key := value]
    {
      hide BucketOf, Linked, UniqueKeys, Pow2, MapOf;
      KeysAreUnique();
      if numKeys >= numBuckets && numBuckets < MAX_BUCKETS {
        MayDouble();
        Grow();
      }
      numKeys := numKeys + 1;
      LinkNew(key, value);
      KeysAreUnique();
    }

    lemma KeysAreUnique()
      requires Linked()
      ensures UniqueKeys(nodes) && 1 <= numBuckets
    {
      hide BucketOf;
    }

    lemma MayDouble()
      requires Linked() && numBuckets < MAX_BUCKETS
      ensures 2 * numBuckets <= MAX_BUCKETS
    {
      hide BucketOf;
      DoubleFits(log);
    }

    /** hash_map_set */
    method Set(key: u32, value: u32)
      requires Valid()
      modifies this, buckets, nodes
      ensures Valid() && fresh(nodes - old(nodes)) && (buckets == old(buckets) || fresh(buckets))
      ensures Contents() == old(Contents())[key := value]
    {
      hide BucketOf, Pow2;
      var node := Find(key);
      if node != null {
        node.value := value;
        assert forall b | 0 <= b < numBuckets :: old(ChainOk(b)) ==> ChainOk(b);
        return;
      }
      Insert(key, value);
    }

    lemma OldChains()
      requires Linked()
      ensures Sorted(chains, nodes, bucketMask) && UniqueKeys(nodes)
      ensures forall b | 0 <= b < numBuckets :: ListAt(buckets[b], chains[b]) && NoDuplicates(chains[b])
    {
      hide BucketOf, ListAt, NoDuplicates;
      forall b | 0 <= b < numBuckets
        ensures ListAt(buckets[b], chains[b]) && NoDuplicates(chains[b])
        ensures forall n | n in chains[b] :: n in nodes && BucketOf(n.key, bucketMask) == b
      {
        assert ChainOk(b);
      }
    }
  }

  lemma MapOfMore(nodes: set<Node>, node: Node)
    requires UniqueKeys(nodes) && UniqueKeys(nodes + {node}) && node !in nodes
    ensures MapOf(nodes + {node}) == MapOf(nodes)[node.key := node.value]
  {
  }

  /** There are as many keys as nodes. */
  lemma {:induction false} MapSize(nodes: set<Node>)
    requires UniqueKeys(nodes)
    ensures |MapOf(nodes)| == |nodes|
    decreases |nodes|
  {
    if nodes != {} {
      var n := Pick(nodes);
      var rest := nodes - {n};
      MapSize(rest);
      assert MapOf(nodes) == MapOf(rest)[n.key := n.value];
      assert n.key !in MapOf(rest);
    }
  }

  /** What a sequence of hash_map_set calls leaves. */
  function Assigned(pairs: seq<(u32, u32)>): map<u32, u32> {
    if pairs == [] then map[]
    else Assigned(pairs[..|pairs| - 1])[pairs[|pairs| - 1].0 := pairs[|pairs| - 1].1]
  }

  /** A fresh map after any calls of hash_map_set: its contents are what was assigned
      last to each key, as many keys as num_keys says, at most one key a bucket on
      average until the number of buckets is at its maximum. */
  method SetAll(numKeys: nat, pairs: seq<(u32, u32)>) returns (m: HashMap)
    ensures m.Valid() && m.Contents() == Assigned(pairs)
    ensures m.numKeys == |Assigned(pairs)|
  {
    hide BucketOf, HashMap.Linked, MapOf, Pow2, UniqueKeys;
    m := new HashMap(numKeys);
    var i := 0;
    assert pairs[..0] == [];
    while i < |pairs|
      invariant i <= |pairs| && m.Valid() && fresh(m) && fresh(m.buckets) && fresh(m.nodes)
      invariant UniqueKeys(m.nodes) && m.Contents() == Assigned(pairs[..i])
    {
      m.Set(pairs[i].0, pairs[i].1);
      m.KeysAreUnique();
      assert pairs[..i + 1][..i] == pairs[..i];
      i := i + 1;
    }
    assert pairs[..i] == pairs;
    m.KeysAreUnique();
    MapSize(m.nodes);
  }

  ghost function NodesOf(chain: seq<Node>): set<Node> {
    set n | n in chain
  }

  /** The nodes up to i, one by one. */
  lemma Prefix(chain: seq<Node>, i: nat)
    requires i <= |chain|
    ensures i == 0 ==> NodesOf(chain[..i]) == {}
    ensures i < |chain| ==> NodesOf(chain[..i + 1]) == NodesOf(chain[..i]) + {chain[i]}
    ensures i == |chain| ==> NodesOf(chain[..i]) == NodesOf(chain)
  {
    if i < |chain| {
      assert chain[..i + 1] == chain[..i] + [chain[i]];
    } else {
      assert chain[..i] == chain;
    }
  }

  /** The next node of a chain is not linked yet, and neither is its key. */
  lemma IsNew(start: set<Node>, chain: seq<Node>, i: nat)
    requires i < |chain| && NoDuplicates(chain) && NodesOf(chain) !! start && UniqueKeys(start + NodesOf(chain))
    ensures chain[i] in NodesOf(chain) && chain[i] !in start + NodesOf(chain[..i])
    ensures forall n | n in start + NodesOf(chain[..i]) :: n.key != chain[i].key
  {
    assert chain[i] in NodesOf(chain);
    forall n | n in start + NodesOf(chain[..i])
      ensures n != chain[i] && n.key != chain[i].key
    {
      assert n in start + NodesOf(chain);
    }
  }

  /** Later nodes of a chain are other nodes. */
  lemma Later(chain: seq<Node>, i: nat)
    requires i < |chain| && NoDuplicates(chain)
    ensures forall j | i < j < |chain| :: chain[j] != chain[i]
  {
  }

  /** The nodes are spread over the lists by their keys. */
  ghost predicate Sorted(lists: seq<seq<Node>>, nodes: set<Node>, mask: nat) {
    && (forall b, n | 0 <= b < |lists| && n in lists[b] :: n in nodes && BucketOf(n.key, mask) == b)
    && (forall n | n in nodes :: BucketOf(n.key, mask) < |lists| && n in lists[BucketOf(n.key, mask)])
  }

  /** The nodes of the buckets before b. */
  ghost function Before(nodes: set<Node>, mask: nat, b: nat): set<Node> {
    set n | n in nodes && BucketOf(n.key, mask) < b
  }

  lemma BeforeNone(nodes: set<Node>, mask: nat)
    ensures Before(nodes, mask, 0) == {}
  {
  }

  lemma BeforeAll(lists: seq<seq<Node>>, nodes: set<Node>, mask: nat)
    requires Sorted(lists, nodes, mask)
    ensures Before(nodes, mask, |lists|) == nodes
  {
    hide BucketOf;
  }

  /** One more bucket brings in exactly the nodes of its list, and no others'. */
  lemma BeforeOne(lists: seq<seq<Node>>, nodes: set<Node>, mask: nat, b: nat, moved: set<Node>)
    requires Sorted(lists, nodes, mask) && UniqueKeys(nodes) && b < |lists| && moved == NodesOf(lists[b])
    ensures Before(nodes, mask, b + 1) == Before(nodes, mask, b) + moved
    ensures moved !! Before(nodes, mask, b) && UniqueKeys(Before(nodes, mask, b) + moved) && moved <= nodes
    ensures forall c, n | b < c < |lists| && n in lists[c] :: n !in moved
  {
    hide BucketOf;
  }
}
