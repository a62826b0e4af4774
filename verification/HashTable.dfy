/** The chained hash table: linked nodes, relinked in place by every resize. Keys are taken up to
    the caller's key_equal_func, so equal keys have one hash. */
module HashTable {
  import opened Memory
  import opened SpacedPrimes
  import opened TableSizing

  class Node<K, V> {
    const key: K
    const value: V
    const keyHash: nat
    var next: Node?<K, V>

    constructor (key: K, value: V, keyHash: nat)
      ensures this.key == key && this.value == value && this.keyHash == keyHash && next == null
    {
      this.key, this.value, this.keyHash, next := key, value, keyHash, null;
    }
  }

  /** What a pgm_hashnode_t** points to: a bucket, or the link of a node. */
  datatype Slot<K, V> = Bucket(b: nat) | LinkOf(node: Node<K, V>)

  // ---- what the nodes are meant to be ----

  /** The chains of nodes bucket by bucket, the nodes, and where the node of each key is. */
  datatype View<K, V> = View(chains: seq<seq<Node<K, V>>>, members: set<Node<K, V>>, index: map<K, Node<K, V>>)

  /** Place k of chain b holds a member whose hash belongs there. */
  ghost predicate InPlace<K, V>(chains: seq<seq<Node<K, V>>>, members: set<Node<K, V>>, b: nat, k: nat)
    requires b < |chains| && k < |chains[b]|
  {
    chains[b][k] in members && chains[b][k].keyHash % |chains| == b
  }

  ghost predicate AtHome<K, V>(chains: seq<seq<Node<K, V>>>, n: Node<K, V>)
    requires |chains| > 0
  {
    n in chains[n.keyHash % |chains|]
  }

  /** The chains hold exactly the members, each once and in the bucket of its hash. */
  ghost predicate Filed<K, V>(chains: seq<seq<Node<K, V>>>, members: set<Node<K, V>>)
  {
    && |chains| > 0
    && (forall b, k {:trigger InPlace(chains, members, b, k)} ::
          0 <= b < |chains| && 0 <= k < |chains[b]| ==> InPlace(chains, members, b, k))
    && (forall n {:trigger AtHome(chains, n)} :: n in members ==> AtHome(chains, n))
    && (forall b :: 0 <= b < |chains| ==> NoDuplicates(chains[b]))
  }

  ghost predicate NoDuplicates<K, V>(chain: seq<Node<K, V>>)
  {
    forall j, k :: 0 <= j < k < |chain| ==> chain[j] != chain[k]
  }

  /** A node carries the hash of its key and is found under that key. */
  ghost predicate Found<K, V>(index: map<K, Node<K, V>>, hash: K -> nat, n: Node<K, V>)
  {
    n.keyHash == hash(n.key) && n.key in index && index[n.key] == n
  }

  ghost predicate LeadsIn<K, V>(index: map<K, Node<K, V>>, members: set<Node<K, V>>, k: K)
    requires k in index
  {
    index[k] in members && index[k].key == k
  }

  /** The index leads from every key given to its node, and the members are just those nodes. */
  ghost predicate Keyed<K, V>(index: map<K, Node<K, V>>, members: set<Node<K, V>>, hash: K -> nat)
  {
    && (forall n {:trigger Found(index, hash, n)} :: n in members ==> Found(index, hash, n))
    && (forall k {:trigger LeadsIn(index, members, k)} :: k in index ==> LeadsIn(index, members, k))
    && |index| == |members|
  }

  ghost predicate Sound<K, V>(view: View<K, V>, hash: K -> nat)
  {
    Filed(view.chains, view.members) && Keyed(view.index, view.members, hash)
  }

  ghost function Values<K, V>(index: map<K, Node<K, V>>): map<K, V>
  {
    map k | k in index :: index[k].value
  }

  lemma ValuesAdd<K, V>(index: map<K, Node<K, V>>, node: Node<K, V>)
    ensures Values(index[node.key := node]) == Values(index)[node.key := node.value]
  {
  }

  lemma ValuesRemove<K, V>(index: map<K, Node<K, V>>, key: K)
    ensures Values(index - {key}) == Values(index) - {key}
  {
  }

  /** The node at place k of a chain, null behind its end. */
  ghost function At<K, V>(chain: seq<Node<K, V>>, k: nat): Node?<K, V>
  {
    if k < |chain| then chain[k] else null
  }

  /** The slot that leads to place j of chain b. */
  ghost function SlotAt<K, V>(chains: seq<seq<Node<K, V>>>, b: nat, j: nat): Slot<K, V>
    requires b < |chains| && j <= |chains[b]|
  {
    if j == 0 then Bucket(b) else LinkOf(chains[b][j - 1])
  }

  /** Following the links from the buckets visits exactly the chains. */
  ghost predicate Threaded<K, V>(nodes: array<Node?<K, V>>, chains: seq<seq<Node<K, V>>>, members: set<Node<K, V>>)
    reads nodes, members
  {
    && |chains| == nodes.Length
    && (forall b :: 0 <= b < |chains| ==> nodes[b] == At(chains[b], 0))
    && (forall b, k {:trigger chains[b][k].next} ::
          0 <= b < |chains| && 0 <= k < |chains[b]| ==>
            chains[b][k] in members && chains[b][k].next == At(chains[b], k + 1))
  }

  // ---- looking up ----

  /** pgm_hashtable_lookup_node: the first slot of the bucket whose node has the key, or the slot
      at the end. */
  method LookupNode<K(==), V>(nodes: array<Node?<K, V>>, hash: K -> nat, key: K, ghost view: View<K, V>)
    returns (slot: Slot<K, V>, node: Node?<K, V>, h: nat, ghost j: nat)
    requires Threaded(nodes, view.chains, view.members) && nodes.Length > 0
    requires Sound(view, hash)
    ensures h == hash(key) && j <= |view.chains[h % nodes.Length]|
    ensures slot == SlotAt(view.chains, h % nodes.Length, j) && node == At(view.chains[h % nodes.Length], j)
    ensures node != null ==> key in view.index && view.index[key] == node && node.key == key
    ensures node == null ==> key !in view.index
  {
    h := hash(key);
    var b := h % nodes.Length;
    ghost var chain := view.chains[b];
    slot, node, j := Bucket(b), nodes[b], 0;
    while node != null && !(node.keyHash == h && node.key == key)
      invariant j <= |chain| && node == At(chain, j)
      invariant slot == if j == 0 then Bucket(b) else LinkOf(chain[j - 1])
      invariant forall k :: 0 <= k < j ==> !(chain[k].keyHash == h && chain[k].key == key)
      decreases |chain| - j
    {
      assert node == view.chains[b][j];
      slot, node, j := LinkOf(node), node.next, j + 1;
    }
    NotThere(view, hash, key, h, node, j);
  }

  /** A key that no node of its own bucket has is in no bucket. */
  lemma {:induction false} NotThere<K, V>(view: View<K, V>, hash: K -> nat, key: K, h: nat, node: Node?<K, V>, j: nat)
    requires Filed(view.chains, view.members) && Keyed(view.index, view.members, hash) && h == hash(key)
    requires j <= |view.chains[h % |view.chains|]| && node == At(view.chains[h % |view.chains|], j)
    requires node != null ==> node.key == key
    requires forall k :: 0 <= k < j ==>
               !(view.chains[h % |view.chains|][k].keyHash == h && view.chains[h % |view.chains|][k].key == key)
    ensures node != null ==> key in view.index && view.index[key] == node
    ensures node == null ==> key !in view.index
  {
    var chain := view.chains[h % |view.chains|];
    if key in view.index {
      var n := view.index[key];
      assert LeadsIn(view.index, view.members, key);
      assert Found(view.index, hash, n) && AtHome(view.chains, n);
    }
    if node != null {
      assert InPlace(view.chains, view.members, h % |view.chains|, j);
      assert Found(view.index, hash, chain[j]);
    }
  }

  // ---- linking in ----

  ghost function Appended<K, V>(view: View<K, V>, node: Node<K, V>, b: nat): View<K, V>
    requires b < |view.chains|
  {
    View(view.chains[b := view.chains[b] + [node]], view.members + {node}, view.index[node.key := node])
  }

  /** Writes the slot at the end of a bucket with a new node. */
  method Append<K(==), V>(nodes: array<Node?<K, V>>, slot: Slot<K, V>, node: Node<K, V>, ghost b: nat,
                          ghost view: View<K, V>)
    requires Threaded(nodes, view.chains, view.members) && Filed(view.chains, view.members)
    requires b < |view.chains| && slot == SlotAt(view.chains, b, |view.chains[b]|)
    requires node !in view.members && node.next == null
    modifies nodes, view.members
    ensures Threaded(nodes, Appended(view, node, b).chains, view.members + {node})
  {
    ghost var j := |view.chains[b]|;
    if j > 0 {
      OnePlace(view.chains, view.members, b, j - 1);
    }
    match slot {
      case Bucket(i) => nodes[i] := node;
      case LinkOf(n) => n.next := node;
    }
    ghost var after := Appended(view, node, b).chains;
    forall c | 0 <= c < |after|
      ensures nodes[c] == At(after[c], 0)
    {
      assert old(nodes[c]) == At(view.chains[c], 0);
    }
    forall c, k | 0 <= c < |after| && 0 <= k < |after[c]|
      ensures after[c][k] in view.members + {node} && after[c][k].next == At(after[c], k + 1)
    {
      if k < |view.chains[c]| {
        assert old(view.chains[c][k].next) == At(view.chains[c], k + 1);
      }
    }
  }

  /** A node is in one chain only, and only once. */
  lemma {:induction false} OnePlace<K, V>(chains: seq<seq<Node<K, V>>>, members: set<Node<K, V>>, b: nat, j: nat)
    requires Filed(chains, members) && b < |chains| && j < |chains[b]|
    ensures chains[b][j] in members
    ensures forall c, k {:trigger chains[c][k]} ::
              0 <= c < |chains| && 0 <= k < |chains[c]| && chains[c][k] == chains[b][j] ==> c == b && k == j
  {
    assert InPlace(chains, members, b, j);
    forall c, k | 0 <= c < |chains| && 0 <= k < |chains[c]| && chains[c][k] == chains[b][j]
      ensures c == b && k == j
    {
      assert InPlace(chains, members, c, k);
      assert NoDuplicates(chains[b]);
    }
  }

  lemma {:induction false} AppendKeyed<K, V>(view: View<K, V>, hash: K -> nat, node: Node<K, V>, b: nat)
    requires Keyed(view.index, view.members, hash) && b < |view.chains|
    requires node !in view.members && node.keyHash == hash(node.key) && node.key !in view.index
    ensures var after := Appended(view, node, b);
            Keyed(after.index, after.members, hash) && |after.index| == |view.index| + 1
  {
    var after := Appended(view, node, b);
    forall n | n in after.members
      ensures Found(after.index, hash, n)
    {
      assert n != node ==> Found(view.index, hash, n);
    }
    forall k | k in after.index
      ensures LeadsIn(after.index, after.members, k)
    {
      assert k != node.key ==> LeadsIn(view.index, view.members, k);
    }
  }

  lemma {:induction false} AppendFiled<K, V>(view: View<K, V>, node: Node<K, V>, b: nat)
    requires Filed(view.chains, view.members) && b == node.keyHash % |view.chains| && node !in view.members
    ensures var after := Appended(view, node, b); Filed(after.chains, after.members)
  {
    var after := Appended(view, node, b);
    forall c, k | 0 <= c < |after.chains| && 0 <= k < |after.chains[c]|
      ensures InPlace(after.chains, after.members, c, k)
    {
      if k < |view.chains[c]| {
        assert InPlace(view.chains, view.members, c, k);
      }
    }
    forall n | n in after.members
      ensures AtHome(after.chains, n)
    {
      if n == node {
        assert after.chains[b][|view.chains[b]|] == node;
      } else {
        assert AtHome(view.chains, n);
        StaysIn(view.chains[n.keyHash % |view.chains|], after.chains[n.keyHash % |view.chains|], n);
      }
    }
    forall k | 0 <= k < |view.chains[b]|
      ensures view.chains[b][k] != node
    {
      assert InPlace(view.chains, view.members, b, k);
    }
  }

  lemma {:induction false} AppendSound<K, V>(view: View<K, V>, hash: K -> nat, node: Node<K, V>, b: nat)
    requires Sound(view, hash) && b == node.keyHash % |view.chains| && node !in view.members
    requires node.keyHash == hash(node.key) && node.key !in view.index
    ensures Sound(Appended(view, node, b), hash) && |Appended(view, node, b).index| == |view.index| + 1
  {
    AppendFiled(view, node, b);
    AppendKeyed(view, hash, node, b);
  }

  lemma StaysIn<T>(s: seq<T>, t: seq<T>, x: T)
    requires x in s && s <= t
    ensures x in t
  {
    var k :| 0 <= k < |s| && s[k] == x;
    assert t[k] == x;
  }

  lemma StaysWithout<T>(s: seq<T>, j: nat, x: T)
    requires j < |s| && x in s && x != s[j]
    ensures x in s[..j] + s[j + 1..]
  {
    var k :| 0 <= k < |s| && s[k] == x;
    assert (s[..j] + s[j + 1..])[if k > j then k - 1 else k] == x;
  }

  // ---- unlinking ----

  ghost function Removed<K, V>(view: View<K, V>, b: nat, j: nat): View<K, V>
    requires b < |view.chains| && j < |view.chains[b]|
  {
    var chain := view.chains[b];
    View(view.chains[b := chain[..j] + chain[j + 1..]], view.members - {chain[j]}, view.index - {chain[j].key})
  }

  /** Writes the slot that leads to dest with what follows dest. */
  method Unlink<K(==), V>(nodes: array<Node?<K, V>>, slot: Slot<K, V>, dest: Node<K, V>, ghost b: nat, ghost j: nat,
                          ghost view: View<K, V>)
    requires Threaded(nodes, view.chains, view.members) && Filed(view.chains, view.members)
    requires b < |view.chains| && j < |view.chains[b]| && dest == view.chains[b][j]
    requires slot == SlotAt(view.chains, b, j)
    modifies nodes, view.members
    ensures Threaded(nodes, Removed(view, b, j).chains, view.members - {dest})
  {
    ghost var chains, chain := view.chains, view.chains[b];
    ghost var after := Removed(view, b, j).chains;
    OnePlace(chains, view.members, b, j);
    if j > 0 {
      OnePlace(chains, view.members, b, j - 1);
    }
    assert chains[b][j].next == At(chain, j + 1);
    match slot {
      case Bucket(i) => nodes[i] := dest.next;
      case LinkOf(n) => n.next := dest.next;
    }
    forall c | 0 <= c < |after|
      ensures nodes[c] == At(after[c], 0)
    {
      assert old(nodes[c]) == At(chains[c], 0);
    }
    forall c, k | 0 <= c < |after| && 0 <= k < |after[c]|
      ensures after[c][k] in view.members - {dest} && after[c][k].next == At(after[c], k + 1)
    {
      var k' := if c == b && k >= j then k + 1 else k;
      assert after[c][k] == chains[c][k'];
      assert old(chains[c][k'].next) == At(chains[c], k' + 1);
    }
  }

  lemma {:induction false} RemovedKeyed<K, V>(view: View<K, V>, hash: K -> nat, b: nat, j: nat)
    requires Keyed(view.index, view.members, hash) && Filed(view.chains, view.members)
    requires b < |view.chains| && j < |view.chains[b]|
    ensures var after := Removed(view, b, j);
            Keyed(after.index, after.members, hash) && |after.index| == |view.index| - 1
  {
    var dest := view.chains[b][j];
    assert InPlace(view.chains, view.members, b, j) && Found(view.index, hash, dest);
    var after := Removed(view, b, j);
    forall n | n in after.members
      ensures Found(after.index, hash, n)
    {
      assert Found(view.index, hash, n);
    }
    forall k | k in after.index
      ensures LeadsIn(after.index, after.members, k)
    {
      assert LeadsIn(view.index, view.members, k);
    }
    assert after.index.Keys == view.index.Keys - {dest.key};
    assert |after.index.Keys| == |view.index| - 1;
  }

  lemma {:induction false} RemovedFiled<K, V>(view: View<K, V>, b: nat, j: nat)
    requires Filed(view.chains, view.members) && b < |view.chains| && j < |view.chains[b]|
    ensures var after := Removed(view, b, j); Filed(after.chains, after.members)
  {
    var chains, after := view.chains, Removed(view, b, j);
    OnePlace(chains, view.members, b, j);
    forall c, k | 0 <= c < |after.chains| && 0 <= k < |after.chains[c]|
      ensures InPlace(after.chains, after.members, c, k)
    {
      var k' := if c == b && k >= j then k + 1 else k;
      assert after.chains[c][k] == chains[c][k'] && InPlace(chains, view.members, c, k');
    }
    forall n | n in after.members
      ensures AtHome(after.chains, n)
    {
      assert AtHome(chains, n);
      if n.keyHash % |chains| == b {
        StaysWithout(chains[b], j, n);
      }
    }
  }

  lemma {:induction false} RemovedSound<K, V>(view: View<K, V>, hash: K -> nat, b: nat, j: nat)
    requires Sound(view, hash) && b < |view.chains| && j < |view.chains[b]|
    ensures Sound(Removed(view, b, j), hash) && |Removed(view, b, j).index| == |view.index| - 1
  {
    RemovedFiled(view, b, j);
    RemovedKeyed(view, hash, b, j);
  }

  // ---- resizing ----

  /** Bucket b after the nodes have been pushed one by one onto the fronts of their buckets. */
  ghost function Pushed<K, V>(order: seq<Node<K, V>>, size: nat, b: nat): seq<Node<K, V>>
    requires size > 0
  {
    if order == [] then [] else
      var n := |order| - 1;
      if order[n].keyHash % size == b then [order[n]] + Pushed(order[..n], size, b) else Pushed(order[..n], size, b)
  }

  ghost function Buckets<K, V>(order: seq<Node<K, V>>, size: nat): seq<seq<Node<K, V>>>
    requires size > 0
  {
    seq(size, b requires 0 <= b < size => Pushed(order, size, b))
  }

  /** The nodes in the order a resize visits them: bucket after bucket, each from its head. */
  ghost function Flat<K, V>(chains: seq<seq<Node<K, V>>>): seq<Node<K, V>>
  {
    if chains == [] then [] else Flat(chains[..|chains| - 1]) + chains[|chains| - 1]
  }

  lemma {:induction false} BucketsPush<K, V>(order: seq<Node<K, V>>, node: Node<K, V>, size: nat)
    requires size > 0
    ensures var h := node.keyHash % size;
            Buckets(order + [node], size) == Buckets(order, size)[h := [node] + Buckets(order, size)[h]]
  {
    assert (order + [node])[..|order|] == order;
  }

  lemma {:induction false} PushedFrom<K, V>(order: seq<Node<K, V>>, size: nat, b: nat, n: Node<K, V>)
    requires size > 0
    ensures n in Pushed(order, size, b) <==> n in order && n.keyHash % size == b
  {
    if order != [] {
      PushedFrom(order[..|order| - 1], size, b, n);
      assert order == order[..|order| - 1] + [order[|order| - 1]];
    }
  }

  /** Puts a node at the front of a new bucket. */
  method PushFront<K(==), V>(newNodes: array<Node?<K, V>>, node: Node<K, V>, h: nat, ghost chains: seq<seq<Node<K, V>>>,
                             ghost members: set<Node<K, V>>)
    requires Threaded(newNodes, chains, members) && h < newNodes.Length && node in members
    requires forall b, k {:trigger chains[b][k]} :: 0 <= b < |chains| && 0 <= k < |chains[b]| ==> chains[b][k] != node
    modifies newNodes, node
    ensures Threaded(newNodes, chains[h := [node] + chains[h]], members)
  {
    node.next := newNodes[h];
    newNodes[h] := node;
    ghost var after := chains[h := [node] + chains[h]];
    forall b, k | 0 <= b < |after| && 0 <= k < |after[b]|
      ensures after[b][k] in members && after[b][k].next == At(after[b], k + 1)
    {
      if b == h && k > 0 {
        assert old(chains[b][k - 1].next) == At(chains[b], k);
      } else if b != h {
        assert old(chains[b][k].next) == At(chains[b], k + 1);
      }
    }
  }

  /** One old bucket, relinked node by node into the new ones. */
  method RehashChain<K(==), V>(head: Node?<K, V>, newNodes: array<Node?<K, V>>, ghost chain: seq<Node<K, V>>,
                               ghost order: seq<Node<K, V>>, ghost members: set<Node<K, V>>)
    returns (ghost moved: nat)
    requires newNodes.Length > 0 && Threaded(newNodes, Buckets(order, newNodes.Length), members)
    requires head == At(chain, 0) && NoDuplicates(chain)
    requires forall k {:trigger chain[k].next} :: 0 <= k < |chain| ==> chain[k].next == At(chain, k + 1)
    requires forall k {:trigger chain[k]} :: 0 <= k < |chain| ==> chain[k] in members && chain[k] !in order
    modifies newNodes, set n | n in chain
    ensures Threaded(newNodes, Buckets(order + chain, newNodes.Length), members) && moved == |chain|
  {
    moved := 0;
    var node := head;
    ghost var j, visited: seq<Node<K, V>> := 0, order;
    while node != null
      invariant j <= |chain| && node == At(chain, j) && visited == order + chain[..j] && moved == j
      invariant forall k {:trigger chain[k].next} :: j <= k < |chain| ==> chain[k].next == At(chain, k + 1)
      invariant Threaded(newNodes, Buckets(visited, newNodes.Length), members)
      decreases |chain| - j
    {
      assert node == chain[j];
      var next := node.next;
      var hashVal := node.keyHash % newNodes.Length;
      NewToBuckets(visited, newNodes.Length, node);
      PushFront(newNodes, node, hashVal, Buckets(visited, newNodes.Length), members);
      moved := moved + 1;
      BucketsPush(visited, node, newNodes.Length);
      assert order + chain[..j + 1] == visited + [node];
      node, j, visited := next, j + 1, visited + [node];
    }
    assert chain[..j] == chain;
  }

  lemma {:induction false} NewToBuckets<K, V>(order: seq<Node<K, V>>, size: nat, node: Node<K, V>)
    requires size > 0 && node !in order
    ensures var chains := Buckets(order, size);
            forall b, k {:trigger chains[b][k]} :: 0 <= b < |chains| && 0 <= k < |chains[b]| ==> chains[b][k] != node
  {
    forall b | 0 <= b < size
      ensures node !in Pushed(order, size, b)
    {
      PushedFrom(order, size, b, node);
    }
  }

  lemma {:induction false} InFlat<K, V>(chains: seq<seq<Node<K, V>>>, i: nat, n: Node<K, V>)
    requires i <= |chains|
    ensures n in Flat(chains[..i]) <==> exists b :: 0 <= b < i && n in chains[b]
  {
    if i > 0 {
      InFlat(chains, i - 1, n);
      assert chains[..i][..i - 1] == chains[..i - 1];
      assert n in Flat(chains[..i]) <==> n in Flat(chains[..i - 1]) || n in chains[i - 1];
    }
  }

  lemma {:induction false} FlatNoDuplicates<K, V>(chains: seq<seq<Node<K, V>>>, members: set<Node<K, V>>, i: nat)
    requires Filed(chains, members) && i <= |chains|
    ensures NoDuplicates(Flat(chains[..i]))
    ensures i < |chains| ==>
              forall k {:trigger chains[i][k]} :: 0 <= k < |chains[i]| ==> chains[i][k] !in Flat(chains[..i])
  {
    if i > 0 {
      FlatNoDuplicates(chains, members, i - 1);
      assert chains[..i][..i - 1] == chains[..i - 1];
      var before := Flat(chains[..i - 1]);
      assert Flat(chains[..i]) == before + chains[i - 1];
      NoDuplicatesConcat(before, chains[i - 1]);
    }
    if i < |chains| {
      forall k | 0 <= k < |chains[i]|
        ensures chains[i][k] !in Flat(chains[..i])
      {
        InFlat(chains, i, chains[i][k]);
        NotElsewhere(chains, members, i, k);
      }
    }
  }

  lemma {:induction false} NotElsewhere<K, V>(chains: seq<seq<Node<K, V>>>, members: set<Node<K, V>>, i: nat, k: nat)
    requires Filed(chains, members) && i < |chains| && k < |chains[i]|
    ensures forall b :: 0 <= b < |chains| && b != i ==> chains[i][k] !in chains[b]
  {
    OnePlace(chains, members, i, k);
  }

  lemma {:induction false} NoDuplicatesConcat<K, V>(s: seq<Node<K, V>>, t: seq<Node<K, V>>)
    requires NoDuplicates(s) && NoDuplicates(t)
    requires forall k {:trigger t[k]} :: 0 <= k < |t| ==> t[k] !in s
    ensures NoDuplicates(s + t)
  {
    forall j, k | 0 <= j < k < |s + t|
      ensures (s + t)[j] != (s + t)[k]
    {
      if j < |s| <= k {
        assert t[k - |s|] !in s;
      }
    }
  }

  lemma {:induction false} PushedNoDuplicates<K, V>(order: seq<Node<K, V>>, size: nat, b: nat)
    requires size > 0 && NoDuplicates(order)
    ensures NoDuplicates(Pushed(order, size, b))
  {
    if order != [] {
      var n := |order| - 1;
      PushedNoDuplicates(order[..n], size, b);
      PushedFrom(order[..n], size, b, order[n]);
      assert forall k :: 0 <= k < n ==> order[..n][k] == order[k];
      var rest := Pushed(order[..n], size, b);
      assert forall k :: 0 <= k < |rest| ==> rest[k] != order[n];
    }
  }

  /** x stands before y. */
  ghost predicate Before<K, V>(s: seq<Node<K, V>>, x: Node<K, V>, y: Node<K, V>)
  {
    exists i, j :: 0 <= i < j < |s| && s[i] == x && s[j] == y
  }

  /** Pushing turns the order of the nodes of one bucket round. */
  lemma {:induction false} PushedReverses<K, V>(order: seq<Node<K, V>>, size: nat, i: nat, j: nat)
    requires size > 0 && i < j < |order| && order[i].keyHash % size == order[j].keyHash % size
    ensures Before(Pushed(order, size, order[i].keyHash % size), order[j], order[i])
    decreases |order|
  {
    var n, b := |order| - 1, order[i].keyHash % size;
    var rest := Pushed(order[..n], size, b);
    if j == n {
      assert order[..n][i] == order[i];
      PushedFrom(order[..n], size, b, order[i]);
      var q :| 0 <= q < |rest| && rest[q] == order[i];
      assert ([order[n]] + rest)[0] == order[j] && ([order[n]] + rest)[q + 1] == order[i];
    } else {
      PushedReverses(order[..n], size, i, j);
      BeforePushed(order[n], rest, order[j], order[i]);
    }
  }

  lemma {:induction false} BeforePushed<K, V>(node: Node<K, V>, s: seq<Node<K, V>>, x: Node<K, V>, y: Node<K, V>)
    requires Before(s, x, y)
    ensures Before([node] + s, x, y)
  {
    var i, j :| 0 <= i < j < |s| && s[i] == x && s[j] == y;
    assert ([node] + s)[i + 1] == x && ([node] + s)[j + 1] == y;
  }

  lemma {:induction false} FlatStep<K, V>(chains: seq<seq<Node<K, V>>>, b: nat)
    requires b < |chains|
    ensures Flat(chains[..b + 1]) == Flat(chains[..b]) + chains[b]
  {
    assert chains[..b + 1][..b] == chains[..b];
  }

  lemma {:induction false} FlatPrefix<K, V>(chains: seq<seq<Node<K, V>>>, b: nat, c: nat)
    requires b <= c <= |chains|
    ensures Flat(chains[..b]) <= Flat(chains[..c])
    decreases c
  {
    if b < c {
      FlatPrefix(chains, b, c - 1);
      FlatStep(chains, c - 1);
    }
  }

  /** Where the node at place k of chain b comes in the order of a resize. */
  lemma {:induction false} FlatAt<K, V>(chains: seq<seq<Node<K, V>>>, b: nat, k: nat)
    requires b < |chains| && k < |chains[b]|
    ensures |Flat(chains[..b])| + k < |Flat(chains)| && Flat(chains)[|Flat(chains[..b])| + k] == chains[b][k]
  {
    FlatStep(chains, b);
    FlatPrefix(chains, b + 1, |chains|);
    assert chains[..|chains|] == chains;
  }

  /** Two nodes that a resize files together change places: the one of the later old bucket, or from behind
      in the same, comes to stand before the other. */
  lemma {:induction false} ResizeReverses<K, V>(chains: seq<seq<Node<K, V>>>, size: nat, b: nat, k: nat, c: nat, l: nat)
    requires size > 0 && b <= c < |chains| && k < |chains[b]| && l < |chains[c]| && (b == c ==> k < l)
    requires chains[b][k].keyHash % size == chains[c][l].keyHash % size
    ensures Before(Buckets(Flat(chains), size)[chains[b][k].keyHash % size], chains[c][l], chains[b][k])
  {
    FlatAt(chains, b, k);
    FlatAt(chains, c, l);
    if b < c {
      FlatStep(chains, b);
      FlatPrefix(chains, b + 1, c);
    }
    PushedReverses(Flat(chains), size, |Flat(chains[..b])| + k, |Flat(chains[..c])| + l);
  }

  ghost function Lengths<K, V>(chains: seq<seq<Node<K, V>>>): nat
  {
    if chains == [] then 0 else Lengths(chains[..|chains| - 1]) + |chains[|chains| - 1]|
  }

  lemma {:induction false} FlatLength<K, V>(chains: seq<seq<Node<K, V>>>)
    ensures |Flat(chains)| == Lengths(chains)
  {
    if chains != [] {
      FlatLength(chains[..|chains| - 1]);
    }
  }

  lemma {:induction false} DistinctCount<K, V>(s: seq<Node<K, V>>)
    requires NoDuplicates(s)
    ensures |set n | n in s| == |s|
  {
    if s != [] {
      var init, last := s[..|s| - 1], s[|s| - 1];
      DistinctCount(init);
      assert (set n | n in s) == (set n | n in init) + {last};
    }
  }

  /** The chains' lengths add up to the number of keys. */
  lemma {:induction false} LengthsAreCount<K, V>(view: View<K, V>, hash: K -> nat)
    requires Sound(view, hash)
    ensures Lengths(view.chains) == |view.index|
  {
    var chains, order := view.chains, Flat(view.chains);
    assert chains[..|chains|] == chains;
    FlatNoDuplicates(chains, view.members, |chains|);
    forall n | n in view.members
      ensures n in order
    {
      assert AtHome(chains, n);
      InFlat(chains, |chains|, n);
    }
    forall n | n in order
      ensures n in view.members
    {
      InFlat(chains, |chains|, n);
      var c :| 0 <= c < |chains| && n in chains[c];
      var i :| 0 <= i < |chains[c]| && chains[c][i] == n;
      assert InPlace(chains, view.members, c, i);
    }
    assert (set n | n in order) == view.members;
    DistinctCount(order);
    FlatLength(chains);
  }

  /** A resize files every node again, and no other. */
  lemma {:induction false} RehashFiled<K, V>(chains: seq<seq<Node<K, V>>>, members: set<Node<K, V>>, size: nat)
    requires Filed(chains, members) && size > 0
    ensures Filed(Buckets(Flat(chains), size), members)
  {
    var order, after := Flat(chains), Buckets(Flat(chains), size);
    assert chains[..|chains|] == chains;
    FlatNoDuplicates(chains, members, |chains|);
    forall b, k | 0 <= b < size && 0 <= k < |after[b]|
      ensures InPlace(after, members, b, k)
    {
      var n := after[b][k];
      assert n in Pushed(order, size, b);
      PushedFrom(order, size, b, n);
      InFlat(chains, |chains|, n);
      var c :| 0 <= c < |chains| && n in chains[c];
      var i :| 0 <= i < |chains[c]| && chains[c][i] == n;
      assert InPlace(chains, members, c, i);
    }
    forall n | n in members
      ensures AtHome(after, n)
    {
      assert AtHome(chains, n);
      InFlat(chains, |chains|, n);
      PushedFrom(order, size, n.keyHash % size, n);
    }
    forall b | 0 <= b < size
      ensures NoDuplicates(after[b])
    {
      PushedNoDuplicates(order, size, b);
    }
  }

  method NewBuckets<K(==), V>(size: nat, ghost members: set<Node<K, V>>) returns (newNodes: array<Node?<K, V>>)
    requires size > 0
    ensures fresh(newNodes) && newNodes.Length == size
    ensures Threaded(newNodes, Buckets([], size), members)
  {
    newNodes := new Node?<K, V>[size](_ => null);
    assert forall b :: 0 <= b < size ==> Buckets<K, V>([], size)[b] == [];
  }

  /** The relinking of pgm_hashtable_resize: in place, bucket after bucket. */
  method Rehash<K(==), V>(nodes: array<Node?<K, V>>, newSize: nat, ghost chains: seq<seq<Node<K, V>>>,
                          ghost members: set<Node<K, V>>)
    returns (newNodes: array<Node?<K, V>>, ghost moved: nat)
    requires Threaded(nodes, chains, members) && Filed(chains, members) && newSize > 0
    modifies members
    ensures fresh(newNodes) && newNodes.Length == newSize && moved == Lengths(chains)
    ensures Threaded(newNodes, Buckets(Flat(chains), newSize), members)
  {
    newNodes := NewBuckets(newSize, members);
    moved := 0;
    assert chains[..0] == [];
    for i := 0 to nodes.Length
      invariant nodes[..] == old(nodes[..]) && fresh(newNodes) && newNodes.Length == newSize
      invariant moved == Lengths(chains[..i])
      invariant Threaded(newNodes, Buckets(Flat(chains[..i]), newSize), members)
      invariant forall b, k {:trigger chains[b][k].next} ::
                  i <= b < |chains| && 0 <= k < |chains[b]| ==> chains[b][k].next == At(chains[b], k + 1)
    {
      assert chains[..i + 1][..i] == chains[..i];
      FlatNoDuplicates(chains, members, i);
      OthersApart(chains, members, i);
      ghost var chainMoved := RehashChain(nodes[i], newNodes, chains[i], Flat(chains[..i]), members);
      moved := moved + chainMoved;
    }
    assert chains[..nodes.Length] == chains;
  }

  lemma {:induction false} OthersApart<K, V>(chains: seq<seq<Node<K, V>>>, members: set<Node<K, V>>, i: nat)
    requires Filed(chains, members) && i < |chains|
    ensures NoDuplicates(chains[i])
    ensures forall k {:trigger chains[i][k]} :: 0 <= k < |chains[i]| ==> chains[i][k] in members
    ensures forall b, k {:trigger chains[b][k]} ::
              i < b < |chains| && 0 <= k < |chains[b]| ==> chains[b][k] !in chains[i]
  {
    forall k | 0 <= k < |chains[i]|
      ensures chains[i][k] in members
    {
      assert InPlace(chains, members, i, k);
    }
    forall b, k | i < b < |chains| && 0 <= k < |chains[b]|
      ensures chains[b][k] !in chains[i]
    {
      NotElsewhere(chains, members, b, k);
    }
  }

  // ---- the table ----

  class Table<K(==), V> {
    var nodes: array<Node?<K, V>>
    var nnodes: uint32
    const hash: K -> nat
    ghost var view: View<K, V>
    /** How many nodes all resizes so far have relinked. */
    ghost var relinked: nat

    /** The map the table stands for. */
    ghost function Contents(): map<K, V>
      reads this
    {
      Values(view.index)
    }

    /** Everything but the load bounds. The node count is an unsigned int. */
    ghost predicate Core()
      reads this, nodes, view.members
    {
      && Threaded(nodes, view.chains, view.members)
      && Sound(view, hash) && nnodes == Unsigned(|view.index|)
      && MIN_SIZE <= nodes.Length <= MAX_SIZE
    }

    /** Size, load and content are consistent. */
    ghost predicate Valid()
      reads this, nodes, view.members
    {
      Core() && Balanced(nodes.Length, nnodes)
    }

    ghost function Tally(): Tally
      reads this, nodes
    {
      TableSizing.Tally(nodes.Length, |view.index|, relinked)
    }

    /** pgm_hashtable_new. */
    constructor (hash: K -> nat)
      ensures Valid() && fresh(nodes) && view.members == {}
      ensures this.hash == hash && Contents() == map[] && Tally() == Start()
    {
      this.hash := hash;
      var buckets := NewBuckets<K, V>(MIN_SIZE, {});
      nodes, nnodes := buckets, 0;
      view, relinked := View(Buckets([], MIN_SIZE), {}, map[]), 0;
      EmptyFiled<K, V>(MIN_SIZE);
    }

    /** pgm_hashtable_lookup. */
    method Lookup(key: K) returns (r: Option<V>)
      requires Valid()
      ensures r == if key in Contents() then Some(Contents()[key]) else None
    {
      var slot, node, h, j := LookupNode(nodes, hash, key, view);
      r := if node == null then None else Some(node.value);
    }

    /** pgm_hashtable_resize: nothing is lost, duplicated or changed, and every node is relinked. */
    method Resize()
      requires Core()
      modifies this, view.members
      ensures Core() && fresh(nodes) && nodes.Length == NewSize(nnodes)
      ensures view.members == old(view.members) && view.index == old(view.index) && nnodes == old(nnodes)
      ensures view.chains == Buckets(Flat(old(view.chains)), nodes.Length)
      ensures relinked == old(relinked) + |view.index|
    {
      var closest := SpacedPrimesClosest(nnodes);
      var newSize := Clamp(closest, MIN_SIZE, MAX_SIZE);
      assert MIN_SIZE <= newSize <= MAX_SIZE && newSize == NewSize(nnodes) by { NewSizeIs(nnodes); }
      ghost var after := view.(chains := Buckets(Flat(view.chains), newSize));
      assert Filed(after.chains, after.members) by { RehashFiled(view.chains, view.members, newSize); }
      assert Lengths(view.chains) == |view.index| by { LengthsAreCount(view, hash); }
      var newNodes, moved := Rehash(nodes, newSize, view.chains, view.members);
      Replace(newNodes, after, moved);
    }

    /** The new buckets take the place of the old ones; `moved` nodes have been relinked for it. */
    method Replace(newNodes: array<Node?<K, V>>, ghost v: View<K, V>, ghost moved: nat)
      requires Threaded(newNodes, v.chains, v.members)
      modifies this`nodes, this`view, this`relinked
      ensures Threaded(newNodes, v.chains, v.members) && nodes == newNodes && view == v
      ensures relinked == old(relinked) + moved
    {
      nodes, view, relinked := newNodes, v, relinked + moved;
    }

    /** PGM_HASHTABLE_RESIZE. */
    method Rescale()
      requires Core()
      modifies this, view.members
      ensures Core() && (nodes == old(nodes) || fresh(nodes))
      ensures view.members == old(view.members) && view.index == old(view.index)
      ensures Tally() == Settle(old(Tally()))
    {
      if ResizeDue(nodes.Length, nnodes) {
        Resize();
      }
    }

    /** One resize, if one is due, brings the load back between its bounds. */
    method ResizeIfDue()
      requires Core()
      modifies this, view.members
      ensures Valid() && (nodes == old(nodes) || fresh(nodes))
      ensures view.members == old(view.members) && view.index == old(view.index)
      ensures Tally() == Settle(old(Tally()))
    {
      Rescale();
      SettleBalances(old(Tally()));
    }

    /** pgm_hashtable_insert: a key that is there already keeps its value. */
    method Insert(key: K, value: V)
      requires Valid()
      modifies this, nodes, view.members
      ensures Valid() && (nodes == old(nodes) || fresh(nodes))
      ensures forall n :: n in view.members ==> n in old(view.members) || fresh(n)
      ensures Contents() == if key in old(Contents()) then old(Contents()) else old(Contents())[key := value]
      ensures Tally() == Step(old(Tally()), if key in old(Contents()) then InsertPresent else InsertNew)
    {
      var slot, node, h, j := LookupNode(nodes, hash, key, view);
      if node != null {
        return;
      }
      var added := new Node(key, value, h);
      AddNode(slot, added, h % nodes.Length);
    }

    /** A new key: its node at the end of its chain, one more in the count, and a resize if one is due. */
    method AddNode(slot: Slot<K, V>, node: Node<K, V>, ghost b: nat)
      requires Core() && b == node.keyHash % nodes.Length && slot == SlotAt(view.chains, b, |view.chains[b]|)
      requires node !in view.members && node.next == null
      requires node.keyHash == hash(node.key) && node.key !in view.index
      modifies this, nodes, view.members, node
      ensures Valid() && (nodes == old(nodes) || fresh(nodes)) && view.members == old(view.members) + {node}
      ensures Contents() == old(Contents())[node.key := node.value]
      ensures Tally() == Step(old(Tally()), InsertNew)
    {
      LinkIn(slot, node, b);
      ResizeIfDue();
    }

    /** Records what the links have been made to be. */
    method SetView(n: uint32, ghost v: View<K, V>)
      requires Threaded(nodes, v.chains, v.members)
      modifies this`nnodes, this`view
      ensures Threaded(nodes, v.chains, v.members) && nnodes == n && view == v
    {
      nnodes, view := n, v;
    }

    method LinkIn(slot: Slot<K, V>, node: Node<K, V>, ghost b: nat)
      requires Core() && b == node.keyHash % nodes.Length && slot == SlotAt(view.chains, b, |view.chains[b]|)
      requires node !in view.members && node.next == null
      requires node.keyHash == hash(node.key) && node.key !in view.index
      modifies this, nodes, view.members
      ensures Core() && nodes == old(nodes) && relinked == old(relinked)
      ensures view.members == old(view.members) + {node} && view.index == old(view.index)[node.key := node]
      ensures view.chains == old(view.chains)[b := old(view.chains)[b] + [node]]
      ensures |view.index| == old(|view.index|) + 1 && Contents() == old(Contents())[node.key := node.value]
    {
      ghost var after := Appended(view, node, b);
      var count := Unsigned(nnodes as int + 1);
      AppendSound(view, hash, node, b);
      NextUnsigned(|view.index|);
      Append(nodes, slot, node, b, view);
      SetView(count, after);
      ValuesAdd(old(view.index), node);
    }

    /** pgm_hashtable_remove. */
    method Remove(key: K) returns (found: bool)
      requires Valid()
      modifies this, nodes, view.members
      ensures Valid() && (nodes == old(nodes) || fresh(nodes)) && view.members <= old(view.members)
      ensures found == (key in old(Contents()))
      ensures Contents() == if found then old(Contents()) - {key} else old(Contents())
      ensures Tally() == Step(old(Tally()), if found then RemoveFound else RemoveMissing)
    {
      var slot, node, h, j := LookupNode(nodes, hash, key, view);
      if node == null {
        return false;
      }
      DropNode(slot, node, h % nodes.Length, j);
      found := true;
    }

    /** A key that is there: its node out of its chain, one less in the count, and a resize if one is due. */
    method DropNode(slot: Slot<K, V>, dest: Node<K, V>, ghost b: nat, ghost j: nat)
      requires Core() && b < |view.chains| && j < |view.chains[b]| && dest == view.chains[b][j]
      requires slot == SlotAt(view.chains, b, j)
      modifies this, nodes, view.members
      ensures Valid() && (nodes == old(nodes) || fresh(nodes)) && view.members == old(view.members) - {dest}
      ensures Contents() == old(Contents()) - {dest.key}
      ensures Tally() == Step(old(Tally()), RemoveFound)
    {
      LinkOut(slot, dest, b, j);
      ResizeIfDue();
    }

    method LinkOut(slot: Slot<K, V>, dest: Node<K, V>, ghost b: nat, ghost j: nat)
      requires Core() && b < |view.chains| && j < |view.chains[b]| && dest == view.chains[b][j]
      requires slot == SlotAt(view.chains, b, j)
      modifies this, nodes, view.members
      ensures Core() && nodes == old(nodes) && relinked == old(relinked)
      ensures view.members == old(view.members) - {dest} && view.index == old(view.index) - {dest.key}
      ensures view.chains == old(view.chains)[b := old(view.chains)[b][..j] + old(view.chains)[b][j + 1..]]
      ensures |view.index| == old(|view.index|) - 1 && Contents() == old(Contents()) - {dest.key}
    {
      ghost var after := Removed(view, b, j);
      var count := Unsigned(nnodes as int + 0xffff_ffff);
      RemovedSound(view, hash, b, j);
      NextUnsigned(|view.index|);
      Unlink(nodes, slot, dest, b, j, view);
      SetView(count, after);
      ValuesRemove(old(view.index), dest.key);
    }

    /** pgm_hashtable_remove_all. */
    method RemoveAll()
      requires Valid()
      modifies this, nodes
      ensures Valid() && (nodes == old(nodes) || fresh(nodes)) && view.members == {}
      ensures Contents() == map[] && Tally() == Step(old(Tally()), Op.RemoveAll)
    {
      Clear();
      EmptyFiled<K, V>(nodes.Length);
      SetView(0, View(Buckets([], nodes.Length), {}, map[]));
      ResizeIfDue();
    }

    /** Every bucket loses its chain. */
    method Clear()
      requires nodes.Length > 0
      modifies nodes
      ensures Threaded(nodes, Buckets([], nodes.Length), {})
    {
      for i := 0 to nodes.Length
        invariant forall b :: 0 <= b < i ==> nodes[b] == null
      {
        nodes[i] := null;
      }
      EmptyFiled<K, V>(nodes.Length);
    }
  }

  lemma {:induction false} EmptyFiled<K, V>(size: nat)
    requires size > 0
    ensures Filed<K, V>(Buckets([], size), {})
    ensures forall b :: 0 <= b < size ==> Buckets<K, V>([], size)[b] == []
  {
  }
}
