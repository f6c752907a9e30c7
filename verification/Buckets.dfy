/** One bucket array of the hash table and the chains of nodes that hang from it. */
module Buckets {
  import opened Words
  import opened Cursor
  import opened StoreModel

  class Node<V> {
    const key: Bytes
    var value: V
    var next: Node?<V>

    constructor (key: Bytes, value: V)
      ensures this.key == key && this.value == value && this.next == null
    {
      this.key, this.value, this.next := key, value, null;
    }
  }

  // The keys of every chain, in the order of its nodes.
  type Chains = seq<seq<Bytes>>

  ghost predicate Distinct(c: seq<Bytes>) {
    forall i, j | 0 <= i < j < |c| :: c[i] != c[j]
  }

  lemma DistinctAt(c: seq<Bytes>, i: nat, j: nat)
    requires Distinct(c) && i < |c| && j < |c| && i != j
    ensures c[i] != c[j]
  {}

  // Every key is in the chain that its hash selects, once, and in no other.
  ghost predicate Placed(chains: Chains, keys: set<Bytes>, hash: Hash, bits: nat) {
    && |chains| == Pow2(bits)
    && (forall i, j | 0 <= i < |chains| && 0 <= j < |chains[i]| ::
          chains[i][j] in keys && Slot(hash(chains[i][j]), bits) == i)
    && (forall i | 0 <= i < |chains| :: Distinct(chains[i]))
    && (forall k | k in keys :: k in chains[Slot(hash(k), bits)])
  }

  // The node at position j of a chain, or null past its end.
  ghost function NodeAt<V>(c: seq<Bytes>, j: nat, at: map<Bytes, Node<V>>): Node?<V> {
    if j < |c| && c[j] in at then at[c[j]] else null
  }

  // Following `next` from the head of chain i visits exactly the nodes of the keys of chains[i], in order.
  ghost predicate Shape<V>(heads: seq<Node?<V>>, next: map<Node<V>, Node?<V>>, chains: Chains,
                           at: map<Bytes, Node<V>>)
  {
    && |heads| == |chains|
    && (forall k | k in at :: at[k] in next && at[k].key == k)
    && (forall i, j | 0 <= i < |chains| && 0 <= j < |chains[i]| :: chains[i][j] in at)
    && (forall i | 0 <= i < |chains| :: heads[i] == NodeAt(chains[i], 0, at))
    && (forall i, j {:trigger next[at[chains[i][j]]]} | 0 <= i < |chains| && 0 <= j < |chains[i]| ::
          next[at[chains[i][j]]] == NodeAt(chains[i], j + 1, at))
  }

  ghost function Nexts<V>(nodes: set<Node<V>>): (next: map<Node<V>, Node?<V>>)
    reads nodes
    ensures next.Keys == nodes
  {
    map n | n in nodes :: n.next
  }

  ghost predicate Linked<V>(buckets: array<Node?<V>>, chains: Chains, at: map<Bytes, Node<V>>, nodes: set<Node<V>>)
    reads buckets, nodes
  {
    Shape(buckets[..], Nexts(nodes), chains, at)
  }

  method SameKey(a: Bytes, b: Bytes) returns (same: bool)
    ensures same <==> a == b
  {
    if |a| != |b| { return false; }
    for i := 0 to |b|
      invariant a[..i] == b[..i]
    {
      if a[i] != b[i] { return false; }
    }
    return true;
  }

  // ---------- search and delete ----------

  /** Walks the chain of the key's bucket up to the node of the key; `prev` is the node before it. */
  method Walk<V>(buckets: array<Node?<V>>, hash: Hash, mask: nat, key: Bytes, ghost chains: Chains,
                 ghost at: map<Bytes, Node<V>>, ghost nodes: set<Node<V>>, ghost bits: nat)
    returns (index: nat, prev: Node?<V>, current: Node?<V>, ghost j: nat)
    requires mask == Pow2(bits) - 1
    requires Linked(buckets, chains, at, nodes) && Placed(chains, at.Keys, hash, bits)
    ensures index == Slot(hash(key), bits) < |chains|
    ensures current == if key in at then at[key] else null
    ensures current != null ==> current in nodes && j < |chains[index]| && chains[index][j] == key
    ensures current != null && j > 0 ==>
              var k := chains[index][j - 1]; k in at && prev == at[k] && prev in nodes
    ensures |chains| == buckets.Length
  {
    hide Shape, Placed, NodeAt;
    BitAndMask(hash(key), bits);
    index := BitAnd(hash(key), mask);
    Bounds(buckets[..], Nexts(nodes), chains, at, hash, bits);
    ghost var c := chains[index];
    InShape(buckets[..], Nexts(nodes), chains, at, index, 0);
    assert buckets[index] == buckets[..][index];
    prev, current, j := null, buckets[index], 0;
    while current != null
      invariant 0 <= j <= |c| && current == NodeAt(c, j, at)
      invariant j > 0 ==> c[j - 1] in at && prev == at[c[j - 1]] && prev in nodes
      invariant key !in c[..j]
      decreases |c| - j
    {
      InShape(buckets[..], Nexts(nodes), chains, at, index, j);
      var same := SameKey(current.key, key);
      if same { return; }
      prev, current, j := current, current.next, j + 1;
    }
    InShape(buckets[..], Nexts(nodes), chains, at, index, j);
    NotInChain(chains, at.Keys, hash, bits, key);
  }

  lemma Bounds<V>(heads: seq<Node?<V>>, next: map<Node<V>, Node?<V>>, chains: Chains, at: map<Bytes, Node<V>>,
                  hash: Hash, bits: nat)
    requires Shape(heads, next, chains, at) && Placed(chains, at.Keys, hash, bits)
    ensures |heads| == |chains| == Pow2(bits)
  {}

  lemma NotInChain(chains: Chains, keys: set<Bytes>, hash: Hash, bits: nat, key: Bytes)
    requires Placed(chains, keys, hash, bits) && key !in chains[Slot(hash(key), bits)]
    ensures key !in keys
  {}

  // What one position of a chain says about the heap.
  lemma InShape<V>(heads: seq<Node?<V>>, next: map<Node<V>, Node?<V>>, chains: Chains, at: map<Bytes, Node<V>>,
                   i: nat, j: nat)
    requires Shape(heads, next, chains, at) && i < |chains| && j <= |chains[i]|
    ensures |heads| == |chains| && heads[i] == NodeAt(chains[i], 0, at)
    ensures NodeAt(chains[i], j, at) == null <==> j == |chains[i]|
    ensures j < |chains[i]| ==>
              var k := chains[i][j];
              k in at && at[k] == NodeAt(chains[i], j, at) && at[k].key == k && at[k] in next
              && next[at[k]] == NodeAt(chains[i], j + 1, at)
  {}

  ghost function Without(chains: Chains, i: nat, j: nat): Chains
    requires i < |chains| && j < |chains[i]|
  {
    chains[i := chains[i][..j] + chains[i][j + 1..]]
  }

  // Dropping one key from its chain leaves every other key in place.
  lemma WithoutPlaced(chains: Chains, keys: set<Bytes>, hash: Hash, bits: nat, i: nat, j: nat)
    requires Placed(chains, keys, hash, bits)
    requires i < |chains| && j < |chains[i]|
    ensures Placed(Without(chains, i, j), keys - {chains[i][j]}, hash, bits)
  {
    var c, chains' := chains[i], Without(chains, i, j);
    forall p, q | 0 <= p < |chains'| && 0 <= q < |chains'[p]|
      ensures chains'[p][q] in keys - {c[j]} && Slot(hash(chains'[p][q]), bits) == p
    {
      var q0 := if p == i && q >= j then q + 1 else q;
      assert chains'[p][q] == chains[p][q0];
    }
    forall k | k in keys && k != c[j] ensures k in chains'[Slot(hash(k), bits)] {
      var s := Slot(hash(k), bits);
      var q :| 0 <= q < |chains[s]| && chains[s][q] == k;
      if s == i {
        assert chains'[s][if q < j then q else q - 1] == k;
      }
    }
  }

  // The chains without one key skip its node and are otherwise the same.
  lemma NodeAtWithout<V>(chains: Chains, at: map<Bytes, Node<V>>, hash: Hash, bits: nat, i: nat, j: nat, p: nat, q: nat)
    requires Placed(chains, at.Keys, hash, bits)
    requires i < |chains| && j < |chains[i]| && p < |chains| && q <= |Without(chains, i, j)[p]|
    ensures NodeAt(Without(chains, i, j)[p], q, at - {chains[i][j]})
         == NodeAt(chains[p], if p == i && q >= j then q + 1 else q, at)
  {
    hide Distinct;
    var chains' := Without(chains, i, j);
    var q0 := if p == i && q >= j then q + 1 else q;
    if q < |chains'[p]| {
      if p == i { DistinctAt(chains[i], q0, j); }
      assert chains'[p][q] == chains[p][q0];
    }
  }

  // The node after that of the q-th key of chain p, once the node at position j of chain i is skipped.
  lemma NextWithout<V>(next: map<Node<V>, Node?<V>>, heads: seq<Node?<V>>, chains: Chains, at: map<Bytes, Node<V>>,
                       hash: Hash, bits: nat, i: nat, j: nat, p: nat, q: nat)
    requires Shape(heads, next, chains, at) && Placed(chains, at.Keys, hash, bits)
    requires i < |chains| && j < |chains[i]| && p < |chains| && q < |Without(chains, i, j)[p]|
    ensures var key, at' := Without(chains, i, j)[p][q], at - {chains[i][j]};
            && key in at' && at'[key] in next
            && (if p == i && j > 0 && q == j - 1 then key == chains[i][j - 1]
                else next[at'[key]] == NodeAt(Without(chains, i, j)[p], q + 1, at'))
            && (!(p == i && q == j - 1) && j > 0 ==> key != chains[i][j - 1])
            && (p == i && j > 0 && q == j - 1 ==>
                  next[at[chains[i][j]]] == NodeAt(Without(chains, i, j)[p], q + 1, at'))
  {
    hide Distinct, NodeAt;
    var q0 := if p == i && q >= j then q + 1 else q;
    WithoutPlaced(chains, at.Keys, hash, bits, i, j);
    assert Without(chains, i, j)[p][q] == chains[p][q0];
    assert next[at[chains[p][q0]]] == NodeAt(chains[p], q0 + 1, at);
    assert next[at[chains[i][j]]] == NodeAt(chains[i], j + 1, at);
    NodeAtWithout(chains, at, hash, bits, i, j, p, q + 1);
    if p == i && j > 0 && q0 != j - 1 { DistinctAt(chains[i], q0, j - 1); }
  }

  // Pointing the predecessor, or the bucket, past the node at position j takes its key out of the chain.
  lemma WithoutShape<V>(heads: seq<Node?<V>>, next: map<Node<V>, Node?<V>>, chains: Chains, at: map<Bytes, Node<V>>,
                        hash: Hash, bits: nat, i: nat, j: nat)
    requires Shape(heads, next, chains, at) && Placed(chains, at.Keys, hash, bits)
    requires i < |chains| && j < |chains[i]|
    ensures var c, chains', at' := chains[i], Without(chains, i, j), at - {chains[i][j]};
            if j == 0 then Shape(heads[i := next[at[c[0]]]], next, chains', at')
            else Shape(heads, next[at[c[j - 1]] := next[at[c[j]]]], chains', at')
  {
    hide Distinct, NodeAt, Placed, Without;
    var c, chains', at' := chains[i], Without(chains, i, j), at - {chains[i][j]};
    var heads' := if j == 0 then heads[i := next[at[c[0]]]] else heads;
    var next' := if j == 0 then next else next[at[c[j - 1]] := next[at[c[j]]]];
    WithoutLength(chains, i, j);
    forall p | 0 <= p < |chains'| ensures heads'[p] == NodeAt(chains'[p], 0, at') {
      NodeAtWithout(chains, at, hash, bits, i, j, p, 0);
    }
    forall p, q | 0 <= p < |chains'| && 0 <= q < |chains'[p]|
      ensures chains'[p][q] in at' && next'[at'[chains'[p][q]]] == NodeAt(chains'[p], q + 1, at')
    {
      NextWithout(next, heads, chains, at, hash, bits, i, j, p, q);
    }
  }

  lemma WithoutLength(chains: Chains, i: nat, j: nat)
    requires i < |chains| && j < |chains[i]|
    ensures |Without(chains, i, j)| == |chains|
  {}

  lemma FirstOnly<V>(heads: seq<Node?<V>>, next: map<Node<V>, Node?<V>>, chains: Chains, at: map<Bytes, Node<V>>,
                     hash: Hash, bits: nat, i: nat, j: nat)
    requires Shape(heads, next, chains, at) && Placed(chains, at.Keys, hash, bits)
    requires i < |chains| && j < |chains[i]|
    ensures at[chains[i][j]] == heads[i] <==> j == 0
  {
    hide Distinct;
    if j > 0 { DistinctAt(chains[i], 0, j); }
  }

  /** Takes the node at position j out of its chain; `prev` is the node before it. */
  method Unlink<V>(buckets: array<Node?<V>>, index: nat, prev: Node?<V>, current: Node<V>, ghost chains: Chains,
                   ghost at: map<Bytes, Node<V>>, ghost nodes: set<Node<V>>, ghost j: nat, hash: Hash, ghost bits: nat)
    requires Linked(buckets, chains, at, nodes) && Placed(chains, at.Keys, hash, bits)
    requires index < |chains| == buckets.Length && j < |chains[index]| && chains[index][j] in at
    requires current == at[chains[index][j]]
    requires current in nodes
    requires j > 0 ==> chains[index][j - 1] in at && prev == at[chains[index][j - 1]] && prev in nodes
    modifies buckets, nodes`next
    ensures Linked(buckets, Without(chains, index, j), at - {chains[index][j]}, nodes)
  {
    hide Shape, Placed;
    ghost var heads, next := buckets[..], Nexts(nodes);
    WithoutShape(heads, next, chains, at, hash, bits, index, j);
    FirstOnly(heads, next, chains, at, hash, bits, index, j);
    assert heads[index] == buckets[index] && next[current] == current.next;
    if current == buckets[index] {
      buckets[index] := current.next;
      assert buckets[..] == heads[index := next[current]];
      assert Nexts(nodes) == next;
    } else {
      var before: Node<V> := prev;
      before.next := current.next;
      assert Nexts(nodes) == next[before := next[current]];
    }
  }

  // ---------- insertion ----------

  ghost function WithFirst(chains: Chains, i: nat, key: Bytes): Chains
    requires i < |chains|
  {
    chains[i := [key] + chains[i]]
  }

  lemma WithFirstPlaced(chains: Chains, keys: set<Bytes>, hash: Hash, bits: nat, key: Bytes)
    requires Placed(chains, keys, hash, bits) && key !in keys
    ensures Placed(WithFirst(chains, Slot(hash(key), bits), key), keys + {key}, hash, bits)
  {
    var i := Slot(hash(key), bits);
    var chains' := WithFirst(chains, i, key);
    forall p, q | 0 <= p < |chains'| && 0 <= q < |chains'[p]|
      ensures chains'[p][q] in keys + {key} && Slot(hash(chains'[p][q]), bits) == p
      ensures p == i && q > 0 ==> chains'[p][q] == chains[p][q - 1]
    {
      if p != i || q > 0 {
        assert chains'[p][q] == chains[p][if p == i then q - 1 else q];
      }
    }
    forall k | k in keys + {key} ensures k in chains'[Slot(hash(k), bits)] {
      if k == key {
        assert chains'[i][0] == key;
      }
    }
  }

  /** Links a node of a new key to the front of the chain of its bucket. */
  method PushFront<V>(buckets: array<Node?<V>>, hash: Hash, mask: nat, node: Node<V>, ghost chains: Chains,
                      ghost at: map<Bytes, Node<V>>, ghost nodes: set<Node<V>>, ghost bits: nat)
    returns (ghost chains': Chains)
    requires mask == Pow2(bits) - 1
    requires Linked(buckets, chains, at, nodes) && Placed(chains, at.Keys, hash, bits)
    requires node !in nodes && node.key !in at
    modifies buckets, node`next
    ensures Linked(buckets, chains', at[node.key := node], nodes + {node})
    ensures Placed(chains', at[node.key := node].Keys, hash, bits)
    ensures Slot(hash(node.key), bits) < |chains| && chains' == WithFirst(chains, Slot(hash(node.key), bits), node.key)
  {
    BitAndMask(hash(node.key), bits);
    var index := BitAnd(hash(node.key), mask);
    hide Shape, Placed;
    ghost var heads, next := buckets[..], Nexts(nodes);
    WithFirstPlaced(chains, at.Keys, hash, bits, node.key);
    WithFirstShape(heads, next, chains, at, index, node);
    node.next := buckets[index];
    buckets[index] := node;
    chains' := WithFirst(chains, index, node.key);
    assert at[node.key := node].Keys == at.Keys + {node.key};
    assert buckets[..] == heads[index := node];
    assert Nexts(nodes + {node}) == next[node := heads[index]];
  }

  lemma WithFirstShape<V>(heads: seq<Node?<V>>, next: map<Node<V>, Node?<V>>, chains: Chains, at: map<Bytes, Node<V>>,
                          i: nat, node: Node<V>)
    requires Shape(heads, next, chains, at)
    requires i < |chains| && node !in next && node.key !in at
    ensures Shape(heads[i := node], next[node := heads[i]], WithFirst(chains, i, node.key), at[node.key := node])
  {
    var chains', at', next' := WithFirst(chains, i, node.key), at[node.key := node], next[node := heads[i]];
    forall p, q | 0 <= p < |chains'| && 0 <= q < |chains'[p]|
      ensures chains'[p][q] in at'
      ensures next'[at'[chains'[p][q]]] == NodeAt(chains'[p], q + 1, at')
    {
      if p != i || q > 0 {
        var q0 := if p == i then q - 1 else q;
        assert chains'[p][q] == chains[p][q0];
        assert next[at[chains[p][q0]]] == NodeAt(chains[p], q0 + 1, at);
      }
    }
  }

  ghost function NoChains(n: nat): (chains: Chains)
    ensures |chains| == n && forall i | 0 <= i < n :: chains[i] == []
  {
    seq(n, _ => [])
  }

  // ---------- moving a chain to the larger table ----------

  // The part of a node index that belongs to some of the keys.
  ghost function Sub<V>(at: map<Bytes, Node<V>>, c: seq<Bytes>): map<Bytes, Node<V>> {
    map k | k in at && k in c :: at[k]
  }

  // A chain on its own: c lists the keys of `moving`, each once.
  ghost predicate Chain<V>(c: seq<Bytes>, moving: map<Bytes, Node<V>>) {
    && Distinct(c)
    && (forall k :: k in c <==> k in moving)
    && (forall k | k in moving :: moving[k].key == k)
  }

  lemma OneMoreKey<V>(c: seq<Bytes>, moving: map<Bytes, Node<V>>, j: nat)
    requires Chain(c, moving) && j < |c|
    ensures c[j] !in Sub(moving, c[..j])
    ensures Sub(moving, c[..j + 1]) == Sub(moving, c[..j])[c[j] := moving[c[j]]]
  {
    assert c[..j + 1] == c[..j] + [c[j]];
  }

  lemma OneMoreNode<V>(before: map<Bytes, Node<V>>, key: Bytes, node: Node<V>)
    requires key !in before
    ensures before[key := node].Values == before.Values + {node}
  {
    var after := before[key := node];
    assert after[key] == node;
    forall n | n in before.Values ensures n in after.Values {
      var k :| k in before && before[k] == n;
      assert after[k] == n;
    }
  }

  lemma OneMore<V>(c: seq<Bytes>, moving: map<Bytes, Node<V>>, at: map<Bytes, Node<V>>, nodes: set<Node<V>>, j: nat)
    requires Chain(c, moving) && j < |c| && moving.Keys !! at.Keys && moving.Values !! nodes
    ensures var key, before, after := c[j], Sub(moving, c[..j]), Sub(moving, c[..j + 1]);
            && moving[key] !in nodes + before.Values && key !in at + before
            && (at + before)[key := moving[key]] == at + after
            && nodes + before.Values + {moving[key]} == nodes + after.Values
  {
    hide Sub, Chain;
    OneMoreKey(c, moving, j);
    NotYetMoved(c, moving, j);
    OneMoreNode(Sub(moving, c[..j]), c[j], moving[c[j]]);
    OneMoreEntry(at, Sub(moving, c[..j]), c[j], moving[c[j]]);
  }

  // The next node of the chain is not among those moved before.
  lemma NotYetMoved<V>(c: seq<Bytes>, moving: map<Bytes, Node<V>>, j: nat)
    requires Chain(c, moving) && j < |c|
    ensures c[j] in moving && moving[c[j]] in moving.Values && moving[c[j]] !in Sub(moving, c[..j]).Values
  {
    assert forall n | n in Sub(moving, c[..j]).Values :: n.key in c[..j];
  }

  lemma OneMoreEntry<V>(at: map<Bytes, Node<V>>, before: map<Bytes, Node<V>>, key: Bytes, node: Node<V>)
    ensures (at + before)[key := node] == at + before[key := node]
  {}

  /** Relinks the nodes of a detached chain, one by one, to the fronts of the chains of the larger table. */
  method Scatter<V>(buckets: array<Node?<V>>, hash: Hash, mask: nat, first: Node?<V>, ghost c: seq<Bytes>,
                    ghost moving: map<Bytes, Node<V>>, ghost chains: Chains, ghost at: map<Bytes, Node<V>>,
                    ghost nodes: set<Node<V>>, ghost bits: nat)
    returns (ghost chains': Chains)
    requires mask == Pow2(bits) - 1
    requires Linked(buckets, chains, at, nodes) && Placed(chains, at.Keys, hash, bits)
    requires Chain(c, moving) && moving.Keys !! at.Keys && moving.Values !! nodes
    requires first == NodeAt(c, 0, moving) && forall j | 0 <= j < |c| :: moving[c[j]].next == NodeAt(c, j + 1, moving)
    modifies buckets, moving.Values`next
    ensures Linked(buckets, chains', at + moving, nodes + moving.Values)
    ensures Placed(chains', (at + moving).Keys, hash, bits)
  {
    hide Linked, Placed, NodeAt, Distinct;
    chains' := chains;
    var current := first;
    ghost var j: nat := 0;
    NoneYet(c, moving, at, nodes);
    while current != null
      invariant j <= |c| && current == NodeAt(c, j, moving)
      invariant forall q | j <= q < |c| :: moving[c[q]].next == NodeAt(c, q + 1, moving)
      invariant Linked(buckets, chains', at + Sub(moving, c[..j]), nodes + Sub(moving, c[..j]).Values)
      invariant Placed(chains', (at + Sub(moving, c[..j])).Keys, hash, bits)
      decreases |c| - j
    {
      InChain(c, moving, j);
      var node: Node<V> := current;
      var next := node.next;
      OneMore(c, moving, at, nodes, j);
      chains' := PushFront(buckets, hash, mask, node, chains', at + Sub(moving, c[..j]),
                           nodes + Sub(moving, c[..j]).Values, bits);
      current, j := next, j + 1;
    }
    InChain(c, moving, j);
    AllMoved(c, moving);
  }

  lemma InChain<V>(c: seq<Bytes>, moving: map<Bytes, Node<V>>, j: nat)
    requires Chain(c, moving) && j <= |c|
    ensures NodeAt(c, j, moving) == null <==> j == |c|
    ensures j < |c| ==> c[j] in moving && NodeAt(c, j, moving) == moving[c[j]] && moving[c[j]].key == c[j]
    ensures forall q | j < q < |c| :: moving[c[q]].key != c[j]
  {}

  lemma AllMoved<V>(c: seq<Bytes>, moving: map<Bytes, Node<V>>)
    requires Chain(c, moving)
    ensures Sub(moving, c[..|c|]) == moving
  {
    assert c[..|c|] == c;
  }

  lemma NoneYet<V>(c: seq<Bytes>, moving: map<Bytes, Node<V>>, at: map<Bytes, Node<V>>, nodes: set<Node<V>>)
    ensures at + Sub(moving, c[..0]) == at && nodes + Sub(moving, c[..0]).Values == nodes
  {
    assert Sub(moving, c[..0]) == map[];
  }
}
