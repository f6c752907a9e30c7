/** Search, insertion, deletion and emptying of a bucket on one bucket array, in terms of the map it holds. */
module Tables {
  import opened Words
  import opened Cursor
  import opened StoreModel
  import opened Buckets

  // What a bucket array holds: the map, and the chains and nodes that represent it.
  datatype Shadow<V> = Shadow(contents: map<Bytes, V>, chains: Chains, at: map<Bytes, Node<V>>, nodes: set<Node<V>>)

  ghost predicate Table<V>(buckets: array<Node?<V>>, g: Shadow<V>, hash: Hash, bits: nat)
    reads buckets, g.nodes
  {
    match g
    case Shadow(contents, chains, at, nodes) =>
      && |chains| == buckets.Length == Pow2(bits)
      && Linked(buckets, chains, at, nodes)
      && Placed(chains, contents.Keys, hash, bits)
      && Stores(at, Vals(nodes), contents)
  }

  ghost function Vals<V>(nodes: set<Node<V>>): (vals: map<Node<V>, V>)
    reads nodes
    ensures vals.Keys == nodes
  {
    map n | n in nodes :: n.value
  }

  ghost predicate Stores<V>(at: map<Bytes, Node<V>>, vals: map<Node<V>, V>, contents: map<Bytes, V>) {
    at.Keys == contents.Keys && forall k | k in at :: at[k] in vals && vals[at[k]] == contents[k]
  }

  ghost function EmptyShadow<V>(bits: nat): Shadow<V> {
    Shadow(map[], NoChains(Pow2(bits)), map[], {})
  }

  lemma EmptyIsTable<V>(buckets: array<Node?<V>>, hash: Hash, bits: nat)
    requires buckets.Length == Pow2(bits) && forall i | 0 <= i < buckets.Length :: buckets[i] == null
    ensures Table(buckets, EmptyShadow<V>(bits), hash, bits) == true
  {}

  ghost predicate HasKey<V>(g: Shadow<V>, key: Bytes) {
    key in g.contents
  }

  // The node that holds a key of a table.
  ghost predicate NodeOf<V>(g: Shadow<V>, key: Bytes, node: Node<V>) {
    key in g.at && node == g.at[key] && node in g.nodes && key in g.contents
  }

  ghost predicate Holds<V>(g: Shadow<V>, key: Bytes, value: V) {
    key in g.contents && g.contents[key] == value
  }

  // g' is g with a new binding for one key.
  ghost predicate Updated<V>(g: Shadow<V>, g': Shadow<V>, key: Bytes, value: V) {
    g'.contents == g.contents[key := value]
  }

  // g' is g without a key, which was at position pos of chain i.
  ghost predicate Removed<V>(g: Shadow<V>, g': Shadow<V>, key: Bytes, i: nat, pos: nat) {
    && key in g.contents && g'.contents == g.contents - {key} && g'.at == g.at - {key}
    && i < |g.chains| && pos < |g.chains[i]| && g.chains[i][pos] == key && g'.chains == Without(g.chains, i, pos)
  }

  // Deleting a key took it, if present, out of the one table that held it, and left the other table alone.
  ghost predicate Dropped<V>(p: Shadow<V>, s: Shadow<V>, active: bool, p': Shadow<V>, s': Shadow<V>,
                             key: Bytes, hash: Hash, bits: nat, pos: nat) {
    && (HasKey(p, key) ==> Removed(p, p', key, Slot(hash(key), bits), pos) && (active ==> s' == s))
    && (active && HasKey(s, key) ==> Removed(s, s', key, Slot(hash(key), bits + 1), pos) && p' == p)
  }

  // The keys of chain i have moved from the one table to the other.
  ghost predicate Moved<V>(g: Shadow<V>, n: Shadow<V>, g': Shadow<V>, n': Shadow<V>, i: nat) {
    && i < |g.chains| && g'.chains == g.chains[i := []]
    && g'.contents == Outside(g.contents, g.chains[i]) && n'.contents == n.contents + Inside(g.contents, g.chains[i])
  }

  ghost predicate Apart<V>(g: Shadow<V>, n: Shadow<V>) {
    g.contents.Keys !! n.contents.Keys
  }

  method SearchInBuckets<V>(buckets: array<Node?<V>>, mask: nat, hash: Hash, key: Bytes, ghost g: Shadow<V>,
                            ghost bits: nat)
    returns (node: Node?<V>)
    requires mask == Pow2(bits) - 1 && Table(buckets, g, hash, bits) == true
    ensures node == null <==> !HasKey(g, key)
    ensures node != null ==> NodeOf(g, key, node) && Holds(g, key, node.value)
  {
    hide Placed, Linked;
    var _, _, current, _ := Walk(buckets, hash, mask, key, g.chains, g.at, g.nodes, bits);
    return current;
  }

  method SetValue<V>(node: Node<V>, value: V, key: Bytes, hash: Hash,
                     ghost buckets: array<Node?<V>>, ghost g: Shadow<V>, ghost bits: nat)
    returns (ghost g': Shadow<V>)
    requires Table(buckets, g, hash, bits) == true && NodeOf(g, key, node)
    modifies node`value
    ensures Updated(g, g', key, value) && g'.nodes == g.nodes && g'.chains == g.chains
    ensures Table(buckets, g', hash, bits) == true
  {
    hide Placed, Shape;
    ghost var next, vals := Nexts(g.nodes), Vals(g.nodes);
    KeysOfNodes(buckets, g.chains, g.at, g.nodes);
    node.value := value;
    assert Nexts(g.nodes) == next && Vals(g.nodes) == vals[node := value];
    g' := g.(contents := g.contents[key := value]);
    assert g'.contents.Keys == g.contents.Keys;
  }

  lemma KeysOfNodes<V>(buckets: array<Node?<V>>, chains: Chains, at: map<Bytes, Node<V>>, nodes: set<Node<V>>)
    requires Linked(buckets, chains, at, nodes)
    ensures forall k | k in at :: at[k].key == k && at[k] in nodes
  {}

  method Insert<V>(buckets: array<Node?<V>>, hash: Hash, mask: nat, node: Node<V>, ghost g: Shadow<V>, ghost bits: nat)
    returns (ghost g': Shadow<V>)
    requires mask == Pow2(bits) - 1 && Table(buckets, g, hash, bits) == true
    requires node !in g.nodes && !HasKey(g, node.key)
    modifies buckets, node`next
    ensures Updated(g, g', node.key, node.value) && g'.nodes == g.nodes + {node}
    ensures Table(buckets, g', hash, bits) == true
  {
    hide Placed, Linked;
    ghost var chains' := PushFront(buckets, hash, mask, node, g.chains, g.at, g.nodes, bits);
    g' := Shadow(g.contents[node.key := node.value], chains', g.at[node.key := node], g.nodes + {node});
    assert g'.contents.Keys == g'.at.Keys;
    PlacedLength(chains', g'.at.Keys, hash, bits);
  }

  lemma PlacedLength(chains: Chains, keys: set<Bytes>, hash: Hash, bits: nat)
    requires Placed(chains, keys, hash, bits)
    ensures |chains| == Pow2(bits)
  {}

  method DeleteFromBuckets<V>(buckets: array<Node?<V>>, hash: Hash, mask: nat, key: Bytes, ghost g: Shadow<V>,
                              ghost bits: nat)
    returns (deleted: bool, ghost g': Shadow<V>, ghost pos: nat)
    requires mask == Pow2(bits) - 1 && Table(buckets, g, hash, bits) == true
    modifies buckets, g.nodes`next
    ensures deleted <==> HasKey(g, key)
    ensures g'.nodes == g.nodes
    ensures if deleted then Removed(g, g', key, Slot(hash(key), bits), pos) else g' == g
    ensures Table(buckets, g', hash, bits) == true
  {
    hide Placed, Linked;
    var index, prev, current, j := Walk(buckets, hash, mask, key, g.chains, g.at, g.nodes, bits);
    if current == null {
      return false, g, 0;
    }
    Unlink(buckets, index, prev, current, g.chains, g.at, g.nodes, j, hash, bits);
    WithoutPlaced(g.chains, g.at.Keys, hash, bits, index, j);
    g' := Shadow(g.contents - {key}, Without(g.chains, index, j), g.at - {key}, g.nodes);
    assert g'.contents.Keys == g.contents.Keys - {key} == g'.at.Keys;
    return true, g', j;
  }

  // A chain holds the keys of its bucket, each once.
  lemma ChainKeys<V>(buckets: array<Node?<V>>, g: Shadow<V>, hash: Hash, bits: nat, i: nat)
    requires Table(buckets, g, hash, bits) == true && i < Pow2(bits)
    ensures i < |g.chains| && Distinct(g.chains[i])
    ensures forall k :: k in g.chains[i] <==> HasKey(g, k) && Slot(hash(k), bits) == i
  {
    hide Distinct;
  }

  /** The entries of one bucket, in the order of its chain. */
  method VisitBucket<V>(buckets: array<Node?<V>>, index: nat, hash: Hash, ghost g: Shadow<V>, ghost bits: nat)
    returns (seen: seq<(Bytes, V)>)
    requires Table(buckets, g, hash, bits) == true && index < Pow2(bits) == buckets.Length
    ensures index < |g.chains| && |seen| == |g.chains[index]|
    ensures forall j | 0 <= j < |seen| :: seen[j].0 == g.chains[index][j] && Holds(g, seen[j].0, seen[j].1)
  {
    hide Placed, Shape, NodeAt;
    ghost var heads, next, c := buckets[..], Nexts(g.nodes), g.chains[index];
    InShape(heads, next, g.chains, g.at, index, 0);
    assert heads[index] == buckets[index];
    var current := buckets[index];
    seen := [];
    while current != null
      invariant |seen| <= |c| && current == NodeAt(c, |seen|, g.at)
      invariant forall j | 0 <= j < |seen| :: seen[j].0 == c[j] && Holds(g, seen[j].0, seen[j].1)
      decreases |c| - |seen|
    {
      InShape(heads, next, g.chains, g.at, index, |seen|);
      seen := seen + [(current.key, current.value)];
      current := current.next;
    }
    InShape(heads, next, g.chains, g.at, index, |seen|);
  }

  // The node is the one at a position of a chain, or null at its end.
  ghost predicate Points<V>(g: Shadow<V>, i: nat, pos: nat, node: Node?<V>) {
    i < |g.chains| && pos <= |g.chains[i]| && node == NodeAt(g.chains[i], pos, g.at)
  }

  lemma PointsStart<V>(buckets: array<Node?<V>>, g: Shadow<V>, hash: Hash, bits: nat, i: nat)
    requires Table(buckets, g, hash, bits) == true && i < Pow2(bits)
    ensures i < buckets.Length && Points(g, i, 0, buckets[i])
  {
    InShape(buckets[..], Nexts(g.nodes), g.chains, g.at, i, 0);
    assert buckets[..][i] == buckets[i];
  }

  lemma PointsNext<V>(buckets: array<Node?<V>>, g: Shadow<V>, hash: Hash, bits: nat, i: nat, pos: nat, node: Node?<V>)
    requires Table(buckets, g, hash, bits) == true && Points(g, i, pos, node)
    ensures node == null <==> pos == |g.chains[i]|
    ensures node != null ==>
              node in g.nodes && node.key == g.chains[i][pos] && Holds(g, node.key, node.value)
              && Points(g, i, pos + 1, node.next)
  {
    hide Placed, Shape, NodeAt;
    InShape(buckets[..], Nexts(g.nodes), g.chains, g.at, i, pos);
  }

  // Deleting the key at a position leaves the next node at that position.
  lemma PointsAfterRemoval<V>(g: Shadow<V>, g': Shadow<V>, key: Bytes, hash: Hash, bits: nat,
                              i: nat, pos: nat, j: nat, next: Node?<V>)
    requires Placed(g.chains, g.at.Keys, hash, bits)
    requires i < |g.chains| && pos < |g.chains[i]| && g.chains[i][pos] == key
    requires Points(g, i, pos + 1, next) && Removed(g, g', key, Slot(hash(key), bits), j)
    ensures j == pos && Slot(hash(key), bits) == i
    ensures Points(g', i, pos, next) && g'.chains == Without(g.chains, i, pos)
  {
    hide Distinct, NodeAt;
    if j != pos { DistinctAt(g.chains[i], j, pos); }
    NodeAtWithout(g.chains, g.at, hash, bits, i, pos, i, pos);
  }

  // The part of a table that a bucket holds, and the part that the other buckets hold.
  ghost function Outside<V>(m: map<Bytes, V>, c: seq<Bytes>): map<Bytes, V> {
    map k | k in m && k !in c :: m[k]
  }

  ghost function Inside<V>(m: map<Bytes, V>, c: seq<Bytes>): map<Bytes, V> {
    map k | k in m && k in c :: m[k]
  }

  lemma EmptiedPlaced(chains: Chains, keys: set<Bytes>, hash: Hash, bits: nat, i: nat, rest: set<Bytes>)
    requires Placed(chains, keys, hash, bits) && i < |chains|
    requires forall k :: k in rest <==> k in keys && k !in chains[i]
    ensures Placed(chains[i := []], rest, hash, bits)
    ensures Distinct(chains[i]) && forall k | k in chains[i] :: k in keys
  {
    hide Distinct;
    forall p, q | 0 <= p < |chains| && 0 <= q < |chains[p]| && p != i ensures chains[p][q] in rest {
      ChainsApart(chains, keys, hash, bits, p, q, i);
    }
    assert Distinct([]) by { DistinctEmpty(); }
  }

  lemma DistinctEmpty()
    ensures Distinct([])
  {}

  lemma EmptiedShape<V>(heads: seq<Node?<V>>, next: map<Node<V>, Node?<V>>, chains: Chains, at: map<Bytes, Node<V>>,
                        i: nat, rest: map<Bytes, Node<V>>, next': map<Node<V>, Node?<V>>)
    requires Shape(heads, next, chains, at) && i < |chains|
    requires rest.Keys <= at.Keys && (forall k | k in rest :: rest[k] == at[k] && at[k] in next')
    requires forall n | n in next' :: n in next && next'[n] == next[n]
    requires forall p, q | 0 <= p < |chains| && 0 <= q < |chains[p]| && p != i :: chains[p][q] in rest
    ensures Shape(heads[i := null], next', chains[i := []], rest)
  {
    var chains' := chains[i := []];
    forall p, q | 0 <= p < |chains'| && 0 <= q < |chains'[p]|
      ensures next'[rest[chains'[p][q]]] == NodeAt(chains'[p], q + 1, rest)
    {
      assert chains'[p][q] == chains[p][q];
      assert next[at[chains[p][q]]] == NodeAt(chains[p], q + 1, at);
    }
  }

  // The nodes of the chain of a bucket, linked as before.
  lemma CutChain<V>(buckets: array<Node?<V>>, g: Shadow<V>, hash: Hash, bits: nat, i: nat)
    requires Table(buckets, g, hash, bits) == true && i < |g.chains|
    ensures var c, moving := g.chains[i], Sub(g.at, g.chains[i]);
            && Chain(c, moving) && moving.Values <= g.nodes && i < buckets.Length
            && buckets[i] == NodeAt(c, 0, moving)
            && forall j | 0 <= j < |c| :: moving[c[j]].next == NodeAt(c, j + 1, moving)
  {
    hide Placed, Shape, NodeAt, Stores;
    var c, moving, heads, next := g.chains[i], Sub(g.at, g.chains[i]), buckets[..], Nexts(g.nodes);
    KeysAgree(g.at, Vals(g.nodes), g.contents);
    KeysOfNodes(buckets, g.chains, g.at, g.nodes);
    EmptiedPlaced(g.chains, g.at.Keys, hash, bits, i, Outside(g.at, c).Keys);
    InShape(heads, next, g.chains, g.at, i, 0);
    NodeAtSub(c, 0, g.at);
    forall j | 0 <= j < |c| ensures moving[c[j]].next == NodeAt(c, j + 1, moving) {
      InShape(heads, next, g.chains, g.at, i, j);
      NodeAtSub(c, j + 1, g.at);
    }
  }

  // The other chains of the table, linked as before.
  lemma CutRest<V>(buckets: array<Node?<V>>, g: Shadow<V>, hash: Hash, bits: nat, i: nat)
    requires Table(buckets, g, hash, bits) == true && i < |g.chains|
    ensures var moving, rest := Sub(g.at, g.chains[i]), Outside(g.at, g.chains[i]);
            && i < buckets.Length
            && Shape(buckets[..][i := null], Nexts(g.nodes - moving.Values), g.chains[i := []], rest)
            && Placed(g.chains[i := []], rest.Keys, hash, bits)
  {
    hide Distinct, Placed, Shape, NodeAt, Stores;
    var c, moving, rest := g.chains[i], Sub(g.at, g.chains[i]), Outside(g.at, g.chains[i]);
    KeysAgree(g.at, Vals(g.nodes), g.contents);
    KeysOfNodes(buckets, g.chains, g.at, g.nodes);
    EmptiedPlaced(g.chains, g.at.Keys, hash, bits, i, rest.Keys);
    forall p, q | 0 <= p < |g.chains| && 0 <= q < |g.chains[p]| && p != i ensures g.chains[p][q] in rest {
      ChainsApart(g.chains, g.at.Keys, hash, bits, p, q, i);
    }
    assert forall n | n in moving.Values :: n.key in c;
    EmptiedShape(buckets[..], Nexts(g.nodes), g.chains, g.at, i, rest, Nexts(g.nodes - moving.Values));
  }

  lemma NodeAtSub<V>(c: seq<Bytes>, j: nat, at: map<Bytes, Node<V>>)
    ensures NodeAt(c, j, Sub(at, c)) == NodeAt(c, j, at)
  {}

  lemma ChainsApart(chains: Chains, keys: set<Bytes>, hash: Hash, bits: nat, p: nat, q: nat, i: nat)
    requires Placed(chains, keys, hash, bits) && p < |chains| && q < |chains[p]| && i < |chains| && p != i
    ensures chains[p][q] !in chains[i] && chains[p][q] in keys
  {
    hide Distinct;
  }

  ghost predicate Detached<V>(first: Node?<V>, c: seq<Bytes>, moving: map<Bytes, Node<V>>, contents: map<Bytes, V>)
    reads moving.Values
  {
    && Chain(c, moving)
    && first == NodeAt(c, 0, moving)
    && (forall j | 0 <= j < |c| :: moving[c[j]].next == NodeAt(c, j + 1, moving))
    && Stores(moving, Vals(moving.Values), contents)
  }

  /** Empties a bucket and returns the chain that it held. */
  method TakeBucket<V>(buckets: array<Node?<V>>, idx: nat, hash: Hash, ghost g: Shadow<V>, ghost bits: nat)
    returns (first: Node?<V>, ghost g': Shadow<V>, ghost moving: map<Bytes, Node<V>>)
    requires Table(buckets, g, hash, bits) == true && idx < buckets.Length
    modifies buckets
    ensures g'.chains == g.chains[idx := []] && g'.contents == Outside(g.contents, g.chains[idx])
    ensures moving == Sub(g.at, g.chains[idx]) && g'.at == Outside(g.at, g.chains[idx])
    ensures moving.Values <= g.nodes && g'.nodes == g.nodes - moving.Values
    ensures Detached(first, g.chains[idx], moving, Inside(g.contents, g.chains[idx]))
    ensures Table(buckets, g', hash, bits) == true
  {
    hide Placed, Shape, Chain, NodeAt, Stores, Sub, Outside, Inside;
    ghost var c, heads := g.chains[idx], buckets[..];
    moving := Sub(g.at, c);
    CutChain(buckets, g, hash, bits, idx);
    CutRest(buckets, g, hash, bits, idx);
    KeysOfNodes(buckets, g.chains, g.at, g.nodes);
    first := buckets[idx];
    buckets[idx] := null;
    assert buckets[..] == heads[idx := null];
    g' := Shadow(Outside(g.contents, c), g.chains[idx := []], Outside(g.at, c), g.nodes - moving.Values);
    SplitStores(g, Vals(g.nodes), c);
    assert Vals(g'.nodes) == Restricted(Vals(g.nodes), g'.nodes);
    assert Vals(moving.Values) == Restricted(Vals(g.nodes), moving.Values);
    KeysAgree(g'.at, Vals(g'.nodes), g'.contents);
  }

  ghost function Restricted<V>(vals: map<Node<V>, V>, nodes: set<Node<V>>): map<Node<V>, V> {
    map n | n in vals && n in nodes :: vals[n]
  }

  lemma KeysAgree<V>(at: map<Bytes, Node<V>>, vals: map<Node<V>, V>, contents: map<Bytes, V>)
    requires Stores(at, vals, contents)
    ensures at.Keys == contents.Keys
  {}

  lemma SplitStores<V>(g: Shadow<V>, vals: map<Node<V>, V>, c: seq<Bytes>)
    requires Stores(g.at, vals, g.contents) && vals.Keys == g.nodes
    requires forall k | k in g.at :: g.at[k].key == k
    ensures var moving := Sub(g.at, c);
            && Stores(Outside(g.at, c), Restricted(vals, g.nodes - moving.Values), Outside(g.contents, c))
            && Stores(moving, Restricted(vals, moving.Values), Inside(g.contents, c))
  {
    var moving := Sub(g.at, c);
    assert forall m | m in moving.Values :: m.key in c;
    forall k | k in moving ensures g.at[k] in moving.Values {
      assert moving[k] == g.at[k];
    }
  }

  lemma JoinStores<V>(at: map<Bytes, Node<V>>, vals: map<Node<V>, V>, contents: map<Bytes, V>, at2: map<Bytes, Node<V>>,
                      vals2: map<Node<V>, V>, contents2: map<Bytes, V>, all: map<Node<V>, V>)
    requires Stores(at, vals, contents) && Stores(at2, vals2, contents2) && contents.Keys !! contents2.Keys
    requires forall n | n in vals :: n in all && all[n] == vals[n]
    requires forall n | n in vals2 :: n in all && all[n] == vals2[n]
    ensures Stores(at + at2, all, contents + contents2)
  {}

  /** Adds the nodes of a detached chain to the new table. */
  method AddChain<V>(buckets: array<Node?<V>>, hash: Hash, mask: nat, first: Node?<V>, ghost c: seq<Bytes>,
                     ghost moving: map<Bytes, Node<V>>, ghost contents: map<Bytes, V>, ghost n: Shadow<V>,
                     ghost bits: nat)
    returns (ghost n': Shadow<V>)
    requires mask == Pow2(bits) - 1 && Table(buckets, n, hash, bits) == true
    requires Detached(first, c, moving, contents) && contents.Keys !! n.contents.Keys && moving.Values !! n.nodes
    modifies buckets, moving.Values`next
    ensures n'.contents == n.contents + contents && n'.nodes == n.nodes + moving.Values && n'.at == n.at + moving
    ensures Table(buckets, n', hash, bits) == true
  {
    hide Placed, Shape, Chain, NodeAt, Stores;
    ghost var vals, newVals := Vals(moving.Values), Vals(n.nodes);
    KeysAgree(moving, vals, contents);
    KeysAgree(n.at, newVals, n.contents);
    ghost var chains' := Scatter(buckets, hash, mask, first, c, moving, n.chains, n.at, n.nodes, bits);
    n' := Shadow(n.contents + contents, chains', n.at + moving, n.nodes + moving.Values);
    JoinStores(n.at, newVals, n.contents, moving, vals, contents, Vals(n'.nodes));
    KeysAgree(n'.at, Vals(n'.nodes), n'.contents);
    PlacedLength(chains', n'.at.Keys, hash, bits);
  }

  // The nodes of a chain, moved from one index to the other, are the nodes of their keys as before.
  lemma SameNodes<V>(n: map<Bytes, Node<V>>, g: map<Bytes, Node<V>>, c: seq<Bytes>)
    ensures (n + Sub(g, c)) + Outside(g, c) == n + g
  {}

  /** Moves all nodes of one bucket to the table of twice the size; each key keeps its node. */
  method MoveBucket<V>(buckets: array<Node?<V>>, idx: nat, newBuckets: array<Node?<V>>, hash: Hash, newMask: nat,
                       ghost g: Shadow<V>, ghost n: Shadow<V>, ghost bits: nat)
    returns (ghost g': Shadow<V>, ghost n': Shadow<V>)
    requires Table(buckets, g, hash, bits) == true && Table(newBuckets, n, hash, bits + 1) == true
    requires newMask == Pow2(bits + 1) - 1
    requires buckets != newBuckets && idx < buckets.Length
    requires g.nodes !! n.nodes && Apart(g, n)
    modifies buckets, newBuckets, g.nodes`next
    ensures Table(buckets, g', hash, bits) == true && Table(newBuckets, n', hash, bits + 1) == true
    ensures Moved(g, n, g', n', idx)
    ensures g'.nodes !! n'.nodes && g'.nodes + n'.nodes == g.nodes + n.nodes
    ensures n'.at + g'.at == n.at + g.at
  {
    hide Table, Detached, Sub;
    TableLength(buckets, g, hash, bits);
    SameNodes(n.at, g.at, g.chains[idx]);
    ghost var c := g.chains[idx];
    ghost var moving;
    var first;
    first, g', moving := TakeBucket(buckets, idx, hash, g, bits);
    n' := AddChain(newBuckets, hash, newMask, first, c, moving, Inside(g.contents, c), n, bits + 1);
  }

  lemma TableLength<V>(buckets: array<Node?<V>>, g: Shadow<V>, hash: Hash, bits: nat)
    requires Table(buckets, g, hash, bits) == true
    ensures |g.chains| == buckets.Length == Pow2(bits)
  {}

  // When every bucket has been emptied, no key is left.
  lemma NoKeysLeft<V>(buckets: array<Node?<V>>, g: Shadow<V>, hash: Hash, bits: nat)
    requires Table(buckets, g, hash, bits) == true
    requires EmptyBelow(g, Pow2(bits))
    ensures g.contents == map[] && g.at == map[]
  {
    assert forall k | k in g.contents :: k in g.chains[Slot(hash(k), bits)];
  }

  // The first idx buckets are empty.
  ghost predicate EmptyBelow<V>(g: Shadow<V>, idx: nat) {
    idx <= |g.chains| && forall i | 0 <= i < idx :: g.chains[i] == []
  }
}
