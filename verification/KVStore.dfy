/** The hash table of archke_kvstore_basic_hash.c, rehashed incrementally into a table of twice the size. */
module KVStores {
  import opened Words
  import opened Cursor
  import opened StoreModel
  import opened Buckets
  import opened Tables
  import opened Split

  class KVStore<V> {
    const hash: Hash
    var buckets: array<Node?<V>>      // primary table
    var newBuckets: array?<Node?<V>>  // new table during a rehash
    var used: nat
    var size: nat
    var mask: nat
    var newSize: nat
    var newMask: nat
    var rehashIdx: nat                // next bucket to move

    ghost var view: Store<V>
    ghost var primary: Shadow<V>
    ghost var secondary: Shadow<V>
    ghost var Repr: set<object>

    ghost predicate Valid()
      reads this, Repr
      ensures Valid() ==> this in Repr
    {
      Sound() && (newBuckets != null ==> rehashIdx < size)
    }

    ghost predicate Sound()
      reads this, Repr
      ensures Sound() ==> this in Repr
    {
      && this in Repr && buckets in Repr && primary.nodes <= Repr && secondary.nodes <= Repr
      && primary.nodes !! secondary.nodes
      && size == Pow2(view.bits) && mask == size - 1
      && view.active == (newBuckets != null) && view.idx == rehashIdx
      && Represents(primary, secondary, used, view) == true
      && Table(buckets, primary, hash, view.bits) == true
      && (newBuckets == null ==> newSize == 0 && newMask == 0 && rehashIdx == 0)
      && (newBuckets != null ==>
            && newBuckets in Repr && newBuckets != buckets && rehashIdx <= size
            && newSize == Pow2(view.bits + 1) && newMask == newSize - 1
            && Table(newBuckets, secondary, hash, view.bits + 1) == true)
    }

    constructor (hash: Hash, ghost bits: nat, initialSize: nat)
      requires initialSize == Pow2(bits)
      ensures Valid() && fresh(Repr)
      ensures view == Store(map[], bits, false, 0) && this.hash == hash
    {
      hide Table, Represents;
      this.hash := hash;
      var b := new Node?<V>[initialSize](_ => null);
      EmptyIsTable(b, hash, bits);
      Start<V>(bits);
      buckets, newBuckets := b, null;
      used, size, mask, newSize, newMask, rehashIdx := 0, initialSize, initialSize - 1, 0, 0, 0;
      view, primary, secondary := Store(map[], bits, false, 0), EmptyShadow(bits), EmptyShadow(bits);
      Repr := {this, b};
    }

    method Search(key: Bytes) returns (node: Node?<V>, ghost inNew: bool)
      requires Valid()
      ensures node == null <==> !view.Has(key)
      ensures node != null ==>
                NodeOf(if inNew then secondary else primary, key, node) && view.Get(key) == Some(node.value)
      ensures inNew ==> newBuckets != null
    {
      hide Table, Represents, Store.Has, Store.Get, NodeOf, Holds, HasKey, Apart;
      Lookup(primary, secondary, used, view, key);
      inNew := false;
      node := SearchInBuckets(buckets, mask, hash, key, primary, view.bits);
      if node == null && newBuckets != null {
        node := SearchInBuckets(newBuckets, newMask, hash, key, secondary, view.bits + 1);
        inNew := true;
      }
      if node != null { Value(primary, secondary, used, view, key, node.value); }
    }

    /** `used` is the number of nodes in both tables; each key has one node, in one of them. */
    lemma UsedCountsNodes()
      requires Valid()
      ensures used == |primary.at.Keys| + if newBuckets == null then 0 else |secondary.at.Keys|
      ensures forall k :: view.Has(k) <==> (k in primary.at) != (newBuckets != null && k in secondary.at)
      ensures forall k | k in primary.at :: primary.at[k].key == k
      ensures newBuckets != null ==> forall k | k in secondary.at :: secondary.at[k].key == k
    {
      hide Represents, Placed, Store.Has;
      if newBuckets == null {
        CountPlain(primary, secondary, used, view);
      } else {
        CountNodes(primary, secondary, used, view);
      }
    }

    method Get(key: Bytes) returns (value: Option<V>)
      requires Valid()
      ensures value == view.Get(key)
    {
      hide Table, Represents, NodeOf;
      var node, _ := Search(key);
      value := if node == null then None else Some(node.value);
    }

    /** Allocates a table of twice the size. */
    method StartRehash()
      requires Valid() && newBuckets == null && used >= size && !view.Balanced()
      modifies this
      ensures Valid() && fresh(Repr - old(Repr)) && newBuckets != null
      ensures view == old(view).ActivateIfNeeded() && primary == old(primary)
      ensures used == old(used) && size == old(size) && newSize == 2 * size && rehashIdx == 0
    {
      hide Table, Represents, Store.ActivateIfNeeded, Store.Balanced;
      Activated(primary, secondary, used, view);
      rehashIdx := 0;
      newSize := size * 2;
      newMask := newSize - 1;
      var b := new Node?<V>[newSize](_ => null);
      EmptyIsTable(b, hash, view.bits + 1);
      newBuckets, secondary, view := b, EmptyShadow(view.bits + 1), view.ActivateIfNeeded();
      Repr := Repr + {b};
    }

    method RehashActivateIfNeeded()
      requires Valid()
      modifies this
      ensures Valid() && fresh(Repr - old(Repr))
      ensures view == old(view).ActivateIfNeeded() && used == old(used) && size == old(size)
      ensures newBuckets != null <==> old(newBuckets) != null || old(used) >= old(size)
      ensures newBuckets != null && old(newBuckets) == null ==> newSize == 2 * size && rehashIdx == 0
      ensures primary == old(primary) && (old(newBuckets) != null ==> secondary == old(secondary) && newBuckets != null)
    {
      hide Table, Represents, Store.ActivateIfNeeded, Store.Balanced;
      Full(primary, secondary, used, view);
      if newBuckets != null {
        Unneeded(view);
      } else if used >= size {
        StartRehash();
      } else {
        Unneeded(view);
      }
    }

    lemma HasRoom()
      requires Valid()
      ensures view.Balanced() <==> newBuckets != null || used < size
    {
      hide Table, Represents, Store.Balanced;
      Full(primary, secondary, used, view);
    }

    static lemma Unneeded(v: Store<V>)
      requires v.Balanced()
      ensures v.ActivateIfNeeded() == v
    {}

    method Overwrite(node: Node<V>, key: Bytes, value: V, ghost inNew: bool)
      requires Valid() && view.Has(key) && (inNew ==> newBuckets != null)
      requires NodeOf(if inNew then secondary else primary, key, node)
      modifies this`view, this`primary, this`secondary, node`value
      ensures Valid() && view == old(view).With(key, value)
    {
      hide Table, Represents, Updated, NodeOf, Store.Has, Store.With;
      Lookup(primary, secondary, used, view, key);
      HasNode(primary, secondary, key, node);
      ghost var g := SetValue(node, value, key, hash, if inNew then newBuckets else buckets,
                              if inNew then secondary else primary, if inNew then view.bits + 1 else view.bits);
      ghost var p, s := if inNew then primary else g, if inNew then g else secondary;
      UpdatedKey(primary, secondary, used, view, p, s, key, value);
      primary, secondary, view := p, s, view.With(key, value);
    }

    static lemma HasNode(p: Shadow<V>, s: Shadow<V>, key: Bytes, node: Node<V>)
      ensures NodeOf(p, key, node) ==> HasKey(p, key) && node in p.nodes
      ensures NodeOf(s, key, node) ==> HasKey(s, key) && node in s.nodes
    {}

    method LinkPrimary(key: Bytes, value: V)
      requires Valid() && !view.Has(key) && newBuckets == null
      modifies Repr
      ensures Valid() && fresh(Repr - old(Repr)) && view == old(view).With(key, value) && newBuckets == null
    {
      hide Table, Represents, Updated, HasKey, Store.Has, Store.With;
      Lookup(primary, secondary, used, view, key);
      var node := new Node(key, value);
      ghost var g := Insert(buckets, hash, mask, node, primary, view.bits);
      UpdatedKey(primary, secondary, used, view, g, secondary, key, value);
      primary, used, view, Repr := g, used + 1, view.With(key, value), Repr + {node};
    }

    method LinkSecondary(key: Bytes, value: V)
      requires Valid() && !view.Has(key) && newBuckets != null
      modifies Repr
      ensures Valid() && fresh(Repr - old(Repr)) && view == old(view).With(key, value) && newBuckets != null
    {
      hide Table, Represents, Updated, HasKey, Store.Has, Store.With;
      Lookup(primary, secondary, used, view, key);
      var node := new Node(key, value);
      ghost var g := Insert(newBuckets, hash, newMask, node, secondary, view.bits + 1);
      UpdatedKey(primary, secondary, used, view, primary, g, key, value);
      secondary, used, view, Repr := g, used + 1, view.With(key, value), Repr + {node};
    }

    method Put(key: Bytes, value: V)
      requires Valid()
      modifies Repr
      ensures Valid() && fresh(Repr - old(Repr))
      ensures view == old(view).Put(key, value)
      ensures !old(view).Has(key) ==> newBuckets != null || used < size
    {
      hide Table, Represents, NodeOf, Store.Has, Store.With, Store.ActivateIfNeeded;
      ghost var v := view;
      var node, inNew := Search(key);
      if node != null {
        HasNode(primary, secondary, key, node);
        Overwrite(node, key, value, inNew);
      } else {
        if newBuckets != null {
          LinkSecondary(key, value);
          Unneeded(view);
        } else {
          LinkPrimary(key, value);
          RehashActivateIfNeeded();
        }
        PutBalances(v, key, value);
        HasRoom();
      }
    }

    method DeletePrimary(key: Bytes) returns (deleted: bool, ghost pos: nat)
      requires Valid()
      modifies Repr
      ensures Valid() && Repr == old(Repr) && newBuckets == old(newBuckets) && secondary == old(secondary)
      ensures deleted <==> HasKey(old(primary), key)
      ensures if deleted then Removed(old(primary), primary, key, Slot(hash(key), old(view).bits), pos)
              else primary == old(primary)
      ensures view == if deleted then old(view).Without(key) else old(view)
    {
      hide Table, Represents, Removed, HasKey, Store.Without, Slot;
      ghost var p := primary;
      deleted, primary, pos := DeleteFromBuckets(buckets, hash, mask, key, primary, view.bits);
      if deleted {
        RemovedKey(p, secondary, used, view, primary, secondary, key, Slot(hash(key), view.bits), pos);
        used := used - 1;
        view := view.Without(key);
      }
    }

    method DeleteSecondary(key: Bytes) returns (deleted: bool, ghost pos: nat)
      requires Valid() && newBuckets != null
      modifies Repr
      ensures Valid() && Repr == old(Repr) && newBuckets == old(newBuckets) && primary == old(primary)
      ensures deleted <==> HasKey(old(secondary), key)
      ensures if deleted then Removed(old(secondary), secondary, key, Slot(hash(key), old(view).bits + 1), pos)
                         else secondary == old(secondary)
      ensures view == if deleted then old(view).Without(key) else old(view)
    {
      hide Table, Represents, Removed, HasKey, Store.Without, Slot;
      ghost var s := secondary;
      deleted, secondary, pos := DeleteFromBuckets(newBuckets, hash, newMask, key, secondary, view.bits + 1);
      if deleted {
        RemovedKey(primary, s, used, view, primary, secondary, key, Slot(hash(key), view.bits + 1), pos);
        used := used - 1;
        view := view.Without(key);
      }
    }

    method Delete(key: Bytes) returns (deleted: bool, ghost pos: nat)
      requires Valid()
      modifies Repr
      ensures Valid() && fresh(Repr - old(Repr))
      ensures view == old(view).Delete(key) && (deleted <==> old(view).Has(key))
      ensures deleted ==> newBuckets != null || used < size
      ensures old(newBuckets) != null ==> newBuckets != null
      ensures Dropped(old(primary), old(secondary), old(newBuckets) != null, primary, secondary, key, hash,
                      old(view).bits, pos) == true
      ensures !deleted ==> primary == old(primary) && secondary == old(secondary)
    {
      hide Table, Represents, Removed, HasKey, Slot, Store.Has, Store.Without, Store.ActivateIfNeeded;
      Lookup(primary, secondary, used, view, key);
      DeleteBalances(view, key);
      deleted, pos := DeletePrimary(key);
      if deleted {
        RehashActivateIfNeeded();
      } else if newBuckets != null {
        deleted, pos := DeleteSecondary(key);
        if deleted { Unneeded(view); }
      }
      HasRoom();
    }

    /** Moves the next bucket to the new table; all buckets may have been moved then. */
    method MoveNextBucket()
      requires Valid() && newBuckets != null
      modifies Repr
      ensures Sound() && Repr == old(Repr) && newBuckets != null
      ensures primary.nodes + secondary.nodes == old(primary.nodes + secondary.nodes)
      ensures secondary.at + primary.at == old(secondary.at + primary.at)
      ensures rehashIdx == old(rehashIdx) + 1 && size == old(size)
      ensures old(rehashIdx) < |old(primary.chains)| && primary.chains == old(primary.chains)[old(rehashIdx) := []]
      ensures view == Store(old(view).contents, old(view).bits, true, old(view).idx + 1)
    {
      hide Table, Represents, Apart;
      TableLength(buckets, primary, hash, view.bits);
      Full(primary, secondary, used, view);
      ghost var p, s := MoveBucket(buckets, rehashIdx, newBuckets, hash, newMask, primary, secondary, view.bits);
      MovedBucket(primary, secondary, used, view, p, s);
      primary, secondary, rehashIdx := p, s, rehashIdx + 1;
      view := Store(view.contents, view.bits, true, view.idx + 1);
    }

    /** Replaces the primary table, which holds nothing any more, by the new one. */
    method Complete()
      requires Sound() && newBuckets != null && rehashIdx == size
      modifies this
      ensures Valid() && Repr == old(Repr)
      ensures view == Store(old(view).contents, old(view).bits + 1, false, 0)
      ensures newBuckets == null && rehashIdx == 0 && size == 2 * old(size)
      ensures secondary.at + primary.at == old(secondary.at + primary.at)
    {
      hide Table, Represents, EmptyBelow;
      AllEmpty(primary, secondary, used, view);
      NoKeysLeft(buckets, primary, hash, view.bits);
      Completed(primary, secondary, used, view);
      buckets, size, mask := newBuckets, newSize, newMask;
      newBuckets, newSize, newMask, rehashIdx := null, 0, 0, 0;
      view := Store(view.contents, view.bits + 1, false, 0);
      primary, secondary := secondary, EmptyShadow(view.bits);
    }

    method RehashStep() returns (more: bool)
      requires Valid()
      modifies Repr
      ensures Valid() && Repr == old(Repr) && secondary.at + primary.at == old(secondary.at + primary.at)
      ensures view == old(view).RehashStep() && more == view.active
      ensures old(newBuckets) == null ==> !more && newBuckets == null && size == old(size)
      ensures old(newBuckets) != null ==> (more <==> old(rehashIdx) + 1 < old(size))
      ensures more ==> newBuckets != null && rehashIdx == old(rehashIdx) + 1 && size == old(size)
      ensures more ==>
                old(rehashIdx) < |old(primary.chains)| && primary.chains == old(primary.chains)[old(rehashIdx) := []]
      ensures old(newBuckets) != null && !more ==> newBuckets == null && rehashIdx == 0 && size == 2 * old(size)
    {
      hide Table, Represents;
      more := false;
      if newBuckets != null {
        MoveNextBucket();
        if rehashIdx >= size {
          Complete();
        } else {
          more := true;
        }
      }
    }

    static lemma AllEmpty(p: Shadow<V>, s: Shadow<V>, used: nat, v: Store<V>)
      requires Represents(p, s, used, v) == true
      ensures EmptyBelow(p, v.idx)
    {}

    /** Visits one bucket of the primary table. */
    method VisitPrimary(index: nat) returns (seen: seq<(Bytes, V)>)
      requires Valid() && index < size
      ensures index < |primary.chains| && EntriesOf(seen, primary, primary.chains[index])
      ensures Lists(primary.chains[index], primary, hash, view.bits, index)
    {
      hide Table, Represents;
      ChainKeys(buckets, primary, hash, view.bits, index);
      TableLength(buckets, primary, hash, view.bits);
      seen := VisitBucket(buckets, index, hash, primary, view.bits);
    }

    /** Visits one bucket of the new table. */
    method VisitSecondary(index: nat) returns (seen: seq<(Bytes, V)>)
      requires Valid() && newBuckets != null && index < newSize
      ensures index < |secondary.chains| && EntriesOf(seen, secondary, secondary.chains[index])
      ensures Lists(secondary.chains[index], secondary, hash, view.bits + 1, index)
    {
      hide Table, Represents;
      ChainKeys(newBuckets, secondary, hash, view.bits + 1, index);
      TableLength(newBuckets, secondary, hash, view.bits + 1);
      seen := VisitBucket(newBuckets, index, hash, secondary, view.bits + 1);
    }

    static lemma MaskKeeps(cursor: nat, k: nat)
      requires cursor < Pow2(k)
      ensures BitAnd(cursor, Pow2(k) - 1) == cursor
    {
      BitAndMask(cursor, k);
      SmallMod(cursor, Pow2(k));
    }

    ghost predicate InNew(entries: seq<(Bytes, V)>, index: nat)
      reads this
    {
      && index < |secondary.chains|
      && EntriesOf(entries, secondary, secondary.chains[index])
      && Lists(secondary.chains[index], secondary, hash, view.bits + 1, index)
    }

    lemma Masks()
      requires Valid() && newBuckets != null
      ensures size == Pow2(view.bits) && mask == size - 1
      ensures newSize == Pow2(view.bits + 1) == 2 * size && newMask == newSize - 1
    {}

    /** Visits the bucket of the cursor in the new table, that is, the two buckets that refine it. */
    method VisitRefined(cursor: nat)
      returns (next: nat, seen: seq<(Bytes, V)>, ghost low: seq<(Bytes, V)>, ghost high: seq<(Bytes, V)>)
      requires Valid() && newBuckets != null && cursor < size && view.bits < WIDTH
      ensures next == NextCursor(cursor, view.bits) && seen == low + high
      ensures InNew(low, cursor) && InNew(high, cursor + size)
    {
      hide Valid, Table, Represents, EntriesOf, Lists, NextCursor, BitAnd, Pow2;
      Masks();
      NextRefined(cursor, view.bits);
      NextInterval(cursor, view.bits, view.bits);
      next, seen, low, high := cursor, [], [], [];
      ghost var round := 0;
      var more := true;
      while more
        invariant 0 <= round <= 2 && more == (round < 2)
        invariant next == if round == 0 then cursor else if round == 1 then cursor + size
                  else NextCursor(cursor, view.bits)
        invariant seen == if round == 0 then [] else if round == 1 then low else low + high
        invariant round > 0 ==> InNew(low, cursor)
        invariant round > 1 ==> InNew(high, cursor + size)
        decreases 2 - round
      {
        MaskKeeps(next, view.bits + 1);
        var entries := VisitSecondary(BitAnd(next, newMask));
        seen := seen + entries;
        if round == 0 { low := entries; } else { high := entries; }
        next := Advance(next, newMask, view.bits + 1);
        more := InUpperHalf(next, mask, newMask, view.bits);
        round := round + 1;
      }
    }

    /** One scan call: the entries it reports, and the cursor for the next call. */
    method Scan(cursor: nat) returns (next: nat, seen: seq<(Bytes, V)>)
      requires Valid() && view.bits < WIDTH
      ensures cursor > Pow2(view.bits) ==> next == Pow2(WIDTH) - 1 && seen == []
      ensures cursor == Pow2(view.bits) ==> next == 0 && seen == []
      ensures cursor < Pow2(view.bits) ==> next == NextCursor(cursor, view.bits) && view.Reports(hash, cursor, seen)
    {
      hide Table, Represents, Store.Reports, EntriesOf, Lists, NextCursor, BitAnd;
      if cursor > size { return Pow2(WIDTH) - 1, []; }
      if cursor == size { return 0, []; }
      MaskKeeps(cursor, view.bits);
      seen := VisitPrimary(BitAnd(cursor, mask));
      if newBuckets == null {
        next := Advance(cursor, mask, view.bits);
        ReportsPlain(primary, secondary, used, view, hash, cursor, primary.chains[cursor], seen);
      } else {
        var first := seen;
        var entries;
        ghost var low, high;
        next, entries, low, high := VisitRefined(cursor);
        seen := first + entries;
        assert first + (low + high) == first + low + high;
        ReportsRehash(primary, secondary, used, view, hash, cursor, primary.chains[cursor], secondary.chains[cursor],
                      secondary.chains[cursor + size], first, low, high);
      }
    }

    /** A burst of rehash steps; clock(i) is the i-th reading of the clock in the burst. */
    method IncrementalRehashing(threshold: nat, clock: nat -> nat) returns (elapsed: int, ghost steps: nat)
      requires Valid()
      modifies Repr
      ensures Valid() && fresh(Repr - old(Repr))
      ensures view == old(view).ActivateIfNeeded().Steps(steps)
      ensures steps > 0
      ensures forall i | 1 <= i < steps :: clock(0) + threshold <= clock(i)
      ensures view.active ==> clock(steps) < clock(0) + threshold
      ensures elapsed == clock(if view.active then steps else steps - 1) - clock(0)
    {
      hide Valid, Store.ActivateIfNeeded, Store.RehashStep, Table, Represents;
      RehashActivateIfNeeded();
      ghost var activated := view;
      var start := clock(0);
      var now, timelimit, reading := start, start + threshold, 1;
      var more := RehashStep();
      steps := 1;
      while more
        invariant Valid() && fresh(Repr - old(Repr))
        invariant view == activated.Steps(steps) && steps > 0
        invariant more ==> view.active && rehashIdx < size && reading == steps
        invariant now == clock(if view.active && !more then steps else steps - 1)
        invariant forall i | 1 <= i < steps :: timelimit <= clock(i)
        invariant view.active && !more ==> clock(steps) < timelimit
        decreases more, size - rehashIdx
      {
        now := clock(reading);
        reading := reading + 1;
        if timelimit > now {
          more := false;
        } else {
          more := RehashStep();
          steps := steps + 1;
        }
      }
      elapsed := now - start;
    }
  }
}
