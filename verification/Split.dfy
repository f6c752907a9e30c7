/** How the two tables of a store, and its counters, represent one finite map in every state of a rehash. */
module Split {
  import opened Words
  import opened Cursor
  import opened StoreModel
  import opened Buckets
  import opened Tables

  // A map split in two.
  ghost predicate Joined<V>(m: map<Bytes, V>, a: map<Bytes, V>, b: map<Bytes, V>) {
    m == a + b && a.Keys !! b.Keys
  }

  // The map is the disjoint union of the two tables, `used` is its size, and the buckets below idx have been emptied.
  // (Below, this and Table are compared with `true` so that the solver takes each as a single fact.)
  ghost predicate Represents<V>(p: Shadow<V>, s: Shadow<V>, used: nat, v: Store<V>) {
    && Joined(v.contents, p.contents, s.contents)
    && used == |v.contents|
    && EmptyBelow(p, v.idx)
    && (!v.active ==> s.contents == map[])
  }

  lemma JoinedUpdate<V>(m: map<Bytes, V>, a: map<Bytes, V>, b: map<Bytes, V>, key: Bytes, value: V)
    requires Joined(m, a, b)
    ensures key !in b ==> Joined(m[key := value], a[key := value], b)
    ensures key !in a ==> Joined(m[key := value], a, b[key := value])
  {}

  lemma JoinedRemove<V>(m: map<Bytes, V>, a: map<Bytes, V>, b: map<Bytes, V>, key: Bytes)
    requires Joined(m, a, b)
    ensures key in a ==> key in m && Joined(m - {key}, a - {key}, b)
    ensures key in b ==> key in m && Joined(m - {key}, a, b - {key})
  {}

  lemma JoinedMove<V>(m: map<Bytes, V>, a: map<Bytes, V>, b: map<Bytes, V>, c: seq<Bytes>)
    requires Joined(m, a, b)
    ensures Joined(m, Outside(a, c), b + Inside(a, c))
  {}

  lemma SizeUpdate<V>(m: map<Bytes, V>, key: Bytes, value: V)
    ensures |m[key := value]| == if key in m then |m| else |m| + 1
  {
    assert m[key := value].Keys == m.Keys + {key};
  }

  lemma SizeRemove<V>(m: map<Bytes, V>, key: Bytes)
    requires key in m
    ensures |m - {key}| == |m| - 1
  {
    assert (m - {key}).Keys == m.Keys - {key};
  }

  lemma Start<V>(bits: nat)
    ensures Represents(EmptyShadow<V>(bits), EmptyShadow<V>(bits), 0, Store(map[], bits, false, 0)) == true
  {}

  lemma Lookup<V>(p: Shadow<V>, s: Shadow<V>, used: nat, v: Store<V>, key: Bytes)
    requires Represents(p, s, used, v) == true
    ensures v.Has(key) <==> HasKey(p, key) || HasKey(s, key)
    ensures !HasKey(p, key) || !HasKey(s, key)
    ensures !v.active ==> !HasKey(s, key)
    ensures !v.Has(key) ==> v.Get(key) == None
  {}

  lemma CountNodes<V>(p: Shadow<V>, s: Shadow<V>, used: nat, v: Store<V>)
    requires Represents(p, s, used, v) == true && p.at.Keys == p.contents.Keys && s.at.Keys == s.contents.Keys
    ensures used == |v.contents.Keys| == |p.at.Keys| + |s.at.Keys|
    ensures forall k :: v.Has(k) <==> (k in p.at) != (k in s.at)
  {
    assert v.contents.Keys == p.at.Keys + s.at.Keys;
  }

  lemma CountPlain<V>(p: Shadow<V>, s: Shadow<V>, used: nat, v: Store<V>)
    requires Represents(p, s, used, v) == true && !v.active && p.at.Keys == p.contents.Keys
    ensures used == |p.at.Keys| && forall k :: v.Has(k) <==> k in p.at
  {
    assert v.contents.Keys == p.at.Keys;
  }

  lemma Value<V>(p: Shadow<V>, s: Shadow<V>, used: nat, v: Store<V>, key: Bytes, value: V)
    requires Represents(p, s, used, v) == true
    requires Holds(p, key, value) || Holds(s, key, value)
    ensures v.Has(key) && v.Get(key) == Some(value)
  {}

  lemma Full<V>(p: Shadow<V>, s: Shadow<V>, used: nat, v: Store<V>)
    requires Represents(p, s, used, v) == true
    ensures v.Balanced() <==> v.active || used < Pow2(v.bits)
    ensures Apart(p, s)
  {}

  lemma Activated<V>(p: Shadow<V>, s: Shadow<V>, used: nat, v: Store<V>)
    requires Represents(p, s, used, v) == true && !v.Balanced()
    ensures Represents(p, EmptyShadow<V>(v.bits + 1), used, v.ActivateIfNeeded()) == true
    ensures v.ActivateIfNeeded().bits == v.bits && v.ActivateIfNeeded().active && v.ActivateIfNeeded().idx == 0
  {}

  lemma UpdatedKey<V>(p: Shadow<V>, s: Shadow<V>, used: nat, v: Store<V>, p': Shadow<V>, s': Shadow<V>, key: Bytes,
                      value: V)
    requires Represents(p, s, used, v) == true
    requires (s' == s && Updated(p, p', key, value) && !HasKey(s, key) && (p'.chains == p.chains || v.idx == 0))
          || (p' == p && Updated(s, s', key, value) && !HasKey(p, key) && v.active)
    ensures Represents(p', s', if v.Has(key) then used else used + 1, v.With(key, value)) == true
    ensures v.With(key, value).bits == v.bits && v.With(key, value).active == v.active
    ensures v.With(key, value).idx == v.idx
  {
    hide Joined;
    JoinedUpdate(v.contents, p.contents, s.contents, key, value);
    SizeUpdate(v.contents, key, value);
  }

  lemma RemovedKey<V>(p: Shadow<V>, s: Shadow<V>, used: nat, v: Store<V>, p': Shadow<V>, s': Shadow<V>, key: Bytes,
                      i: nat, pos: nat)
    requires Represents(p, s, used, v) == true
    requires (s' == s && Removed(p, p', key, i, pos)) || (p' == p && v.active && Removed(s, s', key, i, pos))
    ensures used > 0 && Represents(p', s', used - 1, v.Without(key)) == true
    ensures v.Without(key).bits == v.bits && v.Without(key).active == v.active && v.Without(key).idx == v.idx
  {
    hide Joined;
    JoinedRemove(v.contents, p.contents, s.contents, key);
    SizeRemove(v.contents, key);
  }

  lemma MovedBucket<V>(p: Shadow<V>, s: Shadow<V>, used: nat, v: Store<V>, p': Shadow<V>, s': Shadow<V>)
    requires Represents(p, s, used, v) == true && v.active
    requires Moved(p, s, p', s', v.idx)
    ensures Represents(p', s', used, Store(v.contents, v.bits, true, v.idx + 1)) == true
  {
    hide Joined;
    JoinedMove(v.contents, p.contents, s.contents, p.chains[v.idx]);
  }

  lemma Completed<V>(p: Shadow<V>, s: Shadow<V>, used: nat, v: Store<V>)
    requires Represents(p, s, used, v) == true && p.contents == map[]
    ensures Represents(s, EmptyShadow<V>(v.bits + 1), used, Store(v.contents, v.bits + 1, false, 0)) == true
  {}

  // ---------- what a scan call sees ----------

  // The entries of the listed keys, with the values of the map.
  ghost predicate EntriesOf<V>(seen: seq<(Bytes, V)>, g: Shadow<V>, c: seq<Bytes>) {
    |seen| == |c| && forall j | 0 <= j < |c| :: seen[j].0 == c[j] && Holds(g, c[j], seen[j].1)
  }

  // c lists the keys of one bucket of a table of 2^bits buckets, each once.
  ghost predicate Lists<V>(c: seq<Bytes>, g: Shadow<V>, hash: Hash, bits: nat, i: nat) {
    Distinct(c) && forall k :: k in c <==> HasKey(g, k) && Slot(hash(k), bits) == i
  }

  // The entries carry the keys c and their values in the map.
  ghost predicate Pairs<V>(v: Store<V>, c: seq<Bytes>, seen: seq<(Bytes, V)>) {
    |seen| == |c| && forall j | 0 <= j < |c| :: seen[j].0 == c[j] && v.Get(c[j]) == Some(seen[j].1)
  }

  lemma EntriesPair<V>(p: Shadow<V>, s: Shadow<V>, used: nat, v: Store<V>, c: seq<Bytes>, seen: seq<(Bytes, V)>)
    requires Represents(p, s, used, v) == true
    requires EntriesOf(seen, p, c) || EntriesOf(seen, s, c)
    ensures Pairs(v, c, seen)
  {}

  lemma PairsConcat<V>(v: Store<V>, c: seq<Bytes>, seen: seq<(Bytes, V)>, c': seq<Bytes>, seen': seq<(Bytes, V)>)
    requires Pairs(v, c, seen) && Pairs(v, c', seen')
    ensures Pairs(v, c + c', seen + seen')
  {}

  lemma PairsReport<V>(v: Store<V>, hash: Hash, cursor: nat, c: seq<Bytes>, seen: seq<(Bytes, V)>)
    requires Pairs(v, c, seen) && Distinct(c)
    requires forall k :: k in c <==> v.Has(k) && Slot(hash(k), v.bits) == cursor
    ensures v.Reports(hash, cursor, seen)
  {
    hide Slot;
    forall k | k in v.Bucket(hash, cursor) ensures exists i :: 0 <= i < |seen| && seen[i].0 == k {
      var i :| 0 <= i < |c| && c[i] == k;
      assert seen[i].0 == k;
    }
  }

  lemma ReportsPlain<V>(p: Shadow<V>, s: Shadow<V>, used: nat, v: Store<V>, hash: Hash, cursor: nat,
                        c: seq<Bytes>, seen: seq<(Bytes, V)>)
    requires Represents(p, s, used, v) == true && !v.active
    requires Lists(c, p, hash, v.bits, cursor) && EntriesOf(seen, p, c)
    ensures v.Reports(hash, cursor, seen)
  {
    hide Slot, Represents, Store.Has, Store.Reports, Pairs;
    EntriesPair(p, s, used, v, c, seen);
    forall k ensures k in c <==> v.Has(k) && Slot(hash(k), v.bits) == cursor {
      Lookup(p, s, used, v, k);
    }
    PairsReport(v, hash, cursor, c, seen);
  }

  /** While a rehash is active, a bucket of the primary table and the two buckets that refine it in the new table
      together hold the keys of the bucket, each once. */
  lemma ReportsRehash<V>(p: Shadow<V>, s: Shadow<V>, used: nat, v: Store<V>, hash: Hash, cursor: nat,
                         c: seq<Bytes>, c0: seq<Bytes>, c1: seq<Bytes>,
                         seen: seq<(Bytes, V)>, seen0: seq<(Bytes, V)>, seen1: seq<(Bytes, V)>)
    requires Represents(p, s, used, v) == true && cursor < Pow2(v.bits)
    requires Lists(c, p, hash, v.bits, cursor) && EntriesOf(seen, p, c)
    requires Lists(c0, s, hash, v.bits + 1, cursor) && EntriesOf(seen0, s, c0)
    requires Lists(c1, s, hash, v.bits + 1, cursor + Pow2(v.bits)) && EntriesOf(seen1, s, c1)
    ensures v.Reports(hash, cursor, seen + seen0 + seen1)
  {
    hide Slot, Represents, Store.Has, Store.Reports, Distinct, EntriesOf, Pairs, HasKey;
    EntriesPair(p, s, used, v, c, seen);
    EntriesPair(p, s, used, v, c0, seen0);
    EntriesPair(p, s, used, v, c1, seen1);
    PairsConcat(v, c, seen, c0, seen0);
    PairsConcat(v, c + c0, seen + seen0, c1, seen1);
    ThreeChains(p, s, used, v, hash, cursor, c, c0, c1);
    PairsReport(v, hash, cursor, c + c0 + c1, seen + seen0 + seen1);
  }

  lemma ThreeChains<V>(p: Shadow<V>, s: Shadow<V>, used: nat, v: Store<V>, hash: Hash, cursor: nat,
                       c: seq<Bytes>, c0: seq<Bytes>, c1: seq<Bytes>)
    requires Represents(p, s, used, v) == true && cursor < Pow2(v.bits)
    requires Lists(c, p, hash, v.bits, cursor) && Lists(c0, s, hash, v.bits + 1, cursor)
    requires Lists(c1, s, hash, v.bits + 1, cursor + Pow2(v.bits))
    ensures Distinct(c + c0 + c1)
    ensures forall k :: k in c + c0 + c1 <==> v.Has(k) && Slot(hash(k), v.bits) == cursor
  {
    hide Slot, Represents, Store.Has, Distinct, HasKey;
    forall k ensures k in c + c0 + c1 <==> v.Has(k) && Slot(hash(k), v.bits) == cursor {
      InOneOfThree(k, c, c0, c1);
      SlotRefined(hash(k), v.bits);
      SlotBelow(hash(k), v.bits);
      Lookup(p, s, used, v, k);
    }
    forall k ensures !(k in c && k in c0) && !(k in c && k in c1) && !(k in c0 && k in c1) {
      Lookup(p, s, used, v, k);
    }
    DistinctConcat(c, c0);
    DistinctConcat(c + c0, c1);
  }

  lemma SlotBelow(h: nat, bits: nat)
    ensures Slot(h, bits) < Pow2(bits)
  {}

  lemma InOneOfThree(k: Bytes, a: seq<Bytes>, b: seq<Bytes>, c: seq<Bytes>)
    ensures k in a + b + c <==> k in a || k in b || k in c
  {}

  lemma DistinctConcat(a: seq<Bytes>, b: seq<Bytes>)
    requires Distinct(a) && Distinct(b) && forall k | k in b :: k !in a
    ensures Distinct(a + b)
  {
    var c := a + b;
    forall i, j | 0 <= i < j < |c| ensures c[i] != c[j] {
      if i < |a| <= j {
        assert c[i] in a && c[j] == b[j - |a|];
      }
    }
  }
}
