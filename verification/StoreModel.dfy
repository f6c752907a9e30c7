/** What the key-value store does, seen from outside: a finite map, a table size and the progress of a rehash. */
module StoreModel {
  import opened Words
  import opened Cursor

  type Byte = b: int | 0 <= b < 256
  type Bytes = seq<Byte>
  type Hash = Bytes -> nat

  datatype Option<+T> = None | Some(value: T)

  // The primary table has 2^bits buckets; while a rehash is active, its first idx buckets have been moved.
  datatype Store<V> = Store(contents: map<Bytes, V>, bits: nat, active: bool, idx: nat) {
    ghost predicate Ok() {
      if active then idx < Pow2(bits) else idx == 0
    }

    predicate Has(key: Bytes) {
      key in contents
    }

    function Get(key: Bytes): Option<V> {
      if key in contents then Some(contents[key]) else None
    }

    /** The table has room, or a rehash into a larger one is under way. */
    predicate Balanced() {
      active || |contents| < Pow2(bits)
    }

    function ActivateIfNeeded(): Store<V> {
      if Balanced() then this else Store(contents, bits, true, 0)
    }

    function With(key: Bytes, value: V): Store<V> {
      Store(contents[key := value], bits, active, idx)
    }

    function Without(key: Bytes): Store<V> {
      Store(contents - {key}, bits, active, idx)
    }

    function Put(key: Bytes, value: V): Store<V> {
      if Has(key) then With(key, value) else With(key, value).ActivateIfNeeded()
    }

    function Delete(key: Bytes): Store<V> {
      if Has(key) then Without(key).ActivateIfNeeded() else this
    }

    function RehashStep(): Store<V> {
      if !active then this
      else if idx + 1 >= Pow2(bits) then Store(contents, bits + 1, false, 0)
      else Store(contents, bits, active, idx + 1)
    }

    function Steps(n: nat): Store<V> {
      if n == 0 then this else Steps(n - 1).RehashStep()
    }

    /** The keys that a scan call with this cursor reports. */
    function Bucket(hash: Hash, cursor: nat): set<Bytes> {
      set k | k in contents && Slot(hash(k), bits) == cursor
    }

    /** The reported entries are those of the bucket, each of them once. */
    ghost predicate Reports(hash: Hash, cursor: nat, seen: seq<(Bytes, V)>) {
      && (forall i, j | 0 <= i < j < |seen| :: seen[i].0 != seen[j].0)
      && (forall i | 0 <= i < |seen| :: Get(seen[i].0) == Some(seen[i].1))
      && (forall k :: k in Bucket(hash, cursor) <==> exists i :: 0 <= i < |seen| && seen[i].0 == k)
    }
  }

  function KeysOf<V>(seen: seq<(Bytes, V)>): seq<Bytes> {
    seq(|seen|, i requires 0 <= i < |seen| => seen[i].0)
  }

  lemma {:induction false} DistinctMultiset(keys: seq<Bytes>, all: set<Bytes>)
    requires forall i, j | 0 <= i < j < |keys| :: keys[i] != keys[j]
    requires forall k :: k in all <==> k in keys
    ensures multiset(keys) == multiset(all)
  {
    if keys == [] {
      assert all == {};
    } else {
      var init, last := keys[..|keys| - 1], keys[|keys| - 1];
      assert keys == init + [last];
      forall k ensures k in all - {last} <==> k in init {}
      DistinctMultiset(init, all - {last});
      assert all == all - {last} + {last};
      assert multiset(all) == multiset(all - {last}) + multiset{last};
    }
  }

  /** The keys that a scan call reports, with their multiplicity, are those of the bucket. */
  lemma ReportedKeys<V>(s: Store<V>, hash: Hash, cursor: nat, seen: seq<(Bytes, V)>)
    requires s.Reports(hash, cursor, seen)
    ensures multiset(KeysOf(seen)) == multiset(s.Bucket(hash, cursor))
  {
    hide Slot;
    var keys, all := KeysOf(seen), s.Bucket(hash, cursor);
    forall k ensures k in all <==> k in keys {
      if k in all {
        var i :| 0 <= i < |seen| && seen[i].0 == k;
        assert keys[i] == k;
      }
      if k in keys {
        var i :| 0 <= i < |keys| && keys[i] == k;
        assert seen[i].0 == k;
      }
    }
    DistinctMultiset(keys, all);
  }

  /** Rehashing never changes the map, and the table only grows. */
  lemma {:induction false} StepsKeepMap<V>(s: Store<V>, n: nat)
    ensures s.Steps(n).contents == s.contents && s.bits <= s.Steps(n).bits
  {
    if n > 0 { StepsKeepMap(s, n - 1); }
  }

  /** A rehash moves one bucket at a step: after n steps it has moved n more, until the last bucket completes it. */
  lemma {:induction false} StepsProgress<V>(s: Store<V>, n: nat)
    requires s.active && s.idx + n <= Pow2(s.bits) && n > 0
    ensures s.Steps(n) == if s.idx + n < Pow2(s.bits) then Store(s.contents, s.bits, true, s.idx + n)
                          else Store(s.contents, s.bits + 1, false, 0)
  {
    if n > 1 { StepsProgress(s, n - 1); }
  }

  /** After every insertion, the table has room or is being rehashed. */
  lemma PutBalances<V>(s: Store<V>, key: Bytes, value: V)
    ensures !s.Has(key) ==> s.Put(key, value).Balanced()
  {}

  /** And after every successful deletion. */
  lemma DeleteBalances<V>(s: Store<V>, key: Bytes)
    ensures s.Has(key) ==> s.Delete(key).Balanced()
  {}
}
