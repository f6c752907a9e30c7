/** The server's two tables, the commands on them and the cron job. */
module Server {
  import opened Words
  import opened Cursor
  import opened StoreModel
  import opened Buckets
  import opened Tables
  import opened Split
  import opened KVStores
  import opened TimedModel
  import Expiry

  // The keys of a chain whose deadline has passed, in the order of the chain.
  function DueIn(c: seq<Bytes>, expire: Store<nat>, now: nat): seq<Bytes> {
    if c == [] then [] else
      var key := c[|c| - 1];
      DueIn(c[..|c| - 1], expire, now) + (if IsDue(expire, key, now) then [key] else [])
  }

  lemma {:induction false} DueInMeaning(c: seq<Bytes>, expire: Store<nat>, now: nat)
    requires Distinct(c)
    ensures Distinct(DueIn(c, expire, now))
    ensures forall k :: k in DueIn(c, expire, now) <==> k in c && IsDue(expire, k, now)
  {
    hide IsDue;
    if c != [] {
      var init, key := c[..|c| - 1], c[|c| - 1];
      assert c == init + [key];
      DueInMeaning(init, expire, now);
      DistinctConcat(DueIn(init, expire, now), if IsDue(expire, key, now) then [key] else []);
    }
  }

  lemma {:induction false} DueInConcat(a: seq<Bytes>, b: seq<Bytes>, expire: Store<nat>, now: nat)
    ensures DueIn(a + b, expire, now) == DueIn(a, expire, now) + DueIn(b, expire, now)
  {
    if b == [] {
      assert a + b == a;
    } else {
      assert (a + b)[..|a + b| - 1] == a + b[..|b| - 1];
      DueInConcat(a, b[..|b| - 1], expire, now);
    }
  }

  lemma {:induction false} DueInSame(c: seq<Bytes>, expire: Store<nat>, expire': Store<nat>, now: nat)
    requires forall k | k in c :: expire.Get(k) == expire'.Get(k)
    ensures DueIn(c, expire, now) == DueIn(c, expire', now)
  {
    if c != [] { DueInSame(c[..|c| - 1], expire, expire', now); }
  }

  const CRON_HZ: nat := 5
  const ACTIVE_EXPIRY_TIME_PERCENT: nat := 25
  const REHASHING_TIME_THRESHOLD: nat := 1

  class Server {
    const hash: Hash
    const kvstore: KVStore<Bytes>
    const expire: KVStore<nat>
    var cursor: nat

    ghost function View(): Db
      reads this, kvstore, expire
    {
      Db(kvstore.view, expire.view, cursor)
    }

    ghost predicate Valid()
      reads this, kvstore, expire, kvstore.Repr, expire.Repr
    {
      && Separate()
      && cursor < Pow2(expire.view.bits)
      && View().Consistent() == true
    }

    // The two stores are in order and share nothing.
    ghost predicate Separate()
      reads this, kvstore, expire, kvstore.Repr, expire.Repr
    {
      && kvstore.Repr !! expire.Repr && this !in kvstore.Repr && this !in expire.Repr
      && kvstore.Valid() == true && expire.Valid() == true && expire.hash == hash
    }

    constructor (hash: Hash)
      ensures Valid() && fresh(kvstore.Repr) && fresh(expire.Repr)
      ensures View() == Db(Store(map[], 2, false, 0), Store(map[], 2, false, 0), 0)
    {
      hide KVStore.Valid, Db.Consistent, Pow2;
      FourBuckets();
      this.hash := hash;
      kvstore := new KVStore(hash, 2, 4);
      expire := new KVStore(hash, 2, 4);
      cursor := 0;
      EmptyConsistent();
    }

    static lemma FourBuckets()
      ensures Pow2(2) == 4
    {}

    static lemma EmptyConsistent()
      ensures Db(Store(map[], 2, false, 0), Store(map[], 2, false, 0), 0).Consistent()
    {}

    method RemoveExpireTime(key: Bytes)
      requires Separate()
      modifies expire.Repr
      ensures Separate() && fresh(expire.Repr - old(expire.Repr))
      ensures expire.view == old(expire.view).Delete(key)
    {
      hide KVStore.Valid, Store.Delete;
      var _, _ := expire.Delete(key);
    }

    method SetExpireTime(key: Bytes, timeout: nat, now: nat)
      requires Separate()
      modifies expire.Repr
      ensures Separate() && fresh(expire.Repr - old(expire.Repr))
      ensures expire.view == old(expire.view).Put(key, now + timeout)
    {
      hide KVStore.Valid, Store.Put;
      expire.Put(key, now + timeout);
    }

    method IsExpired(key: Bytes, now: nat) returns (expired: bool)
      requires Separate()
      ensures expired == View().Expired(key, now)
    {
      hide KVStore.Valid, Store.Get;
      var when := expire.Get(key);
      expired := when.Some? && now > when.value;
    }

    method Set(key: Bytes, value: Bytes, ex: Option<nat>, now: nat)
      requires Valid()
      modifies kvstore.Repr, expire.Repr
      ensures Valid() && fresh(kvstore.Repr - old(kvstore.Repr)) && fresh(expire.Repr - old(expire.Repr))
      ensures View() == Next(old(View()), Event(now, TimedModel.Set(key, value, ex)))
    {
      hide KVStore.Valid, Store.Put, Db.Consistent;
      StaysValid(View(), Event(now, TimedModel.Set(key, value, ex)));
      kvstore.Put(key, value);
      if ex.Some? {
        SetExpireTime(key, ex.value * 1000, now);
      }
    }

    // What Valid says about the view is kept by every event.
    static lemma StaysValid(db: Db, e: Event)
      requires db.Consistent() && db.cursor < Pow2(db.expire.bits) && !e.op.Expire?
      ensures Next(db, e).Consistent() && Next(db, e).cursor < Pow2(Next(db, e).expire.bits)
    {
      hide Next;
      StaysConsistent(db, e);
      NextGet(db, e, []);
      PowMonotone(db.expire.bits, Next(db, e).expire.bits);
    }

    method Get(key: Bytes, now: nat) returns (value: Option<Bytes>)
      requires Valid()
      modifies kvstore.Repr, expire.Repr
      ensures Valid() && fresh(kvstore.Repr - old(kvstore.Repr)) && fresh(expire.Repr - old(expire.Repr))
      ensures View() == Next(old(View()), Event(now, TimedModel.Get(key)))
      ensures value == old(View()).GetReply(key, now)
    {
      hide KVStore.Valid, Store.Delete, Store.Get, Store.Has, Db.Consistent;
      StaysValid(View(), Event(now, TimedModel.Get(key)));
      HasGet(kvstore.view, key);
      value := kvstore.Get(key);
      if value.Some? {
        var expired := IsExpired(key, now);
        if expired {
          RemoveExpireTime(key);
          var _, _ := kvstore.Delete(key);
          value := None;
        }
      }
    }

    method Exists(key: Bytes) returns (found: bool)
      requires Valid()
      ensures found == View().data.Has(key)
    {
      hide KVStore.Valid;
      var value := kvstore.Get(key);
      found := value.Some?;
    }

    method Del(key: Bytes, now: nat) returns (deleted: bool)
      requires Valid()
      modifies kvstore.Repr, expire.Repr
      ensures Valid() && fresh(kvstore.Repr - old(kvstore.Repr)) && fresh(expire.Repr - old(expire.Repr))
      ensures View() == Next(old(View()), Event(now, TimedModel.Del(key)))
      ensures deleted == old(View()).data.Has(key)
    {
      hide KVStore.Valid, Store.Delete, Store.Has, Db.Consistent;
      StaysValid(View(), Event(now, TimedModel.Del(key)));
      ghost var pos;
      deleted, pos := kvstore.Delete(key);
      RemoveExpireTime(key);
    }

    // ---------- active expiry ----------

    // One of the two tables of the deadline store.
    ghost function Side(inNew: bool): Shadow<nat>
      reads expire
    {
      if inNew then expire.secondary else expire.primary
    }

    /** The callback of the active-expiry scan on the entry at position pos of a chain; `next` is the node after it. */
    method ActiveExpiryCallback(key: Bytes, when: nat, now: nat, ghost inNew: bool, ghost index: nat, ghost pos: nat,
                                next: Node?<nat>)
      requires Separate() && (inNew ==> expire.newBuckets != null)
      requires index < |Side(inNew).chains| && pos < |Side(inNew).chains[index]|
      requires Side(inNew).chains[index][pos] == key
      requires Points(Side(inNew), index, pos + 1, next) && Holds(Side(inNew), key, when)
      modifies kvstore.Repr, expire.Repr
      ensures Separate() && fresh(kvstore.Repr - old(kvstore.Repr)) && fresh(expire.Repr - old(expire.Repr))
      ensures View() == if now > when then old(View()).Remove(key) else old(View())
      ensures old(View()).Consistent() ==> View().Consistent()
      ensures inNew ==> expire.newBuckets != null
      ensures old(expire.newBuckets) != null ==> expire.newBuckets != null && Side(!inNew) == old(Side(!inNew))
      ensures if now > when then
                Points(Side(inNew), index, pos, next) &&
                Side(inNew).chains == Without(old(Side(inNew)).chains, index, pos)
              else Side(inNew) == old(Side(inNew))
    {
      hide KVStore.Valid, Store.Delete, Table, Points, Removed, Placed, Db.Consistent;
      if now <= when { return; }
      ghost var db := View();
      if db.Consistent() { StaysConsistent(db, Event(now, TimedModel.Del(key))); }
      ghost var g, bits := Side(inNew), if inNew then expire.view.bits + 1 else expire.view.bits;
      TableInOrder(inNew);
      var _, _ := kvstore.Delete(key);
      var _, j := expire.Delete(key);
      PointsAfterRemoval(g, Side(inNew), key, hash, bits, index, pos, j, next);
    }

    lemma TableInOrder(inNew: bool)
      requires Separate() && (inNew ==> expire.newBuckets != null)
      ensures Placed(Side(inNew).chains, Side(inNew).at.Keys, hash,
                     if inNew then expire.view.bits + 1 else expire.view.bits)
    {}

    /** Runs the callback on every entry of one bucket of the deadline store. */
    method ExpireChain(inNew: bool, index: nat, now: nat) returns (ghost gone: seq<Bytes>)
      requires Separate() && (inNew ==> expire.newBuckets != null)
      requires index < if inNew then expire.newSize else expire.size
      modifies kvstore.Repr, expire.Repr
      ensures Separate() && fresh(kvstore.Repr - old(kvstore.Repr)) && fresh(expire.Repr - old(expire.Repr))
      ensures index < |old(Side(inNew)).chains| && gone == DueIn(old(Side(inNew)).chains[index], old(expire.view), now)
      ensures View() == old(View()).RemoveAll(gone)
      ensures old(expire.newBuckets) != null ==> expire.newBuckets != null && Side(!inNew) == old(Side(!inNew))
      ensures |Side(inNew).chains| == |old(Side(inNew)).chains|
      ensures forall p | 0 <= p < |Side(inNew).chains| && p != index ::
                Side(inNew).chains[p] == old(Side(inNew)).chains[p]
    {
      hide KVStore.Valid, Table, Points, Placed, Db.RemoveAll, Db.Remove, Holds, DueIn, Store.Get, Represents;
      ChainStart(inNew, index);
      ghost var db, c, done: nat, pos: nat := View(), Side(inNew).chains[index], 0, 0;
      var current := if inNew then expire.newBuckets[index] else expire.buckets[index];
      gone := [];
      NoneDue(db, c, now);
      while current != null
        invariant Separate() && fresh(kvstore.Repr - old(kvstore.Repr)) && fresh(expire.Repr - old(expire.Repr))
        invariant inNew ==> expire.newBuckets != null
        invariant old(expire.newBuckets) != null ==> expire.newBuckets != null && Side(!inNew) == old(Side(!inNew))
        invariant |Side(inNew).chains| == |old(Side(inNew)).chains|
        invariant forall p | 0 <= p < |Side(inNew).chains| && p != index ::
                    Side(inNew).chains[p] == old(Side(inNew)).chains[p]
        invariant Points(Side(inNew), index, pos, current)
        invariant done <= |c| && pos <= |Side(inNew).chains[index]| && Side(inNew).chains[index][pos..] == c[done..]
        invariant View() == db.RemoveAll(gone) && gone == DueIn(c[..done], db.expire, now)
        decreases |c| - done
      {
        EntryAt(inNew, index, pos, current);
        var key, when, next := current.key, current.value, current.next;
        ghost var chain := Side(inNew).chains[index];
        assert key == chain[pos..][0] == c[done];
        RemoveAllGet(db, gone, key);
        OneMoreDue(db, c, done, now);
        DropAt(chain, pos);
        ActiveExpiryCallback(key, when, now, inNew, index, pos, next);
        if now > when { gone := gone + [key]; } else { pos := pos + 1; }
        current, done := next, done + 1;
      }
      EntryAt(inNew, index, pos, current);
      assert c[..done] == c;
    }

    static lemma DropAt(chain: seq<Bytes>, pos: nat)
      requires pos < |chain|
      ensures (chain[..pos] + chain[pos + 1..])[pos..] == chain[pos + 1..] == chain[pos..][1..]
    {}

    static lemma NoneDue(db: Db, c: seq<Bytes>, now: nat)
      ensures db.RemoveAll([]) == db && DueIn(c[..0], db.expire, now) == []
    {}

    static lemma OneMoreDue(db: Db, c: seq<Bytes>, done: nat, now: nat)
      requires done < |c|
      ensures var gone, key := DueIn(c[..done], db.expire, now), c[done];
              && DueIn(c[..done + 1], db.expire, now) == gone + (if IsDue(db.expire, key, now) then [key] else [])
              && db.RemoveAll(gone + [key]) == db.RemoveAll(gone).Remove(key)
    {
      var gone, key := DueIn(c[..done], db.expire, now), c[done];
      assert c[..done + 1][..done] == c[..done];
      assert (gone + [key])[..|gone|] == gone;
    }

    lemma ChainStart(inNew: bool, index: nat)
      requires Separate() && (inNew ==> expire.newBuckets != null)
      requires index < if inNew then expire.newSize else expire.size
      ensures index < |Side(inNew).chains|
      ensures if inNew then index < expire.newBuckets.Length && Points(Side(inNew), index, 0, expire.newBuckets[index])
                       else index < expire.buckets.Length && Points(Side(inNew), index, 0, expire.buckets[index])
    {
      hide Table, Represents, Points;
      if inNew {
        PointsStart(expire.newBuckets, expire.secondary, hash, expire.view.bits + 1, index);
        TableLength(expire.newBuckets, expire.secondary, hash, expire.view.bits + 1);
      } else {
        PointsStart(expire.buckets, expire.primary, hash, expire.view.bits, index);
        TableLength(expire.buckets, expire.primary, hash, expire.view.bits);
      }
    }

    lemma EntryAt(inNew: bool, index: nat, pos: nat, node: Node?<nat>)
      requires Separate() && (inNew ==> expire.newBuckets != null)
      requires Points(Side(inNew), index, pos, node)
      ensures index < |Side(inNew).chains| && pos <= |Side(inNew).chains[index]|
      ensures node == null <==> pos == |Side(inNew).chains[index]|
      ensures node != null ==>
                && node.key == Side(inNew).chains[index][pos] && Points(Side(inNew), index, pos + 1, node.next)
                && Holds(Side(inNew), node.key, node.value) && expire.view.Get(node.key) == Some(node.value)
    {
      hide Table, Represents, Holds, Store.Get;
      if inNew {
        PointsNext(expire.newBuckets, expire.secondary, hash, expire.view.bits + 1, index, pos, node);
      } else {
        PointsNext(expire.buckets, expire.primary, hash, expire.view.bits, index, pos, node);
      }
      if node != null { Value(expire.primary, expire.secondary, expire.used, expire.view, node.key, node.value); }
    }

    // ---------- one scan call ----------

    // The keys of the bucket of a cursor: one chain, or three while a rehash is active.
    ghost function BucketKeys(c: nat): seq<Bytes>
      requires c < |expire.primary.chains|
      requires expire.newBuckets != null ==> c + expire.size < |expire.secondary.chains|
      reads expire
    {
      if expire.newBuckets == null then expire.primary.chains[c]
      else expire.primary.chains[c] + expire.secondary.chains[c] + expire.secondary.chains[c + expire.size]
    }

    lemma BucketKeysMeaning(c: nat)
      requires Separate() && c < expire.size
      ensures expire.size == Pow2(expire.view.bits)
      ensures c < |expire.primary.chains| && (expire.newBuckets != null ==> c + expire.size < |expire.secondary.chains|)
      ensures Distinct(BucketKeys(c))
      ensures forall k :: k in BucketKeys(c) <==> k in expire.view.Bucket(hash, c)
    {
      hide Table, Represents, Distinct, Slot, HasKey, Store.Has;
      var bits, size := expire.view.bits, expire.size;
      ChainKeys(expire.buckets, expire.primary, hash, bits, c);
      if expire.newBuckets == null {
        forall k ensures k in BucketKeys(c) <==> k in expire.view.Bucket(hash, c) {
          Lookup(expire.primary, expire.secondary, expire.used, expire.view, k);
          InBucket(expire.view, hash, c, k);
        }
      } else {
        ChainKeys(expire.newBuckets, expire.secondary, hash, bits + 1, c);
        ChainKeys(expire.newBuckets, expire.secondary, hash, bits + 1, c + size);
        ThreeChains(expire.primary, expire.secondary, expire.used, expire.view, hash, c,
                    expire.primary.chains[c], expire.secondary.chains[c], expire.secondary.chains[c + size]);
        forall k ensures k in BucketKeys(c) <==> k in expire.view.Bucket(hash, c) {
          InBucket(expire.view, hash, c, k);
        }
      }
    }

    static lemma InBucket(v: Store<nat>, hash: Hash, c: nat, k: Bytes)
      ensures k in v.Bucket(hash, c) <==> v.Has(k) && Slot(hash(k), v.bits) == c
    {}

    // After the chains `before`, whose due keys are gone, comes the chain c.
    static lemma NextChain(db: Db, before: seq<Bytes>, c: seq<Bytes>, now: nat)
      requires Distinct(before + c)
      ensures var gone := DueIn(before, db.expire, now);
              var more := DueIn(c, db.RemoveAll(gone).expire, now);
              && DueIn(before + c, db.expire, now) == gone + more
              && db.RemoveAll(gone + more) == db.RemoveAll(gone).RemoveAll(more)
    {
      var gone := DueIn(before, db.expire, now);
      var more := DueIn(c, db.RemoveAll(gone).expire, now);
      DistinctParts(before, c);
      DueInMeaning(before, db.expire, now);
      forall k | k in c ensures db.RemoveAll(gone).expire.Get(k) == db.expire.Get(k) {
        RemoveAllGet(db, gone, k);
      }
      DueInSame(c, db.expire, db.RemoveAll(gone).expire, now);
      DueInConcat(before, c, db.expire, now);
      RemoveAllConcat(db, gone, more);
    }

    static lemma DistinctParts(a: seq<Bytes>, b: seq<Bytes>)
      requires Distinct(a + b)
      ensures Distinct(a) && Distinct(b) && forall k | k in b :: k !in a
    {
      var c := a + b;
      forall i, j | 0 <= i < j < |a| ensures a[i] != a[j] { assert c[i] != c[j]; }
      forall i, j | 0 <= i < j < |b| ensures b[i] != b[j] { assert c[|a| + i] != c[|a| + j]; }
      forall i, j | 0 <= i < |a| && 0 <= j < |b| ensures a[i] != b[j] { assert c[i] != c[|a| + j]; }
    }

    static lemma AllDue(db: Db, hash: Hash, keys: seq<Bytes>, now: nat)
      requires Distinct(keys) && forall k :: k in keys <==> k in db.expire.Bucket(hash, db.cursor)
      ensures db.Due(hash, now, DueIn(keys, db.expire, now))
    {
      DueInMeaning(keys, db.expire, now);
    }

    /** One round of the do-while loop: visits the bucket of the cursor in the new table, and moves the cursor. */
    method ExpireHalf(cur: nat, now: nat, mask: nat, newMask: nat, ghost db: Db, ghost before: seq<Bytes>,
                      ghost c: seq<Bytes>)
      returns (next: nat, more: bool, ghost due: seq<Bytes>)
      requires Separate() && expire.newBuckets != null && cur < expire.newSize && expire.view.bits < WIDTH
      requires mask == expire.mask && newMask == expire.newMask
      requires cur < |expire.secondary.chains| && expire.secondary.chains[cur] == c
      requires Distinct(before + c) && View() == db.RemoveAll(DueIn(before, db.expire, now))
      modifies kvstore.Repr, expire.Repr
      ensures Separate() && fresh(kvstore.Repr - old(kvstore.Repr)) && fresh(expire.Repr - old(expire.Repr))
      ensures expire.newBuckets != null && expire.view.bits == old(expire.view.bits) == db.expire.bits
      ensures |expire.secondary.chains| == old(|expire.secondary.chains|)
      ensures forall p | 0 <= p < |expire.secondary.chains| && p != cur ::
                expire.secondary.chains[p] == old(expire.secondary.chains[p])
      ensures DueIn(before + c, db.expire, now) == DueIn(before, db.expire, now) + due
      ensures View() == db.RemoveAll(DueIn(before + c, db.expire, now))
      ensures next == NextCursor(cur, db.expire.bits + 1) && (more <==> next >= Pow2(db.expire.bits))
    {
      hide KVStore.Valid, Db.RemoveAll, DueIn, NextCursor, Distinct, BitAnd, Pow2;
      ghost var bits := expire.view.bits;
      SizeAndMasks();
      KVStore<nat>.MaskKeeps(cur, bits + 1);
      NextChain(db, before, c, now);
      RemoveAllGet(db, DueIn(before, db.expire, now), []);
      due := ExpireChain(true, BitAnd(cur, newMask), now);
      RemoveAllGet(db, DueIn(before + c, db.expire, now), []);
      next := Advance(cur, newMask, bits + 1);
      NextInterval(cur, bits + 1, bits + 1);
      more := InUpperHalf(next, mask, newMask, bits);
    }

    // The cursor after some rounds of the loop.
    static function RoundCursor(round: nat, cursor: nat, bits: nat): nat {
      if round == 0 then cursor else if round == 1 then cursor + Pow2(bits) else NextCursor(cursor, bits)
    }

    static lemma RoundAdvances(round: nat, cursor: nat, bits: nat)
      requires round < 2 && cursor < Pow2(bits)
      ensures RoundCursor(0, cursor, bits) == cursor && RoundCursor(2, cursor, bits) == NextCursor(cursor, bits)
      ensures RoundCursor(1, cursor, bits) == cursor + Pow2(bits) && RoundCursor(round, cursor, bits) < 2 * Pow2(bits)
      ensures NextCursor(RoundCursor(round, cursor, bits), bits + 1) == RoundCursor(round + 1, cursor, bits)
      ensures RoundCursor(round + 1, cursor, bits) >= Pow2(bits) <==> round == 0
    {
      hide NextCursor, Pow2;
      NextRefined(cursor, bits);
      NextInterval(cursor, bits, bits);
    }

    // The chains visited in some rounds of the loop.
    static function RoundKeys(round: nat, a: seq<Bytes>, b: seq<Bytes>, c: seq<Bytes>): seq<Bytes> {
      if round == 0 then a else if round == 1 then a + b else a + b + c
    }

    static lemma RoundVisits(round: nat, a: seq<Bytes>, b: seq<Bytes>, c: seq<Bytes>)
      requires round < 2 && Distinct(a + b + c)
      ensures RoundKeys(0, a, b, c) == a && RoundKeys(2, a, b, c) == a + b + c
      ensures var chain := if round == 0 then b else c;
              && RoundKeys(round, a, b, c) + chain == RoundKeys(round + 1, a, b, c)
              && Distinct(RoundKeys(round, a, b, c) + chain)
    {
      hide Distinct;
      DistinctParts(a + b, c);
    }

    /** Visits the bucket of the cursor in the new table, that is, the two buckets that refine it. */
    method ExpireRefined(now: nat, mask: nat, ghost db: Db, ghost a: seq<Bytes>, ghost b: seq<Bytes>,
                         ghost c: seq<Bytes>)
      returns (next: nat, ghost gone: seq<Bytes>)
      requires Separate() && expire.newBuckets != null && cursor < expire.size && mask == expire.mask
      requires expire.view.bits < WIDTH && db.expire.bits == expire.view.bits && db.cursor == cursor
      requires |expire.secondary.chains| > cursor + expire.size
      requires expire.secondary.chains[cursor] == b && expire.secondary.chains[cursor + expire.size] == c
      requires Distinct(a + b + c) && View() == db.RemoveAll(DueIn(a, db.expire, now))
      modifies kvstore.Repr, expire.Repr
      ensures Separate() && fresh(kvstore.Repr - old(kvstore.Repr)) && fresh(expire.Repr - old(expire.Repr))
      ensures next == NextCursor(cursor, db.expire.bits)
      ensures gone == DueIn(a + b + c, db.expire, now) && View() == db.RemoveAll(gone)
    {
      hide KVStore.Valid, Db.RemoveAll, DueIn, NextCursor, Distinct, BitAnd, Pow2, RoundCursor, RoundKeys;
      ghost var bits, size := expire.view.bits, expire.size;
      var newMask := expire.newMask;
      next := cursor;
      SizeAndMasks();
      RoundAdvances(0, cursor, bits);
      RoundVisits(0, a, b, c);
      ghost var round := 0;
      var more := true;
      while more
        invariant Separate() && fresh(kvstore.Repr - old(kvstore.Repr)) && fresh(expire.Repr - old(expire.Repr))
        invariant expire.newBuckets != null && expire.view.bits == bits
        invariant 0 <= round <= 2 && more == (round < 2) && next == RoundCursor(round, cursor, bits)
        invariant |expire.secondary.chains| > cursor + size
        invariant round < 1 ==> expire.secondary.chains[cursor] == b
        invariant round < 2 ==> expire.secondary.chains[cursor + size] == c
        invariant View() == db.RemoveAll(DueIn(RoundKeys(round, a, b, c), db.expire, now))
        decreases 2 - round
      {
        SizeAndMasks();
        RoundAdvances(round, cursor, bits);
        RoundVisits(round, a, b, c);
        ghost var due;
        ghost var chain := if round == 0 then b else c;
        next, more, due := ExpireHalf(next, now, mask, newMask, db, RoundKeys(round, a, b, c), chain);
        round := round + 1;
      }
      gone := DueIn(RoundKeys(round, a, b, c), db.expire, now);
    }

    /** One call of the scan with the active-expiry callback. */
    method ActiveExpireScan(now: nat) returns (ghost gone: seq<Bytes>)
      requires Valid() && expire.view.bits < WIDTH
      modifies this, kvstore.Repr, expire.Repr
      ensures Valid() && fresh(kvstore.Repr - old(kvstore.Repr)) && fresh(expire.Repr - old(expire.Repr))
      ensures old(View()).Due(hash, now, gone)
      ensures View() == Next(old(View()), Event(now, Expire(gone)))
    {
      hide KVStore.Valid, Db.Consistent, Db.RemoveAll, Db.Due, DueIn, NextCursor, Distinct, BitAnd, Pow2;
      ghost var db, c0 := View(), cursor;
      ghost var bits := db.expire.bits;
      var mask, next := expire.mask, cursor;
      SizeAndMasks();
      BucketKeysMeaning(cursor);
      KVStore<nat>.MaskKeeps(cursor, bits);
      ghost var keys, size := BucketKeys(cursor), expire.size;
      if expire.newBuckets == null {
        gone := ExpireChain(false, BitAnd(cursor, mask), now);
        next := Advance(cursor, mask, bits);
      } else {
        ghost var a, b, c := expire.primary.chains[c0], expire.secondary.chains[c0], expire.secondary.chains[c0 + size];
        gone := ExpireChain(false, BitAnd(cursor, mask), now);
        RemoveAllGet(db, gone, []);
        SizeAndMasks();
        next, gone := ExpireRefined(now, mask, db, a, b, c);
      }
      cursor := next;
      AllDue(db, hash, keys, now);
      RemoveAllGet(db, gone, []);
      NextInterval(c0, bits, bits);
      StaysConsistent(db, Event(now, Expire(gone)));
    }

    lemma SizeAndMasks()
      requires Separate()
      ensures expire.size == Pow2(expire.view.bits) && expire.mask == expire.size - 1
      ensures Pow2(expire.view.bits + 1) == 2 * expire.size
      ensures expire.newBuckets != null ==> expire.newSize == 2 * expire.size && expire.newMask == expire.newSize - 1
    {}

    // ---------- the cron job ----------

    // A trace of a cron tick: housekeeping events, all at the first clock reading of the tick, each scan call
    // removing what is due.
    ghost predicate Tick(db: Db, trace: seq<Event>, now: nat) {
      && Possible(hash, db, trace, now)
      && forall i | 0 <= i < |trace| ::
           trace[i].now == now && !trace[i].op.Set? && !trace[i].op.Get? && !trace[i].op.Del?
    }

    lemma ExtendTick(db: Db, trace: seq<Event>, now: nat, op: Op)
      requires Tick(db, trace, now) && !op.Set? && !op.Get? && !op.Del?
      requires op.Expire? ==> Run(db, trace).Due(hash, now, op.keys)
      ensures Tick(db, trace + [Event(now, op)], now)
      ensures Run(db, trace + [Event(now, op)]) == Next(Run(db, trace), Event(now, op))
    {
      var more := trace + [Event(now, op)];
      assert more[..|more| - 1] == trace;
      assert LastClock(trace, now) <= now;
    }

    // A trace of the active-expiry loop so far: scan calls, of which each but the last left a cursor to go on from, and
    // time at every check.
    ghost predicate Scanning(db: Db, trace: seq<Event>, clock: nat -> nat) {
      && Tick(db, trace, clock(0))
      && (forall i | 0 <= i < |trace| :: trace[i].op.Expire?)
      && (forall i | 0 < i < |trace| :: Run(db, trace[..i]).cursor > 0)
      && forall j | 0 < j && 16 * j < |trace| :: clock(j) < clock(0) + 50
    }

    lemma OneMoreScan(db: Db, trace: seq<Event>, clock: nat -> nat, gone: seq<Bytes>)
      requires Scanning(db, trace, clock) && Run(db, trace).Due(hash, clock(0), gone)
      requires trace != [] ==> Run(db, trace).cursor > 0
      requires trace != [] && |trace| % 16 == 0 ==> clock(|trace| / 16) < clock(0) + 50
      requires Run(db, trace).cursor < Pow2(Run(db, trace).expire.bits) && Run(db, trace).expire.bits <= WIDTH
      ensures var e := Event(clock(0), Expire(gone));
              var c, c' := Run(db, trace).cursor, Next(Run(db, trace), e).cursor;
              && Scanning(db, trace + [e], clock) && Run(db, trace + [e]) == Next(Run(db, trace), e)
              && Next(Run(db, trace), e).expire.bits == Run(db, trace).expire.bits
              && (c' == 0 || RevBits(c, WIDTH) < RevBits(c', WIDTH) < Pow2(WIDTH))
    {
      hide Tick, Next, Db.Due, RevBits, Pow2, Run;
      var e := Event(clock(0), Expire(gone));
      ExtendTick(db, trace, clock(0), Expire(gone));
      BitsKept(Run(db, trace), clock(0), gone);
      CursorMoves(Run(db, trace), clock(0), gone);
      forall i | 0 < i < |trace + [e]| ensures Run(db, (trace + [e])[..i]).cursor > 0 {
        assert (trace + [e])[..i] == trace[..i];
        if i == |trace| { assert trace[..i] == trace; }
      }
      forall j | 0 < j && 16 * j < |trace + [e]| ensures clock(j) < clock(0) + 50 {
        if 16 * j == |trace| { assert j == |trace| / 16; }
      }
    }

    /** The active-expiry loop of a cron tick; clock(i) is the i-th reading of the clock in the tick. */
    method ActiveExpiry(clock: nat -> nat) returns (ghost trace: seq<Event>)
      requires Valid() && expire.view.bits < WIDTH
      modifies this, kvstore.Repr, expire.Repr
      ensures Valid() && fresh(kvstore.Repr - old(kvstore.Repr)) && fresh(expire.Repr - old(expire.Repr))
      ensures Tick(old(View()), trace, clock(0)) && View() == Run(old(View()), trace)
      ensures Scanning(old(View()), trace, clock)
      ensures trace != [] && (cursor != 0 ==> |trace| % 16 == 0 && clock(|trace| / 16) >= clock(0) + 50)
      ensures forall j | 0 < j && 16 * j < |trace| :: clock(j) < clock(0) + 50
    {
      hide KVStore.Valid, Db.Consistent, Tick, Next, NextCursor, RevBits, Db.Due, Scanning, Run;
      var start := clock(0);  // the time that all callbacks of the tick compare with
      var now, timelimit := start, start + ACTIVE_EXPIRY_TIME_PERCENT * (1000 / CRON_HZ) / 100;
      var iteration, reading := 0, 1;
      var more := true;
      ghost var db := View();
      trace := [];
      EmptyTick(db, clock);
      while more
        invariant Valid() && fresh(kvstore.Repr - old(kvstore.Repr)) && fresh(expire.Repr - old(expire.Repr))
        invariant expire.view.bits < WIDTH
        invariant Scanning(db, trace, clock) && View() == Run(db, trace)
        invariant iteration == |trace| && (more ==> reading == 1 + iteration / 16) && (!more ==> trace != [])
        invariant !more && cursor != 0 ==> iteration % 16 == 0 && clock(iteration / 16) >= clock(0) + 50
        invariant more && trace != [] ==> cursor > 0
        invariant more && trace != [] && iteration % 16 == 0 ==> clock(iteration / 16) < clock(0) + 50
        decreases more, Pow2(WIDTH) - RevBits(cursor, WIDTH)
      {
        iteration := iteration + 1;
        ghost var gone := ActiveExpireScan(start);
        OneMoreScan(db, trace, clock, gone);
        trace := trace + [Event(start, Expire(gone))];
        more := cursor > 0;
        if iteration % 16 == 0 {
          now := clock(reading);
          reading := reading + 1;
          if now >= timelimit { more := false; }
        }
      }
      ScanningInTime(db, trace, clock);
    }

    lemma ScanningInTime(db: Db, trace: seq<Event>, clock: nat -> nat)
      requires Scanning(db, trace, clock)
      ensures Tick(db, trace, clock(0)) && forall j | 0 < j && 16 * j < |trace| :: clock(j) < clock(0) + 50
    {}

    lemma ScanningUpTo(db: Db, trace: seq<Event>, clock: nat -> nat)
      requires Scanning(db, trace, clock) && trace != []
      ensures Scanning(db, trace[..|trace| - 1], clock) && trace[|trace| - 1].op.Expire?
      ensures |trace| > 1 ==> Run(db, trace[..|trace| - 1]).cursor > 0
    {
      hide Run, Next, Db.Due;
      var init := trace[..|trace| - 1];
      forall i | 0 < i < |init| ensures Run(db, init[..i]).cursor > 0 {
        assert init[..i] == trace[..i];
      }
    }

    /** From cursor 0, the n-th scan call of a tick leaves the n-th cursor in reversed order; the call for the last
        bucket leaves 0. */
    lemma {:induction false} ScanPosition(db: Db, trace: seq<Event>, clock: nat -> nat)
      requires Scanning(db, trace, clock) && trace != [] && db.cursor == 0
      ensures var db', bits := Run(db, trace), db.expire.bits;
              && db'.expire.bits == bits && db'.cursor < Pow2(bits)
              && (if db'.cursor == 0 then |trace| == Pow2(bits)
                  else |trace| < Pow2(bits) && RevBits(db'.cursor, bits) == |trace|)
      decreases |trace|
    {
      hide Next, RevBits, NextCursor, Pow2, Scanning;
      var init, e := trace[..|trace| - 1], trace[|trace| - 1];
      var s, bits := Run(db, init), db.expire.bits;
      ScanningUpTo(db, trace, clock);
      RevBitsZero(bits);
      if init != [] { ScanPosition(db, init, clock); }
      BitsKept(s, e.now, e.op.keys);
      NextGet(s, e, []);
      RevBitsBound(0, bits);
      NextInterval(s.cursor, bits, bits);
      PowZero();
    }

    static lemma PowZero()
      ensures Pow2(0) == 1
    {}

    lemma EmptyTick(db: Db, clock: nat -> nat)
      ensures Scanning(db, [], clock) && Run(db, []) == db
    {}

    static lemma BitsKept(db: Db, now: nat, gone: seq<Bytes>)
      ensures Next(db, Event(now, Expire(gone))).expire.bits == db.expire.bits
    {
      RemoveAllGet(db, gone, []);
    }

    static lemma CursorMoves(db: Db, now: nat, gone: seq<Bytes>)
      requires db.cursor < Pow2(db.expire.bits) && db.expire.bits <= WIDTH
      ensures var c := Next(db, Event(now, Expire(gone))).cursor;
              c == 0 || RevBits(db.cursor, WIDTH) < RevBits(c, WIDTH) < Pow2(WIDTH)
    {
      hide Next, RevBits, NextCursor;
      NextGet(db, Event(now, Expire(gone)), []);
      NextInterval(db.cursor, db.expire.bits, WIDTH);
      RevBitsBound(NextCursor(db.cursor, db.expire.bits), WIDTH);
    }

    // The events of a rehashing burst on one of the stores.
    static function Burst(activate: Op, step: Op, now: nat, steps: nat): seq<Event> {
      if steps == 0 then [Event(now, activate)] else Burst(activate, step, now, steps - 1) + [Event(now, step)]
    }

    lemma {:induction false} BurstOfData(db: Db, trace: seq<Event>, now: nat, steps: nat)
      requires Tick(db, trace, now)
      ensures var all := trace + Burst(ActivateData, StepData, now, steps);
              && Tick(db, all, now)
              && Run(db, all) == Run(db, trace).(data := Run(db, trace).data.ActivateIfNeeded().Steps(steps))
    {
      hide Tick, Store.ActivateIfNeeded, Store.RehashStep;
      if steps == 0 {
        ExtendTick(db, trace, now, ActivateData);
      } else {
        var rest := Burst(ActivateData, StepData, now, steps - 1);
        BurstOfData(db, trace, now, steps - 1);
        ExtendTick(db, trace + rest, now, StepData);
        assert trace + (rest + [Event(now, StepData)]) == trace + rest + [Event(now, StepData)];
      }
    }

    lemma {:induction false} BurstOfExpire(db: Db, trace: seq<Event>, now: nat, steps: nat)
      requires Tick(db, trace, now)
      ensures var all := trace + Burst(ActivateExpire, StepExpire, now, steps);
              && Tick(db, all, now)
              && Run(db, all) == Run(db, trace).(expire := Run(db, trace).expire.ActivateIfNeeded().Steps(steps))
    {
      hide Tick, Store.ActivateIfNeeded, Store.RehashStep;
      if steps == 0 {
        ExtendTick(db, trace, now, ActivateExpire);
      } else {
        var rest := Burst(ActivateExpire, StepExpire, now, steps - 1);
        BurstOfExpire(db, trace, now, steps - 1);
        ExtendTick(db, trace + rest, now, StepExpire);
        assert trace + (rest + [Event(now, StepExpire)]) == trace + rest + [Event(now, StepExpire)];
      }
    }

    /** A cron tick: the active-expiry loop, then a rehashing burst on each store. */
    method Cron(clock: nat -> nat, dataClock: nat -> nat, expireClock: nat -> nat)
      returns (ghost trace: seq<Event>, ghost scans: seq<Event>, ghost dataSteps: nat, ghost expireSteps: nat)
      requires Valid() && expire.view.bits < WIDTH
      modifies this, kvstore.Repr, expire.Repr
      ensures Valid() && fresh(kvstore.Repr - old(kvstore.Repr)) && fresh(expire.Repr - old(expire.Repr))
      ensures Tick(old(View()), trace, clock(0)) && View() == Run(old(View()), trace)
      ensures trace == scans + Burst(ActivateData, StepData, clock(0), dataSteps)
                             + Burst(ActivateExpire, StepExpire, clock(0), expireSteps)
      ensures scans != [] && Scanning(old(View()), scans, clock) && dataSteps > 0 && expireSteps > 0
      ensures cursor != 0 ==> |scans| % 16 == 0 && clock(|scans| / 16) >= clock(0) + 50
      ensures forall j | 0 < j && 16 * j < |scans| :: clock(j) < clock(0) + 50
      ensures kvstore.view == Run(old(View()), scans).data.ActivateIfNeeded().Steps(dataSteps)
      ensures expire.view == Run(old(View()), scans).expire.ActivateIfNeeded().Steps(expireSteps)
      ensures old(cursor) == 0 && old(expire.size) <= 16 ==> cursor == 0
      ensures old(cursor) == 0 && cursor == 0 ==> |scans| == old(expire.size)
      ensures old(cursor) == 0 && cursor == 0 ==>
                forall key | old(View()).Expired(key, clock(0)) :: !kvstore.view.Has(key) && !expire.view.Has(key)
    {
      hide KVStore.Valid, Db.Consistent, Tick, Next, Run, Store.ActivateIfNeeded, Store.Steps, Scanning, Burst,
        Db.Expired,
        RevBits, Pow2;
      ghost var db, now := View(), clock(0);
      ghost var size := expire.size;
      SizeAndMasks();
      scans := ActiveExpiry(clock);
      trace := scans;
      if old(cursor) == 0 {
        ScanPosition(db, scans, clock);
        if cursor == 0 { SweptClean(db, scans, clock); }
      }
      var elapsed;
      elapsed, dataSteps := kvstore.IncrementalRehashing(REHASHING_TIME_THRESHOLD, dataClock);
      BurstOfData(db, trace, now, dataSteps);
      trace := trace + Burst(ActivateData, StepData, now, dataSteps);
      ghost var before := expire.view;
      RehashGet(before, []);
      elapsed, expireSteps := expire.IncrementalRehashing(REHASHING_TIME_THRESHOLD, expireClock);
      BurstOfExpire(db, trace, now, expireSteps);
      trace := trace + Burst(ActivateExpire, StepExpire, now, expireSteps);
      AlwaysConsistent(db, trace);
      StepsKeepMap(before.ActivateIfNeeded(), expireSteps);
      PowMonotone(before.bits, expire.view.bits);
      StepsKeepMap(Run(db, scans).data.ActivateIfNeeded(), dataSteps);
      KeepsKeys(Run(db, scans).data, dataSteps);
      KeepsKeys(Run(db, scans).expire, expireSteps);
    }

    static lemma KeepsKeys<V>(s: Store<V>, steps: nat)
      ensures s.ActivateIfNeeded().Steps(steps).contents == s.contents
    {
      StepsKeepMap(s.ActivateIfNeeded(), steps);
    }

    /** A tick that goes through the whole deadline table leaves nothing that had expired at its first clock reading. */
    lemma SweptClean(db: Db, scans: seq<Event>, clock: nat -> nat)
      requires Scanning(db, scans, clock) && scans != [] && db.cursor == 0 && Run(db, scans).cursor == 0
      requires db.expire.bits <= WIDTH
      ensures forall key | db.Expired(key, clock(0)) ::
                !Run(db, scans).data.Has(key) && !Run(db, scans).expire.Has(key)
    {
      hide Run, Next, Possible, Db.Expired, RevBits, Pow2;
      ScanPosition(db, scans, clock);
      forall key | db.Expired(key, clock(0))
        ensures !Run(db, scans).data.Has(key) && !Run(db, scans).expire.Has(key)
      {
        Expiry.SweepIsComplete(hash, db, scans, clock(0), key);
      }
    }
  }
}
