/** Scan sweeps: runs of scan calls interleaved with any other operations on the store. */
module Sweep {
  import opened Words
  import opened Cursor
  import opened StoreModel

  datatype Event<V> =
    | Call(seen: seq<(Bytes, V)>)  // one scan call with the cursor of the sweep, and the entries that it reports
    | Put(key: Bytes, value: V)
    | Delete(key: Bytes)
    | Activate
    | Step                      // one step of an active rehash; it may complete the rehash and double the table

  // A sweep starts with cursor 0 and is done when a call returns cursor 0.
  datatype State<V> = State(store: Store<V>, cursor: nat, done: bool, calls: nat, reported: multiset<Bytes>)

  ghost function Next<V>(hash: Hash, s: State<V>, e: Event<V>): State<V> {
    match e
    case Call(seen) =>
      if s.done then s else
        var next := NextCursor(s.cursor, s.store.bits);
        State(s.store, next, next == 0, s.calls + 1, s.reported + multiset(KeysOf(seen)))
    case Put(key, value) => s.(store := s.store.Put(key, value))
    case Delete(key) => s.(store := s.store.Delete(key))
    case Activate => s.(store := s.store.ActivateIfNeeded())
    case Step => s.(store := s.store.RehashStep())
  }

  ghost function Run<V>(hash: Hash, store: Store<V>, events: seq<Event<V>>): State<V> {
    if events == [] then State(store, 0, false, 0, multiset{})
    else Next(hash, Run(hash, store, events[..|events| - 1]), events[|events| - 1])
  }

  // Every call of the sweep reports what a scan call has to.
  ghost predicate Possible<V>(hash: Hash, store: Store<V>, events: seq<Event<V>>) {
    events != [] ==>
      var before, e := events[..|events| - 1], events[|events| - 1];
      var s := Run(hash, store, before);
      Possible(hash, store, before) && (e.Call? && !s.done ==> s.store.Reports(hash, s.cursor, e.seen))
  }

  // The key is in the store before and after every event.
  ghost predicate PresentThroughout<V>(hash: Hash, store: Store<V>, events: seq<Event<V>>, key: Bytes) {
    && Run(hash, store, events).store.Has(key)
    && (events != [] ==> PresentThroughout(hash, store, events[..|events| - 1], key))
  }

  // The part of the hash space, in bit-reversed order, that the sweep has been through.
  ghost predicate Covered<V>(hash: Hash, s: State<V>, key: Bytes) {
    s.done || RevBits(hash(key), WIDTH) < RevBits(s.cursor, WIDTH)
  }

  ghost predicate Faithful<V>(hash: Hash, s: State<V>, key: Bytes, present: bool) {
    && s.cursor < Pow2(s.store.bits)
    && s.reported[key] <= 1
    && (s.reported[key] == 1 ==> Covered(hash, s, key))
    && (present && Covered(hash, s, key) ==> s.reported[key] == 1)
  }

  lemma BitsGrow<V>(hash: Hash, s: State<V>, e: Event<V>)
    ensures s.store.bits <= Next(hash, s, e).store.bits
    ensures Pow2(s.store.bits) <= Pow2(Next(hash, s, e).store.bits)
    ensures !e.Call? ==> Next(hash, s, e).(store := s.store) == s
  {}

  lemma CallKeepsFaith<V>(hash: Hash, s: State<V>, key: Bytes, present: bool, seen: seq<(Bytes, V)>)
    requires s.store.bits <= WIDTH && !s.done && Faithful(hash, s, key, present)
    requires s.store.Reports(hash, s.cursor, seen)
    ensures Faithful(hash, Next(hash, s, Call(seen)), key, present && s.store.Has(key))
  {
    hide RevBits, NextCursor, Slot, Store.Reports, KeysOf;
    ReportedKeys(s.store, hash, s.cursor, seen);
    BucketInterval(hash(key), s.cursor, s.store.bits, WIDTH);
    NextInterval(s.cursor, s.store.bits, WIDTH);
    RevBitsBound(hash(key), WIDTH);
  }

  lemma {:induction false} SweepInvariant<V>(hash: Hash, store: Store<V>, events: seq<Event<V>>, key: Bytes)
    requires Possible(hash, store, events) && Run(hash, store, events).store.bits <= WIDTH
    ensures Faithful(hash, Run(hash, store, events), key, PresentThroughout(hash, store, events, key))
  {
    hide RevBits, NextCursor, Slot, Store.Reports, KeysOf;
    if events == [] {
      RevBitsZero(WIDTH);
    } else {
      var before, e := events[..|events| - 1], events[|events| - 1];
      var s := Run(hash, store, before);
      BitsGrow(hash, s, e);
      SweepInvariant(hash, store, before, key);
      if e.Call? && !s.done {
        CallKeepsFaith(hash, s, key, PresentThroughout(hash, store, before, key), e.seen);
      }
    }
  }

  /** A finished sweep, of calls that each return what a scan call does, has reported every key that was present
      throughout exactly once, and no key twice, whatever was put, deleted and rehashed between the calls. */
  lemma SweepExactlyOnce<V>(hash: Hash, store: Store<V>, events: seq<Event<V>>, key: Bytes)
    requires Possible(hash, store, events)
    requires var s := Run(hash, store, events); s.done && s.store.bits <= WIDTH
    ensures Run(hash, store, events).reported[key] <= 1
    ensures PresentThroughout(hash, store, events, key) ==> Run(hash, store, events).reported[key] == 1
  {
    SweepInvariant(hash, store, events, key);
  }

  /** The cursor of a sweep always names a bucket of the primary table: neither early return of the scan is taken. */
  lemma {:induction false} CursorStaysValid<V>(hash: Hash, store: Store<V>, events: seq<Event<V>>)
    ensures Run(hash, store, events).cursor < Pow2(Run(hash, store, events).store.bits)
  {
    hide NextCursor, KeysOf;
    if events != [] {
      var before, e := events[..|events| - 1], events[|events| - 1];
      var s := Run(hash, store, before);
      BitsGrow(hash, s, e);
      CursorStaysValid(hash, store, before);
      NextInterval(s.cursor, s.store.bits, s.store.bits);
    }
  }

  lemma CallAdvances<V>(hash: Hash, s: State<V>, bits: nat, seen: seq<(Bytes, V)>)
    requires s.store.bits <= bits <= WIDTH && s.cursor < Pow2(s.store.bits) && !s.done
    ensures var s' := Next(hash, s, Call(seen));
            s'.done || RevBits(s'.cursor, WIDTH) >= RevBits(s.cursor, WIDTH) + Pow2(WIDTH - bits)
  {
    hide RevBits, NextCursor;
    NextInterval(s.cursor, s.store.bits, WIDTH);
    PowMonotone(WIDTH - bits, WIDTH - s.store.bits);
  }

  lemma {:induction false} CallsInvariant<V>(hash: Hash, store: Store<V>, events: seq<Event<V>>, bits: nat)
    requires Run(hash, store, events).store.bits <= bits <= WIDTH
    ensures var s := Run(hash, store, events);
            !s.done ==> Pow2(WIDTH - bits) * s.calls <= RevBits(s.cursor, WIDTH)
  {
    hide RevBits, NextCursor;
    if events != [] {
      var before, e := events[..|events| - 1], events[|events| - 1];
      var s := Run(hash, store, before);
      BitsGrow(hash, s, e);
      CallsInvariant(hash, store, before, bits);
      if e.Call? && !s.done {
        CursorStaysValid(hash, store, before);
        CallAdvances(hash, s, bits, e.seen);
        MulSucc(Pow2(WIDTH - bits), s.calls);
      }
    }
  }

  /** A sweep that is still running has made fewer calls than the final table has buckets. */
  lemma SweepTerminates<V>(hash: Hash, store: Store<V>, events: seq<Event<V>>)
    requires var s := Run(hash, store, events); !s.done && s.store.bits <= WIDTH
    ensures var s := Run(hash, store, events); s.calls < Pow2(s.store.bits)
  {
    hide RevBits, Run, Next;
    var s := Run(hash, store, events);
    var bits, d := s.store.bits, Pow2(WIDTH - s.store.bits);
    CallsInvariant(hash, store, events, bits);
    RevBitsBound(s.cursor, WIDTH);
    PowSum(WIDTH - bits, bits);
    assert WIDTH - bits + bits == WIDTH;
    if s.calls > Pow2(bits) { MulStep(d, Pow2(bits), s.calls); }
  }
}
