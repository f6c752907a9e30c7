/** Expiry over whole runs: the live view, a reference server without housekeeping, and complete sweeps. */
module Expiry {
  import opened Words
  import opened Cursor
  import opened StoreModel
  import opened TimedModel

  // ---------- the live view ----------

  // An event that no client can see: it stores nothing and deletes nothing on request.
  predicate Housekeeping(op: Op) {
    !op.Set? && !op.Del?
  }

  // An event that neither stores the key nor deletes it on request.
  predicate Spares(op: Op, key: Bytes) {
    !(op.Set? && op.key == key) && !(op.Del? && op.key == key)
  }

  lemma SparingKeepsReply(hash: Hash, db: Db, e: Event, key: Bytes, t: nat)
    requires Spares(e.op, key) && e.now <= t
    requires e.op.Expire? ==> db.Due(hash, e.now, e.op.keys)
    ensures Next(db, e).GetReply(key, t) == db.GetReply(key, t)
  {
    hide Next, Store.Get, Store.Has;
    NextGet(db, e, key);
    HasGet(db.data, key);
    HasGet(Next(db, e).data, key);
  }

  /** Whatever else happens, the reply of GET for a key changes only by a SET or DEL of that key, or with time. */
  lemma {:induction false} SparedKeyKeepsReply(hash: Hash, db: Db, events: seq<Event>, start: nat, key: Bytes, t: nat)
    requires Possible(hash, db, events, start) && LastClock(events, start) <= t
    requires forall i | 0 <= i < |events| :: Spares(events[i].op, key)
    ensures Run(db, events).GetReply(key, t) == db.GetReply(key, t)
  {
    hide Next, Db.GetReply, Spares;
    if events != [] {
      var before, e := events[..|events| - 1], events[|events| - 1];
      assert e == events[|events| - 1];
      SparedKeyKeepsReply(hash, db, before, start, key, t);
      SparingKeepsReply(hash, Run(db, before), e, key, t);
    }
  }

  /** Lazy deletion by GET, active expiry of any number of buckets and any amount of rehashing leave what GET
      replies, now and at every later time, as it was. */
  lemma HousekeepingIsInvisible(hash: Hash, db: Db, events: seq<Event>, start: nat, key: Bytes, t: nat)
    requires Possible(hash, db, events, start) && LastClock(events, start) <= t
    requires forall i | 0 <= i < |events| :: Housekeeping(events[i].op)
    ensures Run(db, events).GetReply(key, t) == db.GetReply(key, t)
  {
    hide Run, Possible, Db.GetReply;
    SparedKeyKeepsReply(hash, db, events, start, key, t);
  }

  /** Read your write: after a SET of a key, and until the next SET or DEL of it, GET replies with the value just as
      long as the deadline of the key has not passed: that of the SET, or else the one that the key had before. */
  lemma ReadYourWrite(hash: Hash, db: Db, events: seq<Event>, start: nat, i: nat, key: Bytes, value: Bytes,
                      ex: Option<nat>, t: nat)
    requires Possible(hash, db, events, start) && LastClock(events, start) <= t
    requires i < |events| && events[i].op == Set(key, value, ex)
    requires forall j | i < j < |events| :: Spares(events[j].op, key)
    ensures var deadline := if ex.Some? then Some(events[i].now + ex.value * 1000)
                            else Run(db, events[..i]).expire.Get(key);
            Run(db, events).GetReply(key, t) == if deadline.None? || t <= deadline.value then Some(value) else None
  {
    hide Run, Possible, Next, LastClock, Store.Get, Spares;
    var before, e, after := events[..i], events[i], events[i + 1..];
    PossibleSplit(hash, db, events, start, i + 1);
    OneMoreOf(db, events, i);
    NextGet(Run(db, before), e, key);
    HasGet(Next(Run(db, before), e).data, key);
    SparedKeyKeepsReply(hash, Run(db, events[..i + 1]), after, LastClock(events[..i + 1], start), key, t);
  }

  /** Active expiry removes a key only if its deadline is strictly before the clock of the tick. */
  lemma OnlyDueKeysAreRemoved(hash: Hash, db: Db, e: Event, key: Bytes)
    requires e.op.Expire? && db.Due(hash, e.now, e.op.keys)
    ensures var db' := Next(db, e);
            if db'.data.Get(key) == db.data.Get(key) && db'.expire.Get(key) == db.expire.Get(key) then true
            else db'.data.Get(key) == None && db'.expire.Get(key) == None &&
                 db.expire.Get(key).Some? && db.expire.Get(key).value < e.now
  {
    hide Next, Store.Get;
    NextGet(db, e, key);
  }

  // ---------- a reference server that never removes an expired entry ----------

  datatype Reference = Reference(values: map<Bytes, Bytes>, deadlines: map<Bytes, nat>) {
    predicate Dead(key: Bytes, now: nat) {
      key in deadlines && now > deadlines[key]
    }

    function Reply(key: Bytes, now: nat): Option<Bytes> {
      if key in values && !Dead(key, now) then Some(values[key]) else None
    }

    function Next(e: Event): Reference {
      match e.op
      case Set(key, value, ex) =>
        Reference(values[key := value], if ex.Some? then deadlines[key := e.now + ex.value * 1000] else deadlines)
      case Del(key) => Reference(values - {key}, deadlines - {key})
      case _ => this
    }

    function Run(events: seq<Event>): Reference {
      if events == [] then this else Run(events[..|events| - 1]).Next(events[|events| - 1])
    }

    // No SET without EX hits a key that has expired and not been set or deleted since.
    ghost predicate NoStaleSet(events: seq<Event>) {
      events != [] ==>
        var before, e := events[..|events| - 1], events[|events| - 1];
        NoStaleSet(before) && (e.op.Set? && e.op.ex.None? ==> !Run(before).Dead(e.op.key, e.now))
    }
  }

  // The server holds a key as the reference does, or has removed it after it expired.
  ghost predicate Matches(db: Db, ref: Reference, key: Bytes, clock: nat) {
    || (db.data.Get(key) == (if key in ref.values then Some(ref.values[key]) else None)
        && db.expire.Get(key) == (if key in ref.deadlines then Some(ref.deadlines[key]) else None))
    || (db.data.Get(key) == None && db.expire.Get(key) == None && ref.Dead(key, clock))
  }

  lemma MatchesReply(db: Db, ref: Reference, key: Bytes, clock: nat, t: nat)
    requires Matches(db, ref, key, clock) && clock <= t
    ensures db.GetReply(key, t) == ref.Reply(key, t)
  {}

  lemma StillMatches(hash: Hash, db: Db, ref: Reference, e: Event, key: Bytes, clock: nat)
    requires Matches(db, ref, key, clock) && clock <= e.now
    requires e.op.Expire? ==> db.Due(hash, e.now, e.op.keys)
    requires e.op.Set? && e.op.ex.None? ==> !ref.Dead(e.op.key, e.now)
    ensures Matches(Next(db, e), ref.Next(e), key, e.now)
  {
    hide Next, Store.Get;
    NextGet(db, e, key);
  }

  /** A SET without EX makes the server differ from the reference just when the key has expired, and the server has
      already removed it together with the deadline that the reference keeps. */
  lemma SetStillMatchesIff(db: Db, ref: Reference, key: Bytes, value: Bytes, now: nat, clock: nat)
    requires Matches(db, ref, key, clock) && clock <= now
    ensures var e := Event(now, Set(key, value, None));
            Matches(Next(db, e), ref.Next(e), key, now) <==> !(ref.Dead(key, now) && db.expire.Get(key) == None)
  {
    hide Next, Store.Get;
    NextGet(db, Event(now, Set(key, value, None)), key);
  }

  lemma {:induction false} ServerMatchesReference(hash: Hash, db: Db, ref: Reference, events: seq<Event>, start: nat,
                                                  key: Bytes)
    requires Possible(hash, db, events, start) && Matches(db, ref, key, start) && ref.NoStaleSet(events)
    ensures Matches(Run(db, events), ref.Run(events), key, LastClock(events, start))
  {
    hide Next, Reference.Next, Matches, Reference.Dead;
    if events != [] {
      var before, e := events[..|events| - 1], events[|events| - 1];
      ServerMatchesReference(hash, db, ref, before, start, key);
      StillMatches(hash, Run(db, before), ref.Run(before), e, key, LastClock(before, start));
    }
  }

  /** Every GET, at any point of any run, replies as the reference server does. */
  lemma GetMatchesReference(hash: Hash, db: Db, ref: Reference, events: seq<Event>, start: nat, key: Bytes, now: nat)
    requires Possible(hash, db, events, start) && Matches(db, ref, key, start) && ref.NoStaleSet(events)
    requires LastClock(events, start) <= now
    ensures Run(db, events).GetReply(key, now) == ref.Run(events).Reply(key, now)
  {
    ServerMatchesReference(hash, db, ref, events, start, key);
    MatchesReply(Run(db, events), ref.Run(events), key, LastClock(events, start), now);
  }

  /** A SET without EX takes effect just when no deadline of the key has passed: an old deadline is kept. */
  lemma SetWithoutExpiryTakesEffect(db: Db, key: Bytes, value: Bytes, now: nat, t: nat)
    ensures Next(db, Event(now, Set(key, value, None))).GetReply(key, t) == Some(value) <==> !db.Expired(key, t)
  {
    var e := Event(now, Set(key, value, None));
    NextGet(db, e, key);
    HasGet(Next(db, e).data, key);
    hide Next;
  }

  // ---------- a SET whose effect depends on the cron job ----------

  // A server with four buckets in each table that holds at most this key, with deadline 5.
  function Small(key: Bytes, held: bool, cursor: nat): Db {
    Db(Store(if held then map[key := []] else map[], 2, false, 0),
       Store(if held then map[key := 5] else map[], 2, false, 0), cursor)
  }

  // The scan call at this cursor, in a tick at clock 10.
  function ScanAt(hash: Hash, key: Bytes, cursor: nat): Event {
    Event(10, Expire(if Slot(hash(key), 2) == cursor then [key] else []))
  }

  // A whole tick at clock 10: the cursor goes through the four buckets, and nothing is to be rehashed.
  function SmallTick(hash: Hash, key: Bytes): seq<Event> {
    [ScanAt(hash, key, 0), ScanAt(hash, key, 2), ScanAt(hash, key, 1), ScanAt(hash, key, 3),
     Event(10, ActivateData), Event(10, StepData), Event(10, ActivateExpire), Event(10, StepExpire)]
  }

  lemma FourBuckets()
    ensures Pow2(2) == 4
  {}

  lemma CursorOfFour(c: nat, k: nat)
    requires k == 2 && c < 4
    ensures NextCursor(c, k) == if c == 0 then 2 else if c == 2 then 1 else if c == 1 then 3 else 0
  {
    hide NextCursor;
    NextInterval(0, k - 2, k - 2);
    NextRefined(0, k - 2);
    NextRefined(0, k - 1);
    NextRefined(1, k - 1);
  }

  lemma ScanOfSmall(hash: Hash, key: Bytes, held: bool, cursor: nat)
    requires !held ==> Slot(hash(key), 2) != cursor
    ensures Small(key, held, cursor).Due(hash, 10, ScanAt(hash, key, cursor).op.keys)
    ensures Next(Small(key, held, cursor), ScanAt(hash, key, cursor))
         == Small(key, held && Slot(hash(key), 2) != cursor, NextCursor(cursor, 2))
  {
    hide Slot, NextCursor;
    var db, keys := Small(key, held, cursor), ScanAt(hash, key, cursor).op.keys;
    if Slot(hash(key), 2) == cursor {
      assert keys[..0] == [];
      assert db.RemoveAll(keys) == db.RemoveAll([]).Remove(key);
      assert map[key := 5] - {key} == map[];
      var none: map<Bytes, Bytes> := map[];
      assert map[key := []] - {key} == none;
      FourBuckets();
    }
  }

  lemma TickOfSmall(hash: Hash, key: Bytes, events: seq<Event>, db: Db, start: nat)
    requires Possible(hash, db, events, start) && LastClock(events, start) <= 10
    requires Run(db, events) == Small(key, true, 0)
    ensures Possible(hash, db, events + SmallTick(hash, key), start)
    ensures Run(db, events + SmallTick(hash, key)) == Small(key, false, 0)
    ensures LastClock(events + SmallTick(hash, key), start) == 10
  {
    hide Slot, NextCursor, Next, Db.Due, Small, Possible, Run, LastClock, Pow2;
    var t, slot := SmallTick(hash, key), Slot(hash(key), 2);
    SlotBelowFour(hash(key));
    var order: seq<nat> := [0, 2, 1, 3, 0];
    var all, held, i := events, true, 0;
    assert all == events + t[..0];
    while i < 8
      invariant 0 <= i <= 8 && all == events + t[..i]
      invariant Possible(hash, db, all, start) && LastClock(all, start) <= 10
      invariant i > 0 ==> LastClock(all, start) == 10
      invariant held <==> !(exists j :: 0 <= j < i && j < 4 && order[j] == slot)
      invariant Run(db, all) == Small(key, held, if i < 4 then order[i] else 0)
    {
      if i < 4 {
        CursorOfFour(order[i], 2);
        ScanOfSmall(hash, key, held, order[i]);
        held := held && slot != order[i];
      } else {
        NothingToRehash(key, held, 0, t[i]);
      }
      OneMoreEvent(hash, db, all, start, t[i]);
      assert t[..i + 1] == t[..i] + [t[i]];
      all, i := all + [t[i]], i + 1;
    }
    assert t[..8] == t;
    assert slot in [order[0], order[1], order[2], order[3]];
  }

  lemma SlotBelowFour(h: nat)
    ensures Slot(h, 2) == 0 || Slot(h, 2) == 1 || Slot(h, 2) == 2 || Slot(h, 2) == 3
  {
    FourBuckets();
  }

  lemma PutFirst<V>(key: Bytes, value: V)
    ensures Store(map[], 2, false, 0).Put(key, value) == Store(map[key := value], 2, false, 0)
  {
    FourBuckets();
    var m: map<Bytes, V> := map[];
    assert m[key := value] == map[key := value];
  }

  lemma Idle<V>(s: Store<V>)
    requires |s.contents| <= 1 && s.bits == 2 && !s.active
    ensures s.ActivateIfNeeded() == s.RehashStep() == s
  {
    FourBuckets();
  }

  lemma NothingToRehash(key: Bytes, held: bool, cursor: nat, e: Event)
    requires e.op.ActivateData? || e.op.StepData? || e.op.ActivateExpire? || e.op.StepExpire?
    ensures Next(Small(key, held, cursor), e) == Small(key, held, cursor)
  {
    hide Store.ActivateIfNeeded, Store.RehashStep;
    Idle(Small(key, held, cursor).data);
    Idle(Small(key, held, cursor).expire);
  }

  /** Without the condition on SET the reply depends on whether the cron job came first: from the empty server, a key
      set with EX 0 at clock 5 and set again without EX at clock 10, before or after a tick. */
  lemma StaleSetDependsOnCron(hash: Hash)
    ensures var key, value := [1 as Byte], [7 as Byte];
            var db := Db(Store(map[], 2, false, 0), Store(map[], 2, false, 0), 0);
            var first, second := Event(5, Set(key, [], Some(0))), Event(10, Set(key, value, None));
            var early, late := [first, second], [first] + SmallTick(hash, key) + [second];
            && Possible(hash, db, early, 5) && Possible(hash, db, late, 5)
            && Run(db, early).GetReply(key, 10) == None && Run(db, late).GetReply(key, 10) == Some(value)
  {
    hide Slot, Next, Run, Possible, LastClock, Pow2;
    var key, value := [1 as Byte], [7 as Byte];
    var db := Db(Store(map[], 2, false, 0), Store(map[], 2, false, 0), 0);
    var first, second := Event(5, Set(key, [], Some(0))), Event(10, Set(key, value, None));
    NoEvents(hash, db, 5);
    OneMoreEvent(hash, db, [], 5, first);
    FirstSet(db, key);
    assert [] + [first] == [first] && [first] + [second] == [first, second];
    OneMoreEvent(hash, db, [first], 5, second);
    TickOfSmall(hash, key, [first], db, 5);
    OneMoreEvent(hash, db, [first] + SmallTick(hash, key), 5, second);
    SetWithoutExpiryTakesEffect(Small(key, true, 0), key, value, 10, 10);
    SetWithoutExpiryTakesEffect(Small(key, false, 0), key, value, 10, 10);
    NextGet(Small(key, true, 0), second, key);
    HasGet(Next(Small(key, true, 0), second).data, key);
  }

  lemma FirstSet(db: Db, key: Bytes)
    requires db == Db(Store(map[], 2, false, 0), Store(map[], 2, false, 0), 0)
    ensures Next(db, Event(5, Set(key, [], Some(0)))) == Small(key, true, 0)
  {
    hide Store.Put;
    var value: Bytes := [];
    PutFirst(key, value);
    PutFirst(key, 5 as nat);
  }

  // ---------- a full sweep of the deadline table ----------

  // The entry awaits the cursor, or has been removed from both tables.
  ghost predicate AwaitsSweep(hash: Hash, db: Db, key: Bytes, deadline: nat) {
    || (db.data.Get(key) == None && db.expire.Get(key) == None)
    || (db.expire.Get(key) == Some(deadline) && RevBits(db.cursor, WIDTH) <= RevBits(hash(key), WIDTH))
  }

  lemma NotYetSwept(hash: Hash, db: Db, e: Event, key: Bytes, deadline: nat)
    requires db.cursor < Pow2(db.expire.bits) && db.expire.bits <= WIDTH
    requires AwaitsSweep(hash, db, key, deadline) && deadline < e.now
    requires e.op.Expire? && db.Due(hash, e.now, e.op.keys)
    ensures AwaitsSweep(hash, Next(db, e), key, deadline)
    ensures Next(db, e).cursor == 0 ==> Next(db, e).data.Get(key) == None && Next(db, e).expire.Get(key) == None
  {
    hide Next, RevBits, NextCursor, Slot, Store.Get;
    NextGet(db, e, key);
    HasGet(db.expire, key);
    BucketInterval(hash(key), db.cursor, db.expire.bits, WIDTH);
    NextInterval(db.cursor, db.expire.bits, WIDTH);
    RevBitsBound(hash(key), WIDTH);
  }

  lemma {:induction false} SweepReaches(hash: Hash, db: Db, events: seq<Event>, start: nat, key: Bytes, deadline: nat)
    requires Possible(hash, db, events, start) && Run(db, events).expire.bits <= WIDTH
    requires db.cursor == 0 && deadline < start && db.expire.Get(key) == Some(deadline)
    requires forall i | 0 <= i < |events| :: !(events[i].op.Set? && events[i].op.key == key)
    ensures AwaitsSweep(hash, Run(db, events), key, deadline)
    ensures Run(db, events).cursor < Pow2(Run(db, events).expire.bits)
    ensures start <= LastClock(events, start)
    ensures events != [] && events[|events| - 1].op.Expire? && Run(db, events).cursor == 0 ==>
              Run(db, events).data.Get(key) == None && Run(db, events).expire.Get(key) == None
  {
    hide Next, RevBits, NextCursor, Store.Get;
    if events == [] {
      RevBitsZero(WIDTH);
    } else {
      var before, e := events[..|events| - 1], events[|events| - 1];
      assert e == events[|events| - 1];
      var db' := Run(db, before);
      NextGet(db', e, key);
      SweepReaches(hash, db, before, start, key, deadline);
      CursorInRange(db', e);
      if e.op.Expire? { NotYetSwept(hash, db', e, key, deadline); }
    }
  }

  lemma CursorInRange(db: Db, e: Event)
    requires db.cursor < Pow2(db.expire.bits) && db.expire.bits <= WIDTH
    ensures Next(db, e).cursor < Pow2(Next(db, e).expire.bits)
  {
    hide Next, RevBits, NextCursor;
    NextGet(db, e, []);
    NextInterval(db.cursor, db.expire.bits, WIDTH);
    PowMonotone(db.expire.bits, Next(db, e).expire.bits);
  }

  /** A full sweep, over any number of cron ticks and interleaved with any commands and rehash steps, removes from
      both tables every entry whose deadline was before the first clock reading and that was not set again. */
  lemma SweepIsComplete(hash: Hash, db: Db, events: seq<Event>, start: nat, key: Bytes)
    requires Possible(hash, db, events, start) && Run(db, events).expire.bits <= WIDTH
    requires db.cursor == 0 && Run(db, events).cursor == 0 && events != [] && events[|events| - 1].op.Expire?
    requires db.Expired(key, start) && forall i | 0 <= i < |events| :: !(events[i].op.Set? && events[i].op.key == key)
    ensures !Run(db, events).data.Has(key) && !Run(db, events).expire.Has(key)
  {
    SweepReaches(hash, db, events, start, key, db.expire.Get(key).value);
  }
}
