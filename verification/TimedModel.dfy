/** The data table and the deadline table, and what the commands and the cron job do to them. */
module TimedModel {
  import opened Cursor
  import opened StoreModel

  // The deadline of the key has passed.
  predicate IsDue(expire: Store<nat>, key: Bytes, now: nat) {
    var when := expire.Get(key);
    when.Some? && now > when.value
  }

  // `cursor` is that of the active-expiry scan over the deadline table.
  datatype Db = Db(data: Store<Bytes>, expire: Store<nat>, cursor: nat) {
    predicate Expired(key: Bytes, now: nat) {
      IsDue(expire, key, now)
    }

    /** Every key with a deadline has a value. */
    ghost predicate Consistent() {
      forall k | expire.Has(k) :: data.Has(k)
    }

    /** The entries whose deadline, if any, has not passed. */
    ghost function Live(now: nat): map<Bytes, Bytes> {
      map k | k in data.contents && !Expired(k, now) :: data.contents[k]
    }

    function Set(key: Bytes, value: Bytes, ex: Option<nat>, now: nat): Db {
      Db(data.Put(key, value), if ex.Some? then expire.Put(key, now + ex.value * 1000) else expire, cursor)
    }

    function Remove(key: Bytes): Db {
      Db(data.Delete(key), expire.Delete(key), cursor)
    }

    /** GET removes the key when it finds it expired. */
    function Get(key: Bytes, now: nat): Db {
      if data.Has(key) && Expired(key, now) then Remove(key) else this
    }

    function GetReply(key: Bytes, now: nat): Option<Bytes> {
      if data.Has(key) && Expired(key, now) then None else data.Get(key)
    }

    function RemoveAll(keys: seq<Bytes>): Db {
      if keys == [] then this else RemoveAll(keys[..|keys| - 1]).Remove(keys[|keys| - 1])
    }

    /** One call of the active-expiry scan, which removed the given keys. */
    function ExpireBucket(keys: seq<Bytes>): Db {
      RemoveAll(keys).(cursor := NextCursor(cursor, expire.bits))
    }

    /** The keys that an active-expiry scan call has to remove. */
    ghost predicate Due(hash: Hash, now: nat, keys: seq<Bytes>) {
      && (forall i, j | 0 <= i < j < |keys| :: keys[i] != keys[j])
      && forall k :: k in keys <==> k in expire.Bucket(hash, cursor) && Expired(k, now)
    }
  }

  // ---------- what one operation does, key by key ----------

  lemma DeleteGet<V>(s: Store<V>, key: Bytes, k: Bytes)
    ensures s.Delete(key).Get(k) == (if k == key then None else s.Get(k)) && s.Delete(key).bits == s.bits
    ensures s.Has(k) <==> s.Get(k).Some?
  {}

  lemma PutGet<V>(s: Store<V>, key: Bytes, value: V, k: Bytes)
    ensures s.Put(key, value).Get(k) == (if k == key then Some(value) else s.Get(k)) && s.Put(key, value).bits == s.bits
  {}

  lemma RehashGet<V>(s: Store<V>, k: Bytes)
    ensures s.ActivateIfNeeded().Get(k) == s.RehashStep().Get(k) == s.Get(k)
    ensures s.ActivateIfNeeded().bits == s.bits <= s.RehashStep().bits
  {}

  lemma {:induction false} RemoveAllGet(db: Db, keys: seq<Bytes>, k: Bytes)
    ensures var db' := db.RemoveAll(keys);
            && db'.data.Get(k) == (if k in keys then None else db.data.Get(k))
            && db'.expire.Get(k) == (if k in keys then None else db.expire.Get(k))
            && db'.expire.bits == db.expire.bits && db'.cursor == db.cursor
  {
    hide Store.Delete, Store.Get;
    if keys != [] {
      var init, last := keys[..|keys| - 1], keys[|keys| - 1];
      assert keys == init + [last];
      RemoveAllGet(db, init, k);
      DeleteGet(db.RemoveAll(init).data, last, k);
      DeleteGet(db.RemoveAll(init).expire, last, k);
    }
  }

  lemma {:induction false} RemoveAllConcat(db: Db, a: seq<Bytes>, b: seq<Bytes>)
    ensures db.RemoveAll(a + b) == db.RemoveAll(a).RemoveAll(b)
  {
    if b == [] {
      assert a + b == a;
    } else {
      var init := b[..|b| - 1];
      assert (a + b)[..|a + b| - 1] == a + init;
      RemoveAllConcat(db, a, init);
    }
  }

  // ---------- runs ----------

  datatype Op =
    | Set(key: Bytes, value: Bytes, ex: Option<nat>)
    | Get(key: Bytes)
    | Exists(key: Bytes)
    | Echo(message: Bytes)
    | Del(key: Bytes)
    | Expire(keys: seq<Bytes>)  // one call of the active-expiry scan, removing these keys
    | ActivateData
    | ActivateExpire
    | StepData
    | StepExpire

  // An operation and the clock reading it uses.
  datatype Event = Event(now: nat, op: Op)

  function Next(db: Db, e: Event): Db {
    match e.op
    case Set(key, value, ex) => db.Set(key, value, ex, e.now)
    case Get(key) => db.Get(key, e.now)
    case Exists(key) => db
    case Echo(message) => db
    case Del(key) => db.Remove(key)
    case Expire(keys) => db.ExpireBucket(keys)
    case ActivateData => db.(data := db.data.ActivateIfNeeded())
    case ActivateExpire => db.(expire := db.expire.ActivateIfNeeded())
    case StepData => db.(data := db.data.RehashStep())
    case StepExpire => db.(expire := db.expire.RehashStep())
  }

  function Run(db: Db, events: seq<Event>): Db {
    if events == [] then db else Next(Run(db, events[..|events| - 1]), events[|events| - 1])
  }

  // Every scan call in the run removed exactly the keys that were due, and the clock never went back.
  ghost predicate Possible(hash: Hash, db: Db, events: seq<Event>, start: nat) {
    events != [] ==>
      var before, e := events[..|events| - 1], events[|events| - 1];
      && Possible(hash, db, before, start)
      && LastClock(before, start) <= e.now
      && (e.op.Expire? ==> Run(db, before).Due(hash, e.now, e.op.keys))
  }

  function LastClock(events: seq<Event>, start: nat): nat {
    if events == [] then start else events[|events| - 1].now
  }

  lemma NoEvents(hash: Hash, db: Db, start: nat)
    ensures Possible(hash, db, [], start) && Run(db, []) == db && LastClock([], start) == start
  {}

  lemma OneMoreEvent(hash: Hash, db: Db, events: seq<Event>, start: nat, e: Event)
    requires Possible(hash, db, events, start) && LastClock(events, start) <= e.now
    requires e.op.Expire? ==> Run(db, events).Due(hash, e.now, e.op.keys)
    ensures Possible(hash, db, events + [e], start) && Run(db, events + [e]) == Next(Run(db, events), e)
    ensures LastClock(events + [e], start) == e.now
  {
    hide Next, Db.Due;
    assert (events + [e])[..|events|] == events;
  }

  lemma {:induction false} RunConcat(db: Db, a: seq<Event>, b: seq<Event>)
    ensures Run(db, a + b) == Run(Run(db, a), b)
  {
    hide Next;
    if b == [] {
      assert a + b == a;
    } else {
      assert (a + b)[..|a + b| - 1] == a + b[..|b| - 1];
      RunConcat(db, a, b[..|b| - 1]);
    }
  }

  /** Runs follow one another: ticks of the cron job and commands make up one possible run. */
  lemma {:induction false} PossibleConcat(hash: Hash, db: Db, a: seq<Event>, b: seq<Event>, start: nat)
    requires Possible(hash, db, a, start) && Possible(hash, Run(db, a), b, LastClock(a, start))
    ensures Possible(hash, db, a + b, start) && Run(db, a + b) == Run(Run(db, a), b)
    ensures LastClock(a + b, start) == LastClock(b, LastClock(a, start))
  {
    hide Next, Db.Due;
    RunConcat(db, a, b);
    if b == [] {
      assert a + b == a;
    } else {
      var init := b[..|b| - 1];
      assert (a + b)[..|a + b| - 1] == a + init;
      PossibleConcat(hash, db, a, init, start);
      RunConcat(db, a, init);
    }
  }

  /** The events before any point of a possible run are a possible run. */
  lemma {:induction false} PossibleUpTo(hash: Hash, db: Db, events: seq<Event>, start: nat, k: nat)
    requires Possible(hash, db, events, start) && k < |events|
    ensures Possible(hash, db, events[..k], start) && LastClock(events[..k], start) <= events[k].now
  {
    hide Next, Db.Due;
    var init := events[..|events| - 1];
    if k < |init| {
      assert init[..k] == events[..k];
      PossibleUpTo(hash, db, init, start, k);
    }
  }

  /** A possible run is one up to any point, and one from there on. */
  lemma {:induction false} PossibleSplit(hash: Hash, db: Db, events: seq<Event>, start: nat, k: nat)
    requires Possible(hash, db, events, start) && k <= |events|
    ensures Possible(hash, db, events[..k], start)
    ensures Possible(hash, Run(db, events[..k]), events[k..], LastClock(events[..k], start))
    ensures Run(db, events) == Run(Run(db, events[..k]), events[k..])
    ensures LastClock(events, start) == LastClock(events[k..], LastClock(events[..k], start))
  {
    hide Next, Db.Due;
    if k == |events| {
      assert events[..k] == events && events[k..] == [];
    } else {
      var init := events[..|events| - 1];
      assert init[..k] == events[..k] && events[k..][..|events[k..]| - 1] == init[k..];
      PossibleSplit(hash, db, init, start, k);
    }
  }

  lemma OneMoreOf(db: Db, events: seq<Event>, i: nat)
    requires i < |events|
    ensures Run(db, events[..i + 1]) == Next(Run(db, events[..i]), events[i])
  {
    hide Next;
    assert events[..i + 1][..i] == events[..i];
  }

  /** A run that is possible from one clock reading on is possible from any earlier one. */
  lemma {:induction false} PossibleSooner(hash: Hash, db: Db, events: seq<Event>, start: nat, sooner: nat)
    requires Possible(hash, db, events, start) && sooner <= start
    ensures Possible(hash, db, events, sooner)
  {
    hide Next, Db.Due;
    if events != [] { PossibleSooner(hash, db, events[..|events| - 1], start, sooner); }
  }

  // ---------- what every operation keeps ----------

  /** How one event changes the entries of one key. */
  lemma NextGet(db: Db, e: Event, k: Bytes)
    ensures var db' := Next(db, e);
            && db'.data.Get(k) == (match e.op
                                   case Set(key, value, ex) => if k == key then Some(value) else db.data.Get(k)
                                   case Get(key) =>
                                     if k == key && db.data.Has(key) && db.Expired(key, e.now) then None
                                     else db.data.Get(k)
                                   case Del(key) => if k == key then None else db.data.Get(k)
                                   case Expire(keys) => if k in keys then None else db.data.Get(k)
                                   case _ => db.data.Get(k))
            && db'.expire.Get(k) == (match e.op
                                     case Set(key, value, ex) =>
                                       if k == key && ex.Some? then Some(e.now + ex.value * 1000) else db.expire.Get(k)
                                     case Get(key) =>
                                       if k == key && db.data.Has(key) && db.Expired(key, e.now) then None
                                       else db.expire.Get(k)
                                     case Del(key) => if k == key then None else db.expire.Get(k)
                                     case Expire(keys) => if k in keys then None else db.expire.Get(k)
                                     case _ => db.expire.Get(k))
            && db.expire.bits <= db'.expire.bits
            && (db'.cursor == if e.op.Expire? then NextCursor(db.cursor, db.expire.bits) else db.cursor)
  {
    hide Store.Delete, Store.Put, Store.Get, Store.ActivateIfNeeded, Store.RehashStep;
    RehashGet(db.data, k);
    RehashGet(db.expire, k);
    match e.op
    case Set(key, value, ex) =>
      PutGet(db.data, key, value, k);
      if ex.Some? { PutGet(db.expire, key, e.now + ex.value * 1000, k); }
    case Get(key) =>
      DeleteGet(db.data, key, k);
      DeleteGet(db.expire, key, k);
    case Del(key) =>
      DeleteGet(db.data, key, k);
      DeleteGet(db.expire, key, k);
    case Expire(keys) =>
      RemoveAllGet(db, keys, k);
    case _ =>
  }

  lemma HasGet<V>(s: Store<V>, k: Bytes)
    ensures s.Has(k) <==> s.Get(k).Some?
  {}

  /** No event leaves a key with a deadline and without a value. */
  lemma StaysConsistent(db: Db, e: Event)
    requires db.Consistent()
    ensures Next(db, e).Consistent()
  {
    hide Next, Store.Has, Store.Get;
    forall k | Next(db, e).expire.Has(k) ensures Next(db, e).data.Has(k) {
      NextGet(db, e, k);
      HasGet(db.data, k);
      HasGet(db.expire, k);
      HasGet(Next(db, e).data, k);
      HasGet(Next(db, e).expire, k);
    }
  }

  lemma {:induction false} AlwaysConsistent(db: Db, events: seq<Event>)
    requires db.Consistent()
    ensures Run(db, events).Consistent()
  {
    hide Next;
    if events != [] {
      AlwaysConsistent(db, events[..|events| - 1]);
      StaysConsistent(Run(db, events[..|events| - 1]), events[|events| - 1]);
    }
  }

  /** GET replies from the live view. */
  lemma GetRepliesLive(db: Db, key: Bytes, now: nat)
    ensures db.GetReply(key, now) == if key in db.Live(now) then Some(db.Live(now)[key]) else None
  {}
}
