/** Sessions and the timed store together: what the client of a session is sent, among the commands of other clients and
    the ticks of the cron job. */
module Histories {
  import opened StoreModel
  import opened TimedModel
  import opened Expiry
  import opened Protocol
  import opened Pipelining
  import opened Conversations
  import Answers

  // What a happening did to the tables: events at clock readings from `began` on.
  datatype Episode = Episode(began: nat, events: seq<Event>)

  function Flat(story: seq<Episode>): seq<Event> {
    if story == [] then [] else Flat(story[..|story| - 1]) + story[|story| - 1].events
  }

  // The episode tells what the happening did: a read executed its commands, and others went through a possible run.
  ghost predicate Explains(timeout: Timeout, hash: Hash, t: Talk, h: Happening, e: Episode)
    requires Allowed(t, h)
  {
    match h
    case Read(chunk, clock) =>
      if t.parser.Failed() then e.events == [] else
        var commands := Pipeline(t.parser, chunk, 0).commands;
        e.events == EventsOf(timeout, commands, clock) && Forward(clock, |commands|, e.began)
    case Write(accepted) => e.events == []
    case Elsewhere(db) => Possible(hash, t.db, e.events, e.began) && db == Run(t.db, e.events)
  }

  // The story explains every happening of the run, and its clock does not go back.
  ghost predicate Explained(timeout: Timeout, hash: Hash, t: Talk, run: seq<Happening>, story: seq<Episode>, start: nat)
    requires AllAllowed(timeout, t, run)
    decreases |run|
  {
    && |story| == |run|
    && (run != [] ==>
          var n := |run| - 1;
          && Explained(timeout, hash, t, run[..n], story[..n], start)
          && LastClock(Flat(story[..n]), start) <= story[n].began
          && Explains(timeout, hash, After(timeout, t, run[..n]), run[n], story[n]))
  }

  lemma EpisodeIsRun(timeout: Timeout, hash: Hash, t: Talk, h: Happening, e: Episode)
    requires Allowed(t, h) && Explains(timeout, hash, t, h, e)
    ensures Possible(hash, t.db, e.events, e.began) && Happen(timeout, t, h).db == Run(t.db, e.events)
  {
    hide Pipeline, Known, Execute, EventsOf, RepliesOf, Forward, Db.Due;
    match h
    case Read(chunk, clock) =>
      if !t.parser.Failed() {
        ExecuteRuns(timeout, hash, t.db, Pipeline(t.parser, chunk, 0).commands, clock, e.began);
      }
    case Write(accepted) =>
    case Elsewhere(db) =>
  }

  /** The tables of a session go through one possible run: its own commands, those of others, and the cron ticks. */
  lemma {:induction false} StoryIsRun(timeout: Timeout, hash: Hash, t: Talk, run: seq<Happening>, story: seq<Episode>,
                                      start: nat)
    requires AllAllowed(timeout, t, run) && Explained(timeout, hash, t, run, story, start)
    ensures Possible(hash, t.db, Flat(story), start)
    ensures After(timeout, t, run).db == Run(t.db, Flat(story))
  {
    hide Happen, Allowed, Explains, Possible, Run, LastClock;
    if run == [] {
      NoEvents(hash, t.db, start);
    } else {
      var n := |run| - 1;
      var before, e := Flat(story[..n]), story[n];
      StoryIsRun(timeout, hash, t, run[..n], story[..n], start);
      EpisodeIsRun(timeout, hash, After(timeout, t, run[..n]), run[n], e);
      PossibleSooner(hash, Run(t.db, before), e.events, e.began, LastClock(before, start));
      PossibleConcat(hash, t.db, before, e.events, start);
    }
  }

  /** The j-th command of a read is executed on the tables that the ones before it leave. */
  lemma {:induction false} CommandAt(timeout: Timeout, db: Db, commands: seq<seq<Bytes>>, clock: nat -> nat, j: nat)
    requires (forall i | 0 <= i < |commands| :: Known(commands[i])) && j < |commands|
    ensures var log, events := Execute(timeout, db, commands, clock).1, EventsOf(timeout, commands, clock);
            && |log| == |events| == |commands|
            && log[j] == Executed(commands[j], clock(j), Run(db, events[..j]),
                                  ReplyTo(Run(db, events[..j]), commands[j], clock(j)))
            && events[j] == Event(clock(j), Operation(timeout, commands[j]))
  {
    hide Next, ReplyTo, Operation, Known;
    var n := |commands| - 1;
    var events, init := EventsOf(timeout, commands, clock), EventsOf(timeout, commands[..n], clock);
    assert events[..n] == init;
    ExecuteRuns(timeout, _ => 0, db, commands[..n], clock, 0);
    LogLength(timeout, db, commands[..n], clock);
    if j < n {
      assert events[..j] == init[..j];
      CommandAt(timeout, db, commands[..n], clock, j);
    }
  }

  lemma LogLength(timeout: Timeout, db: Db, commands: seq<seq<Bytes>>, clock: nat -> nat)
    requires forall i | 0 <= i < |commands| :: Known(commands[i])
    ensures |Execute(timeout, db, commands, clock).1| == |commands|
  {
    hide Execute, Known;
    ExecuteLogs(timeout, db, commands, clock);
  }

  lemma OneEpisodeEach(timeout: Timeout, hash: Hash, t: Talk, run: seq<Happening>, story: seq<Episode>, start: nat)
    requires AllAllowed(timeout, t, run) && Explained(timeout, hash, t, run, story, start)
    ensures |story| == |run|
  {}

  // The place of the j-th executed command of a session among the events of its story.
  ghost function Position(timeout: Timeout, t: Talk, run: seq<Happening>, story: seq<Episode>, j: nat): nat
    requires AllAllowed(timeout, t, run) && |story| == |run|
    decreases |run|
  {
    if run == [] then 0 else
      var n := |run| - 1;
      var before := After(timeout, t, run[..n]).log;
      if j < |before| then Position(timeout, t, run[..n], story[..n], j)
      else |Flat(story[..n])| + (j - |before|)
  }

  lemma {:induction false} PositionOf(timeout: Timeout, hash: Hash, db: Db, run: seq<Happening>, story: seq<Episode>,
                                      start: nat, j: nat)
    requires AllAllowed(timeout, Opened(db), run) && Explained(timeout, hash, Opened(db), run, story, start)
    requires j < |After(timeout, Opened(db), run).log|
    ensures var e, events := After(timeout, Opened(db), run).log[j], Flat(story);
            var k := Position(timeout, Opened(db), run, story, j);
            && k < |events| && Known(e.args) && events[k] == Event(e.now, Operation(timeout, e.args))
            && e.db == Run(db, events[..k]) && e.reply == ReplyTo(e.db, e.args, e.now)
    decreases |run|
  {
    hide Pipeline, Known, Execute, EventsOf, RepliesOf, Forward, Possible, Run, LastClock, ReplyTo, Operation;
    var n := |run| - 1;
    var t, h, before := After(timeout, Opened(db), run[..n]), run[n], Flat(story[..n]);
    assert Flat(story) == before + story[n].events;
    if j < |t.log| {
      PositionOf(timeout, hash, db, run[..n], story[..n], start, j);
      var k := Position(timeout, Opened(db), run[..n], story[..n], j);
      assert Flat(story)[..k] == before[..k];
    } else {
      var commands, i := Pipeline(t.parser, h.chunk, 0).commands, j - |t.log|;
      LogLength(timeout, t.db, commands, h.clock);
      CommandAt(timeout, t.db, commands, h.clock, i);
      StoryIsRun(timeout, hash, Opened(db), run[..n], story[..n], start);
      assert Flat(story)[..|before| + i] == before + story[n].events[..i];
      RunConcat(db, before, story[n].events[..i]);
    }
  }

  /** The executed commands of a session stand in its story in the order of the log. */
  lemma {:induction false} PositionsInOrder(timeout: Timeout, hash: Hash, db: Db, run: seq<Happening>,
                                            story: seq<Episode>, start: nat, i: nat, j: nat)
    requires AllAllowed(timeout, Opened(db), run) && Explained(timeout, hash, Opened(db), run, story, start)
    requires i < j < |After(timeout, Opened(db), run).log|
    ensures Position(timeout, Opened(db), run, story, i) < Position(timeout, Opened(db), run, story, j)
    decreases |run|
  {
    hide Happen, Allowed, Explains;
    if run != [] {
      var n := |run| - 1;
      var before := After(timeout, Opened(db), run[..n]).log;
      if j < |before| {
        PositionsInOrder(timeout, hash, db, run[..n], story[..n], start, i, j);
      } else if i < |before| {
        PositionOf(timeout, hash, db, run[..n], story[..n], start, i);
      }
    }
  }

  /** Every executed command of a session is an event of its story: the command that its arguments say, on the tables at
      that point, with the reply that the protocol has for it. */
  lemma CommandInStory(timeout: Timeout, hash: Hash, db: Db, run: seq<Happening>, story: seq<Episode>, start: nat,
                       j: nat)
    requires AllAllowed(timeout, Opened(db), run) && Explained(timeout, hash, Opened(db), run, story, start)
    requires j < |After(timeout, Opened(db), run).log|
    ensures var e, events := After(timeout, Opened(db), run).log[j], Flat(story);
            var k, name, key := Position(timeout, Opened(db), run, story, j), Arg(e.args, 0), Arg(e.args, 1);
            && k < |events| && e.db == Run(db, events[..k]) && name in [SET, GET, EXISTS, DEL, ECHO]
            && (name == SET ==>
                  && events[k] == Event(e.now, Set(key, Arg(e.args, 2),
                                                   if |e.args| > 4 then Some(timeout(e.args[4])) else None))
                  && e.reply == [43, 79, 75, 13, 10])
            && (name == GET ==>
                  && events[k] == Event(e.now, Get(key))
                  && e.reply == match e.db.GetReply(key, e.now)
                                case Some(value) => EncodeString(value)
                                case None => [95, 13, 10])
            && (name == EXISTS ==>
                  && events[k] == Event(e.now, Exists(key))
                  && e.reply == if e.db.data.Has(key) then [35, 116, 13, 10] else [35, 102, 13, 10])
            && (name == DEL ==>
                  && events[k] == Event(e.now, Del(key))
                  && e.reply == if e.db.data.Has(key) then [58, 49, 13, 10] else [58, 48, 13, 10])
            && (name == ECHO ==> events[k] == Event(e.now, Echo(key)) && e.reply == [43] + key + [13, 10])
  {
    hide AllAllowed, Explained, After, Run, Flat, Position, Decimal, Store.Has, Db.GetReply;
    PositionOf(timeout, hash, db, run, story, start, j);
  }

  lemma {:induction false} NoStaleSetUpTo(ref: Reference, events: seq<Event>, k: nat)
    requires ref.NoStaleSet(events) && k <= |events|
    ensures ref.NoStaleSet(events[..k])
  {
    hide Reference.Next, Reference.Dead;
    if k < |events| {
      assert events[..|events| - 1][..k] == events[..k];
      NoStaleSetUpTo(ref, events[..|events| - 1], k);
    } else {
      assert events[..k] == events;
    }
  }

  /** Every GET of a session, among any commands of others and any cron ticks, reads what the reference server answers
      at that point of the whole history. */
  lemma SessionGetsMatchReference(timeout: Timeout, hash: Hash, db: Db, ref: Reference, run: seq<Happening>,
                                  story: seq<Episode>, start: nat, j: nat)
    requires AllAllowed(timeout, Opened(db), run) && Explained(timeout, hash, Opened(db), run, story, start)
    requires ref.NoStaleSet(Flat(story)) && j < |After(timeout, Opened(db), run).log|
    requires var args := After(timeout, Opened(db), run).log[j].args;
             Arg(args, 0) == GET && Matches(db, ref, Arg(args, 1), start)
    ensures var e, events := After(timeout, Opened(db), run).log[j], Flat(story);
            var k := Position(timeout, Opened(db), run, story, j);
            && k < |events|
            && e.db.GetReply(Arg(e.args, 1), e.now) == ref.Run(events[..k]).Reply(Arg(e.args, 1), e.now)
            && e.reply == match ref.Run(events[..k]).Reply(Arg(e.args, 1), e.now)
                          case Some(value) => EncodeString(value)
                          case None => [95, 13, 10]
  {
    hide AllAllowed, Explained, After, Possible, Run, LastClock, Matches, Flat, Position, Decimal, Db.GetReply;
    OneEpisodeEach(timeout, hash, Opened(db), run, story, start);
    var e, events := After(timeout, Opened(db), run).log[j], Flat(story);
    var k := Position(timeout, Opened(db), run, story, j);
    CommandInStory(timeout, hash, db, run, story, start, j);
    StoryIsRun(timeout, hash, Opened(db), run, story, start);
    PossibleUpTo(hash, db, events, start, k);
    NoStaleSetUpTo(ref, events, k);
    GetMatchesReference(hash, db, ref, events[..k], start, Arg(e.args, 1), e.now);
  }

  /** Read your write, in a session: a GET after a SET of the same key, with no SET or DEL of it by anyone in between,
      is answered with the value just as long as the deadline of the key has not passed. */
  lemma SessionReadsItsWrite(timeout: Timeout, hash: Hash, db: Db, run: seq<Happening>, story: seq<Episode>, start: nat,
                             i: nat, j: nat)
    requires AllAllowed(timeout, Opened(db), run) && Explained(timeout, hash, Opened(db), run, story, start)
    requires i < j < |After(timeout, Opened(db), run).log|
    requires var log := After(timeout, Opened(db), run).log;
             Arg(log[i].args, 0) == SET && Arg(log[j].args, 0) == GET && Arg(log[i].args, 1) == Arg(log[j].args, 1)
    requires var key := Arg(After(timeout, Opened(db), run).log[i].args, 1);
             forall k | Position(timeout, Opened(db), run, story, i) < k < Position(timeout, Opened(db), run, story, j)
                        && k < |Flat(story)| :: Spares(Flat(story)[k].op, key)
    ensures var put, get := After(timeout, Opened(db), run).log[i], After(timeout, Opened(db), run).log[j];
            var deadline := if |put.args| > 4 then Some(put.now + timeout(put.args[4]) * 1000)
                            else put.db.expire.Get(Arg(put.args, 1));
            get.reply == if deadline.None? || get.now <= deadline.value then EncodeString(Arg(put.args, 2))
                         else [95, 13, 10]
  {
    hide AllAllowed, Explained, After, Possible, Run, LastClock, Flat, Position, Decimal, Db.GetReply, Spares,
      Store.Get;
    OneEpisodeEach(timeout, hash, Opened(db), run, story, start);
    var log, events := After(timeout, Opened(db), run).log, Flat(story);
    var p, q := Position(timeout, Opened(db), run, story, i), Position(timeout, Opened(db), run, story, j);
    CommandInStory(timeout, hash, db, run, story, start, i);
    CommandInStory(timeout, hash, db, run, story, start, j);
    PositionsInOrder(timeout, hash, db, run, story, start, i, j);
    StoryIsRun(timeout, hash, Opened(db), run, story, start);
    PossibleUpTo(hash, db, events, start, q);
    assert events[..q][..p] == events[..p];
    ReadYourWrite(hash, db, events[..q], start, p, Arg(log[i].args, 1), Arg(log[i].args, 2),
                  if |log[i].args| > 4 then Some(timeout(log[i].args[4])) else None, log[j].now);
  }

  // ---------- what the client reads ----------

  // The answer to an executed command.
  function AnswerTo(e: Executed): Answers.Answer {
    var name, key := Arg(e.args, 0), Arg(e.args, 1);
    if name == SET then Answers.Simple([79, 75])
    else if name == GET then
      match e.db.GetReply(key, e.now)
      case Some(value) => Answers.Binary(value)
      case None => Answers.Null
    else if name == EXISTS then Answers.Truth(e.db.data.Has(key))
    else if name == ECHO then Answers.Simple(key)
    else Answers.Number(if e.db.data.Has(key) then 1 else 0)
  }

  function AnswersTo(log: seq<Executed>): seq<Answers.Answer> {
    seq(|log|, i requires 0 <= i < |log| => AnswerTo(log[i]))
  }

  lemma {:induction false} AllBytesConcat(a: seq<Answers.Answer>, b: seq<Answers.Answer>)
    ensures Answers.AllBytes(a + b) == Answers.AllBytes(a) + Answers.AllBytes(b)
    decreases |a|
  {
    hide Answers.BytesOf;
    if a == [] {
      assert a + b == b;
    } else {
      assert (a + b)[1..] == a[1..] + b;
      AllBytesConcat(a[1..], b);
    }
  }

  lemma BytesOfOne(a: Answers.Answer)
    ensures Answers.AllBytes([a]) == Answers.BytesOf(a)
  {
    assert [a][1..] == [];
  }

  lemma {:induction false} RepliesAreAnswers(log: seq<Executed>)
    requires forall j | 0 <= j < |log| :: log[j].reply == Answers.BytesOf(AnswerTo(log[j]))
    ensures RepliesOf(log) == Answers.AllBytes(AnswersTo(log))
  {
    hide AnswerTo, Answers.BytesOf, RepliesOf;
    if log == [] {
      NoReplies();
    } else {
      var init, last := log[..|log| - 1], log[|log| - 1];
      assert log == init + [last];
      RepliesAreAnswers(init);
      RepliesConcat(init, [last]);
      ReplyOfOne(last);
      assert AnswersTo(log) == AnswersTo(init) + [AnswerTo(last)];
      AllBytesConcat(AnswersTo(init), [AnswerTo(last)]);
      BytesOfOne(AnswerTo(last));
    }
  }

  lemma ReplyIsAnswer(timeout: Timeout, hash: Hash, db: Db, run: seq<Happening>, story: seq<Episode>, start: nat,
                      j: nat)
    requires AllAllowed(timeout, Opened(db), run) && Explained(timeout, hash, Opened(db), run, story, start)
    requires j < |After(timeout, Opened(db), run).log|
    ensures var e := After(timeout, Opened(db), run).log[j]; e.reply == Answers.BytesOf(AnswerTo(e))
  {
    hide AllAllowed, Explained, After, Run, Flat, Position, Decimal, Store.Has, Db.GetReply;
    CommandInStory(timeout, hash, db, run, story, start, j);
    SmallDecimals();
  }

  lemma SmallDecimals()
    ensures Decimal(0) == [48] && Decimal(1) == [49]
  {}

  /** A client that reads the bytes sent and pending finds one answer for each executed command, in order: OK for a SET;
      for a GET the reference server's value, or null; the presence of the key for EXISTS and DEL; the message for ECHO.
      (The message of an ECHO must not contain a line feed.) */
  lemma SessionAnswers(timeout: Timeout, hash: Hash, db: Db, ref: Reference, run: seq<Happening>, story: seq<Episode>,
                       start: nat, j: nat)
    requires AllAllowed(timeout, Opened(db), run) && Explained(timeout, hash, Opened(db), run, story, start)
    requires ref.NoStaleSet(Flat(story)) && j < |After(timeout, Opened(db), run).log|
    requires var log := After(timeout, Opened(db), run).log;
             forall i | 0 <= i < |log| && Arg(log[i].args, 0) == ECHO :: LF !in Arg(log[i].args, 1)
    requires Matches(db, ref, Arg(After(timeout, Opened(db), run).log[j].args, 1), start)
    ensures var t, events := After(timeout, Opened(db), run), Flat(story);
            var answers, e, k := Answers.ReadAll(t.sent + t.pending), t.log[j],
              Position(timeout, Opened(db), run, story, j);
            var name, key := Arg(e.args, 0), Arg(e.args, 1);
            && |answers| == |t.log| && k < |events|
            && (name == SET ==> answers[j] == Answers.Simple([79, 75]))
            && (name == GET ==>
                  answers[j] == match ref.Run(events[..k]).Reply(key, e.now)
                                case Some(value) => Answers.Binary(value)
                                case None => Answers.Null)
            && (name == EXISTS ==> answers[j] == Answers.Truth(Run(db, events[..k]).data.Has(key)))
            && (name == DEL ==> answers[j] == Answers.Number(if Run(db, events[..k]).data.Has(key) then 1 else 0))
            && (name == ECHO ==> answers[j] == Answers.Simple(key))
  {
    hide AllAllowed, Explained, After, Possible, Run, LastClock, Matches, Flat, Position, Decimal, Db.GetReply,
      Store.Has,
      Answers.ReadAll, Answers.AllBytes, Answers.BytesOf, Reference.Reply, RepliesOf, AnswerTo, Listen;
    var t := After(timeout, Opened(db), run);
    AlwaysSound(timeout, db, run);
    forall i | 0 <= i < |t.log| ensures t.log[i].reply == Answers.BytesOf(AnswerTo(t.log[i])) {
      ReplyIsAnswer(timeout, hash, db, run, story, start, i);
    }
    RepliesAreAnswers(t.log);
    forall i | 0 <= i < |t.log| ensures Answers.Plain(AnswersTo(t.log)[i]) {
      AnswerIs(t.log[i]);
    }
    Answers.ReadAllWritten(AnswersTo(t.log));
    AnswerIs(t.log[j]);
    CommandInStory(timeout, hash, db, run, story, start, j);
    if Arg(t.log[j].args, 0) == GET {
      SessionGetsMatchReference(timeout, hash, db, ref, run, story, start, j);
    }
  }

  lemma AnswerIs(e: Executed)
    ensures var name, key, a := Arg(e.args, 0), Arg(e.args, 1), AnswerTo(e);
            && (name == SET ==> a == Answers.Simple([79, 75]))
            && (name == GET ==> a == match e.db.GetReply(key, e.now)
                                     case Some(value) => Answers.Binary(value)
                                     case None => Answers.Null)
            && (name == EXISTS ==> a == Answers.Truth(e.db.data.Has(key)))
            && (name == DEL ==> a == Answers.Number(if e.db.data.Has(key) then 1 else 0))
            && (name == ECHO ==> a == Answers.Simple(key))
            && (a.Simple? ==> name == SET || name == ECHO)
  {
    hide Db.GetReply, Store.Has;
  }
}
