/** Runs of one client's session: reads of arbitrary chunks, partial writes, and whatever others do to the tables. */
module Conversations {
  import opened StoreModel
  import opened TimedModel
  import opened Protocol
  import opened Pipelining
  import opened Replies

  // ---------- the commands and their replies ----------

  const SET: Bytes := [83, 69, 84]
  const GET: Bytes := [71, 69, 84]
  const ECHO: Bytes := [69, 67, 72, 79]
  const EXISTS: Bytes := [69, 88, 73, 83, 84, 83]
  const DEL: Bytes := [68, 69, 76]

  const PLUS: Byte := 43
  const OK_REPLY: Bytes := [PLUS, 79, 75, CR, LF]
  const NULL_REPLY: Bytes := [95, CR, LF]
  const TRUE_REPLY: Bytes := [35, 116, CR, LF]
  const FALSE_REPLY: Bytes := [35, 102, CR, LF]
  const ZERO_REPLY: Bytes := [58, 48, CR, LF]
  const ONE_REPLY: Bytes := [58, 49, CR, LF]

  // The seconds that an argument of EX denotes.
  type Timeout = Bytes -> nat

  predicate Known(args: seq<Bytes>) {
    args != [] && args[0] in [SET, GET, EXISTS, DEL, ECHO]
  }

  // A missing argument reads as an empty one.
  function Arg(args: seq<Bytes>, i: nat): (arg: Bytes)
    ensures if i < |args| then arg == args[i] else arg == []
  {
    if i < |args| then args[i] else []
  }

  function Operation(timeout: Timeout, args: seq<Bytes>): Op
    requires Known(args)
  {
    if args[0] == SET then Set(Arg(args, 1), Arg(args, 2), if |args| > 4 then Some(timeout(args[4])) else None)
    else if args[0] == GET then Get(Arg(args, 1))
    else if args[0] == EXISTS then Exists(Arg(args, 1))
    else if args[0] == ECHO then Echo(Arg(args, 1))
    else Del(Arg(args, 1))
  }

  function ValueReply(value: Option<Bytes>): Bytes {
    if value.Some? then EncodeString(value.value) else NULL_REPLY
  }

  function ReplyTo(db: Db, args: seq<Bytes>, now: nat): Bytes
    requires Known(args)
  {
    if args[0] == SET then OK_REPLY
    else if args[0] == GET then ValueReply(db.GetReply(Arg(args, 1), now))
    else if args[0] == EXISTS then if db.data.Has(Arg(args, 1)) then TRUE_REPLY else FALSE_REPLY
    else if args[0] == ECHO then [PLUS] + Arg(args, 1) + [CR, LF]
    else if db.data.Has(Arg(args, 1)) then ONE_REPLY else ZERO_REPLY
  }

  // A command that was executed: its arguments, its clock reading, the tables before it and its reply.
  datatype Executed = Executed(args: seq<Bytes>, now: nat, db: Db, reply: Bytes)

  // `clock` gives the reading of each command in turn.
  function Execute(timeout: Timeout, db: Db, commands: seq<seq<Bytes>>, clock: nat -> nat): (Db, seq<Executed>)
    requires forall i | 0 <= i < |commands| :: Known(commands[i])
  {
    if commands == [] then (db, []) else
      var n := |commands| - 1;
      var (before, log) := Execute(timeout, db, commands[..n], clock);
      var args := commands[n];
      (Next(before, Event(clock(n), Operation(timeout, args))),
       log + [Executed(args, clock(n), before, ReplyTo(before, args, clock(n)))])
  }

  function Commands(log: seq<Executed>): seq<seq<Bytes>> {
    seq(|log|, i requires 0 <= i < |log| => log[i].args)
  }

  function RepliesOf(log: seq<Executed>): Bytes {
    Joined(seq(|log|, i requires 0 <= i < |log| => log[i].reply))
  }

  lemma RepliesConcat(a: seq<Executed>, b: seq<Executed>)
    ensures RepliesOf(a + b) == RepliesOf(a) + RepliesOf(b)
    ensures Commands(a + b) == Commands(a) + Commands(b)
  {
    var x := seq(|a|, i requires 0 <= i < |a| => a[i].reply);
    var y := seq(|b|, i requires 0 <= i < |b| => b[i].reply);
    JoinedConcat(x, y);
    assert x + y == seq(|a + b|, i requires 0 <= i < |a + b| => (a + b)[i].reply);
  }

  lemma {:induction false} ExecuteLogs(timeout: Timeout, db: Db, commands: seq<seq<Bytes>>, clock: nat -> nat)
    requires forall i | 0 <= i < |commands| :: Known(commands[i])
    ensures Commands(Execute(timeout, db, commands, clock).1) == commands
  {
    hide Next, ReplyTo, Operation;
    if commands != [] { ExecuteLogs(timeout, db, commands[..|commands| - 1], clock); }
  }

  // ---------- the session ----------

  // Which handler is registered; Ended: the server has exited.
  datatype Mode = Reading | Writing | Ended

  // `pending` are the bytes in the reply list; `fed` are the bytes given to the parser.
  datatype Talk = Talk(mode: Mode, parser: Parser, pending: Bytes, sent: Bytes, log: seq<Executed>, fed: Bytes, db: Db)

  datatype Happening =
    | Read(chunk: Bytes, clock: nat -> nat)
    | Write(accepted: nat)
    | Elsewhere(db: Db)  // other clients and the cron job

  predicate Allowed(t: Talk, h: Happening) {
    match h
    case Read(chunk, clock) =>
      t.mode.Reading? && chunk != [] && !t.parser.state.Done?
      && var commands := Pipeline(t.parser, chunk, 0).commands; forall i | 0 <= i < |commands| :: Known(commands[i])
    case Write(accepted) => t.mode.Writing? && accepted <= |t.pending|
    case Elsewhere(db) => true
  }

  function Happen(timeout: Timeout, t: Talk, h: Happening): Talk
    requires Allowed(t, h)
  {
    match h
    case Read(chunk, clock) =>
      if t.parser.Failed() then t.(mode := Ended) else
        var round := Pipeline(t.parser, chunk, 0);
        var (db, log) := Execute(timeout, t.db, round.commands, clock);
        Talk(if round.complete then Writing else Reading, round.parser, t.pending + RepliesOf(log), t.sent,
             t.log + log, t.fed + round.fed, db)
    case Write(accepted) =>
      t.(mode := if accepted == |t.pending| then Reading else Writing,
         sent := t.sent + t.pending[..accepted], pending := t.pending[accepted..])
    case Elsewhere(db) => t.(db := db)
  }

  predicate AllAllowed(timeout: Timeout, t: Talk, run: seq<Happening>)
    decreases |run|, 0
  {
    run != [] ==>
      var before, last := run[..|run| - 1], run[|run| - 1];
      AllAllowed(timeout, t, before) && Allowed(After(timeout, t, before), last)
  }

  function After(timeout: Timeout, t: Talk, run: seq<Happening>): Talk
    requires AllAllowed(timeout, t, run)
    decreases |run|, 1
  {
    if run == [] then t else Happen(timeout, After(timeout, t, run[..|run| - 1]), run[|run| - 1])
  }

  lemma {:induction false} OneMoreHappens(timeout: Timeout, t: Talk, run: seq<Happening>, k: nat)
    requires AllAllowed(timeout, t, run) && k < |run|
    ensures AllAllowed(timeout, t, run[..k]) && Allowed(After(timeout, t, run[..k]), run[k])
    ensures AllAllowed(timeout, t, run[..k + 1])
    ensures After(timeout, t, run[..k + 1]) == Happen(timeout, After(timeout, t, run[..k]), run[k])
    decreases |run|
  {
    hide Allowed, Happen;
    if k + 1 == |run| {
      assert run[..k + 1] == run;
    } else {
      var init := run[..|run| - 1];
      assert init[..k] == run[..k] && init[..k + 1] == run[..k + 1];
      OneMoreHappens(timeout, t, init, k);
    }
  }

  // Successive write events.
  function Writes(accepted: seq<nat>): seq<Happening> {
    seq(|accepted|, i requires 0 <= i < |accepted| => Write(accepted[i]))
  }

  function Opened(db: Db): Talk {
    Talk(Reading, INIT, [], [], [], [], db)
  }

  // ---------- what holds in every run ----------

  // Sent and pending bytes are the replies of the executed commands; these are the commands in the bytes given to the
  // parser; replies wait only for a write, or behind the beginning of another command; the session is in writing mode
  // only with something to write, and has ended only after a malformed request.
  predicate Sound(t: Talk) {
    && t.sent + t.pending == RepliesOf(t.log)
    && Listen(Stream([], INIT), t.fed) == Stream(Commands(t.log), t.parser)
    && t.parser.Ok() && !t.parser.state.Done?
    && (t.mode.Reading? && t.pending != [] ==> t.parser != INIT)
    && (t.mode.Writing? ==> t.parser == INIT && t.pending != [])
    && (t.mode.Ended? ==> t.parser.Failed())
  }

  lemma {:induction false} RoundEnds(p: Parser, buf: Bytes, pos: nat)
    requires pos < |buf| && p.Ok() && !p.Stopped()
    ensures var round := Pipeline(p, buf, pos);
            && round.parser.Ok() && !round.parser.state.Done?
            && (if round.complete then round.parser == INIT && round.commands != [] else round.parser != INIT)
    decreases |buf| - pos
  {
    hide EndOfCommand, Listen;
    var r := ParseAt(p, buf, pos);
    ParseListens([], p, buf, pos);
    if r.0.state.Done? {
      if pos + r.1 < |buf| { RoundEnds(INIT, buf, pos + r.1); }
    } else {
      ParseFeeds(p, buf, pos);
      FeedShows(p, buf[pos..]);
    }
  }

  // After a byte the parser is not at the start of a command.
  lemma {:induction false} FeedShows(p: Parser, bytes: Bytes)
    requires p.Ok() && bytes != []
    ensures Feed(p, bytes).Ok() && Feed(p, bytes) != INIT
  {
    var init := bytes[..|bytes| - 1];
    if init == [] { FeedNothing(p); } else { FeedShows(p, init); }
  }

  lemma ReplyNonempty(db: Db, args: seq<Bytes>, now: nat)
    requires Known(args)
    ensures ReplyTo(db, args, now) != []
  {}

  lemma RepliesNonempty(timeout: Timeout, db: Db, commands: seq<seq<Bytes>>, clock: nat -> nat)
    requires (forall i | 0 <= i < |commands| :: Known(commands[i])) && commands != []
    ensures RepliesOf(Execute(timeout, db, commands, clock).1) != []
  {
    hide Next, ReplyTo, Operation, Known, RepliesOf, Joined;
    var n := |commands| - 1;
    var (before, log) := Execute(timeout, db, commands[..n], clock);
    var e := Executed(commands[n], clock(n), before, ReplyTo(before, commands[n], clock(n)));
    ReplyNonempty(before, commands[n], clock(n));
    RepliesConcat(log, [e]);
    ReplyOfOne(e);
  }

  lemma ReplyOfOne(e: Executed)
    ensures RepliesOf([e]) == e.reply
  {
    assert seq(1, i requires 0 <= i < 1 => [e][i].reply) == [e.reply];
    JoinedOne(e.reply);
  }

  lemma ReadKeepsSound(timeout: Timeout, t: Talk, chunk: Bytes, clock: nat -> nat)
    requires Sound(t) && Allowed(t, Read(chunk, clock))
    ensures Sound(Happen(timeout, t, Read(chunk, clock)))
  {
    hide Parser.Ok, Listen, Execute, Pipeline, RepliesOf, Known, Commands;
    if !t.parser.Failed() {
      var round := Pipeline(t.parser, chunk, 0);
      var (db, log) := Execute(timeout, t.db, round.commands, clock);
      RoundEnds(t.parser, chunk, 0);
      if round.complete { RepliesNonempty(timeout, t.db, round.commands, clock); }
      ExecuteLogs(timeout, t.db, round.commands, clock);
      RepliesConcat(t.log, log);
      PipelineListens(Commands(t.log), t.parser, chunk, 0);
      ListenConcat(Stream([], INIT), t.fed, round.fed);
      assert t.sent + (t.pending + RepliesOf(log)) == t.sent + t.pending + RepliesOf(log);
    }
  }

  lemma StepKeepsSound(timeout: Timeout, t: Talk, h: Happening)
    requires Sound(t) && Allowed(t, h)
    ensures Sound(Happen(timeout, t, h))
  {
    match h
    case Read(chunk, clock) => ReadKeepsSound(timeout, t, chunk, clock);
    case Write(accepted) =>
      assert t.pending == t.pending[..accepted] + t.pending[accepted..];
      assert t.sent + t.pending == t.sent + t.pending[..accepted] + t.pending[accepted..];
    case Elsewhere(db) =>
  }

  lemma NoReplies()
    ensures RepliesOf([]) == []
  {}

  lemma OpenedSound(db: Db)
    ensures Sound(Opened(db))
  {
    NoReplies();
  }

  /** At every point of every run, the bytes sent and the bytes pending are the replies of the executed commands, in
      order, and the executed commands are those in the bytes that the parser was given. */
  lemma {:induction false} AlwaysSound(timeout: Timeout, db: Db, run: seq<Happening>)
    requires AllAllowed(timeout, Opened(db), run)
    ensures Sound(After(timeout, Opened(db), run))
  {
    hide Happen, Allowed;
    if run == [] {
      OpenedSound(db);
    } else {
      AlwaysSound(timeout, db, run[..|run| - 1]);
      StepKeepsSound(timeout, After(timeout, Opened(db), run[..|run| - 1]), run[|run| - 1]);
    }
  }

  // ---------- runs that skip no byte ----------

  // What the client has sent.
  function Received(run: seq<Happening>): Bytes {
    if run == [] then [] else
      var last := run[|run| - 1];
      Received(run[..|run| - 1]) + if last.Read? then last.chunk else []
  }

  // Every buffer that was read held what one round of the pipelining loop can take.
  predicate ReadsManageable(timeout: Timeout, t: Talk, run: seq<Happening>)
    requires AllAllowed(timeout, t, run)
  {
    run == [] ||
    var before, last := run[..|run| - 1], run[|run| - 1];
    && ReadsManageable(timeout, t, before)
    && (last.Read? ==> var p := After(timeout, t, before).parser;
                       !p.Failed() && Manageable(p, last.chunk))
  }

  lemma ReadFits(timeout: Timeout, t: Talk, h: Happening)
    requires Sound(t) && Allowed(t, h)
    ensures var t', chunk := Happen(timeout, t, h), if h.Read? then h.chunk else [];
            && |t'.fed| <= |t.fed| + |chunk|
            && (t.fed <= t'.fed)
            && (t'.fed == t.fed + chunk <==>
                  (h.Read? ==> !t.parser.Failed() && Manageable(t.parser, chunk)))
  {
    hide Parser.Ok, Listen, Execute, Pipeline, RepliesOf, Known, Commands, Manageable;
    if h.Read? && !t.parser.Failed() {
      FedFits(t.parser, h.chunk, 0);
      NothingSkippedIff(t.parser, h.chunk);
      SamePrefix(t.fed, Pipeline(t.parser, h.chunk, 0).fed, h.chunk);
    }
  }

  lemma SamePrefix(a: Bytes, b: Bytes, c: Bytes)
    ensures a + b == a + c <==> b == c
  {
    assert (a + b)[|a|..] == b && (a + c)[|a|..] == c;
  }

  /** In a whole run, the parser is given all bytes received just when each read was manageable. */
  lemma {:induction false} FedIsReceivedIff(timeout: Timeout, db: Db, run: seq<Happening>)
    requires AllAllowed(timeout, Opened(db), run)
    ensures |After(timeout, Opened(db), run).fed| <= |Received(run)|
    ensures After(timeout, Opened(db), run).fed == Received(run) <==> ReadsManageable(timeout, Opened(db), run)
  {
    hide Happen, Allowed, Sound, Listen, Manageable;
    if run != [] {
      var before, last := run[..|run| - 1], run[|run| - 1];
      var t := After(timeout, Opened(db), before);
      AlwaysSound(timeout, db, before);
      FedIsReceivedIff(timeout, db, before);
      ReadFits(timeout, t, last);
      var t', chunk := Happen(timeout, t, last), if last.Read? then last.chunk else [];
      if t'.fed == Received(run) {
        assert t.fed == t'.fed[..|t.fed|];
      }
    }
  }

  /** A whole session: when no read brings more than one round can take, what is executed are exactly the commands
      that the client has sent, whatever the chunks; what is sent, followed by what is pending, are their replies in
      order; and once a reply is written completely with no further command begun, nothing is pending. */
  lemma WholeSession(timeout: Timeout, db: Db, run: seq<Happening>, commands: seq<seq<Bytes>>, next: seq<Bytes>, n: nat)
    requires AllAllowed(timeout, Opened(db), run) && ReadsManageable(timeout, Opened(db), run)
    requires (forall i | 0 <= i < |commands| :: commands[i] != []) && next != [] && n < |Encode(next)|
    requires Received(run) == EncodeAll(commands) + Encode(next)[..n]
    ensures var t := After(timeout, Opened(db), run);
            && Commands(t.log) == commands && t.parser == Feed(INIT, Encode(next)[..n])
            && t.sent + t.pending == RepliesOf(t.log)
            && (t.mode.Reading? && n == 0 ==> t.sent == RepliesOf(t.log))
  {
    hide Happen, Allowed, Listen, Feed, Encode, RepliesOf, Commands, AllAllowed, ReadsManageable, After, Parser.Ok;
    AlwaysSound(timeout, db, run);
    FedIsReceivedIff(timeout, db, run);
    ListenEncoded([], commands, next, n);
    assert [] + commands == commands;
    if n == 0 {
      assert Encode(next)[..n] == [];
      FeedNothing(INIT);
    }
  }

  // The clock readings of the commands do not go back.
  predicate Forward(clock: nat -> nat, n: nat, start: nat) {
    (forall i | 0 <= i < n :: start <= clock(i)) && forall i, j | 0 <= i < j < n :: clock(i) <= clock(j)
  }

  function EventsOf(timeout: Timeout, commands: seq<seq<Bytes>>, clock: nat -> nat): seq<Event>
    requires forall i | 0 <= i < |commands| :: Known(commands[i])
  {
    seq(|commands|, i requires 0 <= i < |commands| => Event(clock(i), Operation(timeout, commands[i])))
  }

  /** Executing commands is a run of the timed store, and a possible one if the clock does not go back. */
  lemma {:induction false} ExecuteRuns(timeout: Timeout, hash: Hash, db: Db, commands: seq<seq<Bytes>>,
                                       clock: nat -> nat, start: nat)
    requires forall i | 0 <= i < |commands| :: Known(commands[i])
    ensures Execute(timeout, db, commands, clock).0 == Run(db, EventsOf(timeout, commands, clock))
    ensures Forward(clock, |commands|, start) ==> Possible(hash, db, EventsOf(timeout, commands, clock), start)
  {
    hide Next, ReplyTo, Known, Db.Due;
    if commands != [] {
      var n := |commands| - 1;
      ExecuteRuns(timeout, hash, db, commands[..n], clock, start);
      var events := EventsOf(timeout, commands, clock);
      assert events[..n] == EventsOf(timeout, commands[..n], clock);
    }
  }
}
