/** One client of the server: the read handler with its pipelining loop, and the write handler. */
module Clients {
  import opened StoreModel
  import opened TimedModel
  import opened Protocol
  import opened QueryReaders
  import opened Pipelining
  import opened Replies
  import opened Conversations
  import opened CommandProcedures
  import S = Server
  import Words

  // No command that the pipelining loop parses has more arguments than the argument vector has slots.
  predicate Fits(p: Parser, buf: Bytes, pos: nat)
    requires pos <= |buf|
    decreases |buf| - pos
  {
    var r := ParseAt(p, buf, pos);
    && Feed(p, buf[pos..]).argc <= ELEMENTS_ARRAY_MAX_SIZE
    && (r.0.state.Done? && pos + r.1 < |buf| ==> Fits(INIT, buf, pos + r.1))
  }

  // A round of which some commands have been executed.
  function Resumed(commands: seq<seq<Bytes>>, fed: Bytes, rest: Round): Round {
    Round(commands + rest.commands, rest.parser, rest.complete, fed + rest.fed)
  }

  lemma OneMoreCommand(commands: seq<seq<Bytes>>, fed: Bytes, p: Parser, buf: Bytes, pos: nat)
    requires pos <= |buf| && ParseAt(p, buf, pos).0.state.Done?
    ensures var r, part := ParseAt(p, buf, pos), buf[pos..EndOfCommand(p, buf, pos)];
            Resumed(commands, fed, Pipeline(p, buf, pos)) ==
            if pos + r.1 < |buf| then Resumed(commands + [r.0.args], fed + part, Pipeline(INIT, buf, pos + r.1))
            else Round(commands + [r.0.args], INIT, true, fed + part)
  {
    hide ParseAt, EndOfCommand;
    var r, part := ParseAt(p, buf, pos), buf[pos..EndOfCommand(p, buf, pos)];
    if pos + r.1 < |buf| {
      var rest := Pipeline(INIT, buf, pos + r.1);
      assert commands + ([r.0.args] + rest.commands) == commands + [r.0.args] + rest.commands;
      assert fed + (part + rest.fed) == fed + part + rest.fed;
    }
  }

  lemma ExecuteOneMore(timeout: Timeout, db: Db, commands: seq<seq<Bytes>>, args: seq<Bytes>, clock: nat -> nat)
    requires (forall i | 0 <= i < |commands| :: Known(commands[i])) && Known(args)
    ensures var (before, log) := Execute(timeout, db, commands, clock);
            var now := clock(|commands|);
            var reply := ReplyTo(before, args, now);
            && Execute(timeout, db, commands + [args], clock)
               == (Next(before, Event(now, Operation(timeout, args))), log + [Executed(args, now, before, reply)])
            && RepliesOf(log + [Executed(args, now, before, reply)]) == RepliesOf(log) + reply
  {
    hide Next, ReplyTo, Operation, Known, RepliesOf;
    var (before, log) := Execute(timeout, db, commands, clock);
    var e := Executed(args, clock(|commands|), before, ReplyTo(before, args, clock(|commands|)));
    assert (commands + [args])[..|commands|] == commands;
    RepliesConcat(log, [e]);
    ReplyOfOne(e);
  }

  // The pipelining loop stands at position pos: these commands remain of the round.
  ghost predicate Remains(chunk: Bytes, t: Talk, done: seq<seq<Bytes>>, part: Bytes, p: Parser, pos: int) {
    && t.parser.Ok() && !t.parser.state.Done? && t.mode.Reading?
    && (t.parser.Failed() ==> done == [] && p == t.parser)
    && 0 <= pos < |chunk| && p.Ok() && !p.state.Done? && (p.Failed() ==> t.parser.Failed())
    && Fits(p, chunk, pos)
    && Resumed(done, part, Pipeline(p, chunk, pos)) == Pipeline(t.parser, chunk, 0)
    && forall i | 0 <= i < |Pipeline(t.parser, chunk, 0).commands| :: Known(Pipeline(t.parser, chunk, 0).commands[i])
  }

  lemma RemainsHere(chunk: Bytes, t: Talk, done: seq<seq<Bytes>>, part: Bytes, p: Parser, pos: int)
    requires Remains(chunk, t, done, part, p, pos)
    ensures 0 <= pos < |chunk| && Fits(p, chunk, pos)
    ensures t.mode.Reading? && (p.Failed() <==> t.parser.Failed())
    ensures p.Failed() ==> done == [] && p == t.parser
  {}

  lemma RemainsNext(chunk: Bytes, t: Talk, done: seq<seq<Bytes>>, part: Bytes, p: Parser, pos: nat)
    requires Remains(chunk, t, done, part, p, pos) && !t.parser.Failed()
    ensures var r, more := ParseAt(p, chunk, pos), part + chunk[pos..EndOfCommand(p, chunk, pos)];
            if !r.0.state.Done? then Pipeline(t.parser, chunk, 0) == Round(done, r.0, false, more)
            else
              && Known(r.0.args)
              && if pos + r.1 < |chunk| then Remains(chunk, t, done + [r.0.args], more, INIT, pos + r.1)
                 else Pipeline(t.parser, chunk, 0) == Round(done + [r.0.args], INIT, true, more)
  {
    hide ParseAt, EndOfCommand, Known, Feed;
    var r := ParseAt(p, chunk, pos);
    if r.0.state.Done? {
      OneMoreCommand(done, part, p, chunk, pos);
      assert Pipeline(t.parser, chunk, 0).commands[|done|] == r.0.args;
    } else {
      assert done + [] == done;
    }
  }

  class Client {
    const query: QueryReader
    const replies: ReplyList
    const server: S.Server
    const timeout: Timeout
    var mode: Mode
    ghost var sent: Bytes
    ghost var log: seq<Executed>
    ghost var fed: Bytes

    ghost function View(): Talk
      reads this, query, replies, server, server.kvstore, server.expire
    {
      Talk(mode, if mode.Writing? then INIT else query.parser, replies.Pending(), sent, log, fed, server.View())
    }

    // The parts are in order and share nothing.
    ghost predicate Parts()
      reads this, query, query.Repr, replies, replies.Repr, server, server.kvstore, server.expire,
            server.kvstore.Repr, server.expire.Repr
    {
      && query.Valid() == true && replies.Valid() == true && server.Valid() == true
      && query in query.Repr && replies in replies.Repr
      && query.Repr !! replies.Repr && Outside(query.Repr + replies.Repr, server)
      && this !in query.Repr + replies.Repr + server.kvstore.Repr + server.expire.Repr
    }

    ghost predicate Valid()
      reads this, query, query.Repr, replies, replies.Repr, server, server.kvstore, server.expire,
            server.kvstore.Repr, server.expire.Repr
    {
      && Parts() == true && Sound(View()) == true
      && match mode
         case Reading =>
           && replies.replyRemaining == null && query.KnowsRemaining() == true
           && query.queryBuffLen == query.queryBuffPos == 0  // no byte waits in the buffer
         case Writing => replies.replyRemaining == replies.reply
         case Ended => true
    }

    // In the pipelining loop: the buffer holds chunk, and the commands `done` have been executed.
    ghost predicate Midway(chunk: Bytes, clock: nat -> nat, t: Talk, done: seq<seq<Bytes>>)
      reads this, query, query.Repr, replies, replies.Repr, server, server.kvstore, server.expire,
            server.kvstore.Repr, server.expire.Repr
    {
      && Parts() == true && replies.replyRemaining == null && mode.Reading?
      && query.queryBuffLen == |chunk| <= query.queryBuff.Length && query.queryBuff[..|chunk|] == chunk
      && (forall i | 0 <= i < |done| :: Known(done[i]))
      && var (db, l) := Execute(timeout, t.db, done, clock);
      && server.View() == db && replies.Pending() == t.pending + RepliesOf(l)
      && sent == t.sent && log == t.log && fed == t.fed
    }

    constructor (server: S.Server, timeout: Timeout)
      requires server.Valid() == true
      ensures Valid() == true && fresh(query.Repr) && fresh(replies.Repr)
      ensures this.server == server && this.timeout == timeout
      ensures View() == Opened(server.View()) && replies.blocks == []
    {
      hide S.Server.Valid, QueryReader.Valid, ReplyList.Valid, Client.Valid, Client.View, Sound, Joined;
      this.server, this.timeout := server, timeout;
      query := new QueryReader();
      replies := new ReplyList();
      mode, sent, log, fed := Reading, [], [], [];
      new;
      Begins();
    }

    // The parts of a new client.
    lemma Begins()
      requires Parts() == true && mode.Reading? && sent == fed == [] && log == []
      requires query.parser == INIT && query.KnowsRemaining() && query.queryBuffLen == query.queryBuffPos == 0
      requires replies.parts == [] && replies.replyRemaining == null
      ensures View() == Opened(server.View()) && Valid()
    {
      hide S.Server.Valid, QueryReader.Valid, ReplyList.Valid, Client.Parts, Sound;
      JoinedNone();
      OpenedSound(server.View());
    }

    /** Resets parser, buffer state, arguments and reply list. */
    method Reset()
      requires Parts()
      modifies query.Repr, replies.Repr
      ensures Parts() && query.Repr == old(query.Repr) && replies.Repr == old(replies.Repr)
      ensures query.parser == INIT && query.queryBuffLen == query.queryBuffPos == 0 && query.KnowsRemaining()
      ensures replies.parts == [] && replies.blocks == [] && replies.replyRemaining == null
    {
      hide S.Server.Valid, ReplyList.Valid;
      query.ResetQueryBufferState();
      query.ResetCommand();
      replies.ResetReplyList();
    }

    /** The socket took `accepted` of the pending bytes. */
    method HandleWrite(accepted: nat)
      requires Valid() && mode.Writing? && accepted <= |replies.Pending()| && |replies.blocks| <= IOV_MAX
      modifies this, query.Repr, replies.Repr
      ensures Valid() && fresh(query.Repr - old(query.Repr)) && fresh(replies.Repr - old(replies.Repr))
      ensures View() == Happen(timeout, old(View()), Write(accepted)) && |replies.blocks| <= old(|replies.blocks|)
      ensures mode.Reading? ==> replies.blocks == []
      ensures mode == if accepted == |old(replies.Pending())| then Reading else Writing
      ensures sent == old(sent) + old(replies.Pending())[..accepted]
      ensures replies.Pending() == old(replies.Pending())[accepted..]
    {
      hide S.Server.Valid, QueryReader.Valid, ReplyList.Valid, Sound, Joined;
      StepKeepsSound(timeout, View(), Write(accepted));
      var iov, iovc := replies.Gather();
      sent := sent + replies.Pending()[..accepted];
      var complete := replies.Written(accepted);
      if complete {
        Reset();
        JoinedNone();
        mode := Reading;
      }
    }

    /** Successive write events, of any sizes. */
    method HandleWrites(accepted: seq<nat>)
      requires Valid() && AllAllowed(timeout, View(), Writes(accepted)) && |replies.blocks| <= IOV_MAX
      modifies this, query.Repr, replies.Repr
      ensures Valid() && fresh(query.Repr - old(query.Repr)) && fresh(replies.Repr - old(replies.Repr))
      ensures View() == After(timeout, old(View()), Writes(accepted)) && |replies.blocks| <= old(|replies.blocks|)
      ensures mode.Reading? && accepted != [] ==> replies.blocks == []
    {
      hide Client.Valid, Client.View, Happen, Writes;
      ghost var t, run := View(), Writes(accepted);
      assert |run| == |accepted| && run[..0] == [] by { WritesAre(accepted); }
      for i := 0 to |accepted|
        invariant Valid() && fresh(query.Repr - old(query.Repr)) && fresh(replies.Repr - old(replies.Repr))
        invariant AllAllowed(timeout, t, run[..i]) && View() == After(timeout, t, run[..i])
        invariant |replies.blocks| <= old(|replies.blocks|)
        invariant mode.Reading? && i > 0 ==> replies.blocks == []
      {
        OneMoreHappens(timeout, t, run, i);
        WritesAre(accepted);
        MayWrite(accepted[i]);
        HandleWrite(accepted[i]);
      }
      assert run[..|accepted|] == run;
    }

    static lemma WritesAre(accepted: seq<nat>)
      ensures |Writes(accepted)| == |accepted|
              && forall i | 0 <= i < |accepted| :: Writes(accepted)[i] == Write(accepted[i])
    {}

    lemma MayWrite(accepted: nat)
      requires Allowed(View(), Write(accepted))
      ensures mode.Writing? && accepted <= |replies.Pending()|
    {}

    /** Makes room in the buffer and takes in the chunk. */
    method TakeIn(chunk: Bytes, ghost clock: nat -> nat)
      requires Parts() && replies.replyRemaining == null && mode.Reading? && query.KnowsRemaining()
      requires |chunk| <= query.ReadCapacity()
      modifies query.Repr
      ensures fresh(query.Repr - old(query.Repr)) && View() == old(View()) && query.KnowsRemaining()
      ensures query.queryBuffPos == old(query.queryBuffPos) && query.parser == old(query.parser)
      ensures replies.Repr == old(replies.Repr) && replies.blocks == old(replies.blocks)
      ensures server.kvstore.Repr == old(server.kvstore.Repr) && server.expire.Repr == old(server.expire.Repr)
      ensures Midway(chunk, clock, View(), [])
    {
      hide S.Server.Valid, QueryReader.Valid, ReplyList.Valid, Joined;
      query.ResizeQueryBuffer();
      query.ReprHas();
      query.Receive(chunk);
      NoReplies();
    }

    /** Parses the next command in the buffer, and moves the position by the number that the parser returned. */
    method ParseNext(chunk: Bytes, ghost clock: nat -> nat, ghost t: Talk, ghost done: seq<seq<Bytes>>)
      returns (processed: Option<int>)
      requires Midway(chunk, clock, t, done) && 0 <= query.queryBuffPos < |chunk| && query.KnowsRemaining()
      requires Fits(query.parser, chunk, query.queryBuffPos)
      modifies query.Repr
      ensures Midway(chunk, clock, t, done) && fresh(query.Repr - old(query.Repr)) && query.KnowsRemaining()
      ensures replies.Repr == old(replies.Repr) && replies.blocks == old(replies.blocks)
      ensures server.kvstore.Repr == old(server.kvstore.Repr) && server.expire.Repr == old(server.expire.Repr)
      ensures query.queryParserState == query.parser.state && query.queryBuffLen == |chunk|
      ensures processed.None? <==> old(query.parser).Failed()
      ensures if processed.None? then query.parser == old(query.parser)
              else (query.parser, processed.value) == ParseAt(old(query.parser), chunk, old(query.queryBuffPos))
                   && query.queryBuffPos == old(query.queryBuffPos) + processed.value
    {
      hide S.Server.Valid, QueryReader.Valid, ReplyList.Valid, Joined, Execute, RepliesOf, ParseAt;
      assert chunk[query.queryBuffPos..] == query.queryBuff[query.queryBuffPos..query.queryBuffLen];
      query.ReprHas();
      processed := query.ProcessQueryBuffer();
      query.ReprHas();
      if processed.Some? {
        query.MovePosition(processed.value);
      }
    }

    /** Executes the complete command. */
    method ExecuteNext(ghost chunk: Bytes, ghost clock: nat -> nat, now: nat, ghost t: Talk,
                       ghost done: seq<seq<Bytes>>)
      requires Midway(chunk, clock, t, done) && query.queryParserState.Done? && Known(query.parser.args)
      requires now == clock(|done|)
      modifies replies.Repr, server.kvstore.Repr, server.expire.Repr
      ensures Midway(chunk, clock, t, done + [query.parser.args]) && unchanged(query)
      ensures |replies.blocks| <= old(|replies.blocks|) + 4
      ensures fresh(replies.Repr - old(replies.Repr))
      ensures fresh(server.kvstore.Repr - old(server.kvstore.Repr))
      ensures fresh(server.expire.Repr - old(server.expire.Repr))
    {
      hide S.Server.Valid, QueryReader.Valid, ReplyList.Valid, Joined, Execute, RepliesOf, Next, ReplyTo, Operation,
        Known;
      query.ReprHas();
      ExecuteOneMore(timeout, t.db, done, query.parser.args, clock);
      ExecuteCommand(query, replies, server, timeout, now);
    }

    /** Empties parser and arguments for the next command in the buffer. */
    method ResetForNext(ghost chunk: Bytes, ghost clock: nat -> nat, ghost t: Talk, ghost done: seq<seq<Bytes>>)
      requires Midway(chunk, clock, t, done)
      modifies query.Repr
      ensures Midway(chunk, clock, t, done) && query.Repr == old(query.Repr)
      ensures replies.Repr == old(replies.Repr) && replies.blocks == old(replies.blocks)
      ensures server.kvstore.Repr == old(server.kvstore.Repr) && server.expire.Repr == old(server.expire.Repr)
      ensures query.parser == INIT && query.KnowsRemaining()
      ensures query.queryBuffPos == old(query.queryBuffPos)
    {
      hide S.Server.Valid, QueryReader.Valid, ReplyList.Valid, Joined, Execute, RepliesOf;
      query.ReprHas();
      query.ResetCommand();
      query.ReprHas();
    }

    /** The chunk ended within a command: the buffer is free again, and replies wait for the next read. */
    method StopReading(ghost chunk: Bytes, ghost clock: nat -> nat, ghost t: Talk, ghost done: seq<seq<Bytes>>)
      requires Midway(chunk, clock, t, done) && query.KnowsRemaining() && Allowed(t, Read(chunk, clock))
      requires !t.parser.Failed() && t.mode.Reading?
      requires var round := Pipeline(t.parser, chunk, 0);
               round.commands == done && round.parser == query.parser && !round.complete
      modifies this, query.Repr
      ensures replies.Repr == old(replies.Repr) && replies.blocks == old(replies.blocks)
      ensures server.kvstore.Repr == old(server.kvstore.Repr) && server.expire.Repr == old(server.expire.Repr)
      ensures Parts() && query.Repr == old(query.Repr) && replies.replyRemaining == null && query.KnowsRemaining()
      ensures mode.Reading?
      ensures query.queryBuffLen == query.queryBuffPos == 0 && query.queryParserState == old(query.queryParserState)
      ensures View() == Happen(timeout, t, Read(chunk, clock))
    {
      hide S.Server.Valid, QueryReader.Valid, ReplyList.Valid, Joined, Execute, RepliesOf, Pipeline, Known;
      query.ReprHas();
      query.ResetQueryBufferState();
      log := log + Execute(timeout, t.db, done, clock).1;
      fed := fed + Pipeline(t.parser, chunk, 0).fed;
    }

    /** All commands of the chunk have been executed: the write handler replaces the read handler. */
    method StartWriting(ghost chunk: Bytes, ghost clock: nat -> nat, ghost t: Talk, ghost done: seq<seq<Bytes>>)
      requires Midway(chunk, clock, t, done) && Allowed(t, Read(chunk, clock))
      requires !t.parser.Failed() && t.mode.Reading?
      requires var round := Pipeline(t.parser, chunk, 0);
               round.commands == done && round.parser == INIT && round.complete
      modifies this, replies`replyRemaining
      ensures replies.Repr == old(replies.Repr) && replies.blocks == old(replies.blocks)
      ensures Parts() && replies.replyRemaining == replies.reply && mode.Writing?
      ensures View() == Happen(timeout, t, Read(chunk, clock))
    {
      hide S.Server.Valid, QueryReader.Valid, ReplyList.Valid, Joined, Execute, RepliesOf, Pipeline, Known;
      replies.BeginWriting();
      mode := Writing;
      log := log + Execute(timeout, t.db, done, clock).1;
      fed := fed + Pipeline(t.parser, chunk, 0).fed;
    }

    /** The parser met a byte after a malformed request: the server exits. */
    method Exit(ghost chunk: Bytes, ghost clock: nat -> nat, ghost t: Talk)
      requires Midway(chunk, clock, t, []) && Allowed(t, Read(chunk, clock))
      requires t.parser.Failed() && t.mode.Reading? && query.parser == t.parser
      modifies this
      ensures Parts() && mode.Ended? && View() == Happen(timeout, t, Read(chunk, clock))
    {
      hide S.Server.Valid, QueryReader.Valid, ReplyList.Valid, Joined, RepliesOf, Pipeline, Known;
      NoReplies();
      mode := Ended;
    }

    /** A chunk of bytes has come in: executes the commands that it completes, and registers the write handler unless
        it ends within a command. `clock` gives the clock reading of each command. */
    method HandleRead(chunk: Bytes, clock: nat -> nat)
      requires Valid() && Allowed(View(), Read(chunk, clock))
      requires |chunk| <= query.ReadCapacity() && Fits(query.parser, chunk, 0)
      modifies this, query.Repr, replies.Repr, server.kvstore.Repr, server.expire.Repr
      ensures Valid() && fresh(query.Repr - old(query.Repr)) && fresh(replies.Repr - old(replies.Repr))
      ensures fresh(server.kvstore.Repr - old(server.kvstore.Repr))
      ensures fresh(server.expire.Repr - old(server.expire.Repr))
      ensures View() == Happen(timeout, old(View()), Read(chunk, clock))
      ensures |replies.blocks| <= old(|replies.blocks|) + 4 * |Pipeline(old(View()).parser, chunk, 0).commands|
      ensures mode.Ended? <==> old(query.parser).Failed()
      ensures mode.Writing? <==> query.queryParserState.Done?
    {
      hide Client.Midway, Client.Parts, Client.View, Remains, Sound, S.Server.Valid, QueryReader.Valid, ReplyList.Valid,
        QueryReader.KnowsRemaining, QueryReader.ReadCapacity, Joined, Pipeline, Execute, Fits, RepliesOf, Known, Happen,
        Allowed, ParseAt, EndOfCommand, S.Server.View, ReplyList.Pending, Stream.Step, Feed, Parser.Ok, Max;
      ghost var t := View();
      ReadBegins(chunk, clock);
      TakeIn(chunk, clock);
      ghost var done: seq<seq<Bytes>>, part: Bytes := [], [];
      var count := 0;
      while true
        invariant Midway(chunk, clock, t, done) == true && query.KnowsRemaining() && count == |done|
        invariant |replies.blocks| <= old(|replies.blocks|) + 4 * count
        invariant Remains(chunk, t, done, part, query.parser, query.queryBuffPos) == true
        invariant fresh(query.Repr - old(query.Repr)) && fresh(replies.Repr - old(replies.Repr))
        invariant fresh(server.kvstore.Repr - old(server.kvstore.Repr))
        invariant fresh(server.expire.Repr - old(server.expire.Repr))
        decreases |chunk| - query.queryBuffPos
      {
        ghost var p, pos := query.parser, query.queryBuffPos;
        RemainsHere(chunk, t, done, part, p, pos);
        var processed := ParseNext(chunk, clock, t, done);
        if processed.None? {
          Exit(chunk, clock, t);
          return;
        }
        RemainsNext(chunk, t, done, part, p, pos);
        if !query.queryParserState.Done? {
          StopReading(chunk, clock, t, done);
          return;
        }
        part := part + chunk[pos..EndOfCommand(p, chunk, pos)];
        ExecuteNext(chunk, clock, clock(count), t, done);
        done, count := done + [query.parser.args], count + 1;
        if query.queryBuffPos < query.queryBuffLen {
          ResetForNext(chunk, clock, t, done);
          continue;
        }
        break;
      }
      StartWriting(chunk, clock, t, done);
    }

    lemma ReadBegins(chunk: Bytes, clock: nat -> nat)
      requires Valid() && Allowed(View(), Read(chunk, clock)) && Fits(query.parser, chunk, 0)
      ensures Parts() && query.queryBuffPos == 0 && query.KnowsRemaining() && replies.replyRemaining == null
      ensures mode.Reading?
      ensures query in query.Repr && replies in replies.Repr && View().parser == query.parser
      ensures Remains(chunk, View(), [], [], query.parser, query.queryBuffPos)
      ensures Sound(Happen(timeout, View(), Read(chunk, clock)))
    {
      hide S.Server.Valid, QueryReader.Valid, ReplyList.Valid, Joined, RepliesOf, Pipeline, Known, Fits;
      StepKeepsSound(timeout, View(), Read(chunk, clock));
      var round := Pipeline(query.parser, chunk, 0);
      assert [] + round.commands == round.commands && [] + round.fed == round.fed;
    }

    /** A cron tick of the server, seen by one of its clients: active expiry, rehashing, and the query buffers of all
        clients, of which each may be replaced. */
    method CronTick(readers: seq<QueryReader?>, clock: nat -> nat, dataClock: nat -> nat, expireClock: nat -> nat)
      returns (ghost trace: seq<Event>)
      requires Valid() == true && server.expire.view.bits < Words.WIDTH && query in readers
      requires forall i | 0 <= i < |readers| && readers[i] != null ::
                 && readers[i].Valid() == true && readers[i] in readers[i].Repr
                 && readers[i].Repr !! replies.Repr && Outside(readers[i].Repr, server)
      requires forall i, j | 0 <= i < j < |readers| && readers[i] != null && readers[j] != null ::
                 readers[i].Repr !! readers[j].Repr
      modifies (set c: QueryReader | c in readers)`queryBuff
      modifies (set c: QueryReader | c in readers)`queryBuffPeak
      modifies (set c: QueryReader | c in readers)`Repr
      modifies server, server.kvstore.Repr, server.expire.Repr
      ensures Valid() && fresh(query.Repr - old(query.Repr))
      ensures fresh(server.kvstore.Repr - old(server.kvstore.Repr))
      ensures fresh(server.expire.Repr - old(server.expire.Repr))
      ensures View() == old(View()).(db := Run(old(View()).db, trace))
      ensures server.Tick(old(View()).db, trace, clock(0)) == true
      ensures forall i | 0 <= i < |readers| && readers[i] != null ::
                readers[i].Valid() && readers[i].parser == old(readers[i].parser)
    {
      hide S.Server.Valid, QueryReader.Valid, ReplyList.Valid, Joined, S.Server.Tick, S.Server.Scanning, Run, RepliesOf,
        Listen, Commands, Parser.Ok, Shrunk, S.Server.Burst, Store.ActivateIfNeeded, Store.Steps, Store.Has, Db.Expired;
      query.ReprHas();
      ghost var scans, dataSteps, expireSteps;
      trace, scans, dataSteps, expireSteps := server.Cron(clock, dataClock, expireClock);
      ClientCron(readers);
      query.ReprHas();
    }
  }
}
