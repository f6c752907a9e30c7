/** The commands in a byte stream, and what the read handler's pipelining loop makes of one buffer of it. */
module Pipelining {
  import opened StoreModel
  import opened Protocol

  // ---------- the commands of a stream, one byte after the other ----------

  // `parser` is that of the command after the complete ones.
  datatype Stream = Stream(commands: seq<seq<Bytes>>, parser: Parser) {
    function Step(b: Byte): Stream {
      var p := parser.Step(b);
      if p.state.Done? then Stream(commands + [p.args], INIT) else Stream(commands, p)
    }
  }

  function Listen(s: Stream, bytes: Bytes): Stream {
    if bytes == [] then s else Listen(s, bytes[..|bytes| - 1]).Step(bytes[|bytes| - 1])
  }

  lemma {:induction false} ListenConcat(s: Stream, a: Bytes, b: Bytes)
    ensures Listen(s, a + b) == Listen(Listen(s, a), b)
  {
    if b == [] {
      assert a + b == a;
    } else {
      assert (a + b)[..|a + b| - 1] == a + b[..|b| - 1];
      ListenConcat(s, a, b[..|b| - 1]);
    }
  }

  /** Within one command, listening is parsing. */
  lemma {:induction false} ListenFeeds(commands: seq<seq<Bytes>>, p: Parser, bytes: Bytes)
    requires !Feed(p, bytes).state.Done?
    ensures Listen(Stream(commands, p), bytes) == Stream(commands, Feed(p, bytes))
  {
    if bytes != [] {
      ListenFeeds(commands, p, bytes[..|bytes| - 1]);
    }
  }

  // The last of the bytes completes a command.
  lemma ListenCommand(commands: seq<seq<Bytes>>, p: Parser, bytes: Bytes, b: Byte)
    requires !Feed(p, bytes).state.Done? && Feed(p, bytes).Step(b).state.Done?
    ensures Listen(Stream(commands, p), bytes + [b]) == Stream(commands + [Feed(p, bytes).Step(b).args], INIT)
  {
    ListenFeeds(commands, p, bytes);
    assert (bytes + [b])[..|bytes + [b]| - 1] == bytes;
  }

  lemma ListenEncode(commands: seq<seq<Bytes>>, args: seq<Bytes>)
    requires args != []
    ensures Listen(Stream(commands, INIT), Encode(args)) == Stream(commands + [args], INIT)
  {
    hide Feed, Encode, Listen;
    var e := Encode(args);
    BeforeEnd(args);
    RoundTrip(args);
    assert e == e[..|e| - 1] + [e[|e| - 1]];
    FeedConcat(INIT, e[..|e| - 1], [e[|e| - 1]]);
    FeedOne(Feed(INIT, e[..|e| - 1]), e[|e| - 1]);
    ListenCommand(commands, INIT, e[..|e| - 1], e[|e| - 1]);
  }

  /** A stream of encoded commands, cut off within the next one, holds exactly these commands. */
  lemma {:induction false} ListenEncoded(before: seq<seq<Bytes>>, commands: seq<seq<Bytes>>, next: seq<Bytes>, n: nat)
    requires (forall i | 0 <= i < |commands| :: commands[i] != []) && next != [] && n < |Encode(next)|
    ensures Listen(Stream(before, INIT), EncodeAll(commands) + Encode(next)[..n])
         == Stream(before + commands, Feed(INIT, Encode(next)[..n]))
    decreases |commands|
  {
    hide Feed, Encode, Listen;
    var part := Encode(next)[..n];
    if commands == [] {
      assert EncodeAll(commands) + part == part;
      PartialIsUnfinished(next, n);
      ListenFeeds(before, INIT, part);
      assert before + commands == before;
    } else {
      var rest := EncodeAll(commands[1..]) + part;
      assert EncodeAll(commands) + part == Encode(commands[0]) + rest;
      ListenConcat(Stream(before, INIT), Encode(commands[0]), rest);
      ListenEncode(before, commands[0]);
      ListenEncoded(before + [commands[0]], commands[1..], next, n);
      assert before + [commands[0]] + commands[1..] == before + commands;
    }
  }

  lemma {:induction false} ListenAdds(s: Stream, bytes: Bytes)
    ensures |s.commands| <= |Listen(s, bytes).commands| && s.commands <= Listen(s, bytes).commands
  {
    if bytes != [] { ListenAdds(s, bytes[..|bytes| - 1]); }
  }

  // A nonempty tail that completes no command leaves a parser that is not at the start of one.
  lemma TailShows(s: Stream, tail: Bytes)
    requires tail != [] && |Listen(s, tail).commands| == |s.commands|
    ensures Listen(s, tail).parser != INIT
  {
    ListenAdds(s, tail[..|tail| - 1]);
  }

  // ---------- one call of the parser loop ----------

  // One past the last byte that the loop takes: the one that completes the command or is an error, or the last of all.
  function EndOfCommand(p: Parser, buf: Bytes, idx: nat): (end: nat)
    requires idx <= |buf|
    ensures idx <= end <= |buf|
    decreases |buf| - idx
  {
    if idx == |buf| || p.Stopped() then idx
    else if p.Step(buf[idx]).Stopped() then idx + 1
    else EndOfCommand(p.Step(buf[idx]), buf, idx + 1)
  }

  // The loop returns the end of the command, or one more if its last argument, if any, is empty.
  function Late(args: seq<Bytes>): nat {
    if EndsInBytes(args) then 0 else 1
  }

  // What one call of the loop on the bytes of buf from idx on makes of them: it takes those up to `end`.
  predicate Parsed(s: Stream, buf: Bytes, idx: nat, end: nat, r: (Parser, int))
    requires idx <= end <= |buf|
  {
    var heard := Listen(s, buf[idx..end]);
    if r.0.state.Done? then idx < end && r.1 == end + Late(r.0.args) && heard == Stream(s.commands + [r.0.args], INIT)
    else if r.0.Failed() then idx < end && r.1 == -1 && heard == Stream(s.commands, r.0)
                              && !Listen(s, buf[idx..end - 1]).parser.Failed()
    else end == |buf| && r.1 == |buf| + 1 && heard == Stream(s.commands, r.0)
  }

  /** One call of the loop takes the bytes up to the end of the next command, or up to a malformed one, or all; it
      returns the end of the command or one more, or -1, or one more than the length of the buffer. */
  lemma {:induction false} ParseListens(commands: seq<seq<Bytes>>, p: Parser, buf: Bytes, idx: nat)
    requires idx <= |buf| && !p.Stopped() && p.Ok()
    ensures Parsed(Stream(commands, p), buf, idx, EndOfCommand(p, buf, idx), ParseAt(p, buf, idx))
    decreases |buf| - idx
  {
    hide Listen;
    var s := Stream(commands, p);
    if idx == |buf| {
      assert buf[idx..idx] == [];
      ListenNothing(s);
    } else {
      var p', end := p.Step(buf[idx]), EndOfCommand(p, buf, idx);
      ListenFirst(s, buf[idx..end]);
      assert buf[idx..end][1..] == buf[idx + 1..end];
      if p'.Stopped() {
        assert buf[idx + 1..end] == buf[idx..end - 1] == [];
        ListenNothing(s.Step(buf[idx]));
        ListenNothing(s);
        if p'.state.Done? { CompletedBy(p, buf[idx]); }
      } else {
        ParseListens(commands, p', buf, idx + 1);
        if ParseAt(p, buf, idx).0.Failed() {
          ListenFirst(s, buf[idx..end - 1]);
          assert buf[idx..end - 1][1..] == buf[idx + 1..end - 1];
        }
      }
    }
  }

  lemma ListenNothing(s: Stream)
    ensures Listen(s, []) == s
  {}

  lemma ListenFirst(s: Stream, bytes: Bytes)
    requires bytes != []
    ensures Listen(s, bytes) == Listen(s.Step(bytes[0]), bytes[1..])
  {
    assert bytes == [bytes[0]] + bytes[1..];
    ListenConcat(s, [bytes[0]], bytes[1..]);
    assert [bytes[0]][..0] == [];
  }

  lemma {:induction false} FailedStays(s: Stream, bytes: Bytes)
    requires s.parser.Failed()
    ensures Listen(s, bytes) == s
  {
    if bytes != [] { FailedStays(s, bytes[..|bytes| - 1]); }
  }

  // A command is completed by the last byte of a nonempty argument or by a LF.
  lemma CompletedBy(p: Parser, b: Byte)
    requires p.Ok() && !p.Stopped() && p.Step(b).state.Done?
    ensures EndsInBytes(p.Step(b).args) <==> p.state.ElementBytes?
  {}

  // ---------- the pipelining loop ----------

  // The commands that the loop executes, the parser after them, whether the reply is written next, and the bytes of
  // the buffer that the parser was given.
  datatype Round = Round(commands: seq<seq<Bytes>>, parser: Parser, complete: bool, fed: Bytes) {
    function After(args: seq<Bytes>, part: Bytes): Round {
      Round([args] + commands, parser, complete, part + fed)
    }
  }

  function Pipeline(p: Parser, buf: Bytes, pos: nat): Round
    requires pos <= |buf|
    decreases |buf| - pos
  {
    var r, part := ParseAt(p, buf, pos), buf[pos..EndOfCommand(p, buf, pos)];
    if !r.0.state.Done? then Round([], r.0, false, part)
    else if pos + r.1 < |buf| then Pipeline(INIT, buf, pos + r.1).After(r.0.args, part)
    else Round([r.0.args], INIT, true, part)
  }

  /** The loop executes exactly the commands in the bytes that it gives to the parser. */
  lemma {:induction false} PipelineListens(commands: seq<seq<Bytes>>, p: Parser, buf: Bytes, pos: nat)
    requires pos <= |buf| && !p.Stopped() && p.Ok()
    ensures var round := Pipeline(p, buf, pos);
            Listen(Stream(commands, p), round.fed) == Stream(commands + round.commands, round.parser)
    decreases |buf| - pos
  {
    hide Listen, ParseAt, EndOfCommand;
    ParseListens(commands, p, buf, pos);
    var r, part := ParseAt(p, buf, pos), buf[pos..EndOfCommand(p, buf, pos)];
    if r.0.state.Done? {
      if pos + r.1 < |buf| {
        var rest := Pipeline(INIT, buf, pos + r.1);
        PipelineListens(commands + [r.0.args], INIT, buf, pos + r.1);
        ListenConcat(Stream(commands, p), part, rest.fed);
        assert commands + [r.0.args] + rest.commands == commands + ([r.0.args] + rest.commands);
      }
    } else {
      assert commands + [] == commands;
    }
  }

  lemma {:induction false} FedFits(p: Parser, buf: Bytes, pos: nat)
    requires pos <= |buf| && !p.Stopped() && p.Ok()
    ensures |Pipeline(p, buf, pos).fed| <= |buf| - pos
    decreases |buf| - pos
  {
    hide ParseAt, EndOfCommand;
    ParseListens([], p, buf, pos);
    var r := ParseAt(p, buf, pos);
    if r.0.state.Done? && pos + r.1 < |buf| { FedFits(INIT, buf, pos + r.1); }
  }

  // A malformed byte comes before the last one.
  predicate Garbled(s: Stream, bytes: Bytes) {
    bytes != [] && Listen(s, bytes[..|bytes| - 1]).parser.Failed()
  }

  // At most one complete command, or two with nothing after them; whatever follows a first command, this does not
  // end in an empty argument.
  predicate Few(s: Stream) {
    || |s.commands| == 0
    || (|s.commands| == 1 && s.parser == INIT)
    || (|s.commands| == 1 && EndsInBytes(s.commands[0]))
    || (|s.commands| == 2 && EndsInBytes(s.commands[0]) && s.parser == INIT)
  }

  // Few enough commands, and nothing behind a malformed byte.
  predicate Whole(s: Stream, bytes: Bytes) {
    Few(Listen(s, bytes)) && !Garbled(s, bytes)
  }

  predicate Manageable(p: Parser, buf: Bytes) {
    Whole(Stream([], p), buf)
  }

  lemma GarbledFails(s: Stream, bytes: Bytes)
    requires Garbled(s, bytes)
    ensures Listen(s, bytes).parser.Failed()
  {}

  lemma GarbledTail(s: Stream, a: Bytes, b: Bytes)
    requires b != []
    ensures Garbled(s, a + b) <==> Garbled(Listen(s, a), b)
  {
    hide Listen;
    assert (a + b)[..|a + b| - 1] == a + b[..|b| - 1];
    ListenConcat(s, a, b[..|b| - 1]);
  }

  lemma WholeTail(s: Stream, a: Bytes, b: Bytes)
    requires !Listen(s, a).parser.Failed()
    ensures Whole(s, a + b) <==> Whole(Listen(s, a), b)
  {
    hide Listen, Few, Garbled;
    ListenConcat(s, a, b);
    if b == [] {
      assert a + b == a;
      ListenNothing(Listen(s, a));
      if Garbled(s, a) { GarbledFails(s, a); }
      if Garbled(Listen(s, a), b) { GarbledFails(Listen(s, a), b); }
    } else {
      GarbledTail(s, a, b);
    }
  }

  // A call that completes no command takes all bytes just when none comes behind a malformed one.
  lemma UnfinishedCall(s: Stream, buf: Bytes, idx: nat, end: nat, r: (Parser, int))
    requires idx <= end <= |buf| && Parsed(s, buf, idx, end, r) && !r.0.state.Done?
    ensures buf[idx..end] == buf[idx..] <==> !Garbled(s, buf[idx..])
    ensures |Listen(s, buf[idx..]).commands| == |s.commands|
  {
    hide Listen;
    var tail := buf[idx..];
    assert tail == buf[idx..end] + buf[end..];
    ListenConcat(s, buf[idx..end], buf[end..]);
    if r.0.Failed() {
      FailedStays(Listen(s, buf[idx..end]), buf[end..]);
      if end < |buf| {
        GarbledTail(s, buf[idx..end], buf[end..]);
        FailedStays(Listen(s, buf[idx..end]), buf[end..][..|buf[end..]| - 1]);
      } else {
        assert tail[..|tail| - 1] == buf[idx..end - 1];
      }
    } else {
      assert buf[end..] == [];
      ListenNothing(Listen(s, buf[idx..end]));
      if Garbled(s, tail) { GarbledFails(s, tail); }
    }
  }

  // A buffer whose first command ends at `end`, and what the loop makes of the rest.
  lemma FirstCommand(p: Parser, buf: Bytes) returns (end: nat, args: seq<Bytes>, next: nat)
    requires !p.Stopped() && p.Ok() && ParseAt(p, buf, 0).0.state.Done?
    ensures 0 < end <= |buf| && next == end + Late(args) && args == ParseAt(p, buf, 0).0.args
    ensures Manageable(p, buf) <==> Whole(Stream([args], INIT), buf[end..])
    ensures Pipeline(p, buf, 0) == if next < |buf| then Pipeline(INIT, buf, next).After(args, buf[..end])
                                   else Round([args], INIT, true, buf[..end])
  {
    hide Listen, ParseAt, EndOfCommand, Whole;
    ParseListens([], p, buf, 0);
    end, args, next := EndOfCommand(p, buf, 0), ParseAt(p, buf, 0).0.args, ParseAt(p, buf, 0).1;
    assert buf == buf[0..end] + buf[end..] && [] + [args] == [args];
    WholeTail(Stream([], p), buf[0..end], buf[end..]);
  }

  // With bytes left after a command that ends in an empty argument, the buffer is not manageable.
  lemma SkippingShows(args: seq<Bytes>, tail: Bytes)
    requires tail != [] && !EndsInBytes(args)
    ensures !Whole(Stream([args], INIT), tail)
  {
    hide Listen;
    var s := Listen(Stream([args], INIT), tail);
    ListenAdds(Stream([args], INIT), tail);
    if |s.commands| == 1 { TailShows(Stream([args], INIT), tail); }
  }

  lemma ThirdShows(first: seq<Bytes>, second: seq<Bytes>, tail: Bytes)
    ensures Whole(Stream([first, second], INIT), tail) <==> tail == [] && EndsInBytes(first)
  {
    hide Listen;
    var s := Stream([first, second], INIT);
    ListenAdds(s, tail);
    if tail == [] {
      ListenNothing(s);
    } else if |Listen(s, tail).commands| == 2 {
      TailShows(s, tail);
    }
  }

  // The loop after a first command that ends in bytes, with more in the buffer.
  lemma SecondCommand(first: seq<Bytes>, buf: Bytes, end: nat)
    requires EndsInBytes(first) && 0 < end < |buf|
    ensures Pipeline(INIT, buf, end).fed == buf[end..] <==> Whole(Stream([first], INIT), buf[end..])
  {
    hide Listen, ParseAt, EndOfCommand, Garbled;
    ParseListens([first], INIT, buf, end);
    var s, r, end2 := Stream([first], INIT), ParseAt(INIT, buf, end), EndOfCommand(INIT, buf, end);
    if r.0.state.Done? {
      SecondDone(first, r.0.args, buf, end, end2, r.1);
    } else {
      UnfinishedCall(s, buf, end, end2, r);
      ListenAdds(s, buf[end..]);
    }
  }

  lemma SecondDone(first: seq<Bytes>, second: seq<Bytes>, buf: Bytes, end: nat, end2: nat, next: nat)
    requires EndsInBytes(first) && 0 < end < end2 <= |buf| && next >= end2
    requires ParseAt(INIT, buf, end) == (ParseAt(INIT, buf, end).0, next) && end2 == EndOfCommand(INIT, buf, end)
    requires ParseAt(INIT, buf, end).0.state.Done? && ParseAt(INIT, buf, end).0.args == second
    requires Listen(Stream([first], INIT), buf[end..end2]) == Stream([first] + [second], INIT)
    ensures Pipeline(INIT, buf, end).fed == buf[end..] <==> Whole(Stream([first], INIT), buf[end..])
  {
    hide Listen, ParseAt, EndOfCommand, Whole;
    assert buf[end..] == buf[end..end2] + buf[end2..];
    assert [first] + [second] == [first, second];
    WholeTail(Stream([first], INIT), buf[end..end2], buf[end2..]);
    ThirdShows(first, second, buf[end2..]);
    if end + next < |buf| { FedFits(INIT, buf, end + next); }
  }

  /** The parser is given every byte of the buffer just when the buffer is manageable: from a third command on, after
      two commands with anything behind them, and behind a malformed byte, bytes are skipped. */
  lemma NothingSkippedIff(p: Parser, buf: Bytes)
    requires !p.Stopped() && p.Ok()
    ensures Pipeline(p, buf, 0).fed == buf <==> Manageable(p, buf)
  {
    hide Listen, ParseAt, EndOfCommand, Garbled;
    ParseListens([], p, buf, 0);
    assert buf[0..] == buf;
    if ParseAt(p, buf, 0).0.state.Done? {
      FirstSkipped(p, buf);
    } else {
      UnfinishedCall(Stream([], p), buf, 0, EndOfCommand(p, buf, 0), ParseAt(p, buf, 0));
    }
  }

  lemma FirstSkipped(p: Parser, buf: Bytes)
    requires !p.Stopped() && p.Ok() && ParseAt(p, buf, 0).0.state.Done?
    ensures Pipeline(p, buf, 0).fed == buf <==> Manageable(p, buf)
  {
    hide Listen, ParseAt, EndOfCommand, Whole, Manageable, Pipeline;
    var end, args, next := FirstCommand(p, buf);
    if end == |buf| {
      assert buf[end..] == [];
      NothingAfter(args);
    } else if !EndsInBytes(args) {
      SkippingShows(args, buf[end..]);
      if next < |buf| { FedFits(INIT, buf, next); }
    } else {
      SecondCommand(args, buf, end);
      SameTail(buf, end, Pipeline(INIT, buf, next).fed);
    }
  }

  lemma NothingAfter(args: seq<Bytes>)
    ensures Whole(Stream([args], INIT), [])
  {}

  lemma SameTail(buf: Bytes, end: nat, tail: Bytes)
    requires end <= |buf|
    ensures buf[..end] + tail == buf <==> tail == buf[end..]
  {
    assert (buf[..end] + tail)[end..] == tail;
    assert buf == buf[..end] + buf[end..];
  }

  /** On a manageable buffer the loop executes exactly the commands that it holds, and leaves the parser within the
      next one. */
  lemma ManageableIsExact(p: Parser, buf: Bytes)
    requires !p.Stopped() && p.Ok() && Manageable(p, buf)
    ensures var round, s := Pipeline(p, buf, 0), Listen(Stream([], p), buf);
            round.commands == s.commands && round.parser == s.parser && round.fed == buf
  {
    hide Listen;
    NothingSkippedIff(p, buf);
    PipelineListens([], p, buf, 0);
  }

  /** A third command, or the beginning of one, is lost when it is no longer than the first. */
  lemma TailIsLost(first: seq<Bytes>, second: seq<Bytes>, tail: Bytes)
    requires EndsInBytes(first) && second != [] && 0 < |tail| <= |Encode(first)|
    ensures var buf := Encode(first) + Encode(second) + tail;
            Pipeline(INIT, buf, 0) == Round([first, second], INIT, true, Encode(first) + Encode(second))
  {
    hide Feed, Encode, ParseAt, EndOfCommand, Listen;
    var e1, e2 := Encode(first), Encode(second);
    var buf := e1 + e2 + tail;
    BeforeEnd(second);
    assert buf[0..|e1|] == e1 && buf[|e1|..|e1| + |e2|] == e2;
    ParseStopsAtEnd(buf, 0, first);
    ParseStopsAtEnd(buf, |e1|, second);
    ParseListens([], INIT, buf, 0);
    ParseListens([], INIT, buf, |e1|);
    assert e1 + e2 == buf[0..|e1|] + buf[|e1|..|e1| + |e2|];
  }
}
