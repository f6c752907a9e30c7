/** The input side of a client: query buffer, resumable parser and argument vector, as archke_server.c keeps them. */
module QueryReaders {
  import opened StoreModel
  import opened Protocol

  const ELEMENTS_ARRAY_MAX_SIZE: nat := 512
  const QUERY_BUFFER_DEFAULT_SIZE: nat := 16 * 1024
  const CMD_BIG_ARG: nat := 32 * 1024
  const RESIZE_THRESHOLD: nat := 32 * 1024

  datatype QueryArg = QueryArg(filled: nat, size: nat, bytes: array?<Byte>)

  const NO_ARG := QueryArg(0, 0, null)

  // The slot holds the complete argument s.
  predicate Holds(arg: QueryArg, s: Bytes)
    reads arg.bytes
  {
    && arg.filled == arg.size == |s|
    && if s == [] then arg.bytes == null else arg.bytes != null && arg.bytes[..] == s
  }

  // The slot holds the argument that the parser is reading; bytes are allocated once their number is known.
  predicate InProgress(arg: QueryArg, p: Parser)
    reads arg.bytes
  {
    && arg.size == p.size && arg.filled == |p.got| && arg.filled <= arg.size
    && if p.state.ElementBytes? then
         arg.bytes != null && arg.bytes.Length == arg.size && arg.bytes[..arg.filled] == p.got
       else arg.bytes == null
  }

  lemma StepOk(p: Parser, b: Byte)
    requires p.Ok()
    ensures p.Step(b).Ok() && p.argc <= p.Step(b).argc
  {}

  lemma {:induction false} ArgcGrows(p: Parser, bytes: Bytes)
    requires p.Ok()
    ensures p.argc <= Feed(p, bytes).argc && Feed(p, bytes).Ok()
  {
    if bytes != [] {
      ArgcGrows(p, bytes[..|bytes| - 1]);
      StepOk(Feed(p, bytes[..|bytes| - 1]), bytes[|bytes| - 1]);
    }
  }

  // Feeding the n bytes after the first pos ones.
  lemma BytesUpTo(p: Parser, input: Bytes, pos: nat, n: nat)
    requires pos + n <= |input| && p.Ok()
    ensures Feed(p, input[..0]) == p
    ensures Feed(p, input[..pos + n]) == Feed(Feed(p, input[..pos]), input[pos..pos + n])
    ensures Feed(p, input[..pos + n]).argc <= Feed(p, input).argc
  {
    hide Feed, Parser.Step, Parser.Ok;
    FeedNothing(p);
    assert input[..pos + n] == input[..pos] + input[pos..pos + n] && input == input[..pos + n] + input[pos + n..];
    FeedConcat(p, input[..pos], input[pos..pos + n]);
    FeedConcat(p, input[..pos + n], input[pos + n..]);
    ArgcGrows(p, input[..pos + n]);
    ArgcGrows(Feed(p, input[..pos + n]), input[pos + n..]);
  }

  // A parser that has stopped ignores the bytes that follow.
  lemma StopsHere(p: Parser, input: Bytes, pos: nat)
    requires pos <= |input| && (pos == |input| || Feed(p, input[..pos]).Stopped())
    ensures Feed(p, input) == Feed(p, input[..pos])
  {
    hide Feed;
    assert input == input[..pos] + input[pos..];
    FeedConcat(p, input[..pos], input[pos..]);
    if pos < |input| {
      StoppedStays(Feed(p, input[..pos]), input[pos..]);
    } else {
      assert input[..pos] == input;
    }
  }

  // One more round of the parser loop.
  lemma ParseOne(p: Parser, buf: Bytes, idx: nat)
    requires idx < |buf| && p.Ok()
    ensures if p.Stopped() then ParseAt(p, buf, idx) == (p, idx + 1) else
              var p' := p.Step(buf[idx]);
              ParseAt(p, buf, idx) == if p'.Failed() then (p', -1)
                                      else if p'.state.Done? && p.state.ElementBytes? then (p', idx + 1)
                                      else ParseAt(p', buf, idx + 1)
    ensures Feed(p, buf[idx..]) == Feed(p.Step(buf[idx]), buf[idx + 1..])
    ensures p.Step(buf[idx]).argc <= Feed(p, buf[idx..]).argc
    ensures p.Step(buf[idx]).Failed() ==> p.state.Start? || p.state.Element? || p.Failed()
  {
    hide Feed, Parser.Ok;
    FeedFirst(p, buf[idx..]);
    assert buf[idx..][1..] == buf[idx + 1..];
    StepOk(p, buf[idx]);
    ArgcGrows(p.Step(buf[idx]), buf[idx + 1..]);
  }

  lemma ParseEnd(p: Parser, buf: Bytes)
    ensures ParseAt(p, buf, |buf|) == (p, |buf| + 1)
  {}

  function Max(a: int, b: int): (m: int)
    ensures m >= a && m >= b && (m == a || m == b)
  {
    if a >= b then a else b
  }

  // The capacity of a query buffer after the cron job, from its capacity, its peak use and what is known to come.
  function Shrunk(cap: nat, peak: nat, remaining: int): nat {
    var wanted := Max(if peak < RESIZE_THRESHOLD then QUERY_BUFFER_DEFAULT_SIZE else peak, remaining);
    if cap > RESIZE_THRESHOLD && peak < cap / 2 && wanted < cap then wanted else cap
  }

  class QueryReader {
    var queryParserState: State
    var queryBuff: array<Byte>  // its length is the capacity
    var queryBuffLen: nat
    var queryBuffPos: int
    var queryBuffPeak: nat
    const argv: array<QueryArg>
    var argc: nat
    var argi: nat
    var argRemaining: int
    ghost var parser: Parser  // the parser's progress as a value
    ghost var Repr: set<object>

    ghost predicate Valid()
      reads this, Repr
    {
      && this in Repr && argv in Repr && queryBuff in Repr && argv.Length == ELEMENTS_ARRAY_MAX_SIZE
      && queryBuff.Length >= QUERY_BUFFER_DEFAULT_SIZE
      && parser.Ok() && parser.argc <= ELEMENTS_ARRAY_MAX_SIZE
      && queryParserState == parser.state && argc == parser.argc && argi == |parser.args|
      && (forall i | 0 <= i < argv.Length && argv[i].bytes != null ::
            argv[i].bytes in Repr && argv[i].bytes != queryBuff)
      && (forall i | 0 <= i < argi && i < argv.Length :: Holds(argv[i], parser.args[i]))
      && (argi < argv.Length ==> InProgress(argv[argi], parser))
      && (forall i | argi < i < argv.Length :: argv[i] == NO_ARG)
      && (argi < argv.Length && argv[argi].bytes != null ==>
            forall i | 0 <= i < argi :: argv[i].bytes != argv[argi].bytes)
    }

    constructor ()
      ensures Valid() && fresh(Repr) && this in Repr && parser == INIT && KnowsRemaining()
      ensures queryBuff.Length == QUERY_BUFFER_DEFAULT_SIZE && argRemaining == -1
      ensures queryBuffLen == queryBuffPos == queryBuffPeak == 0
    {
      queryParserState := Start;
      queryBuff := new Byte[QUERY_BUFFER_DEFAULT_SIZE](_ => 0);
      queryBuffLen, queryBuffPos, queryBuffPeak := 0, 0, 0;
      argv := new QueryArg[ELEMENTS_ARRAY_MAX_SIZE](_ => NO_ARG);
      argc, argi, argRemaining := 0, 0, -1;
      parser := INIT;
      new;
      Repr := {this, argv, queryBuff};
    }

    // The parser is within the bytes of an argument.
    predicate Paused()
      reads this
    {
      queryParserState.ElementBytes?
    }

    // How many bytes of the argument in progress are still to come.
    ghost function Missing(): int
      requires argi < argv.Length
      reads this, argv
    {
      argv[argi].size - argv[argi].filled
    }

    /** A byte that has to be the given sign. */
    method ExpectSign(b: Byte, sign: Byte, next: State, error: State)
      requires Valid() && if parser.state.Start? then sign == STAR && next == ArraySize && error == ExpectedStartSign
                          else parser.state.Element? && sign == DOLLAR && next == ElementSize &&
                               error == ExpectedElementStartSign
      modifies `queryParserState, `parser
      ensures Valid() && parser == old(parser).Step(b)
      ensures parser.Failed() <==> b != sign
      ensures queryParserState == if b == sign then next else error
    {
      parser := parser.Step(b);
      queryParserState := if b == sign then next else error;
    }

    /** A byte of the number of arguments. */
    method ArraySizeByte(b: Byte)
      requires Valid() && queryParserState.ArraySize? && parser.Step(b).argc <= ELEMENTS_ARRAY_MAX_SIZE
      modifies `queryParserState, `argc, `parser
      ensures Valid() && parser == old(parser).Step(b) && !parser.Failed() && !Paused()
    {
      parser := parser.Step(b);
      if b == CR { return; }
      if b == LF {
        if argc > 0 {
          queryParserState := Element;
          return;
        }
        queryParserState := Done;
      }
      var digit := b - ZERO;
      if 0 <= digit <= 9 {
        argc := argc * 10 + digit;
      }
    }

    /** The size is known: allocates the bytes of the argument, which start after position idx of the buffer. */
    method StartBytes(idx: nat)
      requires Valid() && queryParserState.ElementSize? && idx < queryBuffLen && argv[argi].size > 0
      modifies `queryParserState, `argRemaining, `parser, `Repr, argv
      ensures Valid() && fresh(Repr - old(Repr)) && parser == old(parser).Step(LF) && Paused()
      ensures argi < argv.Length && argRemaining == Max(Missing() - (queryBuffLen - (idx + 1)), 0)
    {
      var arg := argv[argi];
      var bytes := new Byte[arg.size](_ => 0);
      parser := parser.Step(LF);
      argv[argi] := arg.(bytes := bytes);
      Repr := Repr + {bytes};
      argRemaining := arg.size - (queryBuffLen - (idx + 1));
      if argRemaining < 0 { argRemaining := 0; }
      queryParserState := ElementBytes;
    }

    /** The size is zero: the argument is complete. */
    method SkipEmpty()
      requires Valid() && queryParserState.ElementSize? && argv[argi].size == 0
      modifies `queryParserState, `argi, `parser
      ensures Valid() && parser == old(parser).Step(LF) && !Paused()
    {
      parser := parser.Step(LF);
      argi := argi + 1;
      queryParserState := if argi < argc then Element else Done;
    }

    /** A byte of the size of an argument, at position idx of the buffer. */
    method SizeByte(b: Byte, idx: nat)
      requires Valid() && queryParserState.ElementSize? && idx < queryBuffLen
      modifies `queryParserState, `argi, `argRemaining, `parser, `Repr, argv
      ensures Valid() && fresh(Repr - old(Repr)) && parser == old(parser).Step(b)
      ensures if Paused() then argi < argv.Length && argRemaining == Max(Missing() - (queryBuffLen - (idx + 1)), 0)
              else argRemaining == old(argRemaining)
    {
      if b == CR { return; }
      if b == LF {
        if argv[argi].size > 0 { StartBytes(idx); } else { SkipEmpty(); }
        return;
      }
      var digit := b - ZERO;
      if 0 <= digit <= 9 {
        var arg := argv[argi];
        argv[argi] := arg.(size := arg.size * 10 + digit);
        parser := parser.Step(b);
      }
    }

    /** A byte of an argument; `last` tells that it completes the command. */
    method ArgByte(b: Byte) returns (last: bool)
      requires Valid() && Paused()
      modifies `queryParserState, `argi, `argRemaining, `parser, argv, argv[argi].bytes
      ensures Valid() && parser == old(parser).Step(b)
      ensures last == parser.state.Done?
      ensures argRemaining == if last then -1 else old(argRemaining)
      ensures Paused() ==> argi == old(argi) < argv.Length && Missing() == old(Missing()) - 1
    {
      var arg := argv[argi];
      parser := parser.Step(b);
      arg.bytes[arg.filled] := b;
      arg := arg.(filled := arg.filled + 1);
      argv[argi] := arg;
      last := false;
      if arg.filled == arg.size {
        argi := argi + 1;
        if argi < argc {
          queryParserState := Element;
        } else {
          argRemaining := -1;
          queryParserState := Done;
          last := true;
        }
      }
    }

    lemma InOrder()
      requires Valid()
      ensures parser.Ok() && parser.state == queryParserState
      ensures argv in Repr
      ensures Paused() ==> argi < argv.Length && argv[argi].bytes in Repr && argv[argi].bytes != queryBuff
      ensures Paused() ==> argi < argv.Length && Missing() > 0
    {}

    lemma RoomToRead()
      requires Valid()
      ensures ReadCapacity() >= QUERY_BUFFER_DEFAULT_SIZE
    {}

    lemma Arguments()
      requires Valid()
      ensures queryParserState == parser.state && argc == parser.argc && argi == |parser.args| <= argv.Length
      ensures forall i | 0 <= i < argi :: Holds(argv[i], parser.args[i])
    {}

    /** Within an argument: all earlier arguments are filled, and the byte to come is in bounds. */
    lemma PausedArgument()
      requires Valid() && Paused()
      ensures argi < argv.Length && argv[argi].bytes != null
      ensures argv[argi].filled < argv[argi].size == argv[argi].bytes.Length
      ensures forall i | 0 <= i < argi :: argv[i].filled == argv[i].size == |parser.args[i]|
    {}

    /** An argument of a complete command; a missing argument reads as an empty one. */
    method Argument(i: nat) returns (s: Bytes)
      requires Valid() && queryParserState.Done? && i < ELEMENTS_ARRAY_MAX_SIZE
      ensures argc == |parser.args| && s == if i < |parser.args| then parser.args[i] else []
    {
      var arg := argv[i];
      s := if arg.bytes == null then [] else arg.bytes[..];
    }

    lemma ReprHas()
      requires Valid()
      ensures this in Repr && argv in Repr && queryBuff in Repr && queryParserState == parser.state
    {}

    method MovePosition(processed: int)
      requires Valid()
      modifies `queryBuffPos
      ensures Valid() && queryBuffPos == old(queryBuffPos) + processed
    {
      queryBuffPos := queryBuffPos + processed;
    }

    // The announced remainder of the argument in progress covers what is missing of it.
    ghost predicate KnowsRemaining()
      reads this, Repr
    {
      argv in Repr && (Paused() ==> argi < argv.Length && argRemaining >= Missing())
    }

    /** The byte at position idx of the buffer, for a parser that has not stopped; `last` tells that it is the last of a
        command that ends in bytes. */
    method TakeByte(b: Byte, idx: nat) returns (last: bool)
      requires Valid() && !parser.Stopped() && idx < queryBuffLen && parser.Step(b).argc <= ELEMENTS_ARRAY_MAX_SIZE
      modifies `queryParserState, `argc, `argi, `argRemaining, `parser, `Repr, Repr - {this, queryBuff}
      ensures Valid() && fresh(Repr - old(Repr)) && parser == old(parser).Step(b)
      ensures last <==> old(Paused()) && parser.state.Done?
      ensures Paused() ==> argi < argv.Length
      ensures Paused() && old(Paused()) ==>
                argi == old(argi) && Missing() == old(Missing()) - 1 && argRemaining == old(argRemaining)
      ensures Paused() && !old(Paused()) ==> argRemaining == Max(Missing() - (queryBuffLen - (idx + 1)), 0)
    {
      hide Feed, Parser.Step, Parser.Ok, Holds, InProgress, QueryReader.Valid;
      InOrder();
      last := false;
      match queryParserState {
        case Start => ExpectSign(b, STAR, ArraySize, ExpectedStartSign);
        case ArraySize => ArraySizeByte(b);
        case Element => ExpectSign(b, DOLLAR, ElementSize, ExpectedElementStartSign);
        case ElementSize => SizeByte(b, idx);
        case ElementBytes => last := ArgByte(b);
      }
    }

    /** The parser loop over the unread part of the query buffer. `processed` is the number that it returns;
        None: a client that sent a malformed request has sent more, which ends the server. */
    method ProcessQueryBuffer() returns (processed: Option<int>)
      requires Valid() && KnowsRemaining() && 0 <= queryBuffPos <= queryBuffLen <= queryBuff.Length
      requires Feed(parser, queryBuff[queryBuffPos..queryBuffLen]).argc <= ELEMENTS_ARRAY_MAX_SIZE
      modifies `queryParserState, `argc, `argi, `argRemaining, `parser, `Repr, Repr - {this, queryBuff}
      ensures Valid() && KnowsRemaining() && fresh(Repr - old(Repr))
      ensures processed.None? <==> old(parser).Failed() && queryBuffPos < queryBuffLen
      ensures processed.None? || queryBuffLen == 0 ==> parser == old(parser)
      ensures queryBuffLen == 0 ==> processed == Some(0)
      ensures processed.Some? && queryBuffLen > 0 ==>
                (parser, processed.value) == ParseAt(old(parser), queryBuff[..queryBuffLen], queryBuffPos)
      ensures Paused() && !(old(Paused()) && argi == old(argi)) ==> argi < argv.Length && argRemaining == Missing()
    {
      hide Feed, ParseAt, Parser.Step, Parser.Ok, Holds, InProgress, QueryReader.Valid;
      if queryBuffLen == 0 { return Some(0); }
      ghost var buf, p0 := queryBuff[..queryBuffLen], parser;
      assert buf[queryBuffPos..] == queryBuff[queryBuffPos..queryBuffLen];
      var idx: nat := queryBuffPos;
      while idx < queryBuffLen
        invariant queryBuffPos <= idx <= queryBuffLen
        invariant Valid() && fresh(Repr - old(Repr))
        invariant parser.Failed() || p0.Failed() ==> idx == queryBuffPos && parser == p0
        invariant ParseAt(parser, buf, idx) == ParseAt(p0, buf, queryBuffPos)
        invariant Feed(parser, buf[idx..]).argc <= ELEMENTS_ARRAY_MAX_SIZE
        invariant Paused() ==> argi < argv.Length && argRemaining + (queryBuffLen - idx) >= Missing()
        invariant Paused() && !(old(Paused()) && argi == old(argi)) ==>
                    argi < argv.Length && argRemaining == Max(Missing() - (queryBuffLen - idx), 0)
      {
        var currentByte := queryBuff[idx];
        InOrder();
        ParseOne(parser, buf, idx);
        if queryParserState.Done? { return Some(idx + 1); }
        if queryParserState.ExpectedStartSign? || queryParserState.ExpectedElementStartSign? { return None; }
        var last := TakeByte(currentByte, idx);
        InOrder();
        if last { return Some(idx + 1); }
        if queryParserState.ExpectedStartSign? || queryParserState.ExpectedElementStartSign? { return Some(-1); }
        idx := idx + 1;
      }
      InOrder();
      ParseEnd(parser, buf);
      return Some(idx + 1);
    }

    // ---------- the query buffer ----------

    /** Takes in what the client sent; it fits the buffer. */
    method Receive(chunk: Bytes)
      requires Valid() && |chunk| <= queryBuff.Length
      modifies `queryBuffLen, `queryBuffPeak, queryBuff
      ensures Valid() && queryBuffLen == |chunk| && queryBuff[..queryBuffLen] == chunk
      ensures queryBuffPeak == Max(old(queryBuffPeak), |chunk|)
    {
      forall i | 0 <= i < |chunk| {
        queryBuff[i] := chunk[i];
      }
      queryBuffLen := |chunk|;
      if queryBuffPeak < |chunk| { queryBuffPeak := |chunk|; }
    }

    // The capacity that a read has after making room.
    function ReadCapacity(): nat
      reads this
    {
      if argRemaining > CMD_BIG_ARG then Max(queryBuff.Length, argRemaining) else queryBuff.Length
    }

    /** Before a read: makes room for the rest of a big argument. The old contents of the buffer are dropped. */
    method ResizeQueryBuffer()
      requires Valid()
      modifies `queryBuff, `Repr
      ensures Valid() && fresh(Repr - old(Repr))
      ensures argRemaining <= CMD_BIG_ARG ==> queryBuff == old(queryBuff)
      ensures queryBuff.Length == old(ReadCapacity()) && queryBuff.Length >= old(queryBuff.Length)
      ensures argRemaining > CMD_BIG_ARG ==> queryBuff.Length >= argRemaining
    {
      var newSize := argRemaining;
      if newSize > CMD_BIG_ARG && queryBuff.Length < newSize {
        queryBuff := new Byte[newSize](_ => 0);
        Repr := Repr + {queryBuff};
      }
    }

    /** The cron job's attempt to shrink the buffer: it never falls below the default size, nor below what is known
        to come; it shrinks only if it is above the threshold and less than half used since the last attempt. */
    method ShrinkQueryBuffer()
      requires Valid()
      modifies `queryBuff, `queryBuffPeak, `Repr
      ensures Valid() && fresh(Repr - old(Repr)) && queryBuffPeak == 0
      ensures queryBuff.Length == Shrunk(old(queryBuff.Length), old(queryBuffPeak), argRemaining)
      ensures queryBuff.Length < old(queryBuff.Length) <==>
                old(queryBuff.Length) > 32 * 1024 && old(queryBuffPeak) < old(queryBuff.Length) / 2
                && argRemaining < old(queryBuff.Length)
      ensures queryBuff.Length < old(queryBuff.Length) ==>
                var wanted := if old(queryBuffPeak) < 32 * 1024 then 16 * 1024 else old(queryBuffPeak);
                queryBuff.Length == if argRemaining > wanted then argRemaining else wanted
      ensures queryBuff.Length == old(queryBuff.Length) ==> queryBuff == old(queryBuff)
      ensures QUERY_BUFFER_DEFAULT_SIZE <= queryBuff.Length <= old(queryBuff.Length)
      ensures queryBuff.Length < old(queryBuff.Length) ==> queryBuff.Length >= argRemaining
    {
      if queryBuff.Length > RESIZE_THRESHOLD && queryBuffPeak < queryBuff.Length / 2 {
        var newSize: int := queryBuffPeak;
        if newSize < RESIZE_THRESHOLD { newSize := QUERY_BUFFER_DEFAULT_SIZE; }
        if newSize < argRemaining { newSize := argRemaining; }
        if newSize < queryBuff.Length {
          queryBuff := new Byte[newSize](_ => 0);
          Repr := Repr + {queryBuff};
        }
      }
      queryBuffPeak := 0;
    }

    // ---------- resets ----------

    method ResetQueryBufferState()
      requires Valid()
      modifies `queryBuffLen, `queryBuffPos
      ensures Valid() && queryBuffLen == queryBuffPos == 0
    {
      queryBuffLen, queryBuffPos := 0, 0;
    }

    /** Resets the parser state and empties every slot of the argument vector. */
    method ResetCommand()
      requires Valid()
      modifies `queryParserState, `argc, `argi, `parser, argv
      ensures Valid() && parser == INIT
    {
      queryParserState := Start;
      for i := 0 to argc
        modifies argv
        invariant forall k | 0 <= k < i :: argv[k] == NO_ARG
        invariant forall k | i <= k < argv.Length :: argv[k] == old(argv[k])
      {
        argv[i] := NO_ARG;
      }
      argi, argc := 0, 0;
      parser := INIT;
    }

    // ---------- successive reads ----------

    /** One read event that completes no command or just one: the chunk goes through the buffer and the parser. */
    method ReadChunk(chunk: Bytes) returns (exits: bool)
      requires Valid() && KnowsRemaining() && queryBuffPos == 0 && 0 < |chunk| <= ReadCapacity()
      requires Feed(parser, chunk).argc <= ELEMENTS_ARRAY_MAX_SIZE
      modifies Repr
      ensures Valid() && KnowsRemaining() && fresh(Repr - old(Repr)) && queryBuffPos == 0
      ensures parser == Feed(old(parser), chunk) && exits == old(parser).Failed() && (exits ==> parser == old(parser))
    {
      hide Feed, ParseAt, Parser.Step, Holds, InProgress, QueryReader.Valid;
      ReprHas();
      ResizeQueryBuffer();
      ReprHas();
      Receive(chunk);
      assert queryBuff[0..queryBuffLen] == queryBuff[..queryBuffLen] == chunk;
      ParseFeeds(parser, chunk, 0);
      assert chunk[0..] == chunk;
      ghost var p := parser;
      var processed := ProcessQueryBuffer();
      ReprHas();
      exits := processed.None?;
      if exits { StoppedStays(p, chunk); }
      ResetQueryBufferState();
    }

    /** Successive read events until the command is complete. `sizes` tells how many of the bytes that have come in each
        of them takes, as far as they fit the buffer; the parser and the arguments do not depend on it. */
    method ReadCommand(input: Bytes, sizes: nat -> nat) returns (exits: bool)
      requires Valid() && KnowsRemaining() && queryBuffPos == 0
      requires Feed(parser, input).argc <= ELEMENTS_ARRAY_MAX_SIZE
      modifies Repr
      ensures Valid() && KnowsRemaining() && fresh(Repr - old(Repr))
      ensures parser == Feed(old(parser), input) && (exits ==> parser.Failed())
      ensures queryParserState == parser.state && argc == parser.argc && argi == |parser.args| <= argv.Length
      ensures forall i | 0 <= i < argi :: Holds(argv[i], parser.args[i])
    {
      hide Feed, Parser.Step, Parser.Ok, Holds, InProgress, QueryReader.Valid, QueryReader.KnowsRemaining,
        QueryReader.ReadCapacity;
      ghost var p0 := parser;
      var pos, count := 0, 0;
      exits := false;
      InOrder();
      BytesUpTo(p0, input, 0, 0);
      while pos < |input| && !queryParserState.Done? && !exits
        invariant Valid() && KnowsRemaining() && fresh(Repr - old(Repr)) && queryBuffPos == 0
        invariant pos <= |input| && parser == Feed(p0, input[..pos]) && queryParserState == parser.state
        invariant exits ==> parser.Failed()
        decreases |input| - pos
      {
        RoomToRead();
        var n := Max(1, sizes(count));
        if n > ReadCapacity() { n := ReadCapacity(); }
        if n > |input| - pos { n := |input| - pos; }
        BytesUpTo(p0, input, pos, n);
        exits := ReadChunk(input[pos..pos + n]);
        InOrder();
        pos, count := pos + n, count + 1;
      }
      StopsHere(p0, input, pos);
      Arguments();
    }
  }

  /** The cron job's loop over the clients' query buffers; a slot is null once its client is gone. */
  method ClientCron(clients: seq<QueryReader?>)
    requires forall i | 0 <= i < |clients| && clients[i] != null :: clients[i].Valid() && clients[i] in clients[i].Repr
    requires forall i, j | 0 <= i < j < |clients| && clients[i] != null && clients[j] != null ::
               clients[i].Repr !! clients[j].Repr
    modifies (set c: QueryReader | c in clients)`queryBuff
    modifies (set c: QueryReader | c in clients)`queryBuffPeak
    modifies (set c: QueryReader | c in clients)`Repr
    ensures forall i | 0 <= i < |clients| && clients[i] != null ::
              && clients[i].Valid() && fresh(clients[i].Repr - old(clients[i].Repr))
              && clients[i] in clients[i].Repr && clients[i].queryBuffPeak == 0
              && clients[i].queryBuff.Length
                 == Shrunk(old(clients[i].queryBuff.Length), old(clients[i].queryBuffPeak), clients[i].argRemaining)
  {
    hide QueryReader.Valid, Shrunk;
    for i := 0 to |clients|
      invariant forall k | 0 <= k < |clients| && clients[k] != null ::
                  clients[k].Valid() && clients[k] in clients[k].Repr
      invariant forall k | 0 <= k < |clients| && clients[k] != null :: fresh(clients[k].Repr - old(clients[k].Repr))
      invariant forall k, j | 0 <= k < j < |clients| && clients[k] != null && clients[j] != null ::
                  clients[k].Repr !! clients[j].Repr
      invariant forall k | i <= k < |clients| && clients[k] != null :: unchanged(clients[k])
      invariant forall k | 0 <= k < i && clients[k] != null ::
                  clients[k].queryBuffPeak == 0
                  && clients[k].queryBuff.Length
                     == Shrunk(old(clients[k].queryBuff.Length), old(clients[k].queryBuffPeak), clients[k].argRemaining)
    {
      var client := clients[i];
      if client != null {
        assert client in clients;
        client.ShrinkQueryBuffer();
        client.ReprHas();
      }
    }
  }
}
