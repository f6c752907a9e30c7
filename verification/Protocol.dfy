/** ACSP requests: their encoding, and the byte-at-a-time parser of archke_server.c on values. */
module Protocol {
  import opened StoreModel

  const STAR: Byte := 42
  const DOLLAR: Byte := 36
  const CR: Byte := 13
  const LF: Byte := 10
  const ZERO: Byte := 48

  // ---------- encoding ----------

  /** The decimal digits of n. */
  function Decimal(n: nat): Bytes {
    if n < 10 then [(ZERO + n) as Byte] else Decimal(n / 10) + [(ZERO + n % 10) as Byte]
  }

  function EncodeString(s: Bytes): Bytes {
    [DOLLAR] + Decimal(|s|) + [CR, LF] + s
  }

  function EncodeStrings(args: seq<Bytes>): Bytes {
    if args == [] then [] else EncodeString(args[0]) + EncodeStrings(args[1..])
  }

  function Encode(args: seq<Bytes>): Bytes {
    [STAR] + Decimal(|args|) + [CR, LF] + EncodeStrings(args)
  }

  // ---------- parsing ----------

  datatype State =
    | Start
    | ArraySize
    | Element
    | ElementSize
    | ElementBytes
    | Done
    | ExpectedStartSign
    | ExpectedElementStartSign

  // `args` are the complete arguments; `size` and `got` are the announced size and the bytes so far of the next one.
  datatype Parser = Parser(state: State, argc: nat, args: seq<Bytes>, size: nat, got: Bytes) {
    predicate Stopped() {
      state.Done? || Failed()
    }

    predicate Failed() {
      state.ExpectedStartSign? || state.ExpectedElementStartSign?
    }

    // What holds of every parser that started from INIT.
    predicate Ok() {
      match state
      case Start => args == [] && argc == size == 0 && got == []
      case ArraySize | ExpectedStartSign => args == [] && size == 0 && got == []
      case Element | ExpectedElementStartSign => |args| < argc && size == 0 && got == []
      case ElementSize => |args| < argc && got == []
      case ElementBytes => |args| < argc && |got| < size
      case Done => |args| == argc && size == 0 && got == []
    }

    // The argument in progress is complete.
    function Finish(arg: Bytes): Parser {
      Parser(if |args| + 1 < argc then Element else Done, argc, args + [arg], 0, [])
    }

    function Step(b: Byte): Parser {
      match state
      case Start => this.(state := if b == STAR then ArraySize else ExpectedStartSign)
      case ArraySize =>
        if b == LF then this.(state := if argc > 0 then Element else Done)
        else if IsDigit(b) then this.(argc := argc * 10 + (b - ZERO))
        else this
      case Element => this.(state := if b == DOLLAR then ElementSize else ExpectedElementStartSign)
      case ElementSize =>
        if b == LF then (if size > 0 then this.(state := ElementBytes) else Finish([]))
        else if IsDigit(b) then this.(size := size * 10 + (b - ZERO))
        else this
      case ElementBytes =>
        if |got| + 1 == size then Finish(got + [b]) else this.(got := got + [b])
      case _ => this
    }
  }

  const INIT := Parser(Start, 0, [], 0, [])

  predicate IsDigit(b: Byte) {
    ZERO <= b <= ZERO + 9
  }

  /** The parser after a number of bytes; a stopped parser ignores the rest. */
  function Feed(p: Parser, bytes: Bytes): Parser {
    if bytes == [] then p else Feed(p, bytes[..|bytes| - 1]).Step(bytes[|bytes| - 1])
  }

  lemma {:induction false} FeedConcat(p: Parser, a: Bytes, b: Bytes)
    ensures Feed(p, a + b) == Feed(Feed(p, a), b)
  {
    if b == [] {
      assert a + b == a;
    } else {
      assert (a + b)[..|a + b| - 1] == a + b[..|b| - 1];
      FeedConcat(p, a, b[..|b| - 1]);
    }
  }

  function Joined(chunks: seq<Bytes>): Bytes {
    if chunks == [] then [] else Joined(chunks[..|chunks| - 1]) + chunks[|chunks| - 1]
  }

  // ---------- round trip ----------

  lemma {:induction false} FeedOne(p: Parser, b: Byte)
    ensures Feed(p, [b]) == p.Step(b)
  {
    assert [b][..0] == [];
  }

  lemma {:induction false} FeedArrayDigits(p: Parser, n: nat)
    requires p.state.ArraySize? && p.argc == 0
    ensures Feed(p, Decimal(n)) == p.(argc := n)
    decreases n
  {
    if n < 10 {
      FeedOne(p, (ZERO + n) as Byte);
    } else {
      FeedArrayDigits(p, n / 10);
      FeedConcat(p, Decimal(n / 10), [(ZERO + n % 10) as Byte]);
      FeedOne(p.(argc := n / 10), (ZERO + n % 10) as Byte);
    }
  }

  lemma {:induction false} FeedSizeDigits(p: Parser, n: nat)
    requires p.state.ElementSize? && p.size == 0
    ensures Feed(p, Decimal(n)) == p.(size := n)
    decreases n
  {
    if n < 10 {
      FeedOne(p, (ZERO + n) as Byte);
    } else {
      FeedSizeDigits(p, n / 10);
      FeedConcat(p, Decimal(n / 10), [(ZERO + n % 10) as Byte]);
      FeedOne(p.(size := n / 10), (ZERO + n % 10) as Byte);
    }
  }

  lemma {:induction false} FeedBytes(p: Parser, s: Bytes)
    requires p.state.ElementBytes? && |p.got| + |s| <= p.size && s != []
    ensures Feed(p, s) == if |p.got| + |s| == p.size then p.Finish(p.got + s) else p.(got := p.got + s)
  {
    var init, b := s[..|s| - 1], s[|s| - 1];
    assert s == init + [b];
    if init == [] {
      FeedOne(p, b);
    } else {
      FeedBytes(p, init);
      assert p.got + init + [b] == p.got + s;
    }
  }

  lemma FeedCrLf(p: Parser)
    requires p.state.ArraySize? || p.state.ElementSize?
    ensures Feed(p, [CR, LF]) == p.Step(LF)
  {
    assert [CR, LF] == [CR] + [LF];
    FeedConcat(p, [CR], [LF]);
    FeedOne(p, CR);
    FeedOne(p, LF);
  }

  // An element is announced next, and nothing of it has been read.
  predicate AtElement(p: Parser) {
    p.state.Element? && p.size == 0 && p.got == []
  }

  lemma FeedString(p: Parser, s: Bytes)
    requires AtElement(p)
    ensures Feed(p, EncodeString(s)) == p.Finish(s)
  {
    hide Decimal, Feed;
    var p1 := p.(state := ElementSize);
    var p2 := p1.(size := |s|);
    FeedOne(p, DOLLAR);
    FeedSizeDigits(p1, |s|);
    FeedConcat(p, [DOLLAR], Decimal(|s|));
    FeedCrLf(p2);
    FeedConcat(p, [DOLLAR] + Decimal(|s|), [CR, LF]);
    FeedConcat(p, [DOLLAR] + Decimal(|s|) + [CR, LF], s);
    if s == [] {
      assert EncodeString(s) == [DOLLAR] + Decimal(|s|) + [CR, LF];
    } else {
      FeedBytes(p2.(state := ElementBytes), s);
      assert [] + s == s;
    }
  }

  // The parser just before the last byte of an element: it is still reading the size, or the bytes.
  lemma BeforeEndOfString(p: Parser, s: Bytes)
    requires AtElement(p)
    ensures var q := Feed(p, EncodeString(s)[..|EncodeString(s)| - 1]);
            q.args == p.args && q.state == if s == [] then ElementSize else ElementBytes
  {
    hide Decimal, Feed;
    var p1 := p.(state := ElementSize);
    var p2 := p1.(size := |s|);
    var head := [DOLLAR] + Decimal(|s|);
    FeedOne(p, DOLLAR);
    FeedSizeDigits(p1, |s|);
    FeedConcat(p, [DOLLAR], Decimal(|s|));
    if s == [] {
      assert EncodeString(s)[..|EncodeString(s)| - 1] == head + [CR];
      FeedConcat(p, head, [CR]);
      FeedOne(p2, CR);
    } else {
      var init, q := s[..|s| - 1], p2.(state := ElementBytes);
      FeedCrLf(p2);
      FeedConcat(p, head, [CR, LF]);
      assert EncodeString(s)[..|EncodeString(s)| - 1] == head + [CR, LF] + init;
      FeedConcat(p, head + [CR, LF], init);
      if init == [] { FeedNothing(q); } else { FeedBytes(q, init); }
    }
  }

  lemma FeedNothing(p: Parser)
    ensures Feed(p, []) == p
  {}

  lemma {:induction false} BeforeEndOfStrings(p: Parser, args: seq<Bytes>)
    requires AtElement(p) && args != [] && |p.args| + |args| == p.argc
    ensures EncodeStrings(args) != []
    ensures Feed(p, EncodeStrings(args)[..|EncodeStrings(args)| - 1]).state
         == if args[|args| - 1] == [] then ElementSize else ElementBytes
    decreases |args|
  {
    hide EncodeString, Feed;
    var first := EncodeString(args[0]);
    EncodeStringNonempty(args[0]);
    if |args| == 1 {
      assert EncodeStrings(args) == first;
      BeforeEndOfString(p, args[0]);
    } else {
      var rest := EncodeStrings(args[1..]);
      FeedString(p, args[0]);
      BeforeEndOfStrings(p.Finish(args[0]), args[1..]);
      assert EncodeStrings(args)[..|EncodeStrings(args)| - 1] == first + rest[..|rest| - 1];
      FeedConcat(p, first, rest[..|rest| - 1]);
    }
  }

  lemma EncodeStringNonempty(s: Bytes)
    ensures |EncodeString(s)| > 0
  {}

  lemma {:induction false} FeedStrings(p: Parser, args: seq<Bytes>)
    requires AtElement(p) && args != [] && |p.args| + |args| == p.argc
    ensures Feed(p, EncodeStrings(args)) == Parser(Done, p.argc, p.args + args, 0, [])
    decreases |args|
  {
    hide EncodeString, Feed;
    FeedString(p, args[0]);
    FeedConcat(p, EncodeString(args[0]), EncodeStrings(args[1..]));
    if |args| == 1 {
      assert EncodeStrings(args) == EncodeString(args[0]);
      assert p.args + [args[0]] == p.args + args;
    } else {
      FeedStrings(p.Finish(args[0]), args[1..]);
      assert p.args + [args[0]] + args[1..] == p.args + args;
    }
  }

  /** Parsing the encoding of a list of arguments yields that list. */
  lemma RoundTrip(args: seq<Bytes>)
    requires args != []
    ensures Feed(INIT, Encode(args)) == Parser(Done, |args|, args, 0, [])
  {
    hide Decimal, Feed, EncodeStrings;
    var p1 := INIT.(state := ArraySize);
    var p2 := p1.(argc := |args|);
    FeedOne(INIT, STAR);
    FeedArrayDigits(p1, |args|);
    FeedConcat(INIT, [STAR], Decimal(|args|));
    FeedCrLf(p2);
    FeedConcat(INIT, [STAR] + Decimal(|args|), [CR, LF]);
    FeedConcat(INIT, [STAR] + Decimal(|args|) + [CR, LF], EncodeStrings(args));
    FeedStrings(p2.(state := Element), args);
    assert [] + args == args;
  }

  lemma FeedHeader(args: seq<Bytes>)
    requires args != []
    ensures Feed(INIT, [STAR] + Decimal(|args|) + [CR, LF]) == Parser(Element, |args|, [], 0, [])
  {
    hide Decimal, Feed;
    var p1 := INIT.(state := ArraySize);
    FeedOne(INIT, STAR);
    FeedArrayDigits(p1, |args|);
    FeedConcat(INIT, [STAR], Decimal(|args|));
    FeedCrLf(p1.(argc := |args|));
    FeedConcat(INIT, [STAR] + Decimal(|args|), [CR, LF]);
  }

  /** The last byte of an encoding is the one that completes the command. */
  lemma BeforeEnd(args: seq<Bytes>)
    requires args != []
    ensures Encode(args) != []
    ensures Feed(INIT, Encode(args)[..|Encode(args)| - 1]).state
         == if args[|args| - 1] == [] then ElementSize else ElementBytes
  {
    hide Decimal, Feed, EncodeStrings;
    var header, rest := [STAR] + Decimal(|args|) + [CR, LF], EncodeStrings(args);
    FeedHeader(args);
    BeforeEndOfStrings(Parser(Element, |args|, [], 0, []), args);
    assert Encode(args)[..|Encode(args)| - 1] == header + rest[..|rest| - 1];
    FeedConcat(INIT, header, rest[..|rest| - 1]);
  }

  lemma {:induction false} StoppedStays(p: Parser, bytes: Bytes)
    requires p.Stopped()
    ensures Feed(p, bytes) == p
  {
    if bytes != [] { StoppedStays(p, bytes[..|bytes| - 1]); }
  }

  /** Part of an encoding neither completes a command nor is an error. */
  lemma PartialIsUnfinished(args: seq<Bytes>, n: nat)
    requires args != [] && n < |Encode(args)|
    ensures !Feed(INIT, Encode(args)[..n]).Stopped()
  {
    hide Feed, Encode;
    BeforeEnd(args);
    var e := Encode(args)[..|Encode(args)| - 1];
    assert e == Encode(args)[..n] + e[n..];
    FeedConcat(INIT, Encode(args)[..n], e[n..]);
    if Feed(INIT, Encode(args)[..n]).Stopped() { StoppedStays(Feed(INIT, Encode(args)[..n]), e[n..]); }
  }

  /** What is malformed: a request that does not begin with a star, or an argument that does not begin with a dollar. */
  lemma FailsJustOn(p: Parser, b: Byte)
    requires p.Ok() && !p.Stopped()
    ensures p.Step(b).Failed() <==> (p.state.Start? && b != 42) || (p.state.Element? && b != 36)
  {}

  /** Where the next argument of a request has to begin, any byte but a dollar is an error. */
  lemma MalformedFails(args: seq<Bytes>, k: nat, b: Byte)
    requires args != [] && k < |args| && b != 36
    ensures var bytes := [42] + Decimal(|args|) + [13, 10] + EncodeStrings(args[..k]) + [b];
            Feed(INIT, bytes).Failed()
  {
    hide Decimal, Feed, EncodeStrings;
    var header, part := [STAR] + Decimal(|args|) + [CR, LF], EncodeStrings(args[..k]);
    var p := Parser(Element, |args|, [], 0, []);
    FeedHeader(args);
    FeedConcat(INIT, header, part);
    FeedSomeStrings(p, args[..k]);
    var q := Feed(INIT, header + part);
    FeedConcat(INIT, header + part, [b]);
    FeedOne(q, b);
  }

  // Some, but not all, of the announced arguments.
  lemma {:induction false} FeedSomeStrings(p: Parser, args: seq<Bytes>)
    requires AtElement(p) && |p.args| + |args| < p.argc
    ensures AtElement(Feed(p, EncodeStrings(args)))
    decreases |args|
  {
    hide EncodeString, Feed;
    if args == [] {
      FeedNothing(p);
    } else {
      FeedString(p, args[0]);
      FeedConcat(p, EncodeString(args[0]), EncodeStrings(args[1..]));
      FeedSomeStrings(p.Finish(args[0]), args[1..]);
    }
  }

  lemma OneDigit(n: nat)
    requires n < 10
    ensures Decimal(n) == [48 + n]
  {}

  lemma MoreDigits(n: nat)
    requires n >= 10
    ensures Decimal(n) == Decimal(n / 10) + [48 + n % 10]
  {}

  /** The protocol's own example of a request, and a number of more than one digit. */
  lemma ExampleRequest()
    ensures Encode([[83, 69, 84], [77, 89, 75, 69, 89], [77, 89, 86, 65, 76, 85, 69]])
         == [42, 51, 13, 10, 36, 51, 13, 10, 83, 69, 84, 36, 53, 13, 10, 77, 89, 75, 69, 89,
             36, 55, 13, 10, 77, 89, 86, 65, 76, 85, 69]
    ensures Decimal(1024) == [49, 48, 50, 52]
  {
    hide Decimal, EncodeStrings;
    var a, b, c: Bytes := [83, 69, 84], [77, 89, 75, 69, 89], [77, 89, 86, 65, 76, 85, 69];
    OneDigit(3);
    OneDigit(5);
    OneDigit(7);
    ThreeStrings(a, b, c);
    ExampleNumber();
  }

  lemma ExampleNumber()
    ensures Decimal(1024) == [49, 48, 50, 52]
  {
    hide Decimal;
    OneDigit(1);
    MoreDigits(10);
    MoreDigits(102);
    MoreDigits(1024);
  }

  lemma ThreeStrings(a: Bytes, b: Bytes, c: Bytes)
    ensures EncodeStrings([a, b, c]) == EncodeString(a) + EncodeString(b) + EncodeString(c)
  {
    hide EncodeString;
    assert [a, b, c][1..] == [b, c] && [b, c][1..] == [c] && [c][1..] == [];
    assert EncodeStrings([c]) == EncodeString(c) + EncodeStrings([]);
    assert EncodeStrings([b, c]) == EncodeString(b) + EncodeStrings([c]);
  }

  // ---------- positions ----------

  /** The parser loop from position idx of a buffer: the parser it leaves, and the number that it returns. */
  function ParseAt(p: Parser, buf: Bytes, idx: nat): (r: (Parser, int))
    ensures r.1 > idx || (r.1 == -1 && r.0.Failed())
    decreases |buf| - idx
  {
    if idx >= |buf| || p.Stopped() then (p, idx + 1) else
      var p' := p.Step(buf[idx]);
      if p'.Failed() then (p', -1)
      else if p'.state.Done? && p.state.ElementBytes? then (p', idx + 1)
      else ParseAt(p', buf, idx + 1)
  }

  lemma FeedFirst(p: Parser, bytes: Bytes)
    requires bytes != []
    ensures Feed(p, bytes) == Feed(p.Step(bytes[0]), bytes[1..])
  {
    assert bytes == [bytes[0]] + bytes[1..];
    FeedConcat(p, [bytes[0]], bytes[1..]);
    FeedOne(p, bytes[0]);
  }

  /** The loop leaves the parser as feeding it all the bytes does. */
  lemma {:induction false} ParseFeeds(p: Parser, buf: Bytes, idx: nat)
    requires idx <= |buf|
    ensures ParseAt(p, buf, idx).0 == Feed(p, buf[idx..])
    decreases |buf| - idx
  {
    hide Feed;
    if idx == |buf| {
      FeedNothing(p);
    } else if p.Stopped() {
      StoppedStays(p, buf[idx..]);
    } else {
      var p' := p.Step(buf[idx]);
      FeedFirst(p, buf[idx..]);
      assert buf[idx..][1..] == buf[idx + 1..];
      if p'.Stopped() { StoppedStays(p', buf[idx + 1..]); }
      ParseFeeds(p', buf, idx + 1);
    }
  }

  /** The parser after the loop has run over one chunk after the other. */
  function ParseChunks(p: Parser, chunks: seq<Bytes>): Parser {
    if chunks == [] then p else ParseAt(ParseChunks(p, chunks[..|chunks| - 1]), chunks[|chunks| - 1], 0).0
  }

  /** Running the loop over the chunks, with its early returns and absorbing states, leaves the parser that all their
      bytes do, one by one. */
  lemma {:induction false} ParseChunksFeeds(p: Parser, chunks: seq<Bytes>)
    ensures ParseChunks(p, chunks) == Feed(p, Joined(chunks))
  {
    hide ParseAt, Feed;
    if chunks == [] {
      FeedNothing(p);
    } else {
      var init, last := chunks[..|chunks| - 1], chunks[|chunks| - 1];
      ParseChunksFeeds(p, init);
      FeedConcat(p, Joined(init), last);
      ParseFeeds(ParseChunks(p, init), last, 0);
      assert last[0..] == last;
    }
  }

  /** However the same bytes are cut into chunks, the loop ends in the same state, with the same arguments. */
  lemma ChunkingIsIrrelevant(p: Parser, chunks: seq<Bytes>, others: seq<Bytes>)
    requires Joined(chunks) == Joined(others)
    ensures ParseChunks(p, chunks) == ParseChunks(p, others) == ParseAt(p, Joined(chunks), 0).0
  {
    hide ParseAt, Feed, Joined, ParseChunks;
    ParseChunksFeeds(p, chunks);
    ParseChunksFeeds(p, others);
    ParseFeeds(p, Joined(chunks), 0);
    assert Joined(chunks)[0..] == Joined(chunks);
  }

  /** The loop passes over any number of bytes that do not stop the parser. */
  lemma {:induction false} ParseSkips(p: Parser, buf: Bytes, idx: nat, n: nat)
    requires idx + n <= |buf| && !Feed(p, buf[idx..idx + n]).Stopped()
    ensures ParseAt(p, buf, idx) == ParseAt(Feed(p, buf[idx..idx + n]), buf, idx + n)
    decreases n
  {
    hide Feed;
    if n == 0 {
      FeedNothing(p);
    } else {
      var bytes := buf[idx..idx + n];
      FeedFirst(p, bytes);
      assert bytes[1..] == buf[idx + 1..idx + 1 + (n - 1)];
      if p.Stopped() { StoppedStays(p, bytes); }
      if p.Step(buf[idx]).Stopped() { StoppedStays(p.Step(buf[idx]), bytes[1..]); }
      ParseSkips(p.Step(buf[idx]), buf, idx + 1, n - 1);
    }
  }

  /** Parsing from any offset of a longer buffer: the command is recognised, and the returned index is the end of its
      encoding just when its last argument is not empty; otherwise it is one too far. */
  lemma ParseStopsAtEnd(buf: Bytes, pos: nat, args: seq<Bytes>)
    requires args != [] && pos + |Encode(args)| <= |buf| && buf[pos..pos + |Encode(args)|] == Encode(args)
    ensures ParseAt(INIT, buf, pos).0 == Parser(Done, |args|, args, 0, [])
    ensures ParseAt(INIT, buf, pos).1 == pos + |Encode(args)| + if args[|args| - 1] == [] then 1 else 0
  {
    hide Feed, Encode;
    var e := Encode(args);
    BeforeEnd(args);
    var n := |e| - 1;
    var q := Feed(INIT, e[..n]);
    assert buf[pos..pos + n] == e[..n];
    ParseSkips(INIT, buf, pos, n);
    assert e == e[..n] + [e[n]];
    FeedConcat(INIT, e[..n], [e[n]]);
    FeedOne(q, e[n]);
    RoundTrip(args);
    assert buf[pos + n] == buf[pos..pos + |e|][n];
  }

  /** A buffer that ends within a command is consumed entirely. */
  lemma ParseRunsOff(p: Parser, buf: Bytes, pos: nat)
    requires pos <= |buf| && !Feed(p, buf[pos..]).Stopped()
    ensures ParseAt(p, buf, pos) == (Feed(p, buf[pos..]), |buf| + 1)
  {
    hide Feed;
    assert buf[pos..pos + (|buf| - pos)] == buf[pos..];
    ParseSkips(p, buf, pos, |buf| - pos);
  }

  // ---------- splitting a stream of commands ----------

  function EncodeAll(commands: seq<seq<Bytes>>): Bytes {
    if commands == [] then [] else Encode(commands[0]) + EncodeAll(commands[1..])
  }

  predicate EndsInBytes(args: seq<Bytes>) {
    args != [] && args[|args| - 1] != []
  }

  /** Parses command after command, each from the index that the previous call returned. */
  function Split(buf: Bytes, pos: nat): seq<seq<Bytes>>
    decreases |buf| - pos
  {
    if pos >= |buf| then [] else
      var r := ParseAt(INIT, buf, pos);
      if r.0.state.Done? && r.1 > pos then [r.0.args] + Split(buf, r.1) else []
  }

  // Every command but the last ends in a nonempty argument.
  predicate Separable(commands: seq<seq<Bytes>>) {
    forall i | 0 <= i < |commands| - 1 :: EndsInBytes(commands[i])
  }

  lemma SeparableTail(commands: seq<seq<Bytes>>)
    requires |commands| > 1
    ensures Separable(commands) <==> EndsInBytes(commands[0]) && Separable(commands[1..])
  {
    if EndsInBytes(commands[0]) && Separable(commands[1..]) {
      forall i | 0 <= i < |commands| - 1 ensures EndsInBytes(commands[i]) {
        if i > 0 { assert commands[i] == commands[1..][i - 1]; }
      }
    }
    if Separable(commands) {
      forall i | 0 <= i < |commands[1..]| - 1 ensures EndsInBytes(commands[1..][i]) {
        assert EndsInBytes(commands[i + 1]);
      }
    }
  }

  lemma {:induction false} FirstDigit(n: nat)
    ensures Decimal(n) != [] && IsDigit(Decimal(n)[0])
    decreases n
  {
    if n >= 10 { FirstDigit(n / 10); }
  }

  lemma EncodeStarts(args: seq<Bytes>)
    ensures |Encode(args)| >= 2 && IsDigit(Encode(args)[1])
  {
    hide Decimal, EncodeStrings, IsDigit;
    FirstDigit(|args|);
    assert Encode(args)[1] == ([STAR] + Decimal(|args|))[1] == Decimal(|args|)[0];
  }

  // From a digit on, no command is found.
  lemma DigitFails(buf: Bytes, pos: nat)
    requires pos < |buf| && IsDigit(buf[pos])
    ensures Split(buf, pos) == []
  {}

  // A command that ends in an empty argument hides the star of the next one.
  lemma NextIsLost(buf: Bytes, pos: nat, args: seq<Bytes>, next: seq<Bytes>)
    requires args != [] && !EndsInBytes(args) && pos + |Encode(args)| + |Encode(next)| <= |buf|
    requires buf[pos..pos + |Encode(args)|] == Encode(args)
    requires buf[pos + |Encode(args)|..pos + |Encode(args)| + |Encode(next)|] == Encode(next)
    ensures Split(buf, pos) == [args]
  {
    hide Encode, Feed;
    BeforeEnd(args);
    ParseStopsAtEnd(buf, pos, args);
    EncodeStarts(next);
    var end := pos + |Encode(args)|;
    assert buf[end + 1] == buf[end..end + |Encode(next)|][1];
    DigitFails(buf, end + 1);
  }

  /** A concatenation of encodings splits back into exactly its commands just when none of them, except possibly the
      last, ends in an empty argument. */
  lemma {:induction false} SplitEncoded(front: Bytes, commands: seq<seq<Bytes>>)
    requires forall i | 0 <= i < |commands| :: commands[i] != []
    ensures Split(front + EncodeAll(commands), |front|) == commands <==> Separable(commands)
    decreases |commands|, 1
  {
    hide Encode, ParseAt, Feed, Split, Separable, EndsInBytes;
    var buf := front + EncodeAll(commands);
    if commands == [] {
      SplitNothing(buf, |front|);
    } else {
      var first := Encode(commands[0]);
      BeforeEnd(commands[0]);
      assert buf == front + first + EncodeAll(commands[1..]);
      assert buf[|front|..|front| + |first|] == first;
      if |commands| == 1 {
        assert EncodeAll(commands[1..]) == [];
        SplitLast(buf, |front|, commands[0]);
        assert commands == [commands[0]];
      } else {
        SplitMore(front, commands);
      }
    }
  }

  lemma SplitNothing(buf: Bytes, pos: nat)
    requires pos >= |buf|
    ensures Split(buf, pos) == [] && Separable([])
  {}

  lemma SplitLast(buf: Bytes, pos: nat, args: seq<Bytes>)
    requires args != [] && pos + |Encode(args)| == |buf| && buf[pos..] == Encode(args)
    ensures Split(buf, pos) == [args] && Separable([args])
  {
    hide Encode, Feed;
    BeforeEnd(args);
    assert buf[pos..pos + |Encode(args)|] == Encode(args);
    ParseStopsAtEnd(buf, pos, args);
    SplitNothing(buf, ParseAt(INIT, buf, pos).1);
  }

  lemma SplitFirst(buf: Bytes, pos: nat, args: seq<Bytes>)
    requires EndsInBytes(args) && pos + |Encode(args)| <= |buf| && buf[pos..pos + |Encode(args)|] == Encode(args)
    ensures Split(buf, pos) == [args] + Split(buf, pos + |Encode(args)|)
  {
    hide Encode, Feed;
    BeforeEnd(args);
    ParseStopsAtEnd(buf, pos, args);
  }

  lemma {:induction false} SplitMore(front: Bytes, commands: seq<seq<Bytes>>)
    requires |commands| > 1 && forall i | 0 <= i < |commands| :: commands[i] != []
    ensures Split(front + EncodeAll(commands), |front|) == commands <==> Separable(commands)
    decreases |commands|, 0
  {
    hide Encode, ParseAt, Feed, Separable, EndsInBytes, Parser.Step, Split;
    var first, second, rest := Encode(commands[0]), Encode(commands[1]), EncodeAll(commands[2..]);
    var buf := front + EncodeAll(commands);
    BeforeEnd(commands[0]);
    assert EncodeAll(commands[1..]) == second + rest;
    assert buf == front + first + second + rest;
    assert buf[|front|..|front| + |first|] == first && buf[|front| + |first|..|front| + |first| + |second|] == second;
    SeparableTail(commands);
    if EndsInBytes(commands[0]) {
      SplitFirst(buf, |front|, commands[0]);
      SplitEncoded(front + first, commands[1..]);
      assert buf == front + first + EncodeAll(commands[1..]);
      assert [commands[0]] + commands[1..] == commands;
      assert ([commands[0]] + Split(buf, |front| + |first|))[1..] == Split(buf, |front| + |first|);
    } else {
      NextIsLost(buf, |front|, commands[0], commands[1]);
    }
  }
}
