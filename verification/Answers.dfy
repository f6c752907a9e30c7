/** Replies as a client reads them: the answers of the protocol, their bytes, and a reader of a stream of them. */
module Answers {
  import opened StoreModel
  import opened Protocol

  datatype Answer =
    | Simple(text: Bytes)
    | Binary(value: Bytes)
    | Null
    | Truth(holds: bool)
    | Number(n: nat)

  function BytesOf(a: Answer): Bytes {
    match a
    case Simple(text) => [43] + text + [CR, LF]
    case Binary(value) => [36] + Decimal(|value|) + [CR, LF] + value
    case Null => [95, CR, LF]
    case Truth(holds) => [35, if holds then 116 else 102, CR, LF]
    case Number(n) => [58] + Decimal(n) + [CR, LF]
  }

  // The text of a simple string is on one line.
  predicate Plain(a: Answer) {
    a.Simple? ==> LF !in a.text
  }

  function AllBytes(answers: seq<Answer>): Bytes {
    if answers == [] then [] else BytesOf(answers[0]) + AllBytes(answers[1..])
  }

  // The number that decimal digits denote.
  function Value(digits: Bytes): int {
    if digits == [] then 0 else Value(digits[..|digits| - 1]) * 10 + (digits[|digits| - 1] - ZERO)
  }

  // The position of the first LF from i on, or the end.
  function LineEnd(bytes: Bytes, i: nat): (end: nat)
    requires i <= |bytes|
    ensures i <= end <= |bytes|
    decreases |bytes| - i
  {
    if i == |bytes| || bytes[i] == LF then i else LineEnd(bytes, i + 1)
  }

  // The answer of a line of this kind and text, and how many of the bytes behind the line belong to it.
  function Decode(kind: Byte, text: Bytes, rest: Bytes): Option<(Answer, nat)> {
    match kind
    case 43 => Some((Simple(text), 0))
    case 36 => if 0 <= Value(text) <= |rest| then Some((Binary(rest[..Value(text)]), Value(text))) else None
    case 95 => Some((Null, 0))
    case 35 => Some((Truth(text == [116]), 0))
    case 58 => if Value(text) >= 0 then Some((Number(Value(text)), 0)) else None
    case _ => None
  }

  // The answer that the bytes begin with, and its length, if it is complete.
  function ReadOne(bytes: Bytes): Option<(Answer, nat)> {
    if |bytes| < 3 then None else
      var end := LineEnd(bytes, 1);
      if end < 2 || end == |bytes| then None else
        var body := Decode(bytes[0], bytes[1..end - 1], bytes[end + 1..]);
        if body.None? then None else Some((body.value.0, end + 1 + body.value.1))
  }

  /** Reads answers while complete ones follow. */
  function ReadAll(bytes: Bytes): seq<Answer>
    decreases |bytes|
  {
    var one := ReadOne(bytes);
    if one.None? || one.value.1 == 0 || one.value.1 > |bytes| then [] else [one.value.0] + ReadAll(bytes[one.value.1..])
  }

  lemma {:induction false} ValueOfDecimal(n: nat)
    ensures Value(Decimal(n)) == n && LF !in Decimal(n)
    decreases n
  {
    if n >= 10 { ValueOfDecimal(n / 10); }
  }

  lemma {:induction false} LineEndIs(bytes: Bytes, i: nat, end: nat)
    requires i <= end < |bytes| && bytes[end] == LF && forall k | i <= k < end :: bytes[k] != LF
    ensures LineEnd(bytes, i) == end
    decreases end - i
  {
    if i < end { LineEndIs(bytes, i + 1, end); }
  }

  // Reading a line of the given kind and text.
  lemma ReadLine(kind: Byte, text: Bytes, rest: Bytes)
    requires LF !in text && Decode(kind, text, rest).Some?
    ensures var body := Decode(kind, text, rest).value;
            ReadOne([kind] + text + [CR, LF] + rest) == Some((body.0, |text| + 3 + body.1))
  {
    hide Decode, LineEnd;
    var bytes := [kind] + text + [CR, LF] + rest;
    forall k | 1 <= k < |text| + 2 ensures bytes[k] != LF {
      if k <= |text| { assert bytes[k] == text[k - 1]; }
    }
    LineEndIs(bytes, 1, |text| + 2);
    assert bytes[1..|text| + 1] == text && bytes[|text| + 3..] == rest;
  }

  lemma ReadBinary(value: Bytes, rest: Bytes)
    ensures ReadOne(BytesOf(Binary(value)) + rest) == Some((Binary(value), |BytesOf(Binary(value))|))
  {
    hide Value, Decimal, ReadOne;
    ValueOfDecimal(|value|);
    assert (value + rest)[..|value|] == value;
    ReadLine(36, Decimal(|value|), value + rest);
    assert BytesOf(Binary(value)) + rest == [36] + Decimal(|value|) + [CR, LF] + (value + rest);
  }

  lemma ReadNumber(n: nat, rest: Bytes)
    ensures ReadOne(BytesOf(Number(n)) + rest) == Some((Number(n), |BytesOf(Number(n))|))
  {
    hide Value, Decimal, ReadOne;
    ValueOfDecimal(n);
    ReadLine(58, Decimal(n), rest);
  }

  lemma ReadWritten(a: Answer, rest: Bytes)
    requires Plain(a)
    ensures BytesOf(a) != [] && ReadOne(BytesOf(a) + rest) == Some((a, |BytesOf(a)|))
  {
    hide ReadOne, Value, Decimal;
    match a
    case Simple(text) => ReadLine(43, text, rest);
    case Binary(value) => ReadBinary(value, rest);
    case Null =>
      ReadLine(95, [], rest);
      assert [95] + [] + [CR, LF] + rest == BytesOf(Null) + rest;
    case Truth(holds) =>
      var text: Bytes := [if holds then 116 else 102];
      ReadLine(35, text, rest);
      assert [35] + text + [CR, LF] + rest == BytesOf(Truth(holds)) + rest;
    case Number(n) => ReadNumber(n, rest);
  }

  /** Reading what was written gives the answers, in order. */
  lemma {:induction false} ReadAllWritten(answers: seq<Answer>)
    requires forall i | 0 <= i < |answers| :: Plain(answers[i])
    ensures ReadAll(AllBytes(answers)) == answers
    decreases |answers|
  {
    hide ReadOne, BytesOf;
    if answers == [] {
      assert ReadOne([]) == None by { NothingToRead(); }
    } else {
      var first, rest := BytesOf(answers[0]), AllBytes(answers[1..]);
      ReadWritten(answers[0], rest);
      ReadAllWritten(answers[1..]);
      assert (first + rest)[|first|..] == rest;
      assert [answers[0]] + answers[1..] == answers;
    }
  }

  lemma NothingToRead()
    ensures ReadOne([]) == None
  {}
}
