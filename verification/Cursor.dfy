/** The order in which the scan cursor visits buckets: increasing bit-reversed value. */
module Cursor {
  import opened Words

  /** The number whose k low bits are those of n in the opposite order. */
  function RevBits(n: nat, k: nat): nat {
    Val(Reversed(Bits(n, k)))
  }

  /** The cursor after c in a table of 2^k buckets: the successor in bit-reversed order. */
  function NextCursor(c: nat, k: nat): nat {
    var r := RevBits(c, k) + 1;
    if r == Pow2(k) then 0 else RevBits(r, k)
  }

  /** The bucket of a hash in a table of 2^k buckets. */
  function Slot(h: nat, k: nat): (i: nat)
    ensures i < Pow2(k)
  {
    h % Pow2(k)
  }

  lemma ReversedTwice(w: Word)
    ensures Reversed(Reversed(w)) == w
  {}

  lemma ReversedConcat(a: Word, b: Word)
    ensures Reversed(a + b) == Reversed(b) + Reversed(a)
  {}

  lemma RevBitsBound(n: nat, k: nat)
    ensures RevBits(n, k) < Pow2(k)
  {
    ValBound(Reversed(Bits(n, k)));
  }

  lemma RevBitsInvolution(n: nat, k: nat)
    requires n < Pow2(k)
    ensures RevBits(RevBits(n, k), k) == n
  {
    BitsOfVal(Reversed(Bits(n, k)));
    ReversedTwice(Bits(n, k));
    ValOfBits(n, k);
    SmallMod(n, Pow2(k));
  }

  lemma SmallMod(n: nat, d: nat)
    requires n < d
    ensures n % d == n
  {}

  lemma RevBitsZero(k: nat)
    ensures RevBits(0, k) == 0
  {
    ValZeros(k);
    BitsOfVal(Zeros(k));
    assert Reversed(Zeros(k)) == Zeros(k);
  }

  /** The k low bits of h are the k high bits of its w-bit reversal. */
  lemma RevBitsHigh(h: nat, k: nat, w: nat) returns (low: nat)
    requires k <= w
    ensures low < Pow2(w - k)
    ensures RevBits(h, w) == low + Pow2(w - k) * RevBits(h, k)
  {
    var word := Bits(h, w);
    BitsPrefix(h, k, w);
    assert word == Bits(h, k) + word[k..];
    ReversedConcat(Bits(h, k), word[k..]);
    low := Val(Reversed(word[k..]));
    ValConcat(Reversed(word[k..]), Reversed(Bits(h, k)));
    ValBound(Reversed(word[k..]));
  }

  /** A cursor below 2^k has a reversal that is a multiple of 2^(w-k). */
  lemma RevBitsCursor(c: nat, k: nat, w: nat)
    requires k <= w && c < Pow2(k)
    ensures RevBits(c, w) == Pow2(w - k) * RevBits(c, k)
  {
    BitsSmall(c, k, w);
    ReversedConcat(Bits(c, k), Zeros(w - k));
    assert Reversed(Zeros(w - k)) == Zeros(w - k);
    ValConcat(Zeros(w - k), Reversed(Bits(c, k)));
    ValZeros(w - k);
  }

  lemma RevBitsSlot(h: nat, k: nat)
    ensures RevBits(h, k) == RevBits(Slot(h, k), k)
  {
    ValOfBits(h, k);
    BitsOfVal(Bits(h, k));
  }

  /** A bucket holds exactly the hashes whose reversal lies in one interval of length 2^(w-k). */
  lemma BucketInterval(h: nat, c: nat, k: nat, w: nat)
    requires k <= w && c < Pow2(k)
    ensures Slot(h, k) == c <==> RevBits(c, w) <= RevBits(h, w) < RevBits(c, w) + Pow2(w - k)
  {
    hide RevBits;
    var d := Pow2(w - k);
    var low := RevBitsHigh(h, k, w);
    RevBitsCursor(c, k, w);
    RevBitsSlot(h, k);
    RevBitsInvolution(c, k);
    RevBitsInvolution(Slot(h, k), k);
    var x, y := RevBits(h, k), RevBits(c, k);
    if x < y {
      MulStep(d, x, y);
    } else if y < x {
      MulStep(d, y, x);
    }
  }

  /** The next cursor starts where the interval of the current bucket ends, or wraps to 0 at 2^w. */
  lemma NextInterval(c: nat, k: nat, w: nat)
    requires k <= w && c < Pow2(k)
    ensures NextCursor(c, k) < Pow2(k)
    ensures RevBits(c, w) + Pow2(w - k) <= Pow2(w)
    ensures NextCursor(c, k) == 0 <==> RevBits(c, w) + Pow2(w - k) == Pow2(w)
    ensures NextCursor(c, k) != 0 ==> RevBits(NextCursor(c, k), w) == RevBits(c, w) + Pow2(w - k)
  {
    hide RevBits;
    var d, r := Pow2(w - k), RevBits(c, k);
    RevBitsBound(c, k);
    RevBitsCursor(c, k, w);
    PowSum(w - k, k);
    assert w - k + k == w;
    assert d * (r + 1) == d * r + d;
    if r + 1 < Pow2(k) {
      MulStep(d, r + 1, Pow2(k));
      NextReversed(c, k);
      RevBitsCursor(NextCursor(c, k), k, w);
    }
  }

  lemma NextReversed(c: nat, k: nat)
    requires c < Pow2(k) && RevBits(c, k) + 1 < Pow2(k)
    ensures 0 < NextCursor(c, k) < Pow2(k)
    ensures RevBits(NextCursor(c, k), k) == RevBits(c, k) + 1
  {
    hide RevBits;
    var r := RevBits(c, k) + 1;
    RevBitsInvolution(r, k);
    RevBitsBound(r, k);
    RevBitsZero(k);
  }

  lemma NextFromReversed(c: nat, n: nat, k: nat)
    requires n < Pow2(k) && RevBits(n, k) == RevBits(c, k) + 1
    ensures NextCursor(c, k) == n
  {
    hide RevBits;
    RevBitsBound(n, k);
    RevBitsInvolution(n, k);
  }

  /** With one more bit, the successor of a k-bit cursor is its twin bucket, and the successor of the twin
      is the k-bit successor: the two refinements of a bucket are visited one after the other. */
  lemma NextRefined(c: nat, k: nat)
    requires c < Pow2(k)
    ensures NextCursor(c, k + 1) == c + Pow2(k)
    ensures NextCursor(c + Pow2(k), k + 1) == NextCursor(c, k)
  {
    hide RevBits;
    RevBitsBound(c, k);
    RevBitsEven(c, k);
    RevBitsTwin(c, k);
    NextFromReversed(c, c + Pow2(k), k + 1);
    if RevBits(c, k) + 1 < Pow2(k) {
      var n := NextCursor(c, k);
      NextReversed(c, k);
      RevBitsEven(n, k);
      NextFromReversed(c + Pow2(k), n, k + 1);
    }
  }

  lemma RevBitsEven(c: nat, k: nat)
    requires c < Pow2(k)
    ensures RevBits(c, k + 1) == 2 * RevBits(c, k)
  {
    hide RevBits;
    RevBitsCursor(c, k, k + 1);
    assert Pow2(k + 1 - k) == 2 * Pow2(0) == 2;
  }

  lemma BitsTwin(c: nat, k: nat)
    requires c < Pow2(k)
    ensures Bits(c + Pow2(k), k + 1) == Bits(c, k) + [true]
  {
    ValConcat(Bits(c, k), [true]);
    ValOfBits(c, k);
    SmallMod(c, Pow2(k));
    assert Val([true]) == 1 + 2 * Val([true][1..]) == 1;
    BitsOfVal(Bits(c, k) + [true]);
  }

  lemma RevBitsTwin(c: nat, k: nat)
    requires c < Pow2(k)
    ensures RevBits(c + Pow2(k), k + 1) == 2 * RevBits(c, k) + 1
  {
    BitsTwin(c, k);
    ReversedConcat(Bits(c, k), [true]);
    assert Reversed([true]) == [true];
    ValConcat([true], Reversed(Bits(c, k)));
    assert Val([true]) == 1 + 2 * Val([true][1..]) == 1;
    assert Pow2(1) == 2 * Pow2(0) == 2;
  }

  /** Setting the unmasked bits, reversing, incrementing and reversing back yields the next cursor. */
  lemma AdvanceMeaning(c: nat, k: nat, w: nat)
    requires k <= w && c < Pow2(k)
    ensures Val(Reversed(Increment(Reversed(Or(Bits(c, w), Not(Bits(Pow2(k) - 1, w))))))) == NextCursor(c, k)
  {
    SetUnmasked(c, k, w);
    RevBitsBound(c, k);
    if RevBits(c, k) + 1 == Pow2(k) {
      CarryOut(Reversed(Bits(c, k)), w - k);
      assert w - k + k == w;
      assert Reversed(Zeros(w)) == Zeros(w);
      ValZeros(w);
    } else {
      var n := NextCursor(c, k);
      NextReversed(c, k);
      CarryInto(Reversed(Bits(c, k)), w - k, Reversed(Bits(n, k)));
      UnreversedValue(n, k, w - k);
    }
  }

  lemma UnreversedValue(n: nat, k: nat, z: nat)
    requires n < Pow2(k)
    ensures Val(Reversed(Zeros(z) + Reversed(Bits(n, k)))) == n
  {
    ReversedConcat(Zeros(z), Reversed(Bits(n, k)));
    ReversedTwice(Bits(n, k));
    assert Reversed(Zeros(z)) == Zeros(z);
    ValOfBits(n, k);
    SmallMod(n, Pow2(k));
    ValConcat(Bits(n, k), Zeros(z));
    ValZeros(z);
  }

  /** Incrementing a word whose z low bits are ones carries into the part above them. */
  lemma CarryInto(a: Word, z: nat, b: Word)
    requires |a| == |b| && Val(a) + 1 == Val(b)
    ensures Increment(Ones(z) + a) == Zeros(z) + b
  {
    OnesBelow(a, z);
    ValConcat(Zeros(z), b);
    ValZeros(z);
    IncrementTo(Ones(z) + a, Zeros(z) + b);
  }

  lemma OnesBelow(a: Word, z: nat)
    ensures Val(Ones(z) + a) + 1 == Pow2(z) * (Val(a) + 1)
  {
    ValConcat(Ones(z), a);
    ValOnes(z);
    MulSucc(Pow2(z), Val(a));
  }

  lemma CarryOut(a: Word, z: nat)
    requires Val(a) + 1 == Pow2(|a|)
    ensures Increment(Ones(z) + a) == Zeros(z + |a|)
  {
    hide Val, Bits, Pow2, Increment;
    OnesBelow(a, z);
    PowSum(z, |a|);
    var word := Ones(z) + a;
    assert |word| == z + |a|;
    IncrementWraps(word);
  }

  lemma MulSucc(d: nat, v: nat)
    ensures d * (v + 1) == d * v + d
  {}

  lemma SetUnmasked(c: nat, k: nat, w: nat)
    requires k <= w && c < Pow2(k)
    ensures Reversed(Or(Bits(c, w), Not(Bits(Pow2(k) - 1, w)))) == Ones(w - k) + Reversed(Bits(c, k))
  {
    BitsSmall(c, k, w);
    BitsMask(k, w);
    assert Or(Bits(c, w), Not(Bits(Pow2(k) - 1, w))) == Bits(c, k) + Ones(w - k);
    ReversedConcat(Bits(c, k), Ones(w - k));
    assert Reversed(Ones(w - k)) == Ones(w - k);
  }

  lemma IncrementTo(a: Word, b: Word)
    requires |a| == |b| && Val(a) + 1 == Val(b)
    ensures Increment(a) == b
  {
    BitsOfVal(b);
  }

  lemma IncrementWraps(a: Word)
    requires Val(a) + 1 == Pow2(|a|)
    ensures Increment(a) == Zeros(|a|)
  {
    BitsFull(Val(a) + 1, |a|);
  }

  lemma {:induction false} BitsFull(n: nat, k: nat)
    requires n == Pow2(k)
    ensures Bits(n, k) == Zeros(k)
    decreases k
  {
    if k > 0 {
      BitsFull(n / 2, k - 1);
      assert Zeros(k) == [false] + Zeros(k - 1);
    }
  }

  /** The two masks of a rehash differ in bit k alone. */
  lemma MasksXor(k: nat, w: nat)
    requires k < w
    ensures Xor(Bits(Pow2(k) - 1, w), Bits(Pow2(k + 1) - 1, w)) == Zeros(k) + [true] + Zeros(w - k - 1)
  {
    hide Val, Bits, Pow2;
    BitsMask(k, w);
    BitsMask(k + 1, w);
  }

  lemma OneBit(k: nat, z: nat)
    ensures Val(Zeros(k) + ([true] + Zeros(z))) == Pow2(k)
  {
    ValConcat(Zeros(k), [true] + Zeros(z));
    ValZeros(k);
    ValZeros(z);
    assert ([true] + Zeros(z))[1..] == Zeros(z);
  }

  /** Bit k of a cursor below 2^(k+1), tested through the difference of the two masks. */
  lemma MaskDifference(c: nat, k: nat, w: nat)
    requires k < w && c < Pow2(k + 1)
    ensures Val(And(Bits(c, w), Xor(Bits(Pow2(k) - 1, w), Bits(Pow2(k + 1) - 1, w)))) ==
            (if c < Pow2(k) then 0 else Pow2(k))
  {
    hide Val, Bits;
    MasksXor(k, w);
    var diff := Zeros(k) + [true] + Zeros(w - k - 1);
    BitsSmall(c, k + 1, w);
    if c < Pow2(k) {
      BitsSmall(c, k, k + 1);
      assert And(Bits(c, w), diff) == Zeros(w);
      ValZeros(w);
    } else {
      BitsTwin(c - Pow2(k), k);
      assert And(Bits(c, w), diff) == Zeros(k) + ([true] + Zeros(w - k - 1));
      OneBit(k, w - k - 1);
    }
  }

  /** One step of the scan cursor on 64-bit words. */
  method Advance(cursor: nat, mask: nat, ghost k: nat) returns (next: nat)
    requires k <= WIDTH && mask == Pow2(k) - 1 && cursor < Pow2(k)
    ensures next == NextCursor(cursor, k)
  {
    hide Val, Bits, RevBits, NextCursor;
    assert IsPowerOfTwo(WIDTH) by { assert WIDTH == Pow2(6); }
    AdvanceMeaning(cursor, k, WIDTH);
    var word := Or(Bits(cursor, WIDTH), Not(Bits(mask, WIDTH)));
    word := Rev(word);
    word := Increment(word);
    word := Rev(word);
    next := Val(word);
  }

  /** Tests the bit that the mask of the larger table adds. */
  method InUpperHalf(cursor: nat, mask: nat, newMask: nat, ghost k: nat) returns (upper: bool)
    requires k < WIDTH && mask == Pow2(k) - 1 && newMask == Pow2(k + 1) - 1 && cursor < Pow2(k + 1)
    ensures upper <==> cursor >= Pow2(k)
  {
    hide Val, Bits;
    MaskDifference(cursor, k, WIDTH);
    upper := Val(And(Bits(cursor, WIDTH), Xor(Bits(mask, WIDTH), Bits(newMask, WIDTH)))) != 0;
  }

  /** A bucket splits into two buckets of a table of twice the size. */
  lemma SlotRefined(h: nat, k: nat)
    ensures Slot(h, k + 1) == Slot(h, k) || Slot(h, k + 1) == Slot(h, k) + Pow2(k)
  {
    var q, x := DivisionOf(h, Pow2(k + 1));
    ModTwice(h, Pow2(k), q, x);
  }

  lemma DivisionOf(h: nat, d: nat) returns (q: nat, x: nat)
    requires d > 0
    ensures h == d * q + x && x < d && x == h % d
  {
    q, x := h / d, h % d;
  }

  lemma ModTwice(h: nat, m: nat, q: nat, x: nat)
    requires x < 2 * m && h == (2 * m) * q + x
    ensures h % m == if x < m then x else x - m
  {
    assert (2 * m) * q == m * (2 * q);
    if x < m {
      ModUnique(h, m, 2 * q, x);
    } else {
      MulSucc(m, 2 * q);
      ModUnique(h, m, 2 * q + 1, x - m);
    }
  }
}
