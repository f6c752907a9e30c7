/** Fixed-width machine words as bit sequences, and the reverse-binary cursor arithmetic. */
module Words {
  // Bit i of a word is element i; the width of a word is its length.
  type Word = seq<bool>

  const WIDTH: nat := 64

  function Pow2(n: nat): (p: nat)
    ensures p > 0
  {
    if n == 0 then 1 else 2 * Pow2(n - 1)
  }

  /** The unsigned number a word stands for. */
  function Val(w: Word): nat {
    if w == [] then 0 else (if w[0] then 1 else 0) + 2 * Val(w[1..])
  }

  /** The k low bits of n. */
  function Bits(n: nat, k: nat): (w: Word)
    ensures |w| == k
    decreases k
  {
    if k == 0 then [] else [n % 2 == 1] + Bits(n / 2, k - 1)
  }

  // The C operators on unsigned words.

  function Not(a: Word): Word {
    seq(|a|, i requires 0 <= i < |a| => !a[i])
  }

  function And(a: Word, b: Word): Word
    requires |a| == |b|
  {
    seq(|a|, i requires 0 <= i < |a| => a[i] && b[i])
  }

  function Or(a: Word, b: Word): Word
    requires |a| == |b|
  {
    seq(|a|, i requires 0 <= i < |a| => a[i] || b[i])
  }

  function Xor(a: Word, b: Word): Word
    requires |a| == |b|
  {
    seq(|a|, i requires 0 <= i < |a| => a[i] != b[i])
  }

  function ShiftLeft(a: Word, n: nat): Word {
    seq(|a|, i requires 0 <= i < |a| => i >= n && a[i - n])
  }

  function ShiftRight(a: Word, n: nat): Word {
    seq(|a|, i requires 0 <= i < |a| => i + n < |a| && a[i + n])
  }

  /** Wrapping increment. */
  function Increment(a: Word): Word {
    Bits(Val(a) + 1, |a|)
  }

  function Ones(k: nat): Word {
    seq(k, i => true)
  }

  function Zeros(k: nat): Word {
    seq(k, i => false)
  }

  /** Bit i of the result is bit |w| - 1 - i of the input. */
  function Reversed(w: Word): (r: Word)
    ensures |r| == |w|
  {
    seq(|w|, i requires 0 <= i < |w| => w[|w| - 1 - i])
  }

  // ---------- values and bits ----------

  lemma {:induction false} ValBound(w: Word)
    ensures Val(w) < Pow2(|w|)
  {
    if w != [] { ValBound(w[1..]); }
  }

  lemma {:induction false} BitsOfVal(w: Word)
    ensures Bits(Val(w), |w|) == w
  {
    if w != [] { BitsOfVal(w[1..]); }
  }

  lemma ModDouble(n: nat, m: nat)
    requires m > 0
    ensures n % (2 * m) == n % 2 + 2 * ((n / 2) % m)
  {
    var h := n / 2;
    var q, r := h / m, h % m;
    assert h == m * q + r;
    assert n == (2 * m) * q + (2 * r + n % 2) by { assert n == 2 * h + n % 2; assert 2 * (m * q) == (2 * m) * q; }
    ModUnique(n, 2 * m, q, 2 * r + n % 2);
  }

  lemma {:induction false} ValOfBits(n: nat, k: nat)
    ensures Val(Bits(n, k)) == n % Pow2(k)
    decreases k
  {
    if k > 0 {
      ValOfBits(n / 2, k - 1);
      ModDouble(n, Pow2(k - 1));
      assert Bits(n, k)[1..] == Bits(n / 2, k - 1);
    }
  }

  lemma MulStep(d: nat, a: int, b: int)
    requires a < b
    ensures d * a + d <= d * b
  {
    var e: nat := b - a - 1;
    assert d * b == d * a + d * e + d;
  }

  lemma ModUnique(n: nat, d: nat, q: nat, r: nat)
    requires d > 0 && r < d && n == d * q + r
    ensures n % d == r && n / d == q
  {
    if n / d < q {
      MulStep(d, n / d, q);
    } else if q < n / d {
      MulStep(d, q, n / d);
    }
  }

  lemma {:induction false} ValConcat(a: Word, b: Word)
    ensures Val(a + b) == Val(a) + Pow2(|a|) * Val(b)
  {
    if a == [] {
      assert a + b == b;
    } else {
      ValConcat(a[1..], b);
      assert (a + b)[1..] == a[1..] + b;
      assert Pow2(|a|) * Val(b) == 2 * (Pow2(|a| - 1) * Val(b));
    }
  }

  lemma {:induction false} ValZeros(k: nat)
    ensures Val(Zeros(k)) == 0
  {
    if k > 0 {
      ValZeros(k - 1);
      assert Zeros(k)[1..] == Zeros(k - 1);
    }
  }

  lemma {:induction false} ValOnes(k: nat)
    ensures Val(Ones(k)) == Pow2(k) - 1
  {
    if k > 0 {
      ValOnes(k - 1);
      assert Ones(k)[1..] == Ones(k - 1);
    }
  }

  lemma {:induction false} PowSum(a: nat, b: nat)
    ensures Pow2(a + b) == Pow2(a) * Pow2(b)
  {
    if a > 0 { PowSum(a - 1, b); }
  }

  /** Taking fewer bits is taking a prefix. */
  lemma {:induction false} BitsPrefix(n: nat, k: nat, w: nat)
    requires k <= w
    ensures Bits(n, w)[..k] == Bits(n, k)
    decreases k
  {
    if k > 0 {
      BitsPrefix(n / 2, k - 1, w - 1);
      assert Bits(n, w)[..k] == [n % 2 == 1] + Bits(n / 2, w - 1)[..k - 1];
    }
  }

  /** A number below 2^k has only zeros above bit k. */
  lemma BitsSmall(n: nat, k: nat, w: nat)
    requires k <= w && n < Pow2(k)
    ensures Bits(n, w) == Bits(n, k) + Zeros(w - k)
  {
    ValConcat(Bits(n, k), Zeros(w - k));
    ValZeros(w - k);
    ValOfBits(n, k);
    BitsOfVal(Bits(n, k) + Zeros(w - k));
  }

  /** The mask of a table of 2^k buckets. */
  lemma BitsMask(k: nat, w: nat)
    requires k <= w
    ensures Bits(Pow2(k) - 1, w) == Ones(k) + Zeros(w - k)
  {
    ValOnes(k);
    BitsOfVal(Ones(k));
    BitsSmall(Pow2(k) - 1, k, w);
  }

  /** Bitwise and of two unsigned numbers of any size. */
  function BitAnd(x: nat, y: nat): nat {
    if x == 0 || y == 0 then 0 else (if x % 2 == 1 && y % 2 == 1 then 1 else 0) + 2 * BitAnd(x / 2, y / 2)
  }

  /** `x & (2^k - 1)` is the remainder modulo 2^k. */
  lemma BitAndMask(x: nat, k: nat)
    ensures BitAnd(x, Pow2(k) - 1) == x % Pow2(k)
  {
    BitAndOnes(x, Pow2(k) - 1, k);
  }

  lemma {:induction false} BitAndOnes(x: nat, y: nat, k: nat)
    requires y + 1 == Pow2(k)
    ensures BitAnd(x, y) == x % Pow2(k)
    decreases k
  {
    if k > 0 {
      BitAndOnes(x / 2, y / 2, k - 1);
      ModDouble(x, Pow2(k - 1));
      if x == 0 { ModUnique(0, Pow2(k), 0, 0); }
    }
  }

  // ---------- rev ----------

  ghost predicate IsPowerOfTwo(n: nat) {
    exists k: nat :: n == Pow2(k)
  }

  // The index of bit r of block b, in blocks of s bits.
  ghost function At(b: int, s: nat, r: int): int {
    b * s + r
  }

  // Bit r of block b of v is bit r of the opposite one among the n blocks of v0.
  ghost predicate BitMirrored(v: Word, v0: Word, s: nat, n: nat, b: int, r: int) {
    && 0 <= At(b, s, r) < |v|
    && 0 <= At(n - 1 - b, s, r) < |v0|
    && v[At(b, s, r)] == v0[At(n - 1 - b, s, r)]
  }

  // v is v0 with its n blocks of s bits in the opposite order.
  ghost predicate BlocksMirrored(v: Word, v0: Word, s: nat, n: nat) {
    && |v| == |v0| == At(n, s, 0)
    && forall b, r | 0 <= b < n && 0 <= r < s :: BitMirrored(v, v0, s, n, b, r)
  }

  // Bit r of block b of the mask is set just when b is even.
  ghost predicate BitAlternates(mask: Word, s: nat, b: int, r: int) {
    0 <= At(b, s, r) < |mask| && (mask[At(b, s, r)] <==> b % 2 == 0)
  }

  // Blocks of s ones and s zeros alternate in the mask.
  ghost predicate Alternating(mask: Word, s: nat, n: nat) {
    && |mask| == At(n, s, 0)
    && forall b, r | 0 <= b < n && 0 <= r < s :: BitAlternates(mask, s, b, r)
  }

  lemma AtBounds(b: nat, s: nat, r: nat, n: nat)
    requires b < n && r < s
    ensures 0 <= At(b, s, r) < At(n, s, 0)
  {
    MulStep(s, b, n);
  }

  // A block of 2h bits is two blocks of h bits.
  lemma AtHalf(q: int, h: nat, r: nat)
    ensures At(2 * q, h, r) == At(q, 2 * h, r)
    ensures At(2 * q + 1, h, r) == At(q, 2 * h, h + r) == At(q, 2 * h, r) + h
    ensures At(q, 2 * h, r) == At(q - 1, 2 * h, h + r) + h
  {}

  lemma HalveMask(mask: Word, h: nat, n: nat)
    requires Alternating(mask, 2 * h, n)
    ensures Alternating(Xor(mask, ShiftLeft(mask, h)), h, 2 * n)
  {
    hide At;
    var x := Xor(mask, ShiftLeft(mask, h));
    AtHalf(n, h, 0);
    forall b, r | 0 <= b < 2 * n && 0 <= r < h
      ensures BitAlternates(x, h, b, r)
    {
      var q, i := b / 2, At(b, h, r);
      AtBounds(b, h, r, 2 * n);
      AtHalf(q, h, r);
      assert BitAlternates(mask, 2 * h, q, r) && BitAlternates(mask, 2 * h, q, h + r);
      if b % 2 == 0 {
        if q > 0 {
          assert BitAlternates(mask, 2 * h, q - 1, h + r);
        } else {
          AtFirst(h, r);
        }
      }
    }
  }

  lemma AtFirst(s: nat, r: nat)
    ensures At(0, s, r) == r
  {}

  lemma HalveBlocks(v: Word, v0: Word, mask: Word, h: nat, n: nat)
    requires BlocksMirrored(v, v0, 2 * h, n) && Alternating(mask, h, 2 * n) && |mask| == |v|
    ensures BlocksMirrored(Or(And(ShiftRight(v, h), mask), And(ShiftLeft(v, h), Not(mask))), v0, h, 2 * n)
  {
    hide At;
    var x := Or(And(ShiftRight(v, h), mask), And(ShiftLeft(v, h), Not(mask)));
    AtHalf(n, h, 0);
    forall b, r | 0 <= b < 2 * n && 0 <= r < h
      ensures BitMirrored(x, v0, h, 2 * n, b, r)
    {
      var q := b / 2;
      AtBounds(b, h, r, 2 * n);
      AtBounds(2 * n - 1 - b, h, r, 2 * n);
      AtHalf(q, h, r);
      AtHalf(n - 1 - q, h, r);
      assert BitAlternates(mask, h, b, r);
      assert BitMirrored(v, v0, 2 * h, n, q, r) && BitMirrored(v, v0, 2 * h, n, q, h + r);
    }
  }

  lemma OneBlock(v: Word)
    ensures Alternating(Ones(|v|), |v|, 1) && BlocksMirrored(v, v, |v|, 1)
  {
    forall b, r | 0 <= b < 1 && 0 <= r < |v|
      ensures BitAlternates(Ones(|v|), |v|, b, r) && BitMirrored(v, v, |v|, 1, b, r)
    {
      assert At(0, |v|, r) == r;
    }
  }

  lemma BlocksOfOne(v: Word, v0: Word, n: nat)
    requires BlocksMirrored(v, v0, 1, n)
    ensures v == Reversed(v0)
  {
    assert n == At(n, 1, 0);
    forall i | 0 <= i < |v| ensures v[i] == v0[|v0| - 1 - i] {
      assert BitMirrored(v, v0, 1, n, i, 0);
    }
  }

  /** The halving-shift mask loop of the C function reverses the bits of a word of any power-of-two width. */
  method Rev(v0: Word) returns (v: Word)
    requires IsPowerOfTwo(|v0|)
    ensures v == Reversed(v0)
    ensures |v| == |v0| && forall i | 0 <= i < |v| :: v[i] == v0[|v0| - 1 - i]
  {
    var s := |v0|;
    v := v0;
    var mask := Ones(|v0|);
    ghost var e: nat :| |v0| == Pow2(e);
    ghost var n: nat := 1;  // the number of blocks of s bits
    OneBlock(v0);
    while s / 2 > 0
      invariant s == Pow2(e)
      invariant |mask| == |v|
      invariant Alternating(mask, s, n)
      invariant BlocksMirrored(v, v0, s, n)
      decreases s
    {
      s := s / 2;
      HalveMask(mask, s, n);
      mask := Xor(mask, ShiftLeft(mask, s));
      HalveBlocks(v, v0, mask, s, n);
      v := Or(And(ShiftRight(v, s), mask), And(ShiftLeft(v, s), Not(mask)));
      n := 2 * n;
      e := e - 1;
    }
    BlocksOfOne(v, v0, n);
  }

  lemma {:induction false} PowMonotone(a: nat, b: nat)
    requires a <= b
    ensures Pow2(a) <= Pow2(b)
    decreases b
  {
    if a < b { PowMonotone(a, b - 1); }
  }
}
