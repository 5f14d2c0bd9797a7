/**
  The AArch64 logical-immediate encoder and decoder
  (lightning/lib/aarch64-logical-immediates.c).

  A `uint64_t` is the sequence of its 64 bits, least significant first, so
  that rotation, shift, complement and the two counts are operations on
  indices.  The only arithmetic on a full word, the increment inside
  `clearTrailingOnes64`, is a ripple carry over the same bits.  The small
  fields are integers, and the bit operations on them act on their binary
  digits, negative values being taken modulo 2^32.
 */
module Immediates {
  import opened Arithmetic

  type Word64 = b: seq<bool> | |b| == 64 witness Zeroes(64)
  type Word32 = b: seq<bool> | |b| == 32 witness Zeroes(32)

  datatype Encoded = Code(value: nat) | EncodeFailed

  // ---------------------------------------------------------------- bits of integers

  function Zeroes(len: nat): (b: seq<bool>)
    ensures |b| == len
  {
    seq(len, _ => false)
  }

  function BitAnd(a: nat, b: nat): nat {
    if a == 0 then 0 else (if a % 2 == 1 && b % 2 == 1 then 1 else 0) + 2 * BitAnd(a / 2, b / 2)
  }

  function BitOr(a: nat, b: nat): nat
    decreases a + b
  {
    if a == 0 then b
    else if b == 0 then a
    else (if a % 2 == 1 || b % 2 == 1 then 1 else 0) + 2 * BitOr(a / 2, b / 2)
  }

  function ShiftRight(n: nat, k: nat): nat {
    if k == 0 then n else ShiftRight(n / 2, k - 1)
  }

  /** The position of the highest set bit. */
  function Log2(n: nat): (k: nat)
    requires n > 0
    ensures Pow2(k) <= n < 2 * Pow2(k)
  {
    if n == 1 then 0 else 1 + Log2(n / 2)
  }

  // ---------------------------------------------------------------- operations on words

  /** Index of the first bit equal to `v`, or 64. */
  function FirstIndex(b: seq<bool>, v: bool): (k: nat)
    ensures k <= |b|
    ensures k < |b| ==> b[k] == v
    ensures forall i :: 0 <= i < k ==> b[i] != v
  {
    if |b| == 0 || b[0] == v then 0 else 1 + FirstIndex(b[1..], v)
  }

  function CountTrailingZeros64(n: Word64): nat { FirstIndex(n, true) }

  /** Number of zero bits above the highest set bit, by scanning downwards. */
  function LeadingZeros(b: seq<bool>): (k: nat)
    ensures k <= |b|
    ensures k < |b| ==> b[|b| - 1 - k]
    ensures forall i :: |b| - k <= i < |b| ==> !b[i]
  {
    if |b| == 0 || b[|b| - 1] then 0 else 1 + LeadingZeros(b[..|b| - 1])
  }

  /** The low `k` bits of `v` rotated right by `n`. */
  function RotatedBits(v: Word64, n: int, k: nat): (r: seq<bool>)
    ensures |r| == k
  {
    if k == 0 then [] else RotatedBits(v, n, k - 1) + [v[(k - 1 + n) % 64]]
  }

  function RotateRight64(v: Word64, n: int): Word64 { RotatedBits(v, n, |v|) }

  function ShiftLeft64(v: Word64, n: nat): Word64 {
    seq(64, i requires 0 <= i < 64 => i >= n && v[i - n])
  }

  function Xor64(a: Word64, b: Word64): Word64 {
    seq(64, i requires 0 <= i < 64 => a[i] != b[i])
  }

  function And64(a: Word64, b: Word64): Word64 {
    seq(64, i requires 0 <= i < 64 => a[i] && b[i])
  }

  function Not64(a: Word64): Word64 {
    seq(64, i requires 0 <= i < 64 => !a[i])
  }

  /** Adds one, rippling the carry upwards and dropping the final carry. */
  function Increment(b: seq<bool>): (r: seq<bool>)
    ensures |r| == |b|
  {
    if |b| == 0 then [] else if b[0] then [false] + Increment(b[1..]) else [true] + b[1..]
  }

  function ClearTrailingOnes64(n: Word64): Word64 { And64(n, Increment(n)) }

  // ---------------------------------------------------------------- encoder

  function Rotation(val: Word64): int {
    CountTrailingZeros64(ClearTrailingOnes64(val))
  }

  function Normalized(val: Word64): Word64 {
    RotateRight64(val, Rotation(val) % 64)
  }

  function Ones(val: Word64): nat { FirstIndex(Not64(Normalized(val)), true) }

  function Size(val: Word64): nat { LeadingZeros(Normalized(val)) + Ones(val) }

  /** -x as an unsigned 32-bit integer. */
  function Negate32(x: nat): nat { (TWO_32 - x % TWO_32) % TWO_32 }

  predicate Degenerate(val: Word64) {
    (forall i :: 0 <= i < 64 ==> !val[i]) || (forall i :: 0 <= i < 64 ==> val[i])
  }

  /** The 13-bit code assembled from the three quantities read off the value. */
  function AssembleCode(size: nat, rotation: nat, ones: nat): nat
    requires size >= 1 && ones >= 1
  {
    var immr := BitAnd(Negate32(rotation), size - 1);
    var imms := BitOr(Negate32(size * 2), ones - 1);
    var n := size / 64;
    BitOr(n * 4096, BitOr(immr * 64, BitAnd(imms, 0x3f)))
  }

  function EncodeLogicalImmediate64(val: Word64): Encoded {
    if Degenerate(val) then EncodeFailed
    else
      NormalizedEnds(val);
      var size := Size(val);
      if RotateRight64(val, size % 64) != val then EncodeFailed
      else Code(AssembleCode(size, Rotation(val), Ones(val)))
  }

  function EncodeLogicalImmediate32(val: Word32): Encoded {
    EncodeLogicalImmediate64(val + val)
  }

  // ---------------------------------------------------------------- decoder

  function FieldN(code: nat): nat { code / 4096 % 2 }
  function FieldR(code: nat): nat { code / 64 % 64 }
  function FieldS(code: nat): nat { code % 64 }

  /** N : NOT(imms), the seven bits whose highest one gives the element size. */
  function SizePattern(code: nat): (p: nat)
    ensures p < 128
  {
    FieldN(code) * 64 + (63 - FieldS(code))
  }

  /** Some bit other than the highest is set. */
  predicate SeveralBits(p: nat) { BitAnd(p, (p + TWO_32 - 1) % TWO_32) != 0 }

  predicate IsValidLogicalImmediate64(code: nat) { SeveralBits(SizePattern(code)) }

  predicate IsValidLogicalImmediate32(code: nat) {
    FieldN(code) == 0 && IsValidLogicalImmediate64(code)
  }

  /**
    Hexadecimal digit `j`, counting from the least significant, of the
    `mask_lookup` entry for elements of 2^k bits:
    0xffffffffffffffff, 0x00000000ffffffff, 0x0000ffff0000ffff,
    0x00ff00ff00ff00ff, 0x0f0f0f0f0f0f0f0f and 0x3333333333333333
    for k = 6 down to 1.
   */
  function MaskDigit(k: nat, j: nat): nat {
    if k == 6 then 0xf
    else if k == 5 then (if j < 8 then 0xf else 0)
    else if k == 4 then (if j < 4 || 8 <= j < 12 then 0xf else 0)
    else if k == 3 then (if j % 4 < 2 then 0xf else 0)
    else if k == 2 then (if j % 2 == 0 then 0xf else 0)
    else 0x3
  }

  /** Bit `j` of a hexadecimal digit. */
  predicate DigitBit(d: nat, j: nat) {
    (if j == 0 then d else if j == 1 then d / 2 else if j == 2 then d / 4 else d / 8) % 2 == 1
  }

  function MaskLookup(k: nat): Word64 {
    seq(64, i requires 0 <= i < 64 => DigitBit(MaskDigit(k, i / 4), i % 4))
  }

  const ZERO_64: Word64 := Zeroes(64)
  const ZERO_32: Word32 := Zeroes(32)

  function LeadingZeroes32(p: nat): (z: nat)
    requires 1 < p < 128
    ensures 25 <= z <= 30
  {
    SmallLog(p);
    31 - Log2(p)
  }

  /** The word for an element size of 2^k, from the table entry for that size. */
  function ExpandElement(k: nat, s: nat, immr: nat): Word64
  {
    var mask := MaskLookup(k);
    RotateRight64(Xor64(mask, ShiftLeft64(mask, s)), immr)
  }

  /** The word for a size pattern and the other two fields. */
  function DecodeFields(p: nat, f: nat, r: nat): Word64
    requires p < 128
  {
    if !SeveralBits(p) then ZERO_64
    else
      ValidPattern(p);
      var leadingZeroes := LeadingZeroes32(p);
      var immsMask := ShiftRight(0x7fffffff, leadingZeroes);
      ExpandElement(31 - leadingZeroes, BitAnd(f + 1, immsMask), r)
  }

  function DecodeLogicalImmediate64(code: nat): Word64 { DecodeFields(SizePattern(code), FieldS(code), FieldR(code)) }

  function DecodeLogicalImmediate32(code: nat): Word32 {
    if FieldN(code) != 0 then ZERO_32 else DecodeLogicalImmediate64(code)[..32]
  }

  // ---------------------------------------------------------------- the edge found by the encoder

  lemma {:induction false} IncrementBits(b: seq<bool>)
    ensures var t := FirstIndex(b, false);
            forall i :: 0 <= i < |b| ==> Increment(b)[i] == (if i < t then false else if i == t then true else b[i])
  {
    if |b| > 0 && b[0] {
      IncrementBits(b[1..]);
    }
  }

  /**
    Clearing the trailing ones keeps exactly the ones above the first zero, so
    the rotation is the first position where a zero is followed by a one, and
    64 when the only such edge is between bit 63 and bit 0.
   */
  lemma RotationIsEdge(val: Word64)
    requires !Degenerate(val)
    ensures var r := Rotation(val);
            0 <= r <= 64 && val[r % 64] && !val[(r + 63) % 64]
  {
    var t := FirstIndex(val, false);
    ClearedOnes(val, t);
    EdgeOf(val, ClearTrailingOnes64(val), t, Rotation(val));
  }

  lemma ClearedOnes(val: Word64, t: nat)
    requires t == FirstIndex(val, false)
    ensures forall i :: 0 <= i < 64 ==> ClearTrailingOnes64(val)[i] == (i > t && val[i])
  {
    IncrementBits(val);
  }

  lemma EdgeOf(val: Word64, c: Word64, t: nat, r: nat)
    requires !Degenerate(val) && t == FirstIndex(val, false) && r == FirstIndex(c, true)
    requires forall i :: 0 <= i < 64 ==> c[i] == (i > t && val[i])
    ensures 0 <= r <= 64 && val[r % 64] && !val[(r + 63) % 64]
  {
    if r == 64 {
      assert forall i :: t < i < 64 ==> !c[i] && !val[i];
      assert !val[63];
      assert val[0];
    } else {
      assert c[r] && r > t;
      assert !c[r - 1];
    }
  }

  lemma EndIndices(r: int)
    ensures (0 + r % 64) % 64 == r % 64 && (63 + r % 64) % 64 == (r + 63) % 64
  {
  }

  lemma NormalizedEnds(val: Word64)
    requires !Degenerate(val)
    ensures Normalized(val)[0] && !Normalized(val)[63]
    ensures Ones(val) >= 1 && LeadingZeros(Normalized(val)) >= 1 && Size(val) <= 64
  {
    RotationIsEdge(val);
    var n := Normalized(val);
    var r := Rotation(val);
    RotateAt(val, r % 64, 0);
    RotateAt(val, r % 64, 63);
    EndIndices(r);
    assert Not64(n)[63];
    var z, o := LeadingZeros(n), Ones(val);
    assert !Not64(n)[o - 1];
  }

  // ---------------------------------------------------------------- facts about the small fields

  lemma {:induction false} AndSelf(q: nat)
    ensures BitAnd(q, q) == q
  {
    if q > 0 { AndSelf(q / 2); }
  }

  /** The classic test: clearing the lowest set bit leaves nothing exactly for powers of two. */
  lemma {:induction false} ClearLowestBit(p: nat)
    requires p > 0
    ensures BitAnd(p, p - 1) == 0 <==> PowerOfTwo(p)
  {
    if p % 2 == 1 {
      AndSelf(p / 2);
      assert (p - 1) / 2 == p / 2;
    } else {
      ClearLowestBit(p / 2);
      assert (p - 1) / 2 == p / 2 - 1;
    }
  }

  lemma {:induction false} PowerLog(p: nat)
    requires p > 0
    ensures PowerOfTwo(p) <==> p == Pow2(Log2(p))
  {
    if p > 1 { PowerLog(p / 2); }
  }

  lemma Pow2Small()
    ensures Pow2(0) == 1 && Pow2(1) == 2 && Pow2(2) == 4 && Pow2(3) == 8
    ensures Pow2(4) == 16 && Pow2(5) == 32 && Pow2(6) == 64 && Pow2(7) == 128
  {
  }

  lemma UnsignedPredecessor(p: nat)
    requires 0 < p < 128
    ensures (p + TWO_32 - 1) % TWO_32 == p - 1
  {
  }

  lemma SmallLog(p: nat)
    requires 0 < p < 128
    ensures Log2(p) <= 6
  {
    if Log2(p) >= 7 {
      Pow2Monotone(7, Log2(p));
      Pow2Small();
    }
  }

  lemma SeveralExact(p: nat)
    requires 0 < p < 128
    ensures SeveralBits(p) <==> p != Pow2(Log2(p))
  {
    UnsignedPredecessor(p);
    ClearLowestBit(p);
    PowerLog(p);
  }

  lemma NoBits()
    ensures !SeveralBits(0)
  {
  }

  lemma LogOfOne(p: nat)
    requires p > 0 && Log2(p) == 0
    ensures p == 1 == Pow2(Log2(p))
  {
  }

  /** A valid pattern has its highest bit at 1..6 and some other bit below it. */
  lemma ValidPattern(p: nat)
    requires p < 128
    ensures SeveralBits(p) <==> p > 0 && p != Pow2(Log2(p))
    ensures p > 0 ==> Log2(p) <= 6
    ensures p > 0 && p != Pow2(Log2(p)) ==> 1 <= Log2(p) && p > 1
  {
    if p == 0 {
      NoBits();
    } else {
      SeveralExact(p);
      SmallLog(p);
      if Log2(p) == 0 { LogOfOne(p); }
    }
  }

  lemma {:induction false} Pow2Monotone(a: nat, b: nat)
    requires a <= b
    ensures Pow2(a) <= Pow2(b)
    decreases b - a
  {
    if a < b { Pow2Monotone(a, b - 1); }
  }

  lemma AndMaskStep(h: nat, r: nat, p: nat)
    requires p >= 1
    ensures BitAnd(2 * h + r, 2 * p - 1) == r % 2 + 2 * BitAnd(h + r / 2, p - 1)
  {
    var x := 2 * h + r;
    assert x / 2 == h + r / 2 && x % 2 == r % 2;
    assert (2 * p - 1) / 2 == p - 1;
  }

  /** Masking with 2^k - 1 keeps the low k digits. */
  lemma {:induction false} AndMask(q: nat, r: nat, k: nat)
    requires r < Pow2(k)
    ensures BitAnd(q * Pow2(k) + r, Pow2(k) - 1) == r
    decreases k
  {
    if k == 0 {
      AndZero(q * Pow2(k) + r);
    } else {
      var p := Pow2(k - 1);
      MulTwice(q, p);
      AndMaskStep(q * p, r, p);
      AndMask(q, r / 2, k - 1);
    }
  }

  lemma {:induction false} AndZero(x: nat)
    ensures BitAnd(x, 0) == 0
  {
    if x > 0 { AndZero(x / 2); }
  }

  /** Fields that do not overlap are combined by addition. */
  lemma {:induction false} OrDisjoint(q: nat, y: nat, k: nat)
    requires y < Pow2(k)
    ensures BitOr(q * Pow2(k), y) == q * Pow2(k) + y
    decreases k
  {
    if k > 0 {
      var p := Pow2(k - 1);
      MulTwice(q, p);
      OrDisjoint(q, y / 2, k - 1);
    }
  }

  // ---------------------------------------------------------------- repeating patterns

  predicate ElementSize(s: nat) { s == 2 || s == 4 || s == 8 || s == 16 || s == 32 || s == 64 }

  /** The low `k` bits of the word that repeats `o` ones below `s - o` zeroes, rotated right by `r`. */
  function PatternBits(s: nat, o: nat, r: nat, k: nat): (b: seq<bool>)
    requires s > 0
    ensures |b| == k
  {
    if k == 0 then [] else PatternBits(s, o, r, k - 1) + [(k - 1 + r) % s < o]
  }

  function Pattern(s: nat, o: nat, r: nat): Word64
    requires s > 0
  {
    PatternBits(s, o, r, |ZERO_64|)
  }

  lemma {:induction false} PatternBitsAt(s: nat, o: nat, r: nat, k: nat, i: nat)
    requires s > 0 && i < k
    ensures PatternBits(s, o, r, k)[i] == ((i + r) % s < o)
  {
    if i < k - 1 { PatternBitsAt(s, o, r, k - 1, i); }
  }

  lemma PatternAt(s: nat, o: nat, r: nat, i: nat)
    requires s > 0 && i < 64
    ensures Pattern(s, o, r)[i] == ((i + r) % s < o)
  {
    PatternBitsAt(s, o, r, |ZERO_64|, i);
  }

  lemma {:induction false} RotatedBitsAt(v: Word64, n: int, k: nat, i: int)
    requires 0 <= i < k
    ensures RotatedBits(v, n, k)[i] == v[(i + n) % 64]
  {
    if i < k - 1 { RotatedBitsAt(v, n, k - 1, i); }
  }

  lemma RotateAt(v: Word64, n: int, i: int)
    requires 0 <= i < 64
    ensures RotateRight64(v, n)[i] == v[(i + n) % 64]
  {
    RotatedBitsAt(v, n, |v|, i);
  }

  lemma ModTwice(i: int, a: int, b: int)
    ensures ((i + b) % 64 + a) % 64 == (i + (a + b)) % 64
    ensures (i + a % 64) % 64 == (i + a) % 64
  {
    DivMod(i + b, 64);
    ModShift((i + b) % 64 + a, 64, (i + b) / 64);
    DivMod(a, 64);
    ModShift(i + a % 64, 64, a / 64);
  }

  lemma RotateTwice(v: Word64, a: int, b: int)
    ensures RotateRight64(RotateRight64(v, a), b) == RotateRight64(v, a + b)
  {
    var l, r := RotateRight64(RotateRight64(v, a), b), RotateRight64(v, a + b);
    forall i | 0 <= i < 64 ensures l[i] == r[i] {
      ModTwice(i, a, b);
      RotateAt(v, a + b, i);
      RotateAt(RotateRight64(v, a), b, i);
      RotateAt(v, a, (i + b) % 64);
    }
  }

  lemma RotateModulo(v: Word64, a: int)
    ensures RotateRight64(v, a) == RotateRight64(v, a % 64)
    ensures a % 64 == 0 ==> RotateRight64(v, a) == v
  {
    var l, r := RotateRight64(v, a), RotateRight64(v, a % 64);
    forall i | 0 <= i < 64 ensures l[i] == r[i] {
      ModTwice(i, a, 0);
      RotateAt(v, a, i);
      RotateAt(v, a % 64, i);
    }
    forall i | 0 <= i < 64 ensures a % 64 == 0 ==> r[i] == v[i] {
      RotateAt(v, a % 64, i);
    }
  }

  lemma PeriodOfNormalized(val: Word64, p: nat)
    requires RotateRight64(val, p) == val
    ensures RotateRight64(Normalized(val), p) == Normalized(val)
  {
    var t := Rotation(val) % 64;
    RotateTwice(val, t, p);
    RotateTwice(val, p, t);
    assert t + p == p + t;
  }

  /** A run of zeroes followed by a run of ones has no period shorter than the two together. */
  lemma RunHasNoShorterPeriod(n: Word64, z: nat, o: nat, p: nat)
    requires 0 < z && 0 < o && z + o <= 64 && 0 < p < z + o
    requires forall i :: 0 <= i < o ==> n[i]
    requires forall i :: 64 - z <= i < 64 ==> !n[i]
    ensures RotateRight64(n, p) != n
  {
    // the position where the period would carry a zero onto a one
    var i := if p < z then 64 - p else 64 - z;
    var j := if p < z then 0 else p - z;
    RotateAt(n, p, i);
    WrapIndex(i, p, j);
  }

  lemma NoShorterPeriod(val: Word64, p: nat)
    requires !Degenerate(val) && 0 < p < Size(val)
    ensures RotateRight64(val, p) != val
  {
    NormalizedEnds(val);
    var n, o := Normalized(val), Ones(val);
    forall i | 0 <= i < o ensures n[i] {
      assert !Not64(n)[i];
    }
    RunHasNoShorterPeriod(n, LeadingZeros(n), o, p);
    if RotateRight64(val, p) == val { PeriodOfNormalized(val, p); }
  }

  lemma WrapIndex(i: int, p: int, j: int)
    requires i + p == 64 + j && 0 <= j < 64
    ensures (i + p) % 64 == j
  {
  }

  lemma {:induction false} PeriodMultiple(v: Word64, p: nat, q: nat, m: nat)
    requires RotateRight64(v, p) == v && m == q * p
    ensures RotateRight64(v, m) == v
    decreases q
  {
    if q == 0 {
      RotateModulo(v, 0);
    } else {
      PreviousMultiple(p, q);
      PeriodMultiple(v, p, q - 1, m - p);
      RotateTwice(v, m - p, p);
    }
  }

  lemma PreviousMultiple(p: nat, q: nat)
    requires q > 0
    ensures q * p - p == (q - 1) * p >= 0
  {
  }

  /** Only divisors of 64 pass the rotation test: otherwise the remainder would be a shorter period. */
  lemma SizeDivides(val: Word64)
    requires !Degenerate(val) && RotateRight64(val, Size(val) % 64) == val
    ensures ElementSize(Size(val))
  {
    NormalizedEnds(val);
    var s := Size(val);
    RotateModulo(val, s);
    var q, t := QuotientOf64(s);
    PeriodMultiple(val, s, q, 64 - t);
    RotateTwice(val, 64 - t, t);
    RotateModulo(val, 64);
    if t != 0 {
      NoShorterPeriod(val, t);
    }
  }

  lemma QuotientOf64(s: nat) returns (q: nat, t: nat)
    requires 2 <= s <= 64
    ensures q * s == 64 - t && 0 <= t < s
    ensures t == 0 ==> ElementSize(s)
  {
    q, t := 64 / s, 64 % s;
    assert q <= 32;
    if t == 0 { FactorsOf64(q, s); }
  }

  lemma BoundedFactor(q: nat, s: nat)
    requires s > 8 && q >= 8
    ensures q * s > 64
  {
    assert (q - 8) * s >= 0;
  }

  lemma FactorsOf64(q: nat, s: nat)
    requires q * s == 64 && 2 <= s <= 64
    ensures ElementSize(s)
  {
    if s > 8 {
      if q >= 8 { BoundedFactor(q, s); }
    }
  }

  // ---------------------------------------------------------------- what the decoder computes

  /** Whether bit `i` belongs to an even-numbered element of `s` bits. */
  predicate EvenElement(s: nat, i: int)
    requires s > 0
  {
    i % (2 * s) < s
  }

  lemma WideDigit(s: nat, i: nat)
    requires (s == 64 || s == 32 || s == 16) && i < 64
    ensures EvenElement(s, i) <==>
            if s == 64 then true else if s == 32 then i / 4 < 8 else i / 4 < 4 || 8 <= i / 4 < 12
  {
  }

  lemma NarrowDigit(s: nat, i: nat)
    requires (s == 8 || s == 4 || s == 2) && i < 64
    ensures EvenElement(s, i) <==> if s == 8 then i / 4 % 4 < 2 else if s == 4 then i / 4 % 2 == 0 else i % 4 < 2
  {
  }

  lemma ElementOfDigit(s: nat, i: nat)
    requires ElementSize(s) && i < 64
    ensures EvenElement(s, i) <==>
            if s == 64 then true
            else if s == 32 then i / 4 < 8
            else if s == 16 then i / 4 < 4 || 8 <= i / 4 < 12
            else if s == 8 then i / 4 % 4 < 2
            else if s == 4 then i / 4 % 2 == 0
            else i % 4 < 2
  {
    if s >= 16 { WideDigit(s, i); } else { NarrowDigit(s, i); }
  }

  /** The table entry repeats 2^k ones below 2^k zeroes. */
  lemma MaskBits(k: nat, s: nat, i: nat)
    requires 1 <= k <= 6 && s == Pow2(k) && i < 64
    ensures MaskLookup(k)[i] == EvenElement(s, i)
  {
    Pow2Small();
    BitOfDigit(i % 4);
    ElementOfDigit(s, i);
  }

  lemma BitOfDigit(j: nat)
    requires j < 4
    ensures DigitBit(0xf, j) && !DigitBit(0, j) && DigitBit(0x3, j) == (j < 2)
  {
  }

  /** mask ^ (mask << n) leaves n ones at the bottom of every element. */
  lemma MaskDifference(s: nat, n: nat, i: nat)
    requires 0 < n < s
    ensures (EvenElement(s, i) != (i >= n && EvenElement(s, i - n))) <==> i % s < n
  {
    var d := 2 * s;
    var a, u := i / d, i % d;
    assert i == a * d + u;
    assert a * d == (2 * a) * s;
    if u >= n {
      ModUnique(i - n, d, a, u - n);
    } else {
      assert (a - 1) * d == a * d - d;
      ModUnique(i - n, d, a - 1, u - n + d);
    }
    if u < s {
      ModUnique(i, s, 2 * a, u);
    } else {
      assert (2 * a + 1) * s == (2 * a) * s + s;
      ModUnique(i, s, 2 * a + 1, u - s);
    }
    MulNonNegative(a, d);
  }

  lemma ResidueOfWrapped(x: int, s: nat)
    requires ElementSize(s)
    ensures x % 64 % s == x % s
  {
    var e := 64 / s;
    assert e * s == 64;
    var q := x / 64;
    assert x == x % 64 + (q * e) * s;
    ModShift(x % 64, s, q * e);
  }

  /** The element size of a valid code, and the number of ones in each element. */
  function CodeSize(code: nat): nat
    requires IsValidLogicalImmediate64(code)
  {
    ValidPattern(SizePattern(code));
    Pow2(Log2(SizePattern(code)))
  }

  lemma CodeSizeFacts(code: nat)
    requires IsValidLogicalImmediate64(code)
    ensures var p, s := SizePattern(code), CodeSize(code);
            ElementSize(s) && s < p < 2 * s && FieldN(code) == s / 64
  {
    ValidPattern(SizePattern(code));
    PatternSizeFacts(FieldN(code), FieldS(code), SizePattern(code), Log2(SizePattern(code)), CodeSize(code));
  }

  lemma {:induction false} ShiftOnes(j: nat, k: nat)
    ensures ShiftRight(Pow2(j + k) - 1, k) == Pow2(j) - 1
    decreases k
  {
    if k > 0 {
      assert (Pow2(j + k) - 1) / 2 == Pow2(j + k - 1) - 1;
      ShiftOnes(j, k - 1);
    }
  }

  lemma Pow2Wide()
    ensures Pow2(12) == 0x1000 && Pow2(31) == 0x8000_0000
  {
    Pow2Small();
    Pow2Add(6, 6);
    Pow2Add(12, 7);
    Pow2Add(19, 12);
  }

  lemma {:induction false} Pow2Add(a: nat, b: nat)
    ensures Pow2(a + b) == Pow2(a) * Pow2(b)
    decreases a
  {
    if a > 0 { Pow2Add(a - 1, b); }
  }

  lemma LowOnesMask(k: nat)
    requires 1 <= k <= 6
    ensures ShiftRight(0x7fffffff, 31 - k) == Pow2(k) - 1
  {
    Pow2Wide();
    ShiftOnes(k, 31 - k);
  }

  lemma RotatedPattern(raw: Word64, s: nat, n: nat, r: nat)
    requires ElementSize(s)
    requires forall j :: 0 <= j < 64 ==> raw[j] == (j % s < n)
    ensures RotateRight64(raw, r) == Pattern(s, n, r)
  {
    var out, want := RotateRight64(raw, r), Pattern(s, n, r);
    forall i | 0 <= i < 64 ensures out[i] == want[i] {
      RotateAt(raw, r, i);
      PatternAt(s, n, r, i);
      ResidueOfWrapped(i + r, s);
    }
  }

  lemma PatternSizeFacts(n: nat, f: nat, p: nat, k: nat, s: nat)
    requires n < 2 && f < 64 && p == n * 64 + (63 - f) && p > 0 && k == Log2(p) && s == Pow2(k) && p != s
    ensures 1 <= k <= 6 && ElementSize(s) && s < p < 2 * s && n == s / 64
  {
    ValidPattern(p);
    SizeOfLog(k, s);
    TopField(n, f, p, s);
  }

  lemma SizeOfLog(k: nat, s: nat)
    requires 1 <= k <= 6 && s == Pow2(k)
    ensures ElementSize(s)
  {
    Pow2Small();
  }

  lemma TopField(n: nat, f: nat, p: nat, s: nat)
    requires n < 2 && f < 64 && p == n * 64 + (63 - f) && ElementSize(s) && s < p < 2 * s
    ensures n == s / 64
  {
  }

  /** The masked imms field plus one is the number of ones. */
  lemma OnesField(n: nat, f: nat, p: nat, k: nat, s: nat)
    requires n < 2 && f < 64 && p == n * 64 + (63 - f) && p > 0 && k == Log2(p) && s == Pow2(k) && p != s
    ensures BitAnd(f + 1, s - 1) == 2 * s - p
  {
    PatternSizeFacts(n, f, p, k, s);
    var q := if s == 2 then 30 else if s == 4 then 14 else if s == 8 then 6 else if s == 16 then 2 else 0;
    assert f + 1 == q * s + (2 * s - p);
    AndMask(q, 2 * s - p, k);
  }

  lemma MaskedOnes(n: nat, f: nat, p: nat, k: nat, s: nat)
    requires n < 2 && f < 64 && p == n * 64 + (63 - f) && p > 0 && k == Log2(p) && s == Pow2(k) && p != s
    ensures 1 <= k <= 6 && BitAnd(f + 1, ShiftRight(0x7fffffff, 31 - k)) == 2 * s - p
  {
    PatternSizeFacts(n, f, p, k, s);
    LowOnesMask(k);
    OnesField(n, f, p, k, s);
  }

  lemma ExpandIsPattern(n: nat, f: nat, r: nat, p: nat, s: nat, z: nat, ones: nat)
    requires n < 2 && f < 64 && p == n * 64 + (63 - f) && p > 1 && p < 128 && s == Pow2(Log2(p)) && p != s
    requires z == LeadingZeroes32(p) && ones == BitAnd(f + 1, ShiftRight(0x7fffffff, z))
    ensures s < p < 2 * s && ExpandElement(31 - z, ones, r) == Pattern(s, 2 * s - p, r)
  {
    var k := Log2(p);
    PatternSizeFacts(n, f, p, k, s);
    MaskedOnes(n, f, p, k, s);
    RawPattern(k, s, ones, r);
  }

  lemma FieldsDecode(n: nat, f: nat, r: nat, p: nat, s: nat)
    requires n < 2 && f < 64 && p == n * 64 + (63 - f) && p < 128 && SeveralBits(p) && p > 0 && s == Pow2(Log2(p))
    ensures s < p < 2 * s && DecodeFields(p, f, r) == Pattern(s, 2 * s - p, r)
  {
    ValidPattern(p);
    var z := LeadingZeroes32(p);
    ExpandIsPattern(n, f, r, p, s, z, BitAnd(f + 1, ShiftRight(0x7fffffff, z)));
  }

  lemma FieldRanges(code: nat)
    ensures FieldN(code) < 2 && FieldS(code) < 64 && FieldR(code) < 64
    ensures SizePattern(code) == FieldN(code) * 64 + (63 - FieldS(code))
  {
  }

  /** The decoder builds exactly the rotated repeating pattern its fields describe. */
  lemma DecodeIsPattern(code: nat)
    requires IsValidLogicalImmediate64(code)
    ensures var s := CodeSize(code);
            s > 0 && 2 * s > SizePattern(code)
            && DecodeLogicalImmediate64(code) == Pattern(s, 2 * s - SizePattern(code), FieldR(code))
  {
    FieldRanges(code);
    ValidPattern(SizePattern(code));
    FieldsDecode(FieldN(code), FieldS(code), FieldR(code), SizePattern(code), CodeSize(code));
  }

  lemma RawPattern(k: nat, s: nat, n: nat, r: nat)
    requires 1 <= k <= 6 && s == Pow2(k) && 0 < n < s
    ensures ExpandElement(k, n, r) == Pattern(s, n, r)
  {
    var mask := MaskLookup(k);
    var raw := Xor64(mask, ShiftLeft64(mask, n));
    forall j | 0 <= j < 64 ensures raw[j] == (j % s < n) {
      RawBit(k, s, n, j);
    }
    Pow2Small();
    RotatedPattern(raw, s, n, r);
  }

  lemma RawBit(k: nat, s: nat, n: nat, j: nat)
    requires 1 <= k <= 6 && s == Pow2(k) && 0 < n < s && j < 64
    ensures var mask := MaskLookup(k);
            Xor64(mask, ShiftLeft64(mask, n))[j] == (j % s < n)
  {
    MaskBits(k, s, j);
    if j >= n { MaskBits(k, s, j - n); }
    MaskDifference(s, n, j);
  }

  // ---------------------------------------------------------------- what the encoder assembles

  /** The low bits of imms for a given size and number of ones. */
  function AssembledImms(size: nat, ones: nat): int {
    (if size == 64 then 0 else 64 - 2 * size) + ones - 1
  }

  lemma ImmsOfSize(size: nat, ones: nat)
    requires ElementSize(size) && 0 < ones < size
    ensures var n := if size == 64 then 1 else 0;
            n == size / 64 && 0 <= AssembledImms(size, ones) < 64 && n * 64 + (63 - AssembledImms(size, ones)) == 2 * size - ones
  {
  }

  lemma AssembledParts(k: nat, size: nat, rotation: int, ones: nat) returns (immr: nat)
    requires 1 <= k <= 6 && size == Pow2(k) && ElementSize(size) && 0 <= rotation <= 64 && 0 < ones < size
    ensures immr < size && immr == (0 - rotation) % size && AssembledImms(size, ones) >= 0
    ensures AssembleCode(size, rotation, ones) == BitOr(size / 64 * 4096, BitOr(immr * 64, AssembledImms(size, ones)))
  {
    immr := AssembledR(k, size, rotation);
    AssembledS(k, size, ones);
  }

  /** The fields of the assembled code are the size, the ones and the undone rotation. */
  lemma AssembledFields(k: nat, size: nat, rotation: int, ones: nat)
    requires 1 <= k <= 6 && size == Pow2(k) && 0 <= rotation <= 64 && 0 < ones < size
    ensures var code := AssembleCode(size, rotation, ones);
            code < 8192 && FieldN(code) == size / 64 && FieldR(code) == (0 - rotation) % size
            && SizePattern(code) == 2 * size - ones
  {
    SizeOfLog(k, size);
    ImmsOfSize(size, ones);
    var immr := AssembledParts(k, size, rotation, ones);
    CombineFields(size / 64, immr, AssembledImms(size, ones));
  }

  lemma CombineFields(n: nat, r: nat, f: nat)
    requires n < 2 && r < 64 && f < 64
    ensures var c := BitOr(n * 4096, BitOr(r * 64, f));
            c < 8192 && FieldN(c) == n && FieldR(c) == r && FieldS(c) == f
  {
    Pow2Small();
    Pow2Wide();
    OrDisjoint(r, f, 6);
    OrDisjoint(n, r * 64 + f, 12);
    SplitFields(n, r, f);
  }

  lemma SplitFields(n: nat, r: nat, f: nat)
    requires n < 2 && r < 64 && f < 64
    ensures var c := n * 4096 + (r * 64 + f);
            c < 8192 && c / 4096 % 2 == n && c / 64 % 64 == r && c % 64 == f
  {
  }

  lemma AssembledR(k: nat, size: nat, rotation: int) returns (immr: nat)
    requires 1 <= k <= 6 && size == Pow2(k) && 0 <= rotation <= 64
    ensures immr < size && immr == (0 - rotation) % size == BitAnd(Negate32(rotation), size - 1)
  {
    Pow2Small();
    var x := Negate32(rotation);
    assert x == if rotation == 0 then 0 else TWO_32 - rotation;
    var t := SizeMultiple(size);
    ModShift(0 - rotation, size, t);
    immr := x % size;
    DivMod(x, size);
    AndMask(x / size, immr, k);
  }

  lemma SizeMultiple(size: nat) returns (t: nat)
    requires ElementSize(size)
    ensures t * size == TWO_32 && t > 0
  {
    t := if size == 2 then 0x8000_0000 else if size == 4 then 0x4000_0000
         else if size == 8 then 0x2000_0000 else if size == 16 then 0x1000_0000
         else if size == 32 then 0x800_0000 else 0x400_0000;
  }

  lemma NegatedSize(size: nat) returns (q: nat)
    requires ElementSize(size)
    ensures q * (2 * size) == Negate32(size * 2) == TWO_32 - 2 * size
  {
    q := if size == 2 then 0x3fff_ffff else if size == 4 then 0x1fff_ffff
         else if size == 8 then 0xfff_ffff else if size == 16 then 0x7ff_ffff
         else if size == 32 then 0x3ff_ffff else 0x1ff_ffff;
  }

  lemma LowSixBits(size: nat, ones: nat)
    requires ElementSize(size) && 0 < ones < size
    ensures BitAnd(TWO_32 - 2 * size + ones - 1, 0x3f) == AssembledImms(size, ones)
  {
    Pow2Small();
    var y, low := if size == 64 then 0x3ff_fffe else 0x3ff_ffff, AssembledImms(size, ones);
    assert TWO_32 - 2 * size + ones - 1 == y * 64 + low;
    AndMask(y, low, 6);
  }

  lemma AssembledS(k: nat, size: nat, ones: nat)
    requires 1 <= k <= 6 && size == Pow2(k) && 0 < ones < size
    ensures BitAnd(BitOr(Negate32(size * 2), ones - 1), 0x3f) == AssembledImms(size, ones)
  {
    Pow2Small();
    var q := NegatedSize(size);
    OrDisjoint(q, ones - 1, k + 1);
    LowSixBits(size, ones);
  }

  lemma {:induction false} LogUnique(p: nat, k: nat)
    requires Pow2(k) <= p < 2 * Pow2(k)
    ensures Log2(p) == k
  {
    if k > 0 { LogUnique(p / 2, k - 1); }
  }

  lemma SizeLog(s: nat) returns (k: nat)
    requires ElementSize(s)
    ensures 1 <= k <= 6 && Pow2(k) == s
  {
    Pow2Small();
    k := if s == 2 then 1 else if s == 4 then 2 else if s == 8 then 3
         else if s == 16 then 4 else if s == 32 then 5 else 6;
  }

  lemma PatternModulo(s: nat, o: nat, r: nat)
    requires s > 0
    ensures Pattern(s, o, r) == Pattern(s, o, r % s)
  {
    var a, b := Pattern(s, o, r), Pattern(s, o, r % s);
    forall i | 0 <= i < 64 ensures a[i] == b[i] {
      DivMod(r, s);
      ModShift(i + r % s, s, r / s);
      PatternAt(s, o, r, i);
      PatternAt(s, o, r % s, i);
    }
  }

  // ---------------------------------------------------------------- soundness

  lemma PeriodResidue(n: Word64, s: nat, i: nat)
    requires RotateRight64(n, s) == n && 0 < s <= 64 && i < 64
    ensures n[i] == n[i % s]
  {
    var q, w := i / s, i % s;
    assert q * s == i - w;
    PeriodMultiple(n, s, q, i - w);
    RotateAt(n, i - w, w);
  }

  lemma PeriodicRun(n: Word64, s: nat, o: nat, i: nat)
    requires RotateRight64(n, s) == n && 0 < o < s <= 64 && i < 64
    requires forall j :: 0 <= j < o ==> n[j]
    requires forall j :: 64 - s + o <= j < 64 ==> !n[j]
    ensures n[i] == (i % s < o)
  {
    var w := i % s;
    PeriodResidue(n, s, i);
    if w >= o {
      RotateAt(n, s, 64 - s + w);
      WrapIndex(64 - s + w, s, w);
    }
  }

  /** A word that passes the rotation test repeats its lowest element. */
  lemma NormalizedIsPattern(val: Word64, i: nat)
    requires !Degenerate(val) && RotateRight64(val, Size(val) % 64) == val && i < 64
    ensures Size(val) > 0 && Normalized(val)[i] == (i % Size(val) < Ones(val))
  {
    NormalizedEnds(val);
    var n, s, o := Normalized(val), Size(val), Ones(val);
    RotateModulo(val, s);
    PeriodOfNormalized(val, s);
    forall j | 0 <= j < o ensures n[j] {
      assert !Not64(n)[j];
    }
    PeriodicRun(n, s, o, i);
  }

  lemma UndoRotation(rot: int, s: nat)
    requires ElementSize(s) && 0 <= rot <= 64
    ensures (64 - rot % 64) % s == (0 - rot) % s
  {
    var e := 64 / s;
    assert e * s == 64 && (2 * e) * s == 128;
    if rot == 64 {
      ModShift(-64, s, 2 * e);
    } else {
      ModShift(0 - rot, s, e);
    }
  }

  lemma NormalizedPattern(val: Word64)
    requires !Degenerate(val) && RotateRight64(val, Size(val) % 64) == val
    ensures ElementSize(Size(val)) && 0 < Ones(val) < Size(val)
    ensures forall j :: 0 <= j < 64 ==> Normalized(val)[j] == (j % Size(val) < Ones(val))
  {
    NormalizedEnds(val);
    SizeDivides(val);
    forall j | 0 <= j < 64 ensures Normalized(val)[j] == (j % Size(val) < Ones(val)) {
      NormalizedIsPattern(val, j);
    }
  }

  lemma RotatedBack(val: Word64, n: Word64, s: nat, o: nat, rot: int)
    requires ElementSize(s) && 0 <= rot <= 64 && n == RotateRight64(val, rot % 64)
    requires forall j :: 0 <= j < 64 ==> n[j] == (j % s < o)
    ensures val == Pattern(s, o, (0 - rot) % s)
  {
    var back := 64 - rot % 64;
    BackAgain(val, n, rot % 64, back);
    RotatedPattern(n, s, o, back);
    PatternModulo(s, o, back);
    UndoRotation(rot, s);
  }

  lemma BackAgain(val: Word64, n: Word64, a: nat, b: nat)
    requires n == RotateRight64(val, a) && a + b == 64
    ensures RotateRight64(n, b) == val
  {
    RotateTwice(val, a, b);
    RotateModulo(val, 64);
  }

  lemma PatternOfEncodable(val: Word64)
    requires !Degenerate(val) && RotateRight64(val, Size(val) % 64) == val
    ensures ElementSize(Size(val)) && 0 < Ones(val) < Size(val)
    ensures val == Pattern(Size(val), Ones(val), (0 - Rotation(val)) % Size(val))
  {
    NormalizedPattern(val);
    RotationIsEdge(val);
    RotatedBack(val, Normalized(val), Size(val), Ones(val), Rotation(val));
  }

  lemma AssembledDecodes(s: nat, rot: int, o: nat)
    requires ElementSize(s) && 0 <= rot <= 64 && 0 < o < s
    ensures var c := AssembleCode(s, rot, o);
            c < 8192 && IsValidLogicalImmediate64(c) && CodeSize(c) == s && FieldR(c) == (0 - rot) % s
            && DecodeLogicalImmediate64(c) == Pattern(s, o, (0 - rot) % s)
  {
    var k := SizeLog(s);
    AssembledFields(k, s, rot, o);
    FieldsDecodeTo(AssembleCode(s, rot, o), k, s, o, (0 - rot) % s);
  }

  lemma FieldsValid(c: nat, k: nat, s: nat, o: nat)
    requires 1 <= k <= 6 && s == Pow2(k) && 0 < o < s && SizePattern(c) == 2 * s - o
    ensures IsValidLogicalImmediate64(c) && CodeSize(c) == s
  {
    LogUnique(SizePattern(c), k);
    ValidPattern(SizePattern(c));
  }

  lemma FieldsDecodeTo(c: nat, k: nat, s: nat, o: nat, r: nat)
    requires 1 <= k <= 6 && s == Pow2(k) && 0 < o < s && SizePattern(c) == 2 * s - o && FieldR(c) == r
    ensures IsValidLogicalImmediate64(c) && CodeSize(c) == s && DecodeLogicalImmediate64(c) == Pattern(s, o, r)
  {
    FieldsValid(c, k, s, o);
    DecodeIsPattern(c);
  }

  /** Every successful encoding is a canonical valid code, and decoding it gives the value back. */
  lemma EncodeSound(val: Word64)
    requires EncodeLogicalImmediate64(val).Code?
    ensures ElementSize(Size(val))
    ensures var c := EncodeLogicalImmediate64(val).value;
            c < 8192 && IsValidLogicalImmediate64(c) && CodeSize(c) == Size(val)
            && FieldR(c) < Size(val) && DecodeLogicalImmediate64(c) == val
  {
    PatternOfEncodable(val);
    RotationIsEdge(val);
    AssembledDecodes(Size(val), Rotation(val), Ones(val));
  }

  // ---------------------------------------------------------------- completeness

  /** x and y differ by a multiple of 64, which is a multiple of every element size. */
  lemma SameResidue(x: int, y: int, t: int, s: nat)
    requires ElementSize(s) && x == y + 64 * t
    ensures x % s == y % s
  {
    var e := 64 / s;
    assert e * s == 64;
    assert (e * t) * s == 64 * t;
    ModShift(y, s, e * t);
  }

  lemma PatternNotDegenerate(s: nat, o: nat, r: nat)
    requires ElementSize(s) && 0 < o < s
    ensures !Degenerate(Pattern(s, o, r))
  {
    var v := Pattern(s, o, r);
    var a, b := (0 - r) % s, (s - 1 - r) % s;
    CancelModulo(0, r, s);
    CancelModulo(s - 1, r, s);
    PatternAt(s, o, r, a);
    PatternAt(s, o, r, b);
    assert v[a] && !v[b];
  }

  lemma CancelModulo(t: int, r: int, s: nat)
    requires 0 <= t < s
    ensures ((t - r) % s + r) % s == t
  {
    var q := (t - r) / s;
    assert t - r == q * s + (t - r) % s;
    assert (t - r) % s + r == t + (-q) * s;
    ModShift(t, s, -q);
    ModUnique(t, s, 0, t);
  }

  /** Two neighbouring bits, a one above a zero, mark the start of an element. */
  lemma EdgeIsStart(s: nat, o: nat, x: int)
    requires 0 < o < s && x % s < o <= (x - 1) % s
    ensures x % s == 0
  {
    var w := x % s;
    if w > 0 {
      assert x - 1 == (x / s) * s + (w - 1);
      ModUnique(x - 1, s, x / s, w - 1);
    }
  }

  lemma PatternRotation(s: nat, o: nat, r: nat)
    requires ElementSize(s) && 0 < o < s
    ensures var v := Pattern(s, o, r);
            !Degenerate(v) && 0 <= Rotation(v) <= 64 && (Rotation(v) + r) % s == 0 && (0 - Rotation(v)) % s == r % s
  {
    var v := Pattern(s, o, r);
    PatternNotDegenerate(s, o, r);
    RotationIsEdge(v);
    EdgeOfPattern(s, o, r, v, Rotation(v));
    NegatedResidue(Rotation(v), r, s);
  }

  lemma EdgeOfPattern(s: nat, o: nat, r: nat, v: Word64, rot: int)
    requires ElementSize(s) && 0 < o < s && v == Pattern(s, o, r) && 0 <= rot <= 64
    requires v[rot % 64] && !v[(rot + 63) % 64]
    ensures (rot + r) % s == 0
  {
    PatternAt(s, o, r, rot % 64);
    PatternAt(s, o, r, (rot + 63) % 64);
    EdgeResidues(rot, r, s);
    EdgeIsStart(s, o, rot + r);
  }

  lemma EdgeResidues(rot: int, r: int, s: nat)
    requires ElementSize(s)
    ensures (rot % 64 + r) % s == (rot + r) % s
    ensures ((rot + 63) % 64 + r) % s == (rot + r - 1) % s
  {
    SameResidue(rot + r, rot % 64 + r, rot / 64, s);
    SameResidue(rot + r - 1, (rot + 63) % 64 + r, (rot + 63) / 64 - 1, s);
  }

  /** Rotating by `rot` and then by `r` returns to the start of an element. */
  lemma NormalizedResidue(i: int, rot: int, r: int, s: nat)
    requires ElementSize(s) && (rot + r) % s == 0
    ensures ((i + rot % 64) % 64 + r) % s == i % s
  {
    var j := (i + rot % 64) % 64;
    SameResidue(i + rot + r, j + r, rot / 64 + (i + rot % 64) / 64, s);
    var q := (rot + r) / s;
    assert rot + r == q * s;
    ModShift(i, s, q);
  }

  lemma TurnedAt(s: nat, o: nat, r: nat, v: Word64, rot: int, i: nat)
    requires ElementSize(s) && v == Pattern(s, o, r) && (rot + r) % s == 0 && i < 64
    ensures RotateRight64(v, rot % 64)[i] == (i % s < o)
  {
    RotateAt(v, rot % 64, i);
    PatternAt(s, o, r, (i + rot % 64) % 64);
    NormalizedResidue(i, rot, r, s);
  }

  lemma PatternNormalized(s: nat, o: nat, r: nat, i: nat)
    requires ElementSize(s) && 0 < o < s && i < 64
    ensures Normalized(Pattern(s, o, r))[i] == (i % s < o)
  {
    var v := Pattern(s, o, r);
    PatternRotation(s, o, r);
    TurnedAt(s, o, r, v, Rotation(v), i);
  }

  /** The two counts and the period read back from a repeating word. */
  lemma PatternCounts(n: Word64, s: nat, o: nat)
    requires ElementSize(s) && 0 < o < s
    requires forall i :: 0 <= i < 64 ==> n[i] == (i % s < o)
    ensures LeadingZeros(n) == s - o && FirstIndex(Not64(n), true) == o
  {
    forall i | 64 - s <= i < 64 ensures n[i] == (i - 64 + s < o) {
      SameResidue(i + s, i - 64 + s, 1, s);
      ModShift(i, s, 1);
      ModUnique(i - 64 + s, s, 0, i - 64 + s);
    }
    forall i | 0 <= i < s ensures n[i] == (i < o) {
      ModUnique(i, s, 0, i);
    }
    assert n[63 - (s - o)];
    assert forall i :: 0 <= i < o ==> !Not64(n)[i];
    assert o < 64 && Not64(n)[o];
  }

  lemma PatternPeriod(s: nat, o: nat, r: nat)
    requires ElementSize(s)
    ensures RotateRight64(Pattern(s, o, r), s % 64) == Pattern(s, o, r)
  {
    var v := Pattern(s, o, r);
    var w := RotateRight64(v, s % 64);
    forall i | 0 <= i < 64 ensures w[i] == v[i] {
      RotateAt(v, s % 64, i);
      PeriodAt(s, o, r, i, (i + s % 64) % 64);
    }
  }

  lemma PeriodAt(s: nat, o: nat, r: nat, i: nat, j: nat)
    requires ElementSize(s) && i < 64 && j == (i + s % 64) % 64
    ensures Pattern(s, o, r)[j] == Pattern(s, o, r)[i]
  {
    PatternAt(s, o, r, i);
    PatternAt(s, o, r, j);
    DivMod(i + s % 64, 64);
    DivMod(s, 64);
    SameResidue(i + s + r, j + r, s / 64 + (i + s % 64) / 64, s);
    ModShift(i + r, s, 1);
  }

  lemma PatternCode(s: nat, o: nat, r: nat, v: Word64)
    requires ElementSize(s) && 0 < o < s && v == Pattern(s, o, r) && !Degenerate(v) && Rotation(v) >= 0
    ensures EncodeLogicalImmediate64(v) == Code(AssembleCode(s, Rotation(v), o))
  {
    PatternSize(s, o, r);
    PatternPeriod(s, o, r);
    EncodeUnfolds(v, s, o, Rotation(v));
  }

  /** Every repeating pattern is encoded, with the size, ones and rotation it was made from. */
  lemma PatternEncodes(s: nat, o: nat, r: nat) returns (rot: int)
    requires ElementSize(s) && 0 < o < s
    ensures 0 <= rot <= 64 && (0 - rot) % s == r % s
    ensures EncodeLogicalImmediate64(Pattern(s, o, r)) == Code(AssembleCode(s, rot, o))
  {
    var v := Pattern(s, o, r);
    PatternRotation(s, o, r);
    rot := Rotation(v);
    PatternCode(s, o, r, v);
  }

  lemma EncodeUnfolds(v: Word64, s: nat, o: nat, rot: int)
    requires !Degenerate(v) && Size(v) == s > 0 && Ones(v) == o > 0 && Rotation(v) == rot >= 0 && RotateRight64(v, s % 64) == v
    ensures EncodeLogicalImmediate64(v) == Code(AssembleCode(s, rot, o))
  {
  }

  lemma NegatedResidue(rot: int, r: int, s: nat)
    requires s > 0 && (rot + r) % s == 0
    ensures (0 - rot) % s == r % s
  {
    var q := (rot + r) / s;
    DivMod(rot + r, s);
    assert 0 - rot == r + (-q) * s;
    ModShift(r, s, -q);
  }

  lemma PatternSize(s: nat, o: nat, r: nat)
    requires ElementSize(s) && 0 < o < s
    ensures var v := Pattern(s, o, r); Size(v) == s && Ones(v) == o
  {
    var v := Pattern(s, o, r);
    forall i | 0 <= i < 64 ensures Normalized(v)[i] == (i % s < o) {
      PatternNormalized(s, o, r, i);
    }
    PatternCounts(Normalized(v), s, o);
  }

  /** The code with its rotation field reduced below the element size. */
  function Canonical(code: nat): nat
    requires IsValidLogicalImmediate64(code)
  {
    FieldN(code) * 4096 + FieldR(code) % CodeSize(code) * 64 + FieldS(code)
  }

  lemma CodeOfFields(c: nat, n: nat, r: nat, p: nat)
    requires c < 8192 && FieldN(c) == n && FieldR(c) == r && SizePattern(c) == p
    ensures c == n * 4096 + r * 64 + (63 + n * 64 - p)
  {
  }

  lemma CanonicalOf(code: nat, c: nat, s: nat)
    requires IsValidLogicalImmediate64(code) && s == CodeSize(code) > 0 && FieldN(code) == s / 64
    requires c < 8192 && FieldN(c) == s / 64 && FieldR(c) == FieldR(code) % s && SizePattern(c) == SizePattern(code)
    ensures c == Canonical(code)
  {
    CodeOfFields(c, s / 64, FieldR(code) % s, SizePattern(code));
  }

  lemma AssembledWith(s: nat, rot: int, r: nat, p: nat)
    requires ElementSize(s) && 0 <= rot <= 64 && (0 - rot) % s == r % s && s < p < 2 * s
    ensures var c := AssembleCode(s, rot, 2 * s - p);
            c < 8192 && FieldN(c) == s / 64 && FieldR(c) == r % s && SizePattern(c) == p
  {
    var k := SizeLog(s);
    AssembledFields(k, s, rot, 2 * s - p);
  }

  lemma AssembledCanonical(code: nat, rot: int)
    requires IsValidLogicalImmediate64(code) && 0 <= rot <= 64
    requires (0 - rot) % CodeSize(code) == FieldR(code) % CodeSize(code)
    ensures var s := CodeSize(code);
            0 < 2 * s - SizePattern(code) && AssembleCode(s, rot, 2 * s - SizePattern(code)) == Canonical(code)
  {
    CodeSizeFacts(code);
    var p, s := SizePattern(code), CodeSize(code);
    AssembledWith(s, rot, FieldR(code), p);
    CanonicalOf(code, AssembleCode(s, rot, 2 * s - p), s);
  }

  lemma PatternCanonical(code: nat)
    requires IsValidLogicalImmediate64(code)
    ensures var s := CodeSize(code);
            s > 0 && 0 < 2 * s - SizePattern(code)
            && EncodeLogicalImmediate64(Pattern(s, 2 * s - SizePattern(code), FieldR(code))) == Code(Canonical(code))
  {
    CodeSizeFacts(code);
    FieldsCanonical(code, CodeSize(code), 2 * CodeSize(code) - SizePattern(code), FieldR(code));
  }

  lemma FieldsCanonical(code: nat, s: nat, o: nat, r: nat)
    requires IsValidLogicalImmediate64(code) && s == CodeSize(code) && o == 2 * s - SizePattern(code) && r == FieldR(code)
    requires ElementSize(s) && 0 < o < s
    ensures EncodeLogicalImmediate64(Pattern(s, o, r)) == Code(Canonical(code))
  {
    var rot := PatternEncodes(s, o, r);
    AssembledCanonical(code, rot);
  }

  /** Decoding any valid code gives a value that encodes to the canonical form of that code. */
  lemma EncodeComplete(code: nat)
    requires IsValidLogicalImmediate64(code)
    ensures EncodeLogicalImmediate64(DecodeLogicalImmediate64(code)) == Code(Canonical(code))
  {
    DecodeIsPattern(code);
    PatternCanonical(code);
  }

  /** ENCODE_FAILED is returned exactly for the values no valid code decodes to. */
  lemma EncodeFailsExactly(val: Word64)
    ensures EncodeLogicalImmediate64(val).EncodeFailed? <==>
            forall code: nat :: IsValidLogicalImmediate64(code) ==> DecodeLogicalImmediate64(code) != val
  {
    if EncodeLogicalImmediate64(val).EncodeFailed? {
      forall code: nat | IsValidLogicalImmediate64(code) ensures DecodeLogicalImmediate64(code) != val {
        EncodeComplete(code);
      }
    } else {
      EncodeSound(val);
    }
  }

  // ---------------------------------------------------------------- the 32-bit forms

  lemma RepeatedWordPeriod(w: Word32)
    ensures RotateRight64(w + w, 32) == w + w
  {
    var v: Word64 := w + w;
    var x := RotateRight64(v, 32);
    forall i | 0 <= i < 64 ensures x[i] == v[i] {
      RotateAt(v, 32, i);
    }
  }

  lemma RepeatedWordSize(w: Word32)
    requires EncodeLogicalImmediate32(w).Code?
    ensures ElementSize(Size(w + w)) && Size(w + w) <= 32
  {
    EncodeSound(w + w);
    RepeatedWordPeriod(w);
    if Size(w + w) == 64 { NoShorterPeriod(w + w, 32); }
  }

  /** The 32-bit encoder only produces N = 0 and round-trips through the 32-bit decoder. */
  lemma Encode32Sound(w: Word32)
    requires EncodeLogicalImmediate32(w).Code?
    ensures var c := EncodeLogicalImmediate32(w).value;
            FieldN(c) == 0 && IsValidLogicalImmediate32(c) && DecodeLogicalImmediate32(c) == w
  {
    RepeatedWordSize(w);
    EncodeSound(w + w);
    CodeSizeFacts(EncodeLogicalImmediate32(w).value);
  }

  lemma HalvesOfPattern(s: nat, o: nat, r: nat)
    requires ElementSize(s) && s <= 32
    ensures var v := Pattern(s, o, r); v[..32] + v[..32] == v
  {
    var v := Pattern(s, o, r);
    var e := 32 / s;
    assert e * s == 32;
    forall i | 0 <= i < 32 ensures v[32 + i] == v[i] {
      PatternAt(s, o, r, i);
      PatternAt(s, o, r, 32 + i);
      ModShift(i + r, s, e);
    }
  }

  lemma DecodedHalves(code: nat)
    requires IsValidLogicalImmediate32(code)
    ensures var v := DecodeLogicalImmediate64(code); v[..32] + v[..32] == v
  {
    CodeSizeFacts(code);
    DecodeIsPattern(code);
    var s := CodeSize(code);
    HalvesOfPattern(s, 2 * s - SizePattern(code), FieldR(code));
  }

  lemma EncodesFromHalf(v: Word64)
    requires v[..32] + v[..32] == v && EncodeLogicalImmediate64(v).Code?
    ensures EncodeLogicalImmediate32(v[..32]).Code?
  {
  }

  lemma Decode32Encodes(code: nat)
    requires IsValidLogicalImmediate32(code)
    ensures EncodeLogicalImmediate32(DecodeLogicalImmediate32(code)).Code?
  {
    DecodedHalves(code);
    EncodeComplete(code);
    EncodesFromHalf(DecodeLogicalImmediate64(code));
  }

  /** The 32-bit encoder fails exactly for the values no valid 32-bit code decodes to. */
  lemma Encode32FailsExactly(w: Word32)
    ensures EncodeLogicalImmediate32(w).EncodeFailed? <==>
            forall code: nat :: IsValidLogicalImmediate32(code) ==> DecodeLogicalImmediate32(code) != w
  {
    if EncodeLogicalImmediate32(w).EncodeFailed? {
      forall code: nat | IsValidLogicalImmediate32(code) ensures DecodeLogicalImmediate32(code) != w {
        Decode32Encodes(code);
      }
    } else {
      Encode32Sound(w);
    }
  }
}
