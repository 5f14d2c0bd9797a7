/**
  The arithmetic behind the extension tags of the register cache: 64-bit host
  registers that hold a 32-bit guest value in their low half, and why the host
  operation chosen for each instruction gives the exact 32-bit result.  Words
  are integers; wrap-around is written out.
 */
module HostWords {
  import opened Arithmetic

  const TWO_31 := 0x8000_0000
  const TWO_63 := 0x8000_0000_0000_0000

  type Guest = v: nat | v < TWO_32
  type Host64 = x: nat | x < TWO_64

  function Low(x: Host64): Guest { x % TWO_32 }
  function ZeroExtend(v: Guest): Host64 { v }
  function SignExtend(v: Guest): Host64 { if v < TWO_31 then v else v + (TWO_64 - TWO_32) }

  function Signed32(v: Guest): int { if v < TWO_31 then v else v - TWO_32 }
  function Signed64(x: Host64): int { if x < TWO_63 then x else x - TWO_64 }

  /** A bitwise operation on the low `n` bits. */
  function Bitwise(f: (bool, bool) -> bool, a: nat, b: nat, n: nat): nat {
    if n == 0 then 0 else (if f(a % 2 == 1, b % 2 == 1) then 1 else 0) + 2 * Bitwise(f, a / 2, b / 2, n - 1)
  }

  datatype BitOp = BitAnd | BitOr | BitXor | BitNor

  function Truth(op: BitOp): (bool, bool) -> bool {
    match op
    case BitAnd => (p: bool, q: bool) => p && q
    case BitOr => (p: bool, q: bool) => p || q
    case BitXor => (p: bool, q: bool) => p != q
    case BitNor => (p: bool, q: bool) => !(p || q)
  }

  // ---------------------------------------------------------------- extension

  lemma LowOfExtension(v: Guest)
    ensures Low(ZeroExtend(v)) == v && Low(SignExtend(v)) == v
  {
    ModShift(v, TWO_32, 0xffff_ffff);
  }

  lemma SignedOfExtension(v: Guest)
    ensures Signed64(SignExtend(v)) == Signed32(v)
  {
  }

  /** Comparisons on extended values are the 32-bit comparisons, also the unsigned one on sign-extended values. */
  lemma ComparisonsExact(a: Guest, b: Guest)
    ensures Signed64(SignExtend(a)) < Signed64(SignExtend(b)) <==> Signed32(a) < Signed32(b)
    ensures ZeroExtend(a) < ZeroExtend(b) <==> a < b
    ensures SignExtend(a) < SignExtend(b) <==> a < b
    ensures SignExtend(a) == SignExtend(b) <==> a == b
  {
  }

  // ---------------------------------------------------------------- operations that keep the low half exact

  lemma WrapTwice(x: int)
    ensures x % TWO_64 % TWO_32 == x % TWO_32
  {
    DivMod(x, TWO_64);
    ModShift(x % TWO_64, TWO_32, x / TWO_64 * TWO_32);
  }

  lemma AddExact(x: Host64, y: Host64)
    ensures Low((x + y) % TWO_64) == (Low(x) + Low(y)) % TWO_32
  {
    WrapTwice(x + y);
    DivMod(x, TWO_32);
    DivMod(y, TWO_32);
    ModShift(Low(x) + Low(y), TWO_32, x / TWO_32 + y / TWO_32);
  }

  lemma SubExact(x: Host64, y: Host64)
    ensures Low((x - y) % TWO_64) == (Low(x) - Low(y)) % TWO_32
  {
    WrapTwice(x - y);
    DivMod(x, TWO_32);
    DivMod(y, TWO_32);
    ModShift(Low(x) - Low(y), TWO_32, x / TWO_32 - y / TWO_32);
  }

  lemma ShiftLeftExact(x: Host64, p: nat)
    ensures Low(x * p % TWO_64) == Low(x) * p % TWO_32
  {
    WrapTwice(x * p);
    DivMod(x, TWO_32);
    var q := x / TWO_32;
    assert x * p == Low(x) * p + (q * p) * TWO_32;
    ModShift(Low(x) * p, TWO_32, q * p);
  }

  lemma {:induction false} BitwiseBound(f: (bool, bool) -> bool, a: nat, b: nat, n: nat)
    ensures Bitwise(f, a, b, n) < Pow2(n)
  {
    if n > 0 { BitwiseBound(f, a / 2, b / 2, n - 1); }
  }

  /** The low `k` bits of a bitwise operation depend on the low `k` bits of its operands. */
  lemma {:induction false} BitwiseLow(f: (bool, bool) -> bool, a: nat, b: nat, k: nat, n: nat)
    requires k <= n
    ensures Bitwise(f, a, b, n) % Pow2(k) == Bitwise(f, a % Pow2(k), b % Pow2(k), k)
    decreases k
  {
    if k > 0 {
      var p := Pow2(k - 1);
      BitwiseLow(f, a / 2, b / 2, k - 1, n - 1);
      var r, bit := Bitwise(f, a / 2, b / 2, n - 1), if f(a % 2 == 1, b % 2 == 1) then 1 else 0;
      AppendBit(bit, r, p);
      HalfOfMod(a, p);
      HalfOfMod(b, p);
      BitwiseStep(f, a % (2 * p), b % (2 * p), k);
    }
  }

  lemma BitwiseStep(f: (bool, bool) -> bool, a: nat, b: nat, n: nat)
    requires n > 0
    ensures Bitwise(f, a, b, n)
            == (if f(a % 2 == 1, b % 2 == 1) then 1 else 0) + 2 * Bitwise(f, a / 2, b / 2, n - 1)
  {
  }

  lemma AppendBit(bit: nat, r: nat, p: nat)
    requires bit < 2 && p > 0
    ensures (bit + 2 * r) % (2 * p) == bit + 2 * (r % p)
  {
    HalfOfMod(bit + 2 * r, p);
  }

  lemma HalfOfMod(x: nat, p: nat)
    requires p > 0
    ensures x % (2 * p) / 2 == x / 2 % p && x % (2 * p) % 2 == x % 2
    ensures x % (2 * p) == x % 2 + 2 * (x / 2 % p)
  {
    var q, r := x / 2 / p, x / 2 % p;
    DivMod(x / 2, p);
    MulTwice(q, p);
    ModUnique(x, 2 * p, q, x % 2 + 2 * r);
  }

  lemma WordPower(n: nat)
    requires n == 32
    ensures Pow2(n) == TWO_32
  {
    assert Pow2(4) == 16;
    PowerSum(4, 4);
    PowerSum(8, 8);
    PowerSum(16, 16);
  }

  lemma DoubleWordPower(n: nat)
    requires n == 64
    ensures Pow2(n) == TWO_64
  {
    WordPower(n - 32);
    PowerSum(n - 32, n - 32);
  }

  lemma {:induction false} PowerSum(a: nat, b: nat)
    ensures Pow2(a + b) == Pow2(a) * Pow2(b)
    decreases a
  {
    if a > 0 {
      PowerSum(a - 1, b);
      assert 2 * Pow2(a - 1) * Pow2(b) == 2 * (Pow2(a - 1) * Pow2(b));
    }
  }

  lemma BitwiseExact(f: (bool, bool) -> bool, x: Host64, y: Host64)
    ensures Bitwise(f, x, y, 64) < TWO_64 && Bitwise(f, Low(x), Low(y), 32) < TWO_32
    ensures Low(Bitwise(f, x, y, 64)) == Bitwise(f, Low(x), Low(y), 32)
  {
    var n, k := 64, 32;
    WordPower(k);
    DoubleWordPower(n);
    BitwiseBound(f, x, y, n);
    BitwiseBound(f, Low(x), Low(y), k);
    BitwiseLow(f, x, y, k, n);
  }

  lemma WordBound(f: (bool, bool) -> bool, a: nat, b: nat, n: nat)
    requires n == 32
    ensures Bitwise(f, a, b, n) < TWO_32
  {
    WordPower(n);
    BitwiseBound(f, a, b, n);
  }

  /** The 32-bit bitwise operation. */
  function Bits32(op: BitOp, a: Guest, b: Guest): Guest {
    WordBound(Truth(op), a, b, 32);
    Bitwise(Truth(op), a, b, 32)
  }

  /** Masking with 2^k - 1 keeps the low k bits. */
  lemma {:induction false} MaskBits(x: nat, k: nat, n: nat)
    requires k <= n
    ensures Bitwise(Truth(BitAnd), x, Pow2(k) - 1, n) == x % Pow2(k)
    decreases n
  {
    if k == 0 {
      MaskNothing(x, n);
    } else {
      var p := Pow2(k - 1);
      MaskBits(x / 2, k - 1, n - 1);
      HalfOfMod(x, p);
      OddHalf(p);
      MaskStep(x, p, n);
    }
  }

  lemma OddHalf(p: nat)
    requires p > 0
    ensures (2 * p - 1) / 2 == p - 1 && (2 * p - 1) % 2 == 1
  {
  }

  lemma MaskStep(x: nat, p: nat, n: nat)
    requires n > 0 && p > 0 && (2 * p - 1) / 2 == p - 1 && (2 * p - 1) % 2 == 1
    ensures Bitwise(Truth(BitAnd), x, 2 * p - 1, n) == x % 2 + 2 * Bitwise(Truth(BitAnd), x / 2, p - 1, n - 1)
  {
    BitwiseStep(Truth(BitAnd), x, 2 * p - 1, n);
  }

  lemma {:induction false} MaskNothing(x: nat, n: nat)
    ensures Bitwise(Truth(BitAnd), x, 0, n) == 0
  {
    if n > 0 { MaskNothing(x / 2, n - 1); }
  }

  /** ORing and then flipping every bit is NOR. */
  lemma {:induction false} FlipOr(a: nat, b: nat, n: nat)
    ensures Bitwise(Truth(BitXor), Bitwise(Truth(BitOr), a, b, n), Pow2(n) - 1, n) == Bitwise(Truth(BitNor), a, b, n)
  {
    if n > 0 {
      FlipOr(a / 2, b / 2, n - 1);
      var r, p := Bitwise(Truth(BitOr), a / 2, b / 2, n - 1), Pow2(n - 1);
      var bit := if a % 2 == 1 || b % 2 == 1 then 1 else 0;
      assert (bit + 2 * r) / 2 == r && (bit + 2 * r) % 2 == bit;
      assert (2 * p - 1) / 2 == p - 1 && (2 * p - 1) % 2 == 1;
    }
  }

  lemma FlipOr32(a: Guest, b: Guest)
    ensures Bitwise(Truth(BitXor), Bitwise(Truth(BitOr), a, b, 32), TWO_32 - 1, 32) == Bitwise(Truth(BitNor), a, b, 32)
  {
    var n := 32;
    WordPower(n);
    FlipOr(a, b, n);
  }

  lemma MaskFive(x: nat)
    ensures Bitwise(Truth(BitAnd), x, 31, 64) == x % 32
  {
    var k, n := 5, 64;
    assert Pow2(k) == 32 by { assert Pow2(5) == 32; }
    MaskBits(x, k, n);
  }

  lemma MaskTwelve(x: nat)
    ensures Bitwise(Truth(BitAnd), x, 0xfff, 64) == x % 4096
  {
    var k, n := 12, 64;
    assert Pow2(k) == 4096 by {
      assert Pow2(6) == 64;
      PowerSum(6, 6);
    }
    MaskBits(x, k, n);
  }

  /** Masking the wrapped 64-bit sum gives the DMEM address of the 32-bit one. */
  lemma AddressExact(x: Host64, v: Guest, offset: Guest)
    requires Low(x) == v
    ensures (x + SignExtend(offset)) % TWO_64 % 4096 == (v + offset) % 4096
  {
    LowOfExtension(offset);
    AddExact(x, SignExtend(offset));
    MaskOfLow((x + SignExtend(offset)) % TWO_64);
    MaskOfWrap(v + offset);
  }

  lemma MaskOfLow(y: Host64)
    ensures y % 4096 == Low(y) % 4096
  {
    DivMod(y, TWO_32);
    ModShift(Low(y), 4096, y / TWO_32 * 0x10_0000);
  }

  lemma MaskOfWrap(z: nat)
    ensures z % TWO_32 % 4096 == z % 4096
  {
    DivMod(z, TWO_32);
    ModShift(z % TWO_32, 4096, z / TWO_32 * 0x10_0000);
  }
}
