/**
  Scalar loads and stores (rsp_jit.cpp, `jit_emit_load_operation`,
  `jit_emit_store_operation` and the unaligned helpers): the inline access to
  aligned addresses and the call-out for the others are two implementations of
  one big-endian byte memory that wraps at 4096.
 */
module ScalarMemory {
  import opened Arithmetic
  import opened HostBytes

  // ---------------------------------------------------------------- the big-endian memory

  function Pow256(n: nat): (p: nat)
    ensures p > 0
  {
    if n == 0 then 1 else 256 * Pow256(n - 1)
  }

  /** The number in the `n` bytes from `a` on. */
  function ReadBig(m: Dmem, a: nat, n: nat): nat {
    if n == 0 then 0 else 256 * ReadBig(m, a, n - 1) + m[At(a, n - 1)]
  }

  /** The low `n` bytes of `v` stored from `a` on. */
  function WriteBig(m: Dmem, a: nat, n: nat, v: nat): Dmem {
    if n == 0 then m else WriteBig(m, a, n - 1, v / 256)[At(a, n - 1) := v % 256]
  }

  /** Byte `k` of a number, counted from the low end. */
  function ByteOf(v: nat, k: nat): Byte { if k == 0 then v % 256 else ByteOf(v / 256, k - 1) }

  lemma {:induction false} WriteAt(m: Dmem, a: nat, n: nat, v: nat, i: nat)
    requires i < n <= 4096
    ensures WriteBig(m, a, n, v)[At(a, i)] == ByteOf(v, n - 1 - i)
  {
    if i < n - 1 {
      WriteAt(m, a, n - 1, v / 256, i);
      Apart(a, i, n - 1);
    }
  }

  lemma {:induction false} WriteElsewhere(m: Dmem, a: nat, n: nat, v: nat, x: nat)
    requires x < 4096 && forall i: nat :: i < n ==> At(a, i) != x
    ensures WriteBig(m, a, n, v)[x] == m[x]
  {
    if n > 0 { WriteElsewhere(m, a, n - 1, v / 256, x); }
  }

  lemma {:induction false} ReadByte(m: Dmem, a: nat, n: nat, j: nat)
    requires j < n
    ensures ByteOf(ReadBig(m, a, n), n - 1 - j) == m[At(a, j)]
  {
    LowByte(ReadBig(m, a, n - 1), m[At(a, n - 1)]);
    if j < n - 1 { ReadByte(m, a, n - 1, j); }
  }

  lemma LowByte(x: nat, b: Byte)
    ensures (256 * x + b) % 256 == b && (256 * x + b) / 256 == x
  {
  }

  /** How far address b + j lies above a, going round. */
  function Distance(a: nat, b: nat, j: nat): (i: nat) ensures i < 4096 { (b + j - a) % 4096 }

  lemma DistanceExact(a: nat, b: nat, j: nat, i: nat)
    requires i < 4096
    ensures At(a, i) == At(b, j) <==> i == Distance(a, b, j)
  {
    var d := Distance(a, b, j);
    DivMod(b + j - a, 4096);
    var q := (b + j - a) / 4096;
    assert b + j == (a + d) + q * 4096;
    ModShift(a + d, 4096, q);
    if i < d { Apart(a, i, d); }
    if d < i { Apart(a, d, i); }
  }

  /**
    Read over write, for any two widths and any two addresses: byte j of the
    number read is the byte of the number written that went to its address, or
    what memory held there.
   */
  lemma ReadOverWrite(m: Dmem, a: nat, n: nat, v: nat, b: nat, k: nat, j: nat)
    requires n <= 4096 && j < k
    ensures ByteOf(ReadBig(WriteBig(m, a, n, v), b, k), k - 1 - j)
            == if Distance(a, b, j) < n then ByteOf(v, n - 1 - Distance(a, b, j)) else m[At(b, j)]
  {
    var d := Distance(a, b, j);
    ReadByte(WriteBig(m, a, n, v), b, k, j);
    DistanceExact(a, b, j, d);
    if d < n {
      WriteAt(m, a, n, v, d);
    } else {
      forall i: nat | i < n ensures At(a, i) != At(b, j) { DistanceExact(a, b, j, i); }
      WriteElsewhere(m, a, n, v, At(b, j));
    }
  }

  lemma {:induction false} ReadBound(m: Dmem, a: nat, n: nat)
    ensures ReadBig(m, a, n) < Pow256(n)
  {
    if n > 0 { ReadBound(m, a, n - 1); }
  }

  /** A number is given by its bytes. */
  lemma {:induction false} SameBytes(x: nat, y: nat, n: nat)
    requires x < Pow256(n) && y < Pow256(n) && forall k: nat :: k < n ==> ByteOf(x, k) == ByteOf(y, k)
    ensures x == y
  {
    if n > 0 {
      assert ByteOf(x, 0) == ByteOf(y, 0);
      forall k: nat | k < n - 1 ensures ByteOf(x / 256, k) == ByteOf(y / 256, k) {
        assert ByteOf(x, k + 1) == ByteOf(y, k + 1);
      }
      SameBytes(x / 256, y / 256, n - 1);
    }
  }

  /** What is stored is what is loaded back, at every address and alignment. */
  lemma ReadBack(m: Dmem, a: nat, n: nat, v: nat)
    requires n <= 4096 && v < Pow256(n)
    ensures ReadBig(WriteBig(m, a, n, v), a, n) == v
  {
    var r := ReadBig(WriteBig(m, a, n, v), a, n);
    ReadBound(WriteBig(m, a, n, v), a, n);
    forall k: nat | k < n ensures ByteOf(r, k) == ByteOf(v, k) {
      var j := n - 1 - k;
      DistanceExact(a, a, j, j);
      ReadOverWrite(m, a, n, v, a, n, j);
    }
    SameBytes(r, v, n);
  }

  // ---------------------------------------------------------------- the host accesses

  /** The byte offset of the inline access: the address with the swizzle for its width. */
  function Flipped(a: nat, n: nat): nat { if n == 1 then Bes(a) else if n == 2 then Hes(a) else a }

  /** A little-endian host load of `n` bytes. */
  function ReadLittle(host: Dmem, p: nat, n: nat): nat
    requires p + n <= 4096
    decreases n
  {
    if n == 0 then 0 else 256 * ReadLittle(host, p + 1, n - 1) + host[p]
  }

  function WriteLittle(host: Dmem, p: nat, n: nat, v: nat): Dmem
    requires p + n <= 4096
    decreases n
  {
    if n == 0 then host else WriteLittle(host, p + 1, n - 1, v / 256)[p := v % 256]
  }

  /** `BYTE_ENDIAN_FIXUP` for byte `i` of an access at `a`. */
  function Fixup(a: nat, i: nat): nat { Bes(a + i) % 4096 }

  lemma FixupExact(a: nat, i: nat)
    requires a < 4096 && i < 4
    ensures Fixup(a, i) == Bes(At(a, i)) < 4096
  {
    BesFacts(At(a, i));
    if a + i >= 4096 { AlignedSwizzle(4096, a + i - 4096); }
  }

  /** The unaligned load helpers. */
  function UnalignedRead(host: Dmem, a: nat, n: nat): nat {
    if n == 0 then 0 else 256 * UnalignedRead(host, a, n - 1) + host[Fixup(a, n - 1)]
  }

  /** The unaligned store helpers. */
  function UnalignedWrite(host: Dmem, a: nat, n: nat, v: nat): Dmem {
    if n == 0 then host else UnalignedWrite(host, a, n - 1, v / 256)[Fixup(a, n - 1) := v % 256]
  }

  predicate Width(n: nat) { n == 1 || n == 2 || n == 4 }

  /** A load of `n` bytes at the masked address, by either path. */
  function HostLoad(host: Dmem, a: nat, n: nat): nat
    requires a < 4096 && Width(n)
  {
    if a % n == 0 then FlippedInside(a, n); ReadLittle(host, Flipped(a, n), n) else UnalignedRead(host, a, n)
  }

  function HostStore(host: Dmem, a: nat, n: nat, v: nat): Dmem
    requires a < 4096 && Width(n)
  {
    if a % n == 0 then FlippedInside(a, n); WriteLittle(host, Flipped(a, n), n, v) else UnalignedWrite(host, a, n, v)
  }

  lemma FlippedInside(a: nat, n: nat)
    requires a < 4096 && Width(n) && a % n == 0
    ensures Flipped(a, n) + n <= 4096
  {
    BesFacts(a);
    if n == 2 { HalfOfWord(a); }
  }

  /** Byte `i` of the access, in program order, is host byte n - 1 - i of it. */
  lemma FlippedBytes(a: nat, n: nat, i: nat)
    requires a < 4096 && Width(n) && a % n == 0 && i < n
    ensures At(a, i) == a + i && Bes(a + i) == Flipped(a, n) + (n - 1 - i) < 4096
  {
    FlippedInside(a, n);
    if n == 2 { HalfOfWord(a); } else if n == 4 { AlignedSwizzle(a, i); }
    NoWrap(a, i);
  }

  lemma {:induction false} UnalignedReadExact(host: Dmem, a: nat, n: nat)
    requires a < 4096 && n <= 4
    ensures UnalignedRead(host, a, n) == ReadBig(MemView(host), a, n)
  {
    if n > 0 {
      UnalignedReadExact(host, a, n - 1);
      FixupExact(a, n - 1);
      MemViewAt(host, At(a, n - 1));
    }
  }

  lemma {:induction false} UnalignedWriteExact(host: Dmem, a: nat, n: nat, v: nat)
    requires a < 4096 && n <= 4
    ensures MemView(UnalignedWrite(host, a, n, v)) == WriteBig(MemView(host), a, n, v)
  {
    if n > 0 {
      UnalignedWriteExact(host, a, n - 1, v / 256);
      FixupExact(a, n - 1);
      MemViewUpdate(UnalignedWrite(host, a, n - 1, v / 256), At(a, n - 1), v % 256);
    }
  }

  /** Host bytes that mirror the program's bytes, read the other way round. */
  predicate Mirrors(p: nat, a: nat, n: nat) {
    p + n <= 4096 && forall i: nat :: i < n ==> Bes(At(a, i)) == p + (n - 1 - i)
  }

  lemma {:induction false} ReadMirrored(host: Dmem, p: nat, a: nat, n: nat)
    requires Mirrors(p, a, n)
    ensures ReadLittle(host, p, n) == ReadBig(MemView(host), a, n)
    decreases n
  {
    if n > 0 {
      ReadMirrored(host, p + 1, a, n - 1);
      MemViewAt(host, At(a, n - 1));
    }
  }

  lemma {:induction false} WriteMirrored(host: Dmem, p: nat, a: nat, n: nat, v: nat)
    requires Mirrors(p, a, n)
    ensures MemView(WriteLittle(host, p, n, v)) == WriteBig(MemView(host), a, n, v)
    decreases n
  {
    if n > 0 {
      WriteMirrored(host, p + 1, a, n - 1, v / 256);
      MemViewUpdate(WriteLittle(host, p + 1, n - 1, v / 256), At(a, n - 1), v % 256);
    }
  }

  lemma FlippedMirrors(a: nat, n: nat)
    requires a < 4096 && Width(n) && a % n == 0
    ensures Mirrors(Flipped(a, n), a, n)
  {
    FlippedInside(a, n);
    forall i: nat | i < n ensures Bes(At(a, i)) == Flipped(a, n) + (n - 1 - i) { FlippedBytes(a, n, i); }
  }

  /** Both paths of a load read the big-endian memory. */
  lemma LoadExact(host: Dmem, a: nat, n: nat)
    requires a < 4096 && Width(n)
    ensures HostLoad(host, a, n) == ReadBig(MemView(host), a, n) < Pow256(n)
  {
    ReadBound(MemView(host), a, n);
    if a % n == 0 {
      FlippedMirrors(a, n);
      ReadMirrored(host, Flipped(a, n), a, n);
    } else {
      UnalignedReadExact(host, a, n);
    }
  }

  /** Both paths of a store write the big-endian memory. */
  lemma StoreExact(host: Dmem, a: nat, n: nat, v: nat)
    requires a < 4096 && Width(n)
    ensures MemView(HostStore(host, a, n, v)) == WriteBig(MemView(host), a, n, v)
  {
    if a % n == 0 {
      FlippedMirrors(a, n);
      WriteMirrored(host, Flipped(a, n), a, n, v);
    } else {
      UnalignedWriteExact(host, a, n, v);
    }
  }

  /** A store followed by a load of the same width at the same address, by whichever paths, gives the value back. */
  lemma LoadAfterStore(host: Dmem, a: nat, n: nat, v: nat)
    requires a < 4096 && Width(n) && v < Pow256(n)
    ensures HostLoad(HostStore(host, a, n, v), a, n) == v
  {
    StoreExact(host, a, n, v);
    LoadExact(HostStore(host, a, n, v), a, n);
    ReadBack(MemView(host), a, n, v);
  }

  // ---------------------------------------------------------------- the store helpers as they run

  /** `rsp_unaligned_sh`. */
  method UnalignedStoreHalf(dmem: array<Byte>, a: nat, data: nat)
    requires dmem.Length == 4096 && a < 4096
    modifies dmem
    ensures MemView(dmem[..]) == WriteBig(old(MemView(dmem[..])), a, 2, data)
  {
    ghost var host: Dmem := dmem[..];
    UnalignedWriteExact(host, a, 2, data);
    dmem[Fixup(a, 0)] := data / 256 % 256;
    assert dmem[..] == UnalignedWrite(host, a, 1, data / 256);
    dmem[Fixup(a, 1)] := data % 256;
    assert dmem[..] == UnalignedWrite(host, a, 2, data);
  }

  /** `rsp_unaligned_sw`. */
  method UnalignedStoreWord(dmem: array<Byte>, a: nat, data: nat)
    requires dmem.Length == 4096 && a < 4096
    modifies dmem
    ensures MemView(dmem[..]) == WriteBig(old(MemView(dmem[..])), a, 4, data)
  {
    ghost var host: Dmem := dmem[..];
    UnalignedWriteExact(host, a, 4, data);
    HighBytes(data);
    dmem[Fixup(a, 0)] := data / 0x100_0000 % 256;
    assert dmem[..] == UnalignedWrite(host, a, 1, data / 256 / 256 / 256);
    dmem[Fixup(a, 1)] := data / 0x1_0000 % 256;
    assert dmem[..] == UnalignedWrite(host, a, 2, data / 256 / 256);
    dmem[Fixup(a, 2)] := data / 256 % 256;
    assert dmem[..] == UnalignedWrite(host, a, 3, data / 256);
    dmem[Fixup(a, 3)] := data % 256;
    assert dmem[..] == UnalignedWrite(host, a, 4, data);
  }

  lemma HighBytes(data: nat)
    ensures data / 0x1_0000 == data / 256 / 256 && data / 0x100_0000 == data / 256 / 256 / 256
  {
  }
}
