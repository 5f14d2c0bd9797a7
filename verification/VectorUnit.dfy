/**
  The vector loads and stores as they run on the host (rsp/ls.cpp): DMEM is an
  array of 32-bit host words and a vector register an array of 16-bit host lanes,
  both little-endian, so a byte of the program is found through one of two
  swizzles.  Every instruction, whichever of its branches it takes, is proved to
  do what `VectorMemory` says on bytes in program order.
 */
module VectorUnit {
  import opened Arithmetic
  import opened HostBytes
  import opened VectorMemory

  function FileView(host: File): (f: File)
    ensures forall r :: 0 <= r < 32 ==> f[r] == VecView(host[r])
  {
    seq<Vec>(32, r requires 0 <= r < 32 => VecView(host[r]))
  }

  lemma FileViewUpdate(host: File, r: nat, v: Vec)
    requires r < 32
    ensures FileView(host[r := v]) == FileView(host)[r := VecView(v)]
  {
  }

  // ---------------------------------------------------------------- shuffles

  /** A shuffle of 16-bit lanes, on the bytes of the vector. */
  function ShuffleHalves(v: seq<Byte>, order: seq<nat>): (w: seq<Byte>)
    requires |v| == 2 * |order| && forall k :: 0 <= k < |order| ==> order[k] < |order|
    ensures |w| == |v| && forall p :: 0 <= p < |v| ==> w[p] == v[2 * order[p / 2] + p % 2]
  {
    seq(|v|, p requires 0 <= p < |v| => v[2 * order[p / 2] + p % 2])
  }

  /** The order 1, 0, 3, 2, ... of `n` lanes. */
  function PairOrder(n: nat): (order: seq<nat>)
    requires n % 2 == 0
    ensures |order| == n && forall k :: 0 <= k < n ==> order[k] < n
  {
    if n == 0 then [] else PairOrder(n - 2) + [n - 1, n - 2]
  }

  lemma {:induction false} PairOrderAt(n: nat, k: nat)
    requires n % 2 == 0 && k < n
    ensures PairOrder(n)[k] == Mes(k)
  {
    if k < n - 2 { PairOrderAt(n - 2, k); } else { LaneBytes(n / 2 - 1); }
  }

  /** Swapping lanes in pairs leads from one swizzle to the other. */
  lemma {:induction false} MesToBes(i: nat)
    ensures 2 * Mes(Mes(i) / 2) + Mes(i) % 2 == Bes(i)
  {
    if i >= 4 {
      MesToBes(i - 4);
      assert Mes(i) == 4 + Mes(i - 4);
      NextWord(Mes(i - 4));
    }
  }

  lemma {:induction false} BesToMes(i: nat)
    ensures 2 * Mes(Bes(i) / 2) + Bes(i) % 2 == Mes(i)
  {
    if i >= 4 {
      BesToMes(i - 4);
      assert Mes(i) == 4 + Mes(i - 4);
      NextWord(Bes(i - 4));
    }
  }

  /** Swapping lanes in pairs carries one swizzle over to the other. */
  lemma SwappedByte(n: nat, i: nat)
    requires n % 2 == 0 && i < 2 * n
    ensures Mes(i) < 2 * n && Bes(i) < 2 * n
    ensures 2 * PairOrder(n)[Mes(i) / 2] + Mes(i) % 2 == Bes(i)
    ensures 2 * PairOrder(n)[Bes(i) / 2] + Bes(i) % 2 == Mes(i)
  {
    MesBelow(i, 2 * n);
    BesBelow(i, 2 * n);
    PairOrderAt(n, Mes(i) / 2);
    PairOrderAt(n, Bes(i) / 2);
    MesToBes(i);
    BesToMes(i);
  }

  /** The sequence with a piece written over it. */
  function Over(s: seq<Byte>, at: nat, piece: seq<Byte>): (t: seq<Byte>)
    requires at + |piece| <= |s|
    ensures |t| == |s|
    ensures forall p :: 0 <= p < |s| ==> t[p] == if at <= p < at + |piece| then piece[p - at] else s[p]
  {
    s[..at] + piece + s[at + |piece|..]
  }

  /** An access of `n` lanes that takes a SIMD branch. */
  predicate FastAccess(n: nat, e: nat, a: nat) {
    n % 2 == 0 && e % 4 == 0 && e + 2 * n <= 16 && a % 4 == 0 && a + 2 * n <= 4096
  }

  /** The register a fast load leaves. */
  function FastLoaded(host: Dmem, reg: Vec, e: nat, a: nat, n: nat): Vec
    requires FastAccess(n, e, a)
  {
    Over(reg, e, ShuffleHalves(host[a..a + 2 * n], PairOrder(n)))
  }

  /** The DMEM a fast store leaves. */
  function FastStored(host: Dmem, reg: Vec, e: nat, a: nat, n: nat): Dmem
    requires FastAccess(n, e, a)
  {
    Over(host, a, ShuffleHalves(reg[e..e + 2 * n], PairOrder(n)))
  }

  lemma ShuffledAt(v: seq<Byte>, order: seq<nat>, p: nat, x: nat)
    requires |v| == 2 * |order| && forall k :: 0 <= k < |order| ==> order[k] < |order|
    requires p < |v| && x == 2 * order[p / 2] + p % 2
    ensures x < |v| && ShuffleHalves(v, order)[p] == v[x]
  {
  }

  lemma LoadedAt(host: Dmem, reg: Vec, e: nat, a: nat, n: nat, p: nat, x: nat)
    requires FastAccess(n, e, a) && p < 2 * n && x == 2 * PairOrder(n)[p / 2] + p % 2
    ensures x < 2 * n && FastLoaded(host, reg, e, a, n)[e + p] == host[a + x]
  {
    ShuffledAt(host[a..a + 2 * n], PairOrder(n), p, x);
  }

  lemma StoredAt(host: Dmem, reg: Vec, e: nat, a: nat, n: nat, p: nat, x: nat)
    requires FastAccess(n, e, a) && p < 2 * n && x == 2 * PairOrder(n)[p / 2] + p % 2
    ensures x < 2 * n && FastStored(host, reg, e, a, n)[a + p] == reg[e + x]
  {
    ShuffledAt(reg[e..e + 2 * n], PairOrder(n), p, x);
  }

  lemma LoadMoves(host: Dmem, reg: Vec, e: nat, a: nat, n: nat, j: nat)
    requires FastAccess(n, e, a) && j < 2 * n
    ensures Mes(j) < 2 * n && Bes(j) < 2 * n && FastLoaded(host, reg, e, a, n)[e + Mes(j)] == host[a + Bes(j)]
  {
    SwappedByte(n, j);
    LoadedAt(host, reg, e, a, n, Mes(j), Bes(j));
  }

  lemma FastLoadInside(host: Dmem, reg: Vec, e: nat, a: nat, n: nat, j: nat)
    requires FastAccess(n, e, a) && j < 2 * n
    ensures VecView(FastLoaded(host, reg, e, a, n))[e + j] == MemView(host)[a + j]
  {
    LoadMoves(host, reg, e, a, n, j);
    VecViewAt(FastLoaded(host, reg, e, a, n), e + j);
    MemViewAt(host, a + j);
    AlignedSwizzle(e, j);
    AlignedSwizzle(a, j);
  }

  lemma FastLoadOutside(host: Dmem, reg: Vec, e: nat, a: nat, n: nat, i: nat)
    requires FastAccess(n, e, a) && i < 16 && (i < e || i >= e + 2 * n)
    ensures VecView(FastLoaded(host, reg, e, a, n))[i] == VecView(reg)[i]
  {
    MesBelow(i, e);
    MesBelow(i, e + 2 * n);
    VecViewAt(FastLoaded(host, reg, e, a, n), i);
    VecViewAt(reg, i);
  }

  /** The SIMD branch of LLV, LDV and LQV does what the byte loop does. */
  lemma FastLoadExact(host: Dmem, reg: Vec, e: nat, a: nat, n: nat)
    requires FastAccess(n, e, a)
    ensures VecView(FastLoaded(host, reg, e, a, n)) == LoadBytes(MemView(host), VecView(reg), e, 2 * n, a)
  {
    var fast, slow := VecView(FastLoaded(host, reg, e, a, n)), LoadBytes(MemView(host), VecView(reg), e, 2 * n, a);
    forall i | 0 <= i < 16 ensures fast[i] == slow[i] {
      FastLoadByte(host, reg, e, a, n, i);
    }
  }

  lemma FastLoadByte(host: Dmem, reg: Vec, e: nat, a: nat, n: nat, i: nat)
    requires FastAccess(n, e, a) && i < 16
    ensures VecView(FastLoaded(host, reg, e, a, n))[i] == LoadBytes(MemView(host), VecView(reg), e, 2 * n, a)[i]
  {
    LoadBytesAt(MemView(host), VecView(reg), e, 2 * n, a, i);
    if e <= i < e + 2 * n {
      FastLoadInside(host, reg, e, a, n, i - e);
      NoWrap(a, i - e);
    } else {
      FastLoadOutside(host, reg, e, a, n, i);
    }
  }

  lemma StoreMoves(host: Dmem, reg: Vec, e: nat, a: nat, n: nat, j: nat)
    requires FastAccess(n, e, a) && j < 2 * n
    ensures Mes(j) < 2 * n && Bes(j) < 2 * n && FastStored(host, reg, e, a, n)[a + Bes(j)] == reg[e + Mes(j)]
  {
    SwappedByte(n, j);
    StoredAt(host, reg, e, a, n, Bes(j), Mes(j));
  }

  lemma FastStoreInside(host: Dmem, reg: Vec, e: nat, a: nat, n: nat, j: nat)
    requires FastAccess(n, e, a) && j < 2 * n
    ensures MemView(FastStored(host, reg, e, a, n))[a + j] == VecView(reg)[e + j]
  {
    StoreMoves(host, reg, e, a, n, j);
    MemViewAt(FastStored(host, reg, e, a, n), a + j);
    VecViewAt(reg, e + j);
    AlignedSwizzle(e, j);
    AlignedSwizzle(a, j);
  }

  lemma FastStoreOutside(host: Dmem, reg: Vec, e: nat, a: nat, n: nat, x: nat)
    requires FastAccess(n, e, a) && x < 4096 && (x < a || x >= a + 2 * n)
    ensures MemView(FastStored(host, reg, e, a, n))[x] == MemView(host)[x]
  {
    BesBelow(x, a);
    BesBelow(x, a + 2 * n);
    MemViewAt(FastStored(host, reg, e, a, n), x);
    MemViewAt(host, x);
  }

  /** The SIMD branch of SDV and SQV does what the byte loop does. */
  lemma FastStoreExact(host: Dmem, reg: Vec, e: nat, a: nat, n: nat)
    requires FastAccess(n, e, a)
    ensures MemView(FastStored(host, reg, e, a, n)) == StoreBytes(MemView(host), VecView(reg), a, e, 2 * n)
  {
    var fast, slow := MemView(FastStored(host, reg, e, a, n)), StoreBytes(MemView(host), VecView(reg), a, e, 2 * n);
    forall x | 0 <= x < 4096 ensures fast[x] == slow[x] {
      StoredByte(MemView(host), VecView(reg), a, e, 2 * n, x);
      if a <= x < a + 2 * n {
        FastStoreInside(host, reg, e, a, n, x - a);
      } else {
        FastStoreOutside(host, reg, e, a, n, x);
      }
    }
  }

  /** A store that stays inside DMEM and inside the register. */
  lemma StoredByte(m: Dmem, v: Vec, a: nat, e: nat, n: nat, x: nat)
    requires x < 4096 && a + n <= 4096 && e + n <= 16
    ensures StoreBytes(m, v, a, e, n)[x] == if a <= x < a + n then v[e + (x - a)] else m[x]
  {
    if a <= x < a + n {
      NoWrap(a, x - a);
      StoreBytesAt(m, v, a, e, n, x - a);
    } else {
      forall i: nat | i < n ensures At(a, i) != x { NoWrap(a, i); }
      StoreBytesElsewhere(m, v, a, e, n, x);
    }
  }

  // ---------------------------------------------------------------- the unit

  class Unit {
    /** DMEM and the vector registers, as the host lays them out. */
    const dmem: array<Byte>
    const regs: array<Vec>

    ghost predicate Valid()
      reads this
    {
      dmem.Length == 4096 && regs.Length == 32
    }

    ghost function Mem(): Dmem
      reads this, dmem
      requires Valid()
    {
      MemView(dmem[..])
    }

    ghost function Regs(): File
      reads this, regs
      requires Valid()
    {
      FileView(regs[..])
    }

    method ReadMemU8(a: nat) returns (b: Byte)
      requires Valid() && a < 4096
      ensures b == Mem()[a]
    {
      MemViewAt(dmem[..], a);
      b := dmem[Bes(a)];
    }

    method WriteMemU8(a: nat, b: Byte)
      requires Valid() && a < 4096
      modifies dmem
      ensures Mem() == old(Mem())[a := b]
    {
      MemViewUpdate(dmem[..], a, b);
      dmem[Bes(a)] := b;
    }

    method ReadVecU8(r: nat, i: nat) returns (b: Byte)
      requires Valid() && r < 32 && i < 16
      ensures b == Regs()[r][i]
    {
      VecViewAt(regs[r], i);
      b := regs[r][Mes(i)];
    }

    method WriteVecU8(r: nat, i: nat, b: Byte)
      requires Valid() && r < 32 && i < 16
      modifies regs
      ensures Regs() == old(Regs())[r := old(Regs())[r][i := b]]
    {
      VecViewUpdate(regs[r], i, b);
      SetRegister(r, regs[r][Mes(i) := b]);
    }

    method SetRegister(r: nat, v: Vec)
      requires Valid() && r < 32
      modifies regs
      ensures Regs() == old(Regs())[r := VecView(v)]
    {
      FileViewUpdate(regs[..], r, v);
      regs[r] := v;
    }

    /** The byte loop of the loads: register bytes `first` up to `last` from `addr` on. */
    method LoadLoop(rt: nat, first: nat, last: nat, addr: nat)
      requires Valid() && rt < 32 && first <= last <= 16
      modifies regs
      ensures Regs() == old(Regs())[rt := LoadBytes(Mem(), old(Regs())[rt], first, last - first, addr)]
    {
      var i := first;
      while i < last
        invariant first <= i <= last
        invariant Regs() == old(Regs())[rt := LoadBytes(Mem(), old(Regs())[rt], first, i - first, addr)]
      {
        var b := ReadMemU8(At(addr, i - first));
        WriteVecU8(rt, i, b);
        i := i + 1;
      }
    }

    /** The byte loop of the stores: `n` bytes of the register from `e` on. */
    method StoreLoop(rt: nat, e: nat, n: nat, addr: nat)
      requires Valid() && rt < 32
      modifies dmem
      ensures Mem() == StoreBytes(old(Mem()), Regs()[rt], addr, e, n)
    {
      var i := 0;
      while i < n
        invariant 0 <= i <= n
        invariant Mem() == StoreBytes(old(Mem()), Regs()[rt], addr, e, i)
      {
        var b := ReadVecU8(rt, (e + i) % 16);
        WriteMemU8(At(addr, i), b);
        i := i + 1;
      }
    }

    /** A SIMD load of host lanes, shuffled. */
    method LoadLanes(rt: nat, e: nat, addr: nat, order: seq<nat>)
      requires Valid() && rt < 32 && FastAccess(|order|, e, addr) && order == PairOrder(|order|)
      modifies regs
      ensures Regs() == old(Regs())[rt := LoadBytes(Mem(), old(Regs())[rt], e, 2 * |order|, addr)]
    {
      FastLoadExact(dmem[..], regs[rt], e, addr, |order|);
      SetRegister(rt, Over(regs[rt], e, ShuffleHalves(dmem[..][addr..addr + 2 * |order|], order)));
    }

    /** A SIMD store of host lanes, shuffled. */
    method StoreLanes(rt: nat, e: nat, addr: nat, order: seq<nat>)
      requires Valid() && rt < 32 && FastAccess(|order|, e, addr) && order == PairOrder(|order|)
      modifies dmem
      ensures Mem() == StoreBytes(old(Mem()), Regs()[rt], addr, e, 2 * |order|)
    {
      FastStoreExact(dmem[..], regs[rt], e, addr, |order|);
      var v := ShuffleHalves(regs[rt][e..e + 2 * |order|], order);
      ghost var expected := Over(dmem[..], addr, v);
      forall p | 0 <= p < |v| { dmem[addr + p] := v[p]; }
      assert dmem[..] == expected;
    }

    method Llv(rt: nat, e: Element, a: nat)
      requires Valid() && rt < 32
      modifies regs
      ensures Regs() == old(Regs())[rt := LoadShort(Mem(), old(Regs())[rt], e, 4, a)]
    {
      var addr := a % 4096;
      var end := if e > 12 then 16 else e + 4;
      LoadMasked(Mem(), Regs()[rt], e, end - e, a);
      if e % 4 == 0 && addr % 4 == 0 {
        assert [1, 0] == PairOrder(2);
        LoadLanes(rt, e, addr, [1, 0]);
      } else {
        LoadLoop(rt, e, end, addr);
      }
    }

    method Ldv(rt: nat, e: Element, a: nat)
      requires Valid() && rt < 32
      modifies regs
      ensures Regs() == old(Regs())[rt := LoadShort(Mem(), old(Regs())[rt], e, 8, a)]
    {
      var end := if e > 8 then 16 else e + 8;
      if (e == 0 || e == 8) && a % 8 == 0 {
        LoadMasked(Mem(), Regs()[rt], e, end - e, a);
        AlignedAccess(a, 8);
        var order := [1, 0, 3, 2];
        assert order == PairOrder(4);
        LoadLanes(rt, e, a % 4096, order);
      } else {
        LoadLoop(rt, e, end, a);
      }
    }

    method LoadQuad(rt: nat, e: Element, a: nat)
      requires Valid() && rt < 32
      modifies regs
      ensures Regs() == old(Regs())[rt := Lqv(Mem(), old(Regs())[rt], e, a)]
    {
      if a % 16 == 0 {
        LoadLine(rt, e, a);
      } else {
        var end := 16 + e - a % 16;
        LoadLoop(rt, e, if end > 16 then 16 else end, a);
      }
    }

    /** The aligned branch of LQV. */
    method LoadLine(rt: nat, e: Element, a: nat)
      requires Valid() && rt < 32 && a % 16 == 0
      modifies regs
      ensures Regs() == old(Regs())[rt := LoadBytes(Mem(), old(Regs())[rt], e, 16 - e, a)]
    {
      LoadMasked(Mem(), Regs()[rt], e, 16 - e, a);
      if e == 0 {
        AlignedAccess(a, 16);
        var order := [1, 0, 3, 2, 5, 4, 7, 6];
        assert order == PairOrder(8);
        LoadLanes(rt, e, a % 4096, order);
      } else {
        LoadLoop(rt, e, 16, a % 4096);
      }
    }

    method LoadRest(rt: nat, e: Element, a: nat)
      requires Valid() && rt < 32
      modifies regs
      ensures Regs() == old(Regs())[rt := Lrv(Mem(), old(Regs())[rt], e, a)]
    {
      var start := 16 - a % 16 + e;
      if start < 16 { LoadLoop(rt, start, 16, a - a % 16); }
    }

    method StoreQuad(rt: nat, e: Element, a: nat)
      requires Valid() && rt < 32
      modifies dmem
      ensures Mem() == Sqv(old(Mem()), Regs()[rt], e, a)
    {
      var addr := a % 4096;
      LineOffset(a);
      StoreMasked(Mem(), Regs()[rt], a, e, 16 - a % 16);
      if addr % 16 == 0 {
        StoreLine(rt, e, addr);
      } else {
        StoreLoop(rt, e, 16 - addr % 16, addr);
      }
    }

    /** The aligned branch of SQV. */
    method StoreLine(rt: nat, e: Element, addr: nat)
      requires Valid() && rt < 32 && addr < 4096 && addr % 16 == 0
      modifies dmem
      ensures Mem() == StoreBytes(old(Mem()), Regs()[rt], addr, e, 16)
    {
      if e == 0 {
        LastLine(addr);
        var order := [1, 0, 3, 2, 5, 4, 7, 6];
        assert order == PairOrder(8);
        StoreLanes(rt, e, addr, order);
      } else {
        StoreLoop(rt, e, 16, addr);
      }
    }

    method StoreRest(rt: nat, e: Element, a: nat)
      requires Valid() && rt < 32
      modifies dmem
      ensures Mem() == Srv(old(Mem()), Regs()[rt], e, a)
    {
      var addr := a % 4096;
      LineOffset(a);
      StoreMasked(Mem(), Regs()[rt], a - a % 16, e + 16 - a % 16, a % 16);
      if addr % 16 != 0 {
        StoreLoop(rt, e + 16 - addr % 16, addr % 16, addr - addr % 16);
      }
    }

    /** A 16-bit store to an even address, of a register lane. */
    method WriteMemU16(a: nat, rt: nat, lane: nat)
      requires Valid() && a + 1 < 4096 && a % 2 == 0 && rt < 32 && lane < 8
      modifies dmem
      ensures Mem() == old(Mem())[a := Regs()[rt][2 * lane]][a + 1 := Regs()[rt][2 * lane + 1]]
    {
      HalfOfWord(a);
      BesFacts(a);
      BesFacts(a + 1);
      LaneBytes(lane);
      var p := Hes(a) / 2;
      var low: Byte, high: Byte := regs[rt][2 * lane], regs[rt][2 * lane + 1];
      ghost var host: Dmem := dmem[..];
      ghost var half: Dmem := host[Bes(a + 1) := low];
      MemViewUpdate(host, a + 1, low);
      MemViewUpdate(half, a, high);
      VecViewAt(regs[rt], 2 * lane);
      VecViewAt(regs[rt], 2 * lane + 1);
      dmem[2 * p] := low;
      dmem[2 * p + 1] := high;
      assert dmem[..] == half[Bes(a) := high];
    }

    method StoreDouble(rt: nat, e: Element, a: nat)
      requires Valid() && rt < 32
      modifies dmem
      ensures Mem() == Sdv(old(Mem()), Regs()[rt], e, a)
    {
      var addr := a % 4096;
      StoreMasked(Mem(), Regs()[rt], a, e, 8);
      if e > 8 || e % 2 == 1 || addr % 2 == 1 {
        StoreLoop(rt, e, 8, addr);
      } else if (e == 0 || e == 8) && addr % 8 == 0 {
        assert [1, 0, 3, 2] == PairOrder(4);
        StoreLanes(rt, e, addr, [1, 0, 3, 2]);
      } else {
        StoreHalves(rt, e, addr, 4);
      }
    }

    /** The halfword branch of SDV. */
    method StoreHalves(rt: nat, e: Element, addr: nat, n: nat)
      requires Valid() && rt < 32 && e / 2 + n <= 8 && e % 2 == 0 && addr % 2 == 0
      modifies dmem
      ensures Mem() == StoreBytes(old(Mem()), Regs()[rt], addr, e, 2 * n)
    {
      var i := 0;
      while i < n
        invariant 0 <= i <= n && Mem() == StoreBytes(old(Mem()), Regs()[rt], addr, e, 2 * i)
      {
        StoreHalf(rt, e, addr, i, old(Mem()));
        i := i + 1;
      }
    }

    method StoreHalf(rt: nat, e: Element, addr: nat, i: nat, ghost was: Dmem)
      requires Valid() && rt < 32 && e % 2 == 0 && e / 2 + i < 8 && addr % 2 == 0
      requires Mem() == StoreBytes(was, Regs()[rt], addr, e, 2 * i)
      modifies dmem
      ensures Mem() == StoreBytes(was, Regs()[rt], addr, e, 2 * i + 2)
    {
      EvenAddress(addr, i);
      TwoBytes(was, Regs()[rt], addr, e, i);
      WriteMemU16((addr + 2 * i) % 4096, rt, e / 2 + i);
    }

    /** A lane set to a byte shifted left by eight. */
    method SetLane(rt: nat, lane: nat, b: Byte)
      requires Valid() && rt < 32 && lane < 8
      modifies regs
      ensures Regs() == old(Regs())[rt := old(Regs())[rt][2 * lane := b][2 * lane + 1 := 0]]
    {
      LaneView(regs[rt], lane, b);
      SetRegister(rt, WithLane(regs[rt], lane, b));
    }

    method LoadPacked(rt: nat, e: Element, a: nat)
      requires Valid() && rt < 32
      modifies regs
      ensures Regs() == old(Regs())[rt := Lpv(Mem(), old(Regs())[rt], e, a % 4096, 8)]
    {
      var addr := a % 4096;
      if e == 0 && addr % 8 == 0 {
        PackedExact(dmem[..], regs[rt], addr);
        var order := [3, 2, 1, 0, 7, 6, 5, 4];
        assert order == WordOrder();
        SetRegister(rt, Unpacked(dmem[..][addr..addr + 8], order));
      } else {
        PackedLoop(rt, e, addr, 8);
      }
    }

    method PackedLoop(rt: nat, e: Element, addr: nat, n: nat)
      requires Valid() && rt < 32 && n <= 8
      modifies regs
      ensures Regs() == old(Regs())[rt := Lpv(Mem(), old(Regs())[rt], e, addr, n)]
    {
      var index := addr % 8 + 16 - e;
      var i := 0;
      while i < n
        invariant 0 <= i <= n && Regs() == old(Regs())[rt := Lpv(Mem(), old(Regs())[rt], e, addr, i)]
      {
        var b := ReadMemU8((addr / 8 * 8 + (i + index) % 16) % 4096);
        SetLane(rt, i, b);
        i := i + 1;
      }
    }

    /** One of the two byte stores in each round of STV. */
    method StvStore(rt: nat, e: Element, a: nat, k: nat, ghost was: Dmem)
      requires Valid() && rt < 32 && k < 16 && a % 4096 < 4088 && Mem() == Stv(was, Regs(), rt, e, a, k)
      modifies dmem
      ensures Mem() == Stv(was, Regs(), rt, e, a, k + 1)
    {
      var b := ReadVecU8(Group(rt) + k / 2, StvByte(e, k));
      WriteMemU8(Window(a) + StvPlace(e, a, k), b);
    }

    method StoreTransposed(rt: nat, e: Element, a: nat)
      requires Valid() && rt < 32 && a % 4096 < 4088
      modifies dmem
      ensures Mem() == Stv(old(Mem()), Regs(), rt, e, a, 16)
    {
      var i, n := 0, 8;
      while i < n
        invariant 0 <= i <= n && Mem() == Stv(old(Mem()), Regs(), rt, e, a, 2 * i)
      {
        StvStore(rt, e, a, 2 * i, old(Mem()));
        StvStore(rt, e, a, 2 * i + 1, old(Mem()));
        i := i + 1;
      }
    }

    /** One of the two byte loads in each round of LTV, with the running address and its wrap at the end of the window. */
    method LtvLoad(rt: nat, e: Element, a: nat, j: nat, addr: nat, k: nat, ghost was: File) returns (next: nat)
      requires Valid() && rt < 32 && k < 16 && j == LtvRegister(e, k) && addr == LtvAddress(e, a, k)
      requires Regs() == Ltv(Mem(), was, rt, e, a, k)
      modifies regs
      ensures Regs() == Ltv(Mem(), was, rt, e, a, k + 1) && next == LtvAddress(e, a, k + 1)
    {
      var b := ReadMemU8(addr % 4096);
      WriteVecU8(Group(rt) + j, k, b);
      LtvNext(e, a, k);
      next := if addr + 1 == a / 8 * 8 + 16 then a / 8 * 8 else addr + 1;
    }

    method LtvRound(rt: nat, e: Element, a: nat, j: nat, addr: nat, i: nat, ghost was: File) returns (next: nat)
      requires Valid() && rt < 32 && i + 1 < 16 && i % 2 == 0 && j == LtvRegister(e, i) && addr == LtvAddress(e, a, i)
      requires Regs() == Ltv(Mem(), was, rt, e, a, i)
      modifies regs
      ensures Regs() == Ltv(Mem(), was, rt, e, a, i + 2) && next == LtvAddress(e, a, i + 2)
    {
      RoundRegister(e, i, j);
      next := LtvLoad(rt, e, a, j, addr, i, was);
      next := LtvLoad(rt, e, a, j, next, i + 1, was);
    }

    method LoadTransposed(rt: nat, e: Element, a: nat)
      requires Valid() && rt < 32
      modifies regs
      ensures Regs() == Ltv(Mem(), old(Regs()), rt, e, a, 16)
    {
      var start := a / 8 * 8;
      var addr := start + (e + a / 8 % 2 * 8) % 16;
      var j := e / 2;
      var i, n := 0, 16;
      while i < n
        invariant 0 <= i <= n && i % 2 == 0 && j % 8 == LtvRegister(e, i)
        invariant Regs() == Ltv(Mem(), old(Regs()), rt, e, a, i) && addr == LtvAddress(e, a, i)
      {
        j := j % 8;
        addr := LtvRound(rt, e, a, j, addr, i, old(Regs()));
        RoundRegister(e, i, j);
        i, j := i + 2, j + 1;
      }
    }
  }

  /** The register of both bytes of a round of LTV, and of the next round. */
  lemma RoundRegister(e: Element, i: nat, j: nat)
    requires i % 2 == 0 && j == LtvRegister(e, i)
    ensures LtvRegister(e, i + 1) == j && LtvRegister(e, i + 2) == (j + 1) % 8
  {
    var x := e / 2 + i / 2;
    assert (i + 1) / 2 == i / 2 && (i + 2) / 2 == i / 2 + 1;
    DivMod(x, 8);
    ModShift(j + 1, 8, x / 8);
  }

  /** The running address of LTV after byte `k`. */
  lemma LtvNext(e: Element, a: nat, k: nat)
    ensures var addr := LtvAddress(e, a, k);
            LtvAddress(e, a, k + 1) == if addr + 1 == a / 8 * 8 + 16 then a / 8 * 8 else addr + 1
  {
    NextInWindow(e + a / 8 % 2 * 8 + k);
  }

  lemma NextInWindow(x: nat)
    ensures (x + 1) % 16 == if x % 16 == 15 then 0 else x % 16 + 1
  {
    DivMod(x, 16);
    if x % 16 == 15 { ModUnique(x + 1, 16, x / 16 + 1, 0); } else { ModUnique(x + 1, 16, x / 16, x % 16 + 1); }
  }

  function WithLane(host: Vec, lane: nat, b: Byte): Vec
    requires lane < 8
  {
    host[2 * lane := 0][2 * lane + 1 := b]
  }

  lemma {:induction false} LaneBytes(lane: nat)
    ensures Mes(2 * lane) == 2 * lane + 1 && Mes(2 * lane + 1) == 2 * lane
  {
    if lane > 0 { LaneBytes(lane - 1); }
  }

  lemma LaneView(host: Vec, lane: nat, b: Byte)
    requires lane < 8
    ensures VecView(WithLane(host, lane, b)) == VecView(host)[2 * lane := b][2 * lane + 1 := 0]
  {
    var half: Vec := host[2 * lane := 0];
    VecViewUpdate(host, 2 * lane + 1, 0);
    VecViewUpdate(half, 2 * lane, b);
    LaneBytes(lane);
    assert VecView(host)[2 * lane + 1 := 0][2 * lane := b] == VecView(host)[2 * lane := b][2 * lane + 1 := 0];
  }

  /** Eight bytes converted to lanes, shuffled and shifted left by eight. */
  function Unpacked(v: seq<Byte>, order: seq<nat>): (w: Vec)
    requires |v| == |order| == 8 && forall k :: 0 <= k < 8 ==> order[k] < 8
    ensures forall p :: 0 <= p < 16 ==> w[p] == if p % 2 == 0 then 0 else v[order[p / 2]]
  {
    seq(16, p requires 0 <= p < 16 => if p % 2 == 0 then 0 else v[order[p / 2]])
  }

  function WordOrder(): (order: seq<nat>)
    ensures |order| == 8 && forall k :: 0 <= k < 8 ==> order[k] < 8
  {
    [3, 2, 1, 0, 7, 6, 5, 4]
  }

  lemma WordOrderAt(k: nat)
    requires k < 8
    ensures WordOrder()[k] == Bes(k)
  {
  }

  lemma UnpackedAt(v: seq<Byte>, order: seq<nat>, lane: nat, h: nat)
    requires |v| == |order| == 8 && lane < 8 && h < 2 && forall k :: 0 <= k < 8 ==> order[k] < 8
    ensures VecView(Unpacked(v, order))[2 * lane + h] == if h == 0 then v[order[lane]] else 0
  {
    VecViewAt(Unpacked(v, order), 2 * lane + h);
    LaneBytes(lane);
  }

  /** The SIMD branch of LPV does what the lane loop does. */
  lemma PackedExact(host: Dmem, reg: Vec, addr: nat)
    requires addr % 8 == 0 && addr + 8 <= 4096
    ensures VecView(Unpacked(host[addr..addr + 8], WordOrder())) == Lpv(MemView(host), VecView(reg), 0, addr, 8)
  {
    var fast, slow := VecView(Unpacked(host[addr..addr + 8], WordOrder())), Lpv(MemView(host), VecView(reg), 0, addr, 8);
    forall i | 0 <= i < 16 ensures fast[i] == slow[i] {
      PackedLane(host, addr, i / 2, i % 2);
      LpvAt(MemView(host), VecView(reg), 0, addr, 8, i);
    }
  }

  lemma PackedLane(host: Dmem, addr: nat, lane: nat, h: nat)
    requires addr % 8 == 0 && addr + 8 <= 4096 && lane < 8 && h < 2
    ensures VecView(Unpacked(host[addr..addr + 8], WordOrder()))[2 * lane + h]
            == if h == 0 then LpvByte(MemView(host), 0, addr, lane) else 0
  {
    UnpackedAt(host[addr..addr + 8], WordOrder(), lane, h);
    PackedSource(host, addr, lane);
    PackedByte(MemView(host), addr, lane);
  }

  lemma PackedSource(host: Dmem, addr: nat, lane: nat)
    requires addr % 4 == 0 && addr + 8 <= 4096 && lane < 8
    ensures host[addr..addr + 8][WordOrder()[lane]] == MemView(host)[addr + lane]
  {
    MemViewAt(host, addr + lane);
    WordOrderAt(lane);
    AlignedSwizzle(addr, lane);
  }

  lemma PackedByte(m: Dmem, addr: nat, lane: nat)
    requires addr % 8 == 0 && addr + 8 <= 4096 && lane < 8
    ensures LpvByte(m, 0, addr, lane) == m[addr + lane]
  {
    Wrap16(lane);
    assert addr / 8 * 8 == addr;
  }

  lemma AlignedAccess(a: nat, n: nat)
    requires (n == 8 || n == 16) && a % n == 0
    ensures a % 4096 % 4 == 0 && a % 4096 + n <= 4096
  {
    if n == 8 {
      MultipleBelow(a, a / 4096, a % 4096, 8, 512);
    } else {
      MultipleBelow(a, a / 4096, a % 4096, 16, 256);
    }
  }

  lemma MultipleBelow(a: nat, q: nat, r: nat, n: nat, k: nat)
    requires ((n == 8 && k == 512) || (n == 16 && k == 256)) && a == q * 4096 + r && r < 4096 && a % n == 0
    ensures r % 4 == 0 && r + n <= 4096
  {
    ModShift(r, n, q * k);
    assert r % n == 0;
  }

  lemma LineOffset(a: nat)
    ensures a % 4096 % 16 == a % 16 && (a - a % 16) % 4096 == a % 4096 - a % 16
  {
  }

  lemma EvenAddress(addr: nat, i: nat)
    requires addr % 2 == 0
    ensures At(addr, 2 * i) % 2 == 0 && At(addr, 2 * i) + 1 < 4096 && At(addr, 2 * i + 1) == At(addr, 2 * i) + 1
  {
  }

  lemma TwoBytes(m: Dmem, v: Vec, addr: nat, e: Element, i: nat)
    requires e % 2 == 0 && e / 2 + i < 8
    ensures StoreBytes(m, v, addr, e, 2 * i + 2)
            == StoreBytes(m, v, addr, e, 2 * i)[At(addr, 2 * i) := v[2 * (e / 2 + i)]][At(addr, 2 * i + 1) := v[2 * (e / 2 + i) + 1]]
  {
    assert (e + 2 * i) % 16 == 2 * (e / 2 + i) && (e + 2 * i + 1) % 16 == 2 * (e / 2 + i) + 1;
    assert StoreBytes(m, v, addr, e, 2 * i + 1) == StoreBytes(m, v, addr, e, 2 * i)[At(addr, 2 * i) := v[2 * (e / 2 + i)]];
  }
}
