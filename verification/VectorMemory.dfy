/**
  What the vector loads and stores do (rsp/ls.cpp), on bytes in program order:
  DMEM as the 4096 bytes the RSP program addresses, a vector register as the 16
  bytes an element number selects.
 */
module VectorMemory {
  import opened Arithmetic
  import opened HostBytes

  const ZERO: Vec := [0, 0, 0, 0, 0, 0, 0, 0, 0, 0, 0, 0, 0, 0, 0, 0]

  /** The 32 vector registers. */
  type File = s: seq<Vec> | |s| == 32 witness seq<Vec>(32, _ => ZERO)

  type Element = e: nat | e < 16

  // ---------------------------------------------------------------- runs of bytes

  /** `n` bytes from address `a` on, wrapping at the end of DMEM, into the register from byte `first` on. */
  function LoadBytes(m: Dmem, v: Vec, first: nat, n: nat, a: nat): Vec
    requires first + n <= 16
  {
    if n == 0 then v else LoadBytes(m, v, first, n - 1, a)[first + n - 1 := m[At(a, n - 1)]]
  }

  /** `n` bytes of the register from byte `e` on, wrapping at its end, to address `a` on. */
  function StoreBytes(m: Dmem, v: Vec, a: nat, e: nat, n: nat): Dmem {
    if n == 0 then m else StoreBytes(m, v, a, e, n - 1)[At(a, n - 1) := v[(e + n - 1) % 16]]
  }

  lemma {:induction false} LoadBytesAt(m: Dmem, v: Vec, first: nat, n: nat, a: nat, i: nat)
    requires first + n <= 16 && i < 16
    ensures LoadBytes(m, v, first, n, a)[i] == if first <= i < first + n then m[At(a, i - first)] else v[i]
  {
    if n > 0 { LoadBytesAt(m, v, first, n - 1, a, i); }
  }

  lemma {:induction false} StoreBytesAt(m: Dmem, v: Vec, a: nat, e: nat, n: nat, i: nat)
    requires i < n <= 4096
    ensures StoreBytes(m, v, a, e, n)[At(a, i)] == v[(e + i) % 16]
  {
    if i < n - 1 {
      StoreBytesAt(m, v, a, e, n - 1, i);
      Apart(a, i, n - 1);
    }
  }

  lemma {:induction false} StoreBytesElsewhere(m: Dmem, v: Vec, a: nat, e: nat, n: nat, x: nat)
    requires x < 4096 && forall i: nat :: i < n ==> At(a, i) != x
    ensures StoreBytes(m, v, a, e, n)[x] == m[x]
  {
    if n > 0 { StoreBytesElsewhere(m, v, a, e, n - 1, x); }
  }

  /** Masking the address first changes nothing. */
  lemma {:induction false} LoadMasked(m: Dmem, v: Vec, first: nat, n: nat, a: nat)
    requires first + n <= 16
    ensures LoadBytes(m, v, first, n, a % 4096) == LoadBytes(m, v, first, n, a)
  {
    if n > 0 {
      LoadMasked(m, v, first, n - 1, a);
      AtMasked(a, n - 1);
    }
  }

  lemma {:induction false} StoreMasked(m: Dmem, v: Vec, a: nat, e: nat, n: nat)
    ensures StoreBytes(m, v, a % 4096, e, n) == StoreBytes(m, v, a, e, n)
  {
    if n > 0 {
      StoreMasked(m, v, a, e, n - 1);
      AtMasked(a, n - 1);
    }
  }

  // ---------------------------------------------------------------- the instructions

  /** SDV: eight bytes, wherever they lie. */
  function Sdv(m: Dmem, v: Vec, e: Element, a: nat): Dmem { StoreBytes(m, v, a, e, 8) }

  /** LLV, LDV: up to `n` bytes, stopping at the end of the register. */
  function LoadShort(m: Dmem, v: Vec, e: Element, n: nat, a: nat): Vec { LoadBytes(m, v, e, Min(n, 16 - e), a) }

  /** LQV: to the end of the 16-byte line or of the register. */
  function Lqv(m: Dmem, v: Vec, e: Element, a: nat): Vec { LoadBytes(m, v, e, Min(16 - e, 16 - a % 16), a) }

  /** LRV: the start of the line, into the end of the register. */
  function Lrv(m: Dmem, v: Vec, e: Element, a: nat): Vec {
    if a % 16 > e then LoadBytes(m, v, 16 - a % 16 + e, a % 16 - e, a - a % 16) else v
  }

  /** SQV: to the end of the line. */
  function Sqv(m: Dmem, v: Vec, e: Element, a: nat): Dmem { StoreBytes(m, v, a, e, 16 - a % 16) }

  /** SRV: the start of the line. */
  function Srv(m: Dmem, v: Vec, e: Element, a: nat): Dmem {
    StoreBytes(m, v, a - a % 16, e + 16 - a % 16, a % 16)
  }

  /** LPV: eight bytes of a 16-byte window into the high halves of the lanes. */
  function LpvByte(m: Dmem, e: Element, a: nat, lane: nat): Byte {
    m[(a / 8 * 8 + (lane + a % 8 + 16 - e) % 16) % 4096]
  }

  function Lpv(m: Dmem, v: Vec, e: Element, a: nat, n: nat): Vec
    requires n <= 8
  {
    if n == 0 then v
    else Lpv(m, v, e, a, n - 1)[2 * (n - 1) := LpvByte(m, e, a, n - 1)][2 * (n - 1) + 1 := 0]
  }

  lemma {:induction false} LpvAt(m: Dmem, v: Vec, e: Element, a: nat, n: nat, i: nat)
    requires n <= 8 && i < 16
    ensures Lpv(m, v, e, a, n)[i]
            == if i >= 2 * n then v[i] else if i % 2 == 0 then LpvByte(m, e, a, i / 2) else 0
  {
    if n > 0 { LpvAt(m, v, e, a, n - 1, i); }
  }

  // ---------------------------------------------------------------- unaligned quad access

  /** LQV at A then LRV at A + 16 load exactly the 16 wrapped bytes from A, for every A. */
  lemma UnalignedLoad(m: Dmem, v: Vec, a: nat, i: nat)
    requires i < 16
    ensures Lrv(m, Lqv(m, v, 0, a), 0, a + 16)[i] == m[At(a, i)]
  {
    var k := a % 16;
    assert (a + 16) % 16 == k by { ModShift(a, 16, 1); }
    LoadBytesAt(m, v, 0, 16 - k, a, i);
    if k > 0 {
      LoadBytesAt(m, Lqv(m, v, 0, a), 16 - k, k, a + 16 - k, i);
    }
  }

  /** A store of 16 bytes split after the first 16 - k. */
  lemma SplitStoreLow(m: Dmem, v: Vec, a: nat, b: nat, k: nat, i: nat)
    requires k < 16 && i < 16 - k && b == a + 16 - k
    ensures StoreBytes(StoreBytes(m, v, a, 0, 16 - k), v, b, 16 - k, k)[At(a, i)] == v[i]
  {
    StoreBytesAt(m, v, a, 0, 16 - k, i);
    forall j: nat | j < k ensures At(b, j) != At(a, i) {
      AtSum(a, b, 16 - k, j);
      Apart(a, i, 16 - k + j);
    }
    StoreBytesElsewhere(StoreBytes(m, v, a, 0, 16 - k), v, b, 16 - k, k, At(a, i));
  }

  lemma SplitStoreHigh(m: Dmem, v: Vec, a: nat, b: nat, k: nat, i: nat)
    requires k < 16 && 16 - k <= i < 16 && b == a + 16 - k
    ensures StoreBytes(m, v, b, 16 - k, k)[At(a, i)] == v[i]
  {
    AtSum(a, b, 16 - k, i - (16 - k));
    StoreBytesAt(m, v, b, 16 - k, k, i - (16 - k));
  }

  /** SQV at A then SRV at A + 16 store byte i of the register to A + i. */
  lemma UnalignedStore(m: Dmem, v: Vec, a: nat, i: nat)
    requires i < 16
    ensures Srv(Sqv(m, v, 0, a), v, 0, a + 16)[At(a, i)] == v[i]
  {
    ModShift(a, 16, 1);
    var k := a % 16;
    if i < 16 - k {
      SplitStoreLow(m, v, a, a + 16 - k, k, i);
    } else {
      SplitStoreHigh(Sqv(m, v, 0, a), v, a, a + 16 - k, k, i);
    }
  }

  /** ... and to no other address. */
  lemma UnalignedStoreElsewhere(m: Dmem, v: Vec, a: nat, x: nat)
    requires x < 4096 && forall i: nat :: i < 16 ==> At(a, i) != x
    ensures Srv(Sqv(m, v, 0, a), v, 0, a + 16)[x] == m[x]
  {
    var k := a % 16;
    assert (a + 16) % 16 == k by { ModShift(a, 16, 1); }
    StoreBytesElsewhere(m, v, a, 0, 16 - k, x);
    var b: nat := a + 16 - k;
    forall j: nat | j < k ensures At(b, j) != x {
      AtSum(a, b, 16 - k, j);
    }
    StoreBytesElsewhere(Sqv(m, v, 0, a), v, a + 16 - k, 16 - k, k, x);
  }

  /** Storing a register to any address and loading it back into any register restores it. */
  lemma QuadRoundTrip(m: Dmem, v: Vec, w: Vec, a: nat)
    ensures var saved := Srv(Sqv(m, v, 0, a), v, 0, a + 16);
            Lrv(saved, Lqv(saved, w, 0, a), 0, a + 16) == v
  {
    var saved := Srv(Sqv(m, v, 0, a), v, 0, a + 16);
    var loaded := Lrv(saved, Lqv(saved, w, 0, a), 0, a + 16);
    forall i | 0 <= i < 16 ensures loaded[i] == v[i] {
      UnalignedLoad(saved, w, a, i);
      UnalignedStore(m, v, a, i);
    }
  }

  // ---------------------------------------------------------------- transposed access

  /** The register group of a transposed access. */
  function Group(rt: nat): (g: nat)
    requires rt < 32
    ensures g + 7 < 32 && g % 8 == 0
  {
    rt / 8 * 8
  }

  /** The place in the 16-byte window of byte `k` of an STV, and the register byte it comes from. */
  function StvPlace(e: Element, a: nat, k: nat): (x: nat) ensures x < 16 { (a % 8 + 16 - e / 2 * 2 + k) % 16 }
  function StvByte(e: Element, k: nat): (x: nat) ensures x < 16 { (16 - e / 2 * 2 + k) % 16 }

  /** The 16 bytes an STV stores to. */
  function Window(a: nat): (w: nat)
    requires a % 4096 < 4088
    ensures w + 16 <= 4096
  {
    a % 4096 / 8 * 8
  }

  /** STV: the first `n` bytes, two from each register of the group; the window lies inside DMEM. */
  function Stv(m: Dmem, f: File, rt: nat, e: Element, a: nat, n: nat): Dmem
    requires rt < 32 && n <= 16 && a % 4096 < 4088
  {
    if n == 0 then m
    else Stv(m, f, rt, e, a, n - 1)
         [Window(a) + StvPlace(e, a, n - 1) := f[Group(rt) + (n - 1) / 2][StvByte(e, n - 1)]]
  }

  /** The register of byte `k` of an LTV, and the address it comes from. */
  function LtvRegister(e: Element, k: nat): (r: nat) ensures r < 8 { (e / 2 + k / 2) % 8 }
  function LtvAddress(e: Element, a: nat, k: nat): nat { a / 8 * 8 + (e + a / 8 % 2 * 8 + k) % 16 }

  /** LTV: the first `n` bytes. */
  function Ltv(m: Dmem, f: File, rt: nat, e: Element, a: nat, n: nat): File
    requires rt < 32 && n <= 16
  {
    if n == 0 then f
    else
      var g := Ltv(m, f, rt, e, a, n - 1);
      var r := Group(rt) + LtvRegister(e, n - 1);
      g[r := g[r][n - 1 := m[LtvAddress(e, a, n - 1) % 4096]]]
  }

  lemma PlacesApart(e: Element, a: nat, k: nat, l: nat)
    requires k < l < 16
    ensures StvPlace(e, a, k) != StvPlace(e, a, l)
  {
  }

  lemma {:induction false} StvAt(m: Dmem, f: File, rt: nat, e: Element, a: nat, n: nat, k: nat)
    requires rt < 32 && k < n <= 16 && a % 4096 < 4088
    ensures Stv(m, f, rt, e, a, n)[Window(a) + StvPlace(e, a, k)] == f[Group(rt) + k / 2][StvByte(e, k)]
  {
    if k < n - 1 {
      StvAt(m, f, rt, e, a, n - 1, k);
      PlacesApart(e, a, k, n - 1);
    }
  }

  lemma {:induction false} StvElsewhere(m: Dmem, f: File, rt: nat, e: Element, a: nat, n: nat, x: nat)
    requires rt < 32 && n <= 16 && a % 4096 < 4088 && x < 4096
    requires x < Window(a) || x >= Window(a) + 16
    ensures Stv(m, f, rt, e, a, n)[x] == m[x]
  {
    if n > 0 { StvElsewhere(m, f, rt, e, a, n - 1, x); }
  }

  lemma {:induction false} LtvAt(m: Dmem, f: File, rt: nat, e: Element, a: nat, n: nat, r: nat, i: nat)
    requires rt < 32 && n <= 16 && r < 32 && i < 16
    ensures Ltv(m, f, rt, e, a, n)[r][i]
            == if i < n && r == Group(rt) + LtvRegister(e, i) then m[LtvAddress(e, a, i) % 4096] else f[r][i]
  {
    if n > 0 { LtvAt(m, f, rt, e, a, n - 1, r, i); }
  }

  // ---------------------------------------------------------------- the 8x8 transpose

  function Sum8(x: nat, y: nat): (z: nat)
    requires x < 8 && y < 8
    ensures z < 8
  {
    if x + y < 8 then x + y else x + y - 8
  }

  function Diff8(x: nat, y: nat): (z: nat)
    requires x < 8 && y < 8
    ensures z < 8
  {
    if x >= y then x - y else x + 8 - y
  }

  /** The element at which LTV reads row `r`. */
  function LtvElement(r: nat): Element
    requires r < 8
  {
    (16 - 2 * r) % 16
  }

  /** STV at element 2r into row r, for rows below `n`. */
  function StoreRows(m: Dmem, f: File, rt: nat, a: nat, n: nat): Dmem
    requires rt < 32 && n <= 8 && a % 16 == 0
  {
    if n == 0 then m
    else RowInside(a + 16 * (n - 1)); Stv(StoreRows(m, f, rt, a, n - 1), f, rt, 2 * (n - 1), a + 16 * (n - 1), 16)
  }

  /** LTV at element (16 - 2r) mod 16 from row r, for rows below `n`. */
  function LoadRows(m: Dmem, f: File, rt: nat, a: nat, n: nat): File
    requires rt < 32 && n <= 8
  {
    if n == 0 then f
    else Ltv(m, LoadRows(m, f, rt, a, n - 1), rt, LtvElement(n - 1), a + 16 * (n - 1), 16)
  }

  lemma RowInside(row: nat)
    requires row % 16 == 0
    ensures row % 4096 % 16 == 0 && row % 4096 <= 4080 && row % 4096 / 8 * 8 == row % 4096
  {
    LineModulo(row, row / 4096, row % 4096);
    LineHalves(row % 4096);
    LastLine(row % 4096);
  }

  lemma LineModulo(row: nat, q: nat, r: nat)
    requires row % 16 == 0 && row == q * 4096 + r
    ensures r % 16 == 0
  {
    ModShift(r, 16, q * 256);
  }

  lemma LastLine(x: nat)
    requires x % 16 == 0 && x < 4096
    ensures x <= 4080
  {
  }

  lemma RowAligned(a: nat, r: nat)
    requires a % 16 == 0
    ensures (a + 16 * r) % 16 == 0
  {
    ModShift(a, 16, r);
  }

  lemma WithinRow(row: nat, d: nat)
    requires row % 16 == 0 && d < 16
    ensures (row + d) % 4096 == row % 4096 + d
  {
    RowInside(row);
    DivMod(row, 4096);
    ModUnique(row + d, 4096, row / 4096, row % 4096 + d);
  }

  lemma Wrap16(x: nat)
    requires x < 16
    ensures x % 16 == x && (x + 16) % 16 == x
  {
  }

  lemma Wrap8(x: nat)
    requires x < 8
    ensures x % 8 == x && (x + 8) % 8 == x
  {
  }

  /** The byte of an STV that lands in lane `l` of row `r`. */
  lemma StvRow(row: nat, r: nat, l: nat, h: nat)
    requires row % 8 == 0 && r < 8 && l < 8 && h < 2
    ensures var k := 2 * Sum8(l, r) + h; StvPlace(2 * r, row, k) == 2 * l + h == StvByte(2 * r, k) && k / 2 == Sum8(l, r)
  {
    Wrap16(2 * l + h);
  }

  /** In row r, lane l holds lane l of register (l + r) mod 8. */
  lemma RowBytes(m: Dmem, f: File, rt: nat, row: nat, r: nat, l: nat, h: nat)
    requires rt < 32 && row % 16 == 0 && r < 8 && l < 8 && h < 2
    ensures row % 4096 <= 4080
    ensures Stv(m, f, rt, 2 * r, row, 16)[row % 4096 + 2 * l + h] == f[Group(rt) + Sum8(l, r)][2 * l + h]
  {
    RowInside(row);
    StvRow(row, r, l, h);
    StvAt(m, f, rt, 2 * r, row, 16, 2 * Sum8(l, r) + h);
  }

  lemma RowsApart(a: nat, r: nat, q: nat, d: nat)
    requires a % 16 == 0 && r < q < 8 && d < 16
    ensures var x, y := (a + 16 * r) % 4096, (a + 16 * q) % 4096; x + d < y || x + d >= y + 16
  {
    RowAligned(a, r);
    RowAligned(a, q);
    RowInside(a + 16 * r);
    RowInside(a + 16 * q);
    Apart(a, 16 * r, 16 * q);
    LinesApart((a + 16 * r) % 4096, (a + 16 * q) % 4096, d);
  }

  lemma LinesApart(x: nat, y: nat, d: nat)
    requires x % 16 == 0 && y % 16 == 0 && x != y && d < 16
    ensures x + d < y || x + d >= y + 16
  {
  }

  lemma LineHalves(row: nat)
    requires row % 16 == 0
    ensures row / 8 * 8 == row && row / 8 % 2 == 0
  {
  }

  lemma {:induction false} StoreRowsAt(m: Dmem, f: File, rt: nat, a: nat, n: nat, r: nat, l: nat, h: nat)
    requires rt < 32 && a % 16 == 0 && r < n <= 8 && l < 8 && h < 2
    ensures (a + 16 * r) % 4096 <= 4080
    ensures StoreRows(m, f, rt, a, n)[(a + 16 * r) % 4096 + 2 * l + h] == f[Group(rt) + Sum8(l, r)][2 * l + h]
  {
    RowAligned(a, n - 1);
    var was := StoreRows(m, f, rt, a, n - 1);
    if r < n - 1 {
      StoreRowsAt(m, f, rt, a, n - 1, r, l, h);
      RowInside(a + 16 * (n - 1));
      RowsApart(a, r, n - 1, 2 * l + h);
      StvElsewhere(was, f, rt, 2 * (n - 1), a + 16 * (n - 1), 16, (a + 16 * r) % 4096 + 2 * l + h);
    } else {
      RowBytes(was, f, rt, a + 16 * r, r, l, h);
    }
  }

  /** The register and the place in the row of lane `l` of an LTV from row `r`. */
  lemma LtvRow(r: nat, l: nat, h: nat)
    requires r < 8 && l < 8 && h < 2
    ensures LtvRegister(LtvElement(r), 2 * l + h) == Diff8(l, r)
    ensures (LtvElement(r) + 2 * l + h) % 16 == 2 * Diff8(l, r) + h
  {
    var e := if r == 0 then 0 else 16 - 2 * r;
    assert LtvElement(r) == e;
    Wrap16(2 * Diff8(l, r) + h);
    Wrap8(Diff8(l, r));
    assert (2 * l + h) / 2 == l;
  }

  lemma LtvRowAddress(row: nat, e: Element, c: nat, d: nat)
    requires row % 16 == 0 && (e + c) % 16 == d
    ensures LtvAddress(e, row, c) % 4096 == row % 4096 + d
  {
    LineHalves(row);
    WithinRow(row, d);
  }

  lemma Antidiagonal(l: nat, r: nat, q: nat)
    requires l < 8 && r < 8 && q < 8
    ensures Diff8(l, r) == q <==> r == Diff8(l, q)
    ensures Sum8(q, Diff8(l, q)) == l
  {
  }

  /** What LTV from row `r` does to lane `l` of register q of the group. */
  lemma LtvLane(m: Dmem, f: File, rt: nat, row: nat, r: nat, q: nat, l: nat, h: nat)
    requires rt < 32 && row % 16 == 0 && r < 8 && q < 8 && l < 8 && h < 2
    ensures row % 4096 <= 4080
    ensures Ltv(m, f, rt, LtvElement(r), row, 16)[Group(rt) + q][2 * l + h]
            == if r == Diff8(l, q) then m[row % 4096 + 2 * q + h] else f[Group(rt) + q][2 * l + h]
  {
    RowInside(row);
    LtvAt(m, f, rt, LtvElement(r), row, 16, Group(rt) + q, 2 * l + h);
    LtvPlace(row, r, l, h);
    Antidiagonal(l, r, q);
  }

  lemma LtvPlace(row: nat, r: nat, l: nat, h: nat)
    requires row % 16 == 0 && r < 8 && l < 8 && h < 2
    ensures LtvRegister(LtvElement(r), 2 * l + h) == Diff8(l, r)
    ensures LtvAddress(LtvElement(r), row, 2 * l + h) % 4096 == row % 4096 + 2 * Diff8(l, r) + h
  {
    LtvRow(r, l, h);
    LtvRowAddress(row, LtvElement(r), 2 * l + h, 2 * Diff8(l, r) + h);
  }

  /** Lane `l` of register q of the group comes from row (l - q) mod 8. */
  lemma {:induction false} LoadRowsAt(m: Dmem, f: File, rt: nat, a: nat, n: nat, q: nat, l: nat, h: nat)
    requires rt < 32 && a % 16 == 0 && n <= 8 && q < 8 && l < 8 && h < 2
    ensures var r := Diff8(l, q);
            && (a + 16 * r) % 4096 <= 4080
            && LoadRows(m, f, rt, a, n)[Group(rt) + q][2 * l + h]
               == if r < n then m[(a + 16 * r) % 4096 + 2 * q + h] else f[Group(rt) + q][2 * l + h]
  {
    if n == 0 {
      RowAligned(a, Diff8(l, q));
      RowInside(a + 16 * Diff8(l, q));
    } else {
      LoadRowsAt(m, f, rt, a, n - 1, q, l, h);
      RowAligned(a, n - 1);
      LtvLane(m, LoadRows(m, f, rt, a, n - 1), rt, a + 16 * (n - 1), n - 1, q, l, h);
    }
  }

  /**
    Storing a register group with STV at element 2r into row r and loading row r
    with LTV at element (16 - 2r) mod 16 transposes it: lane n of register q is
    lane q of the old register n, byte by byte.
   */
  lemma Transposes(m: Dmem, f: File, rt: nat, a: nat, q: nat, n: nat, h: nat)
    requires rt < 32 && a % 16 == 0 && q < 8 && n < 8 && h < 2
    ensures LoadRows(StoreRows(m, f, rt, a, 8), f, rt, a, 8)[Group(rt) + q][2 * n + h] == f[Group(rt) + n][2 * q + h]
  {
    LoadRowsAt(StoreRows(m, f, rt, a, 8), f, rt, a, 8, q, n, h);
    StoreRowsAt(m, f, rt, a, 8, Diff8(n, q), q, h);
    Antidiagonal(n, 0, q);
  }

  /** The transpose leaves every register outside the group alone. */
  lemma {:induction false} OtherRegisters(m: Dmem, f: File, rt: nat, a: nat, n: nat, r: nat)
    requires rt < 32 && n <= 8 && r < 32 && (r < Group(rt) || r >= Group(rt) + 8)
    ensures LoadRows(m, f, rt, a, n)[r] == f[r]
  {
    if n > 0 {
      OtherRegisters(m, f, rt, a, n - 1, r);
      var was := LoadRows(m, f, rt, a, n - 1);
      forall i | 0 <= i < 16 ensures LoadRows(m, f, rt, a, n)[r][i] == was[r][i] {
        LtvAt(m, was, rt, LtvElement(n - 1), a + 16 * (n - 1), 16, r, i);
      }
    }
  }

  /** And every byte of DMEM outside the rows. */
  lemma {:induction false} OtherBytes(m: Dmem, f: File, rt: nat, a: nat, n: nat, x: nat)
    requires rt < 32 && n <= 8 && a % 16 == 0 && x < 4096
    requires forall r: nat :: r < n ==> OutsideRow(a + 16 * r, x)
    ensures StoreRows(m, f, rt, a, n)[x] == m[x]
  {
    if n > 0 {
      OtherBytes(m, f, rt, a, n - 1, x);
      RowAligned(a, n - 1);
      RowInside(a + 16 * (n - 1));
      assert OutsideRow(a + 16 * (n - 1), x);
      StvElsewhere(StoreRows(m, f, rt, a, n - 1), f, rt, 2 * (n - 1), a + 16 * (n - 1), 16, x);
    }
  }

  predicate OutsideRow(row: nat, x: nat) { x < row % 4096 || x >= row % 4096 + 16 }
}
