/**
  Where each byte of a vector load or store goes, for every element and every
  address (rsp/ls.cpp): laws of `VectorMemory` that do not follow its loops.
 */
module VectorPlacement {
  import opened Arithmetic
  import opened HostBytes
  import opened VectorMemory

  /** The place `y` bytes after place `x` of a ring of 16. */
  function Round(x: nat, y: nat): (z: nat)
    requires x < 16 && y < 16
    ensures z < 16
  {
    if x + y < 16 then x + y else x + y - 16
  }

  /** The place `y` bytes before place `x`. */
  function Back(x: nat, y: nat): (z: nat)
    requires x < 16 && y < 16
    ensures z < 16 && Round(z, y) == x
  {
    if x >= y then x - y else x + 16 - y
  }

  // ---------------------------------------------------------------- runs of bytes

  /** LLV (n = 4) and LDV (n = 8): byte e + i of the register is the byte at a + i, as far as the register goes. */
  lemma ShortLoadPlaces(m: Dmem, v: Vec, e: Element, n: nat, a: nat, i: nat)
    requires i < 16
    ensures LoadShort(m, v, e, n, a)[i] == if e <= i < e + n then m[At(a, i - e)] else v[i]
  {
    LoadBytesAt(m, v, e, Min(n, 16 - e), a, i);
  }

  /** Every byte stored comes from the register byte as far behind the element as its address is behind `a`. */
  lemma StorePlaces(m: Dmem, v: Vec, a: nat, e: nat, n: nat, i: nat)
    requires i < n <= 16 && e < 16
    ensures StoreBytes(m, v, a, e, n)[At(a, i)] == v[Round(e, i)]
  {
    StoreBytesAt(m, v, a, e, n, i);
    RoundSum(e, i);
  }

  lemma DoubleStorePlaces(m: Dmem, v: Vec, e: Element, a: nat)
    ensures forall i: nat :: i < 8 ==> Sdv(m, v, e, a)[At(a, i)] == v[Round(e, i)]
    ensures forall x: nat :: x < 4096 && (forall i: nat :: i < 8 ==> At(a, i) != x) ==> Sdv(m, v, e, a)[x] == m[x]
  {
    forall i: nat | i < 8 ensures Sdv(m, v, e, a)[At(a, i)] == v[Round(e, i)] { StorePlaces(m, v, a, e, 8, i); }
    forall x: nat | x < 4096 && (forall i: nat :: i < 8 ==> At(a, i) != x) ensures Sdv(m, v, e, a)[x] == m[x] {
      StoreBytesElsewhere(m, v, a, e, 8, x);
    }
  }

  // ---------------------------------------------------------------- quad access at any element

  /** LQV: byte e + i of the register is the byte at a + i, to the end of the 16-byte line or of the register. */
  lemma QuadLoadPlaces(m: Dmem, v: Vec, e: Element, a: nat, i: nat)
    requires i < 16
    ensures Lqv(m, v, e, a)[i] == if e <= i && a % 16 + (i - e) < 16 then m[At(a, i - e)] else v[i]
  {
    LoadBytesAt(m, v, e, Min(16 - e, 16 - a % 16), a, i);
  }

  /** The start of the 16-byte line that holds `a`. */
  function Line(a: nat): nat { a - a % 16 }

  /** LRV: the bytes of the line in front of `a`, in order, from `a % 16` bytes below byte 16 + e of the register on; those beyond its end are dropped. */
  lemma RestLoadPlaces(m: Dmem, v: Vec, e: Element, a: nat, i: nat)
    requires i < 16
    ensures Lrv(m, v, e, a)[i] == if i + a % 16 < 16 + e then v[i] else m[At(Line(a), i + a % 16 - (16 + e))]
  {
    var k := a % 16;
    if k > e { LoadBytesAt(m, v, 16 - k + e, k - e, a - k, i); }
  }

  /** LQV at A and LRV at A + 16, at any element: byte e + i is the byte at A + i, and the bytes below the element stay. */
  lemma UnalignedElementLoad(m: Dmem, v: Vec, e: Element, a: nat, i: nat)
    requires i < 16
    ensures Lrv(m, Lqv(m, v, e, a), e, a + 16)[i] == if e <= i then m[At(a, i - e)] else v[i]
  {
    var k := a % 16;
    assert (a + 16) % 16 == k by { ModShift(a, 16, 1); }
    QuadLoadPlaces(m, v, e, a, i);
    if k > e {
      LoadBytesAt(m, Lqv(m, v, e, a), 16 - k + e, k - e, a + 16 - k, i);
    }
  }

  /** SQV: the bytes from `a` to the end of the line come from the register, from byte `e` on and round its end. */
  lemma QuadStorePlaces(m: Dmem, v: Vec, e: Element, a: nat)
    ensures forall i: nat :: a % 16 + i < 16 ==> Sqv(m, v, e, a)[At(a, i)] == v[Round(e, i)]
    ensures forall x: nat :: x < 4096 && (forall i: nat :: a % 16 + i < 16 ==> At(a, i) != x) ==> Sqv(m, v, e, a)[x] == m[x]
  {
    var n := 16 - a % 16;
    forall i: nat | a % 16 + i < 16 ensures Sqv(m, v, e, a)[At(a, i)] == v[Round(e, i)] { StorePlaces(m, v, a, e, n, i); }
    forall x: nat | x < 4096 && (forall i: nat :: a % 16 + i < 16 ==> At(a, i) != x) ensures Sqv(m, v, e, a)[x] == m[x] {
      StoreBytesElsewhere(m, v, a, e, n, x);
    }
  }

  /** SRV: the bytes of the line in front of `a` come from the register, from `a % 16` bytes before byte `e` on. */
  lemma RestStorePlaces(m: Dmem, v: Vec, e: Element, a: nat)
    ensures forall d: nat :: d < a % 16 ==> Srv(m, v, e, a)[At(Line(a), d)] == v[Round(Back(e, a % 16), d)]
    ensures forall x: nat :: x < 4096 && (forall d: nat :: d < a % 16 ==> At(Line(a), d) != x) ==> Srv(m, v, e, a)[x] == m[x]
  {
    var k, b := a % 16, Line(a);
    forall d: nat | d < k ensures Srv(m, v, e, a)[At(b, d)] == v[Round(Back(e, k), d)] {
      StoreBytesAt(m, v, b, e + 16 - k, k, d);
      RoundBack(e, k, d);
    }
    forall x: nat | x < 4096 && (forall d: nat :: d < k ==> At(b, d) != x) ensures Srv(m, v, e, a)[x] == m[x] {
      StoreBytesElsewhere(m, v, b, e + 16 - k, k, x);
    }
  }

  lemma RoundBack(e: Element, k: nat, d: nat)
    requires k < 16 && d < k
    ensures (e + 16 - k + d) % 16 == Round(Back(e, k), d)
  {
  }

  /** SQV at A and SRV at A + 16, at any element: register byte e + i, round its end, goes to A + i. */
  lemma UnalignedElementStore(m: Dmem, v: Vec, e: Element, a: nat, i: nat)
    requires i < 16
    ensures Srv(Sqv(m, v, e, a), v, e, a + 16)[At(a, i)] == v[Round(e, i)]
  {
    var k := a % 16;
    assert (a + 16) % 16 == k by { ModShift(a, 16, 1); }
    var was := Sqv(m, v, e, a);
    if i < 16 - k {
      StorePlaces(m, v, a, e, 16 - k, i);
      SecondStoreElsewhere(was, v, e, a, a + 16 - k, k, i);
    } else {
      SecondStorePlaces(was, v, e, a, a + 16 - k, k, i);
    }
  }

  lemma SecondStoreElsewhere(was: Dmem, v: Vec, e: Element, a: nat, b: nat, k: nat, i: nat)
    requires k < 16 && i < 16 - k && b == a + 16 - k
    ensures StoreBytes(was, v, b, e + 16 - k, k)[At(a, i)] == was[At(a, i)]
  {
    forall j: nat | j < k ensures At(b, j) != At(a, i) {
      AtSum(a, b, 16 - k, j);
      Apart(a, i, 16 - k + j);
    }
    StoreBytesElsewhere(was, v, b, e + 16 - k, k, At(a, i));
  }

  lemma SecondStorePlaces(was: Dmem, v: Vec, e: Element, a: nat, b: nat, k: nat, i: nat)
    requires k < 16 && 16 - k <= i < 16 && b == a + 16 - k
    ensures StoreBytes(was, v, b, e + 16 - k, k)[At(a, i)] == v[Round(e, i)]
  {
    AtSum(a, b, 16 - k, i - (16 - k));
    StoreBytesAt(was, v, b, e + 16 - k, k, i - (16 - k));
    RoundSum(e, i);
  }

  lemma RoundSum(e: Element, i: nat)
    requires i < 16
    ensures (e + i) % 16 == Round(e, i)
  {
  }

  // ---------------------------------------------------------------- packed access

  /** The place in the 16-byte window at a / 8 * 8 that LPV loads lane `lane` from. */
  lemma PackedWindow(m: Dmem, v: Vec, e: Element, a: nat, lane: nat)
    requires lane < 8
    ensures Lpv(m, v, e, a, 8)[2 * lane] == m[At(a / 8 * 8, Back(lane + a % 8, e))] && Lpv(m, v, e, a, 8)[2 * lane + 1] == 0
  {
    var n := 8;
    PackedLane(m, v, e, a, n, lane);
  }

  lemma PackedLane(m: Dmem, v: Vec, e: Element, a: nat, n: nat, lane: nat)
    requires lane < n <= 8
    ensures Lpv(m, v, e, a, n)[2 * lane] == m[At(a / 8 * 8, Back(lane + a % 8, e))] && Lpv(m, v, e, a, n)[2 * lane + 1] == 0
  {
    LpvAt(m, v, e, a, n, 2 * lane);
    LpvAt(m, v, e, a, n, 2 * lane + 1);
    PackedIndex(lane + a % 8, e);
  }

  lemma PackedIndex(x: nat, e: Element)
    requires x < 16
    ensures (x + 16 - e) % 16 == Back(x, e)
  {
  }

  /** LPV: from the element on, lane by lane, the bytes from `a` on. */
  lemma PackedPlaces(m: Dmem, v: Vec, e: Element, a: nat, lane: nat)
    requires e <= lane < 8
    ensures Lpv(m, v, e, a, 8)[2 * lane] == m[At(a, lane - e)]
  {
    PackedWindow(m, v, e, a, lane);
    DivMod(a, 8);
    WindowAddress(a / 8 * 8, a, a % 8, e, lane);
  }

  /** One element more moves every byte one lane up. */
  lemma PackedShift(m: Dmem, v: Vec, e: Element, a: nat, lane: nat)
    requires e + 1 < 16 && lane + 1 < 8
    ensures Lpv(m, v, e + 1, a, 8)[2 * (lane + 1)] == Lpv(m, v, e, a, 8)[2 * lane]
  {
    PackedWindow(m, v, e + 1, a, lane + 1);
    PackedWindow(m, v, e, a, lane);
  }

  /** Below the element: the bytes in front of `a` as far as the window goes, then those from its end. */
  lemma PackedBelow(m: Dmem, v: Vec, e: Element, a: nat, lane: nat)
    requires lane < e && lane < 8
    ensures e <= lane + a % 8 ==> Lpv(m, v, e, a, 8)[2 * lane] == m[At(a - (e - lane), 0)]
    ensures lane + a % 8 < e ==> Lpv(m, v, e, a, 8)[2 * lane] == m[At(a, 16 - (e - lane))]
  {
    PackedWindow(m, v, e, a, lane);
    DivMod(a, 8);
    WindowAddress(a / 8 * 8, a, a % 8, e, lane);
  }

  lemma WindowAddress(b: nat, a: nat, k: nat, e: Element, lane: nat)
    requires a == b + k && k < 8 && lane < 8
    ensures e <= lane ==> At(b, Back(lane + k, e)) == At(a, lane - e)
    ensures lane < e <= lane + k ==> At(b, Back(lane + k, e)) == At(a - (e - lane), 0)
    ensures lane + k < e ==> At(b, Back(lane + k, e)) == At(a, 16 - (e - lane))
  {
  }

  // ---------------------------------------------------------------- transposed access

  /**
    STV at any element and address: lane l of register l + e / 2 of the group,
    round the eight, goes into the window, two bytes for each lane in order, from
    place a % 8 on and round its end.
   */
  lemma TransposedStorePlaces(m: Dmem, f: File, rt: nat, e: Element, a: nat, l: nat, h: nat)
    requires rt < 32 && a % 4096 < 4088 && l < 8 && h < 2
    ensures Stv(m, f, rt, e, a, 16)[Window(a) + Round(2 * l + h, a % 8)] == f[Group(rt) + Sum8(l, e / 2)][2 * l + h]
  {
    var k := 2 * Sum8(l, e / 2) + h;
    StvAt(m, f, rt, e, a, 16, k);
    StoredLane(e, a, l, h);
  }

  lemma StoredLane(e: Element, a: nat, l: nat, h: nat)
    requires l < 8 && h < 2
    ensures var k := 2 * Sum8(l, e / 2) + h;
            StvByte(e, k) == 2 * l + h && StvPlace(e, a, k) == Round(2 * l + h, a % 8) && k / 2 == Sum8(l, e / 2)
  {
  }

  /** The sixteen bytes fill the window, and nothing else changes. */
  lemma TransposedStoreFills(m: Dmem, f: File, rt: nat, e: Element, a: nat, p: nat)
    requires rt < 32 && a % 4096 < 4088 && p < 4096
    ensures var now, b := Stv(m, f, rt, e, a, 16), p - Window(a);
            now[p] == if 0 <= b < 16 then f[Group(rt) + Sum8(Back(b, a % 8) / 2, e / 2)][Back(b, a % 8)] else m[p]
  {
    var b := p - Window(a);
    if 0 <= b < 16 {
      var x := Back(b, a % 8);
      TransposedStorePlaces(m, f, rt, e, a, x / 2, x % 2);
    } else {
      StvElsewhere(m, f, rt, e, a, 16, p);
    }
  }

  /** The place in the window at a / 8 * 8 at which LTV finds byte `x` of the lanes: the element on, counted from the 16-byte line. */
  function LoadPlace(e: Element, a: nat, x: nat): (p: nat)
    requires x < 16
    ensures p < 16
  {
    if a % 16 < 8 then Round(e, x) else Round(Round(e, x), 8)
  }

  /**
    LTV at any element and address: lane l of register l + e / 2 of the group,
    round the eight, is loaded; every other byte of every register stays.
   */
  lemma TransposedLoadPlaces(m: Dmem, f: File, rt: nat, e: Element, a: nat, r: nat, x: nat)
    requires rt < 32 && r < 32 && x < 16
    ensures Ltv(m, f, rt, e, a, 16)[r][x]
            == if r == Group(rt) + Sum8(x / 2, e / 2) then m[At(a / 8 * 8, LoadPlace(e, a, x))] else f[r][x]
  {
    LtvAt(m, f, rt, e, a, 16, r, x);
    LoadedLane(e, x);
    LoadedPlace(e, a, x);
  }

  lemma LoadedLane(e: Element, x: nat)
    requires x < 16
    ensures LtvRegister(e, x) == Sum8(x / 2, e / 2)
  {
  }

  lemma LoadedPlace(e: Element, a: nat, x: nat)
    requires x < 16
    ensures LtvAddress(e, a, x) == a / 8 * 8 + LoadPlace(e, a, x)
  {
    HalfLine(a);
  }

  lemma HalfLine(a: nat)
    ensures a / 8 % 2 == if a % 16 < 8 then 0 else 1
  {
    DivMod(a, 16);
    var q, r := a / 16, a % 16;
    ModUnique(a, 8, 2 * q + r / 8, r % 8);
  }

  /** The low three bits of the address do not matter to LTV. */
  lemma TransposedLoadAligns(m: Dmem, f: File, rt: nat, e: Element, a: nat, r: nat, x: nat)
    requires rt < 32 && r < 32 && x < 16
    ensures Ltv(m, f, rt, e, a, 16)[r][x] == Ltv(m, f, rt, e, a - a % 8, 16)[r][x]
  {
    var b := a - a % 8;
    DivMod(a, 8);
    ModUnique(b, 8, a / 8, 0);
    HalfLine(a);
    HalfLine(b);
    TransposedLoadPlaces(m, f, rt, e, a, r, x);
    TransposedLoadPlaces(m, f, rt, e, b, r, x);
  }
}
