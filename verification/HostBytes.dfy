/**
  Bytes of DMEM and of the vector registers, as the program numbers them and as
  a little-endian host lays them out: DMEM is an array of 32-bit host words and a
  register an array of 16-bit host lanes, so a byte is found through a swizzle.
 */
module HostBytes {
  import opened Arithmetic

  type Byte = b: nat | b < 256
  type Dmem = s: seq<Byte> | |s| == 4096 witness seq(4096, _ => 0)
  type Vec = s: seq<Byte> | |s| == 16 witness seq(16, _ => 0)

  // ---------------------------------------------------------------- addresses

  /** The address `i` bytes after `a`. */
  function At(a: nat, i: nat): (x: nat) ensures x < 4096 { (a + i) % 4096 }

  lemma Apart(a: nat, i: nat, j: nat)
    requires i < j < i + 4096
    ensures At(a, i) != At(a, j)
  {
    var q, r := (a + i) / 4096, (a + i) % 4096;
    var s := r + (j - i);
    if s < 4096 { ModUnique(a + j, 4096, q, s); } else { ModUnique(a + j, 4096, q + 1, s - 4096); }
  }

  lemma AtSum(a: nat, b: nat, d: nat, j: nat)
    requires b == a + d
    ensures At(b, j) == At(a, d + j)
  {
  }

  lemma AtMasked(a: nat, i: nat)
    ensures At(a % 4096, i) == At(a, i)
  {
    DivMod(a, 4096);
    ModShift(a % 4096 + i, 4096, a / 4096);
  }

  lemma NoWrap(a: nat, i: nat)
    requires a + i < 4096
    ensures At(a, i) == a + i
  {
  }

  // ---------------------------------------------------------------- swizzles

  /** x ^ 3: the bytes of each word in reverse. */
  function Bes(x: nat): nat { if x < 4 then 3 - x else 4 + Bes(x - 4) }

  /** x ^ 2: the halves of each word swapped. */
  function Hes(x: nat): nat { if x < 2 then x + 2 else if x < 4 then x - 2 else 4 + Hes(x - 4) }

  /** x ^ 1: the bytes of each half swapped. */
  function Mes(x: nat): nat { if x < 2 then 1 - x else 2 + Mes(x - 2) }

  lemma {:induction false} BesFacts(x: nat)
    ensures Bes(Bes(x)) == x && (x < 4096 ==> Bes(x) < 4096)
  {
    BesBelow(x, 4096);
    if x >= 4 { BesFacts(x - 4); }
  }

  lemma {:induction false} MesFacts(x: nat)
    ensures Mes(Mes(x)) == x && (x < 16 ==> Mes(x) < 16)
  {
    MesBelow(x, 16);
    if x >= 2 { MesFacts(x - 2); }
  }

  lemma {:induction false} MesBelow(i: nat, e: nat)
    requires e % 4 == 0
    ensures Mes(i) < e <==> i < e
  {
    if i >= 4 && e >= 4 { MesBelow(i - 4, e - 4); }
  }

  lemma {:induction false} BesBelow(x: nat, a: nat)
    requires a % 4 == 0
    ensures Bes(x) < a <==> x < a
  {
    if x >= 4 && a >= 4 { BesBelow(x - 4, a - 4); }
  }

  /** A multiple of four can be taken out of either swizzle. */
  lemma {:induction false} AlignedSwizzle(a: nat, i: nat)
    requires a % 4 == 0
    ensures Bes(a + i) == a + Bes(i) && Mes(a + i) == a + Mes(i)
  {
    if a >= 4 {
      AlignedSwizzle(a - 4, i);
      assert Mes(a + i) == 2 + Mes(a + i - 2);
    }
  }

  /** A host image of DMEM, in program order. */
  function MemView(host: Dmem): Dmem { MemPrefix(host, |host|) }

  function MemPrefix(host: Dmem, n: nat): (m: seq<Byte>)
    requires n <= 4096
    ensures |m| == n
  {
    if n == 0 then [] else BesFacts(n - 1); MemPrefix(host, n - 1) + [host[Bes(n - 1)]]
  }

  lemma {:induction false} MemPrefixAt(host: Dmem, n: nat, a: nat)
    requires a < n <= 4096
    ensures Bes(a) < 4096 && MemPrefix(host, n)[a] == host[Bes(a)]
  {
    BesFacts(a);
    if a < n - 1 { MemPrefixAt(host, n - 1, a); }
  }

  lemma MemViewAt(host: Dmem, a: nat)
    requires a < 4096
    ensures Bes(a) < 4096 && MemView(host)[a] == host[Bes(a)]
  {
    MemPrefixAt(host, |host|, a);
  }

  /** A host image of a vector register, in program order. */
  function VecView(host: Vec): Vec { VecPrefix(host, |host|) }

  function VecPrefix(host: Vec, n: nat): (v: seq<Byte>)
    requires n <= 16
    ensures |v| == n
  {
    if n == 0 then [] else MesFacts(n - 1); VecPrefix(host, n - 1) + [host[Mes(n - 1)]]
  }

  lemma {:induction false} VecPrefixAt(host: Vec, n: nat, i: nat)
    requires i < n <= 16
    ensures Mes(i) < 16 && VecPrefix(host, n)[i] == host[Mes(i)]
  {
    MesFacts(i);
    if i < n - 1 { VecPrefixAt(host, n - 1, i); }
  }

  lemma VecViewAt(host: Vec, i: nat)
    requires i < 16
    ensures Mes(i) < 16 && VecView(host)[i] == host[Mes(i)]
  {
    VecPrefixAt(host, |host|, i);
  }

  lemma MemViewUpdate(host: Dmem, a: nat, b: Byte)
    requires a < 4096
    ensures Bes(a) < 4096 && MemView(host[Bes(a) := b]) == MemView(host)[a := b]
  {
    BesFacts(a);
    var after, expected := MemView(host[Bes(a) := b]), MemView(host)[a := b];
    forall x | 0 <= x < 4096 ensures after[x] == expected[x] {
      BesFacts(x);
      MemViewAt(host, x);
      MemViewAt(host[Bes(a) := b], x);
    }
  }

  lemma VecViewUpdate(host: Vec, i: nat, b: Byte)
    requires i < 16
    ensures Mes(i) < 16 && VecView(host[Mes(i) := b]) == VecView(host)[i := b]
  {
    MesFacts(i);
    var after, expected := VecView(host[Mes(i) := b]), VecView(host)[i := b];
    forall x | 0 <= x < 16 ensures after[x] == expected[x] {
      MesFacts(x);
      VecViewAt(host, x);
      VecViewAt(host[Mes(i) := b], x);
    }
  }

  lemma NextWord(x: nat)
    ensures (4 + x) / 2 == 2 + x / 2 && (4 + x) % 2 == x % 2
  {
  }

  lemma {:induction false} HalfOfWord(a: nat)
    requires a % 2 == 0
    ensures Hes(a) == Bes(a + 1) && Hes(a) + 1 == Bes(a) && Hes(a) % 2 == 0
  {
    if a >= 4 { HalfOfWord(a - 4); }
  }
}
