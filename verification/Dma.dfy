/**
  The SP DMA engine (rsp/cp0.cpp): rows of words copied between DRAM and the
  8 KB of SP memory, with alignment, clamping, skip and address wrap.

  SP memory is one sequence of 2048 words, DMEM followed by IMEM.  The nested
  loops of the engine are proved to copy word number k = 0, 1, 2, ... of a
  transfer between two closed-form addresses.
 */
module Dma {
  import opened Arithmetic
  import opened Wrappers
  import opened Isa
  import CodeCache

  const MODE_CHECK_FLAGS := 4
  const SP_BYTES := 0x2000
  const DRAM_BYTES := 0x80_0000

  type SpMemory = s: seq<Word> | |s| == 2048 witness seq(2048, _ => 0)
  type Rdram = s: seq<Word> | |s| == 0x20_0000 witness seq(0x20_0000, _ => 0)

  // ---------------------------------------------------------------- transfers

  /** Where a transfer starts, the words in each row, the bytes skipped in DRAM after a row, and the rows. */
  datatype Transfer = Transfer(sp: Word, dram: Word, words: nat, skip: nat, rows: nat)

  /** The length field counts bytes less one and is rounded up to eight. */
  function LengthBytes(reg: Word): nat { (reg % 4096 + 8) / 8 * 8 }

  function Skip(reg: Word): nat { reg / 0x10_0000 % 4096 }
  function Count(reg: Word): nat { reg / 4096 % 256 }

  /** A row may not cross the end of DMEM or IMEM. */
  function Clamp(sp: Word, length: nat): nat {
    if sp % 4096 + length > 4096 then 4096 - sp % 4096 else length
  }

  function Plan(sp: Word, dram: Word, reg: Word): Transfer {
    Transfer(sp, dram / 8 * 8, Clamp(sp, LengthBytes(reg)) / 4, Skip(reg), Count(reg) + 1)
  }

  /** Reads force the SP address to a multiple of eight, writes only to a multiple of four. */
  function ReadPlan(cache: Word, dram: Word, reg: Word): Transfer { Plan(cache / 8 * 8, dram, reg) }
  function WritePlan(cache: Word, dram: Word, reg: Word): Transfer { Plan(cache / 4 * 4, dram, reg) }

  predicate Sane(t: Transfer) { t.sp % 4 == 0 && 1 <= t.words <= 1024 && t.skip < 4096 && 1 <= t.rows <= 256 }

  lemma LengthFacts(reg: Word)
    ensures LengthBytes(reg) % 8 == 0 && 8 <= LengthBytes(reg) <= 4096
  {
  }

  lemma ClampFacts(sp: Word, length: nat)
    requires sp % 4 == 0 && length % 4 == 0 && 4 <= length <= 4096
    ensures Clamp(sp, length) % 4 == 0 && 4 <= Clamp(sp, length) <= 4096
  {
  }

  lemma PlanSane(sp: Word, dram: Word, reg: Word)
    requires sp % 4 == 0
    ensures Sane(Plan(sp, dram, reg)) && 4 * Plan(sp, dram, reg).words == Clamp(sp, LengthBytes(reg))
  {
    LengthFacts(reg);
    ClampFacts(sp, LengthBytes(reg));
  }

  lemma PlansSane(cache: Word, dram: Word, reg: Word)
    ensures Sane(ReadPlan(cache, dram, reg)) && Sane(WritePlan(cache, dram, reg))
  {
    PlanSane(cache / 8 * 8, dram, reg);
    PlanSane(cache / 4 * 4, dram, reg);
  }

  function Total(t: Transfer): nat
    requires Sane(t)
  {
    MulNonNegative(t.words, t.rows);
    t.words * t.rows
  }

  // ---------------------------------------------------------------- addresses of word k

  /** The bytes skipped after `rows` rows. */
  function SkippedAfter(rows: nat, skip: nat): nat { if rows == 0 then 0 else SkippedAfter(rows - 1, skip) + skip }

  /** The row of word `k`. */
  function Row(k: nat, words: nat): nat
    requires words > 0
  {
    if k < words then 0 else 1 + Row(k - words, words)
  }

  function DramOffset(t: Transfer, k: nat): nat
    requires Sane(t)
  {
    4 * k + SkippedAfter(Row(k, t.words), t.skip)
  }

  function Wrapped(x: nat, bytes: nat): (i: nat)
    requires bytes == SP_BYTES || bytes == DRAM_BYTES
    ensures i < bytes / 4
  {
    x % bytes / 4
  }

  function DramIndex(t: Transfer, k: nat): (i: nat)
    requires Sane(t)
    ensures i < 0x20_0000
  {
    Wrapped(t.dram + DramOffset(t, k), DRAM_BYTES)
  }

  function SpIndex(t: Transfer, k: nat): (i: nat)
    ensures i < 2048
  {
    Wrapped(t.sp + 4 * k, SP_BYTES)
  }

  lemma {:induction false} RowOrder(k: nat, l: nat, words: nat)
    requires words > 0 && k <= l
    ensures Row(k, words) <= Row(l, words)
  {
    if k >= words { RowOrder(k - words, l - words, words); }
  }

  lemma {:induction false} RowOf(i: nat, j: nat, words: nat)
    requires j < words
    ensures i * words + j >= 0 && Row(i * words + j, words) == i
  {
    MulNonNegative(i, words);
    if i > 0 {
      RowOf(i - 1, j, words);
      assert i * words == (i - 1) * words + words;
      MulNonNegative(i - 1, words);
    } else {
      assert i * words == 0;
    }
  }

  lemma {:induction false} MulOrder(a: nat, b: nat, d: nat)
    requires a <= b
    ensures a * d <= b * d
  {
    MulNonNegative(b - a, d);
    assert (b - a) * d == b * d - a * d;
  }

  lemma {:induction false} SkippedOrder(a: nat, b: nat, skip: nat)
    requires a <= b
    ensures SkippedAfter(a, skip) <= SkippedAfter(b, skip)
  {
    if a < b { SkippedOrder(a, b - 1, skip); }
  }

  lemma {:induction false} SkippedBound(rows: nat, skip: nat)
    requires skip < 4096
    ensures SkippedAfter(rows, skip) <= 4095 * rows
  {
    if rows > 0 { SkippedBound(rows - 1, skip); }
  }

  lemma OffsetOrder(t: Transfer, k: nat, l: nat)
    requires Sane(t) && k < l
    ensures DramOffset(t, k) + 4 <= DramOffset(t, l)
  {
    RowOrder(k, l, t.words);
    SkippedOrder(Row(k, t.words), Row(l, t.words), t.skip);
  }

  lemma RowBound(t: Transfer, k: nat)
    requires Sane(t) && k < Total(t)
    ensures Row(k, t.words) < t.rows
  {
    var last := (t.rows - 1) * t.words + (t.words - 1);
    assert last == Total(t) - 1;
    RowOf(t.rows - 1, t.words - 1, t.words);
    RowOrder(k, last, t.words);
  }

  /** A transfer spans less than the 8 MB of DRAM. */
  lemma OffsetBound(t: Transfer, k: nat)
    requires Sane(t) && k < Total(t)
    ensures DramOffset(t, k) <= 4 * (Total(t) - 1) + SkippedAfter(t.rows - 1, t.skip) < DRAM_BYTES - 4
  {
    RowBound(t, k);
    SkippedOrder(Row(k, t.words), t.rows - 1, t.skip);
    SkippedBound(t.rows - 1, t.skip);
    MulOrder(t.words, 1024, t.rows);
  }

  /** Addresses at least a word apart, and less than the whole memory, fall into different words. */
  lemma WrappedApart(x: nat, y: nat, bytes: nat)
    requires bytes == SP_BYTES || bytes == DRAM_BYTES
    requires x + 4 <= y <= x + bytes - 4
    ensures Wrapped(x, bytes) != Wrapped(y, bytes)
  {
    var q, r := x / bytes, x % bytes;
    DivMod(x, bytes);
    var s := r + (y - x);
    if s < bytes { ModUnique(y, bytes, q, s); } else { ModUnique(y, bytes, q + 1, s - bytes); }
  }

  /** No two words of a transfer share a DRAM word, whatever the wrap and the skip. */
  lemma DramApart(t: Transfer, k: nat, l: nat)
    requires Sane(t) && k < Total(t) && l < Total(t) && k != l
    ensures DramIndex(t, k) != DramIndex(t, l)
  {
    var a, b := if k < l then k else l, if k < l then l else k;
    OffsetOrder(t, a, b);
    OffsetBound(t, b);
    WrappedApart(t.dram + DramOffset(t, a), t.dram + DramOffset(t, b), DRAM_BYTES);
  }

  lemma SpApart(t: Transfer, k: nat, l: nat)
    requires k < l < k + 2048
    ensures SpIndex(t, k) != SpIndex(t, l)
  {
    WrappedApart(t.sp + 4 * k, t.sp + 4 * l, SP_BYTES);
  }

  // ---------------------------------------------------------------- the effect of a transfer

  /** DRAM after the first `n` words of a DMA write. */
  function Written(t: Transfer, sp: SpMemory, rdram: Rdram, n: nat): Rdram
    requires Sane(t)
  {
    if n == 0 then rdram else Written(t, sp, rdram, n - 1)[DramIndex(t, n - 1) := sp[SpIndex(t, n - 1)]]
  }

  /** SP memory after the first `n` words of a DMA read. */
  function Stored(t: Transfer, sp: SpMemory, rdram: Rdram, n: nat): SpMemory
    requires Sane(t)
  {
    if n == 0 then sp else Stored(t, sp, rdram, n - 1)[SpIndex(t, n - 1) := rdram[DramIndex(t, n - 1)]]
  }

  /** The dirty bits set by one word. */
  function Marks(i: nat): set<nat> { if i >= 1024 then CodeCache.DirtyMask((i - 1024) / 64) else {} }

  function Dirtied(t: Transfer, dirty: set<nat>, n: nat): set<nat> {
    if n == 0 then dirty else Dirtied(t, dirty, n - 1) + Marks(SpIndex(t, n - 1))
  }

  /** Every word of a DMA write arrives. */
  lemma {:induction false} WrittenAt(t: Transfer, sp: SpMemory, rdram: Rdram, n: nat, k: nat)
    requires Sane(t) && k < n <= Total(t)
    ensures Written(t, sp, rdram, n)[DramIndex(t, k)] == sp[SpIndex(t, k)]
  {
    if k < n - 1 {
      WrittenAt(t, sp, rdram, n - 1, k);
      DramApart(t, k, n - 1);
    }
  }

  lemma {:induction false} WrittenElsewhere(t: Transfer, sp: SpMemory, rdram: Rdram, n: nat, i: nat)
    requires Sane(t) && i < 0x20_0000 && forall k: nat :: k < n ==> DramIndex(t, k) != i
    ensures Written(t, sp, rdram, n)[i] == rdram[i]
  {
    if n > 0 { WrittenElsewhere(t, sp, rdram, n - 1, i); }
  }

  /** A DMA read may pass over the same SP word again; the last word stored there stays. */
  lemma {:induction false} StoredAt(t: Transfer, sp: SpMemory, rdram: Rdram, n: nat, k: nat)
    requires Sane(t) && k < n <= k + 2048
    ensures Stored(t, sp, rdram, n)[SpIndex(t, k)] == rdram[DramIndex(t, k)]
  {
    if k < n - 1 {
      StoredAt(t, sp, rdram, n - 1, k);
      SpApart(t, k, n - 1);
    }
  }

  lemma {:induction false} StoredElsewhere(t: Transfer, sp: SpMemory, rdram: Rdram, n: nat, i: nat)
    requires Sane(t) && i < 2048 && forall k: nat :: k < n ==> SpIndex(t, k) != i
    ensures Stored(t, sp, rdram, n)[i] == sp[i]
  {
    if n > 0 { StoredElsewhere(t, sp, rdram, n - 1, i); }
  }

  /** A bit is set exactly when it was set, or a word went into its code block or the next one. */
  lemma {:induction false} DirtiedExact(t: Transfer, dirty: set<nat>, n: nat, b: nat)
    ensures b in Dirtied(t, dirty, n) <==> b in dirty || exists k: nat :: k < n && b in Marks(SpIndex(t, k))
  {
    if n > 0 { DirtiedExact(t, dirty, n - 1, b); }
  }

  /** Every IMEM word stored to lies in a code block whose own bit and predecessor's bit are set. */
  lemma DirtyCovers(t: Transfer, dirty: set<nat>, n: nat, k: nat)
    requires k < n && SpIndex(t, k) >= 1024
    ensures var block := (SpIndex(t, k) - 1024) / 64;
            block < CodeCache.CODE_BLOCKS && block in Dirtied(t, dirty, n) && (block > 0 ==> block - 1 in Dirtied(t, dirty, n))
  {
    var block := (SpIndex(t, k) - 1024) / 64;
    DirtiedExact(t, dirty, n, block);
    if block > 0 { DirtiedExact(t, dirty, n, block - 1); }
  }

  // ---------------------------------------------------------------- rows, from the fields of the length register

  /** A length register put together from its fields: the bytes of a row less one, the rows less one, the skip. */
  predicate LengthRegister(reg: Word, len: nat, c: nat, s: nat) {
    len < 4096 && c < 256 && s < 4096 && reg == s * 0x10_0000 + c * 0x1000 + len
  }

  /** len + 1 bytes, rounded up to eight, but not beyond the end of the DMEM or IMEM that holds `sp`. */
  function RowBytes(sp: Word, len: nat): (l: nat)
    requires len < 4096
    ensures l == 4096 - sp % 4096 || (l % 8 == 0 && len < l <= len + 8)
  {
    Min(len + 8 - len % 8, 4096 - sp % 4096)
  }

  /** The SP word of word `j` of row `i`: rows of `l` bytes follow each other, round the 8 KB. */
  function SpPlace(sp: Word, l: nat, i: nat, j: nat): (x: nat)
    ensures x < 2048
  {
    MulNonNegative(i, l);
    Wrapped(sp + i * l + 4 * j, SP_BYTES)
  }

  /** The DRAM word of word `j` of row `i`: rows start `l` bytes and the skip apart, round the 8 MB. */
  function DramPlace(dram: Word, l: nat, s: nat, i: nat, j: nat): (x: nat)
    ensures x < 0x20_0000
  {
    MulNonNegative(i, l + s);
    Wrapped(dram + i * (l + s) + 4 * j, DRAM_BYTES)
  }

  /** No later row passes over word `j` of row `i` again. */
  ghost predicate LastPass(sp: Word, l: nat, c: nat, i: nat, j: nat) {
    forall h: nat, m: nat :: i < h <= c && 4 * m < l ==> SpPlace(sp, l, h, m) != SpPlace(sp, l, i, j)
  }

  /** A read of rows 0 to `c`: what arrives in SP memory, and that nothing else changes there. */
  ghost predicate Received(sp: Word, dram: Word, l: nat, s: nat, c: nat, was: SpMemory, rdram: Rdram, now: SpMemory) {
    && (forall i: nat, j: nat :: i <= c && 4 * j < l && LastPass(sp, l, c, i, j) ==>
          now[SpPlace(sp, l, i, j)] == rdram[DramPlace(dram, l, s, i, j)])
    && (forall x: nat :: x < 2048 && (forall i: nat, j: nat :: i <= c && 4 * j < l ==> SpPlace(sp, l, i, j) != x) ==>
          now[x] == was[x])
  }

  /** A write of rows 0 to `c`: every word arrives in DRAM, and nothing else changes there. */
  ghost predicate Sent(sp: Word, dram: Word, l: nat, s: nat, c: nat, memory: SpMemory, was: Rdram, now: Rdram) {
    && (forall i: nat, j: nat :: i <= c && 4 * j < l ==> now[DramPlace(dram, l, s, i, j)] == memory[SpPlace(sp, l, i, j)])
    && (forall x: nat :: x < 0x20_0000 && (forall i: nat, j: nat :: i <= c && 4 * j < l ==> DramPlace(dram, l, s, i, j) != x) ==>
          now[x] == was[x])
  }

  /** The address registers behind the last row. */
  predicate Advanced(sp: Word, dram: Word, l: nat, s: nat, c: nat, cacheNow: Word, dramNow: Word) {
    cacheNow == (sp + (c + 1) * l) % TWO_32 && dramNow == (dram + (c + 1) * (l + s)) % TWO_32
  }

  lemma LengthFields(reg: Word, len: nat, c: nat, s: nat)
    requires LengthRegister(reg, len, c, s)
    ensures reg % 4096 == len && Count(reg) == c && Skip(reg) == s
  {
    ModUnique(reg, 4096, s * 256 + c, len);
    ModUnique(s * 256 + c, 256, s, c);
    ModUnique(reg, 0x10_0000, s, c * 0x1000 + len);
  }

  lemma LengthIs(reg: Word, len: nat, sp: Word)
    requires reg % 4096 == len
    ensures Clamp(sp, LengthBytes(reg)) == RowBytes(sp, len)
  {
    DivMod(len, 8);
    ModUnique(len + 8, 8, len / 8 + 1, len % 8);
  }

  /** What the fields of the length register say about the transfer. */
  lemma PlanFields(sp: Word, dram: Word, reg: Word, len: nat, c: nat, s: nat)
    requires sp % 4 == 0 && LengthRegister(reg, len, c, s)
    ensures var t := Plan(sp, dram, reg);
            Sane(t) && t.sp == sp && t.dram == dram - dram % 8 && 4 * t.words == RowBytes(sp, len) && t.skip == s && t.rows == c + 1
  {
    LengthFields(reg, len, c, s);
    LengthIs(reg, len, sp);
    PlanSane(sp, dram, reg);
    DivMod(dram, 8);
  }

  lemma {:induction false} SkippedIs(rows: nat, skip: nat)
    ensures SkippedAfter(rows, skip) == rows * skip
  {
    if rows > 0 {
      SkippedIs(rows - 1, skip);
      assert rows * skip == (rows - 1) * skip + skip;
    }
  }

  lemma ScaledRow(i: nat, words: nat, l: nat, s: nat)
    requires l == 4 * words
    ensures 4 * (i * words) == i * l && i * (l + s) == i * l + i * s
  {
    assert i * l == i * (4 * words) == 4 * (i * words);
  }

  /** Word `j` of row `i` is word `i * words + j` of the transfer, at both ends. */
  lemma Places(t: Transfer, l: nat, i: nat, j: nat)
    requires Sane(t) && l == 4 * t.words && j < t.words
    ensures i * t.words + j >= 0
    ensures SpIndex(t, i * t.words + j) == SpPlace(t.sp, l, i, j)
    ensures DramIndex(t, i * t.words + j) == DramPlace(t.dram, l, t.skip, i, j)
  {
    WordNumber(t, i, j);
    SkippedIs(i, t.skip);
    ScaledRow(i, t.words, l, t.skip);
  }

  lemma {:induction false} RowSplit(k: nat, words: nat)
    requires words > 0
    ensures 0 <= Row(k, words) * words <= k < Row(k, words) * words + words
  {
    if k >= words {
      RowSplit(k - words, words);
      var h := Row(k - words, words);
      assert (h + 1) * words == h * words + words;
    } else {
      assert 0 * words == 0;
    }
  }

  /** Every word of the transfer is a word of one of its rows. */
  lemma InSomeRow(t: Transfer, k: nat) returns (i: nat, j: nat)
    requires Sane(t) && k < Total(t)
    ensures i < t.rows && j < t.words && k == i * t.words + j
  {
    RowSplit(k, t.words);
    RowBound(t, k);
    i := Row(k, t.words);
    j := k - i * t.words;
  }

  lemma WordBelow(t: Transfer, i: nat, j: nat)
    requires Sane(t) && i < t.rows && j < t.words
    ensures 0 <= i * t.words + j < Total(t)
  {
    MulNonNegative(i, t.words);
    MulOrder(i + 1, t.rows, t.words);
    assert (i + 1) * t.words == i * t.words + t.words;
  }

  lemma {:induction false} StoredLast(t: Transfer, sp: SpMemory, rdram: Rdram, n: nat, k: nat)
    requires Sane(t) && k < n && forall l: nat :: k < l < n ==> SpIndex(t, l) != SpIndex(t, k)
    ensures Stored(t, sp, rdram, n)[SpIndex(t, k)] == rdram[DramIndex(t, k)]
  {
    if k < n - 1 { StoredLast(t, sp, rdram, n - 1, k); }
  }

  /** A later word of the transfer lies in the same row, or in a later one. */
  lemma LaterWord(t: Transfer, l: nat, c: nat, i: nat, j: nat, k: nat)
    requires Sane(t) && l == 4 * t.words && t.rows == c + 1 && j < t.words && LastPass(t.sp, l, c, i, j)
    requires 0 <= i * t.words + j < k < Total(t)
    ensures SpIndex(t, k) != SpIndex(t, i * t.words + j)
  {
    var h, m := InSomeRow(t, k);
    Places(t, l, h, m);
    Places(t, l, i, j);
    if h < i {
      MulGap(i, h, t.words);
    } else if h == i {
      SpApart(t, i * t.words + j, k);
    }
  }

  /** A DMA read moves the rows its length register describes. */
  lemma StoredReceived(t: Transfer, l: nat, c: nat, was: SpMemory, rdram: Rdram)
    requires Sane(t) && l == 4 * t.words && t.rows == c + 1
    ensures Received(t.sp, t.dram, l, t.skip, c, was, rdram, Stored(t, was, rdram, Total(t)))
  {
    var now := Stored(t, was, rdram, Total(t));
    forall i: nat, j: nat | i <= c && 4 * j < l && LastPass(t.sp, l, c, i, j)
      ensures now[SpPlace(t.sp, l, i, j)] == rdram[DramPlace(t.dram, l, t.skip, i, j)]
    {
      WordBelow(t, i, j);
      Places(t, l, i, j);
      var k := i * t.words + j;
      forall k': nat | k < k' < Total(t) ensures SpIndex(t, k') != SpIndex(t, k) { LaterWord(t, l, c, i, j, k'); }
      StoredLast(t, was, rdram, Total(t), k);
    }
    forall x: nat | x < 2048 && (forall i: nat, j: nat :: i <= c && 4 * j < l ==> SpPlace(t.sp, l, i, j) != x)
      ensures now[x] == was[x]
    {
      forall k: nat | k < Total(t) ensures SpIndex(t, k) != x {
        var i, j := InSomeRow(t, k);
        Places(t, l, i, j);
      }
      StoredElsewhere(t, was, rdram, Total(t), x);
    }
  }

  lemma WrittenSent(t: Transfer, l: nat, c: nat, memory: SpMemory, was: Rdram)
    requires Sane(t) && l == 4 * t.words && t.rows == c + 1
    ensures Sent(t.sp, t.dram, l, t.skip, c, memory, was, Written(t, memory, was, Total(t)))
  {
    var now := Written(t, memory, was, Total(t));
    forall i: nat, j: nat | i <= c && 4 * j < l
      ensures now[DramPlace(t.dram, l, t.skip, i, j)] == memory[SpPlace(t.sp, l, i, j)]
    {
      WordBelow(t, i, j);
      Places(t, l, i, j);
      WrittenAt(t, memory, was, Total(t), i * t.words + j);
    }
    forall x: nat | x < 0x20_0000 && (forall i: nat, j: nat :: i <= c && 4 * j < l ==> DramPlace(t.dram, l, t.skip, i, j) != x)
      ensures now[x] == was[x]
    {
      forall k: nat | k < Total(t) ensures DramIndex(t, k) != x {
        var i, j := InSomeRow(t, k);
        Places(t, l, i, j);
      }
      WrittenElsewhere(t, memory, was, Total(t), x);
    }
  }

  lemma RowsAdvanced(t: Transfer, l: nat, c: nat, cacheNow: Word, dramNow: Word)
    requires Sane(t) && l == 4 * t.words && t.rows == c + 1 && RowStart(t, t.rows, Total(t), dramNow, cacheNow)
    ensures Advanced(t.sp, t.dram, l, t.skip, c, cacheNow, dramNow)
  {
    SkippedIs(c + 1, t.skip);
    ScaledRow(c + 1, t.words, l, t.skip);
  }

  /** A finished DMA read, in terms of the fields of its length register; the SP address is forced to a multiple of eight. */
  ghost predicate ReadDone(cache: Word, dram: Word, reg: Word, was: SpMemory, rdram: Rdram, now: SpMemory, cacheNow: Word, dramNow: Word) {
    forall len: nat, c: nat, s: nat :: LengthRegister(reg, len, c, s) ==>
      var sp, from := cache - cache % 8, dram - dram % 8;
      Received(sp, from, RowBytes(sp, len), s, c, was, rdram, now) && Advanced(sp, from, RowBytes(sp, len), s, c, cacheNow, dramNow)
  }

  /** A finished DMA write; the SP address is forced to a multiple of four only. */
  ghost predicate WriteDone(cache: Word, dram: Word, reg: Word, memory: SpMemory, was: Rdram, now: Rdram, cacheNow: Word, dramNow: Word) {
    forall len: nat, c: nat, s: nat :: LengthRegister(reg, len, c, s) ==>
      var sp, to := cache - cache % 4, dram - dram % 8;
      Sent(sp, to, RowBytes(sp, len), s, c, memory, was, now) && Advanced(sp, to, RowBytes(sp, len), s, c, cacheNow, dramNow)
  }

  /** Every length register has fields. */
  lemma EveryLength(reg: Word)
    ensures LengthRegister(reg, reg % 4096, reg / 4096 % 256, reg / 0x10_0000)
  {
    var q := reg / 4096;
    assert q / 256 == reg / 0x10_0000;
  }

  /** A DMA read moves the rows its length register describes, and leaves the addresses behind them. */
  lemma ReadRegister(cache: Word, dram: Word, reg: Word, t: Transfer, was: SpMemory, rdram: Rdram, cacheNow: Word, dramNow: Word)
    requires t == ReadPlan(cache, dram, reg) && Sane(t) && RowStart(t, t.rows, Total(t), dramNow, cacheNow)
    ensures ReadDone(cache, dram, reg, was, rdram, Stored(t, was, rdram, Total(t)), cacheNow, dramNow)
  {
    Aligned(cache, 8);
    var sp, from, now := cache - cache % 8, dram - dram % 8, Stored(t, was, rdram, Total(t));
    forall len: nat, c: nat, s: nat | LengthRegister(reg, len, c, s)
      ensures Received(sp, from, RowBytes(sp, len), s, c, was, rdram, now) && Advanced(sp, from, RowBytes(sp, len), s, c, cacheNow, dramNow)
    {
      PlanFields(sp, dram, reg, len, c, s);
      ReadFields(t, sp, from, RowBytes(sp, len), s, c, was, rdram, cacheNow, dramNow);
    }
  }

  lemma ReadFields(t: Transfer, sp: Word, from: Word, l: nat, s: nat, c: nat, was: SpMemory, rdram: Rdram, cacheNow: Word, dramNow: Word)
    requires Sane(t) && t.sp == sp && t.dram == from && 4 * t.words == l && t.skip == s && t.rows == c + 1
    requires RowStart(t, t.rows, Total(t), dramNow, cacheNow)
    ensures Received(sp, from, l, s, c, was, rdram, Stored(t, was, rdram, Total(t))) && Advanced(sp, from, l, s, c, cacheNow, dramNow)
  {
    StoredReceived(t, l, c, was, rdram);
    RowsAdvanced(t, l, c, cacheNow, dramNow);
  }

  /** A DMA write does the same the other way round. */
  lemma WriteRegister(cache: Word, dram: Word, reg: Word, t: Transfer, memory: SpMemory, was: Rdram, cacheNow: Word, dramNow: Word)
    requires t == WritePlan(cache, dram, reg) && Sane(t) && RowStart(t, t.rows, Total(t), dramNow, cacheNow)
    ensures WriteDone(cache, dram, reg, memory, was, Written(t, memory, was, Total(t)), cacheNow, dramNow)
  {
    Aligned(cache, 4);
    var sp, to, now := cache - cache % 4, dram - dram % 8, Written(t, memory, was, Total(t));
    forall len: nat, c: nat, s: nat | LengthRegister(reg, len, c, s)
      ensures Sent(sp, to, RowBytes(sp, len), s, c, memory, was, now) && Advanced(sp, to, RowBytes(sp, len), s, c, cacheNow, dramNow)
    {
      PlanFields(sp, dram, reg, len, c, s);
      WriteFields(t, sp, to, RowBytes(sp, len), s, c, memory, was, cacheNow, dramNow);
    }
  }

  lemma WriteFields(t: Transfer, sp: Word, to: Word, l: nat, s: nat, c: nat, memory: SpMemory, was: Rdram, cacheNow: Word, dramNow: Word)
    requires Sane(t) && t.sp == sp && t.dram == to && 4 * t.words == l && t.skip == s && t.rows == c + 1
    requires RowStart(t, t.rows, Total(t), dramNow, cacheNow)
    ensures Sent(sp, to, l, s, c, memory, was, Written(t, memory, was, Total(t))) && Advanced(sp, to, l, s, c, cacheNow, dramNow)
  {
    WrittenSent(t, l, c, memory, was);
    RowsAdvanced(t, l, c, cacheNow, dramNow);
  }

  lemma Aligned(x: nat, n: nat)
    requires n > 0
    ensures x / n * n == x - x % n
  {
    DivMod(x, n);
  }

  // ---------------------------------------------------------------- the code cache sees every store

  /** The IMEM stores of a DMA read, in order, as steps of the code cache. */
  function ImemStores(t: Transfer, rdram: Rdram, n: nat): seq<CodeCache.Event>
    requires Sane(t)
  {
    if n == 0 then []
    else
      var i := SpIndex(t, n - 1);
      ImemStores(t, rdram, n - 1)
      + if i >= 1024 then [CodeCache.DmaWord(i - 1024, rdram[DramIndex(t, n - 1)])] else []
  }

  lemma {:induction false} RunAppend(hash: CodeCache.Hash, s: CodeCache.System, a: seq<CodeCache.Event>, e: CodeCache.Event)
    requires CodeCache.Run(hash, s, a).Some? && e.DmaWord? && CodeCache.Legal(CodeCache.Run(hash, s, a).value, e)
    ensures CodeCache.Run(hash, s, a + [e]) == Some(CodeCache.Next(hash, CodeCache.Run(hash, s, a).value, e))
    decreases |a|
  {
    if |a| > 0 {
      assert (a + [e])[1..] == a[1..] + [e];
      RunAppend(hash, CodeCache.Next(hash, s, a[0]), a[1..], e);
    }
  }

  /** A DMA read moves the code cache by legal steps to exactly the IMEM and the dirty bits it leaves. */
  lemma {:induction false} ReadIsARun(hash: CodeCache.Hash, s: CodeCache.System, t: Transfer, sp: SpMemory, rdram: Rdram, n: nat)
    requires Sane(t) && (s.phase.Active? || s.phase.Leaving?) && s.c.imem == sp[1024..]
    ensures var r := CodeCache.Run(hash, s, ImemStores(t, rdram, n));
            && r.Some? && (r.value.phase.Leaving? || r.value.phase == s.phase)
            && r.value.c == s.c.(imem := Stored(t, sp, rdram, n)[1024..], dirty := Dirtied(t, s.c.dirty, n))
  {
    if n > 0 {
      ReadIsARun(hash, s, t, sp, rdram, n - 1);
      var i, m := SpIndex(t, n - 1), Stored(t, sp, rdram, n - 1);
      var word := rdram[DramIndex(t, n - 1)];
      if i >= 1024 {
        RunAppend(hash, s, ImemStores(t, rdram, n - 1), CodeCache.DmaWord(i - 1024, word));
        assert m[i := word][1024..] == m[1024..][i - 1024 := word];
      } else {
        assert m[i := word][1024..] == m[1024..];
        assert ImemStores(t, rdram, n) == ImemStores(t, rdram, n - 1);
      }
    }
  }

  // ---------------------------------------------------------------- round trip

  /** SP memory after a DMA write and then a DMA read programmed with the same three values. */
  function WriteThenRead(cache: Word, dram: Word, reg: Word, sp: SpMemory, rdram: Rdram): SpMemory {
    var w, r := WritePlan(cache, dram, reg), ReadPlan(cache, dram, reg);
    PlansSane(cache, dram, reg);
    Stored(r, sp, Written(w, sp, rdram, Total(w)), Total(r))
  }

  lemma {:induction false} StoreSame(t: Transfer, sp: SpMemory, rdram: Rdram, n: nat)
    requires Sane(t) && forall k: nat :: k < n ==> rdram[DramIndex(t, k)] == sp[SpIndex(t, k)]
    ensures Stored(t, sp, rdram, n) == sp
  {
    if n > 0 { StoreSame(t, sp, rdram, n - 1); }
  }

  /** Whenever the SP address is not in the upper half of its eight bytes, all of DMEM and IMEM is restored. */
  lemma RoundTrip(cache: Word, dram: Word, reg: Word, sp: SpMemory, rdram: Rdram)
    requires cache % 8 < 4
    ensures WriteThenRead(cache, dram, reg, sp, rdram) == sp
  {
    PlansSane(cache, dram, reg);
    LowerHalf(cache);
    RestoresRows(ReadPlan(cache, dram, reg), sp, rdram);
  }

  lemma LowerHalf(cache: Word)
    requires cache % 8 < 4
    ensures cache / 4 * 4 == cache / 8 * 8
  {
  }

  /** Reading back the rows just written changes nothing. */
  lemma RestoresRows(t: Transfer, sp: SpMemory, rdram: Rdram)
    requires Sane(t)
    ensures Stored(t, sp, Written(t, sp, rdram, Total(t)), Total(t)) == sp
  {
    var saved := Written(t, sp, rdram, Total(t));
    forall k: nat | k < Total(t) ensures saved[DramIndex(t, k)] == sp[SpIndex(t, k)] {
      WrittenAt(t, sp, rdram, Total(t), k);
    }
    StoreSame(t, sp, saved, Total(t));
  }

  lemma RestoresSaved(cache: Word, dram: Word, reg: Word, sp: SpMemory, rdram: Rdram)
    requires cache % 8 < 4
    ensures var w, r := WritePlan(cache, dram, reg), ReadPlan(cache, dram, reg);
            Sane(w) && Sane(r) && Stored(r, sp, Written(w, sp, rdram, Total(w)), Total(r)) == sp
  {
    PlansSane(cache, dram, reg);
    RoundTrip(cache, dram, reg, sp, rdram);
  }

  lemma Masked(sp: Word)
    ensures sp % 0x2000 % 8 == sp % 8
  {
  }

  /** SP memory in which every word holds its own index, and a DRAM that holds none of those values. */
  function Numbered(): (sp: SpMemory)
    ensures forall i: nat :: i < 2048 ==> sp[i] == i
  {
    seq(2048, i requires 0 <= i < 2048 => i)
  }

  function Flat(): (rdram: Rdram)
    ensures forall i: nat :: i < 0x20_0000 ==> rdram[i] == 5000
  {
    seq(0x20_0000, _ => 5000)
  }

  lemma UpperHalf(cache: Word)
    requires cache % 8 >= 4
    ensures cache / 4 * 4 == cache / 8 * 8 + 4
  {
  }

  /** The write starts one word above the read, and clamps one word earlier when the row reaches the end. */
  lemma ShiftedPlans(cache: Word, dram: Word, reg: Word)
    requires cache % 8 >= 4
    ensures var w, r := WritePlan(cache, dram, reg), ReadPlan(cache, dram, reg);
            && w.sp == r.sp + 4 && w.dram == r.dram && w.skip == r.skip && w.rows == r.rows
            && (w.words == r.words || w.words + 1 == r.words)
  {
    UpperHalf(cache);
    ShiftedPlan(cache / 8 * 8, dram, reg);
  }

  lemma ShiftedPlan(sp: Word, dram: Word, reg: Word)
    requires sp % 8 == 0 && sp + 4 < TWO_32
    ensures var w, r := Plan(sp + 4, dram, reg).words, Plan(sp, dram, reg).words; w == r || w + 1 == r
  {
    LengthFacts(reg);
    ShiftedWords(sp, LengthBytes(reg));
  }

  lemma ShiftedWords(sp: Word, length: nat)
    requires sp % 8 == 0 && sp + 4 < TWO_32 && length % 8 == 0 && 8 <= length <= 4096
    ensures var w, r := Clamp(sp + 4, length) / 4, Clamp(sp, length) / 4; w == r || w + 1 == r
  {
    ShiftedClamp(sp, length);
  }

  lemma ShiftedClamp(sp: Word, length: nat)
    requires sp % 8 == 0 && sp + 4 < TWO_32 && length % 8 == 0 && 8 <= length <= 4096
    ensures Clamp(sp + 4, length) == Clamp(sp, length) || Clamp(sp + 4, length) + 4 == Clamp(sp, length)
  {
    assert (sp + 4) % 4096 == sp % 4096 + 4;
  }

  /** The SP words of two transfers that start one word apart. */
  lemma NextSpWord(w: Transfer, r: Transfer, k: nat)
    requires w.sp == r.sp + 4
    ensures SpIndex(w, k) == SpIndex(r, k + 1) != SpIndex(r, k)
  {
    SpApart(r, k, k + 1);
  }

  /** When the write clamped earlier, it never reaches the DRAM word the read ends on. */
  lemma BeyondWrite(w: Transfer, r: Transfer, k: nat)
    requires Sane(w) && Sane(r) && w.dram == r.dram && w.skip == r.skip && w.rows == r.rows && w.words + 1 == r.words
    requires k < Total(w)
    ensures DramIndex(w, k) != DramIndex(r, Total(r) - 1)
  {
    var last := Total(r) - 1;
    assert Total(r) == Total(w) + w.rows;
    OffsetBound(w, k);
    OffsetBound(r, last);
    LastRow(r);
    WrappedApart(w.dram + DramOffset(w, k), r.dram + DramOffset(r, last), DRAM_BYTES);
  }

  lemma LastRow(t: Transfer)
    requires Sane(t)
    ensures Total(t) > 0 && DramOffset(t, Total(t) - 1) == 4 * (Total(t) - 1) + SkippedAfter(t.rows - 1, t.skip)
  {
    MulOrder(1, t.rows, t.words);
    assert t.words * t.rows - 1 == (t.rows - 1) * t.words + (t.words - 1);
    RowOf(t.rows - 1, t.words - 1, t.words);
  }

  /** What the read fetches last is not what SP memory held there. */
  lemma LastWordWrong(w: Transfer, r: Transfer)
    requires Sane(w) && Sane(r) && w.sp == r.sp + 4 && w.dram == r.dram && w.skip == r.skip && w.rows == r.rows
    requires w.words == r.words || w.words + 1 == r.words
    ensures Total(r) > 0
    ensures Written(w, Numbered(), Flat(), Total(w))[DramIndex(r, Total(r) - 1)] != SpIndex(r, Total(r) - 1)
  {
    LastRow(r);
    var last := Total(r) - 1;
    if w.words == r.words {
      WrittenAt(w, Numbered(), Flat(), Total(w), last);
      NextSpWord(w, r, last);
    } else {
      forall k: nat | k < Total(w) ensures DramIndex(w, k) != DramIndex(r, last) {
        BeyondWrite(w, r, k);
      }
      WrittenElsewhere(w, Numbered(), Flat(), Total(w), DramIndex(r, last));
    }
  }

  /** In the upper half the round trip loses data, whatever the length, the skip and the DRAM address. */
  lemma RoundTripFails(cache: Word, dram: Word, reg: Word)
    requires cache % 8 >= 4
    ensures WriteThenRead(cache, dram, reg, Numbered(), Flat()) != Numbered()
  {
    var w, r := WritePlan(cache, dram, reg), ReadPlan(cache, dram, reg);
    PlansSane(cache, dram, reg);
    ShiftedPlans(cache, dram, reg);
    LastWordWrong(w, r);
    StoredAt(r, Numbered(), Written(w, Numbered(), Flat(), Total(w)), Total(r), Total(r) - 1);
  }

  /** The round trip is safe for every memory content exactly when the SP address is below four modulo eight. */
  lemma RoundTripExact(cache: Word, dram: Word, reg: Word)
    ensures (forall sp: SpMemory, rdram: Rdram :: WriteThenRead(cache, dram, reg, sp, rdram) == sp) <==> cache % 8 < 4
  {
    if cache % 8 < 4 {
      forall sp: SpMemory, rdram: Rdram ensures WriteThenRead(cache, dram, reg, sp, rdram) == sp {
        RoundTrip(cache, dram, reg, sp, rdram);
      }
    } else {
      RoundTripFails(cache, dram, reg);
    }
  }

  // ---------------------------------------------------------------- the engine

  /** A 32-bit running address modulo a memory size is the exact address modulo that size. */
  lemma RunningAddress(exact: nat, running: Word, j: nat, bytes: nat)
    requires running == exact % TWO_32 && (bytes == SP_BYTES || bytes == DRAM_BYTES)
    ensures (running + j) % TWO_32 % bytes == (exact + j) % bytes
  {
    DivMod(exact, TWO_32);
    DivMod(running + j, TWO_32);
    var q, p := exact / TWO_32, (running + j) / TWO_32;
    var x := (running + j) % TWO_32;
    assert exact + j == x + (q + p) * TWO_32;
    if bytes == SP_BYTES {
      ModShift(x, bytes, (q + p) * 0x8_0000);
    } else {
      ModShift(x, bytes, (q + p) * 512);
    }
  }

  lemma RunningStep(exact: nat, running: Word, d: nat)
    requires running == exact % TWO_32
    ensures (running + d) % TWO_32 == (exact + d) % TWO_32
  {
    DivMod(exact, TWO_32);
    ModShift(running + d, TWO_32, exact / TWO_32);
  }

  /** Word `j` of row `i` is word `i * words + j` of the transfer. */
  lemma WordNumber(t: Transfer, i: nat, j: nat)
    requires Sane(t) && j < t.words
    ensures i * t.words + j >= 0
    ensures DramOffset(t, i * t.words + j) == 4 * (i * t.words) + SkippedAfter(i, t.skip) + 4 * j
  {
    RowOf(i, j, t.words);
  }

  /** An SP address as DMEM or IMEM word and as code block. */
  lemma SpAddress(address: nat, i: nat)
    requires address == 4 * i && i < 2048
    ensures address < 0x1000 <==> i < 1024
    ensures i < 1024 ==> address / 4 == i
    ensures i >= 1024 ==> address % 0x1000 / 4 == i - 1024 && address % 0x1000 / 256 == (i - 1024) / 64
  {
  }

  lemma Quarter(i: nat)
    ensures 4 * i / 4 == i
  {
  }

  lemma FirstRow(t: Transfer)
    ensures RowStart(t, 0, 0, t.dram, t.sp)
  {
    assert 0 * t.words == 0;
  }

  class Engine {
    const dmem: array<Word>
    const imem: array<Word>
    const rdram: array<Word>
    var dirty: set<nat>
    var cache: Word
    var dram: Word
    var readLength: Word
    var writeLength: Word

    ghost predicate Valid()
      reads this
    {
      && dmem.Length == imem.Length == 1024 && rdram.Length == 0x20_0000
      && dmem != imem && dmem != rdram && imem != rdram
    }

    ghost function Sp(): SpMemory
      reads this, dmem, imem
      requires Valid()
    {
      dmem[..] + imem[..]
    }

    ghost function Dram(): Rdram
      reads this, rdram
      requires Valid()
    {
      rdram[..]
    }

    /** One word into SP memory; a word of IMEM marks its code block and the one before. */
    method StoreWord(address: nat, word: Word, ghost i: nat)
      requires Valid() && address == 4 * i && i < 2048
      modifies this`dirty, dmem, imem
      ensures Valid() && Sp() == old(Sp())[i := word] && dirty == old(dirty) + Marks(i)
    {
      SpAddress(address, i);
      if address >= 0x1000 {
        var block := address % 0x1000 / 256;
        dirty := dirty + CodeCache.DirtyMask(block);
        imem[address % 0x1000 / 4] := word;
      } else {
        dmem[address / 4] := word;
      }
    }

    method LoadWord(address: nat, ghost i: nat) returns (word: Word)
      requires Valid() && address == 4 * i && i < 2048
      ensures word == Sp()[i]
    {
      SpAddress(address, i);
      if address >= 0x1000 {
        word := imem[address % 0x1000 / 4];
      } else {
        word := dmem[address / 4];
      }
    }

    /** Word `k` of a read, at byte `j` of its row. */
    method ReadWord(source: Word, dest: Word, j: nat, ghost t: Transfer, ghost first: nat, ghost k: nat)
      requires Valid() && Sane(t) && IsRow(t, first, source, dest) && first <= k < first + t.words && j == 4 * (k - first)
      modifies this`dirty, dmem, imem
      ensures Dram() == old(Dram())
      ensures Sp() == old(Sp())[SpIndex(t, k) := Dram()[DramIndex(t, k)]] && dirty == old(dirty) + Marks(SpIndex(t, k))
    {
      RowAddresses(t, first, source, dest, k);
      var sourceAddress := (source + j) % TWO_32 % DRAM_BYTES / 4 * 4;
      var destAddress := (dest + j) % TWO_32 % SP_BYTES / 4 * 4;
      Quarter(DramIndex(t, k));
      StoreWord(destAddress, rdram[sourceAddress / 4], SpIndex(t, k));
    }

    /** Word `k` of a write. */
    method WriteWord(source: Word, dest: Word, j: nat, ghost t: Transfer, ghost first: nat, ghost k: nat)
      requires Valid() && Sane(t) && IsRow(t, first, dest, source) && first <= k < first + t.words && j == 4 * (k - first)
      modifies rdram
      ensures Dram() == old(Dram())[DramIndex(t, k) := Sp()[SpIndex(t, k)]]
    {
      RowAddresses(t, first, dest, source, k);
      var sourceAddress := (source + j) % TWO_32 % SP_BYTES / 4 * 4;
      var destAddress := (dest + j) % TWO_32 % DRAM_BYTES / 4 * 4;
      Quarter(DramIndex(t, k));
      var word := LoadWord(sourceAddress, SpIndex(t, k));
      rdram[destAddress / 4] := word;
    }

    /** The inner loop of a read: the row that starts with word `first` of the transfer. */
    method ReadRow(source: Word, dest: Word, length: nat, ghost t: Transfer, ghost first: nat, ghost sp: SpMemory, ghost was: set<nat>)
      requires Valid() && Sane(t) && length == 4 * t.words && IsRow(t, first, source, dest)
      requires Sp() == Stored(t, sp, Dram(), first) && dirty == Dirtied(t, was, first)
      modifies this`dirty, dmem, imem
      ensures Sp() == Stored(t, sp, Dram(), first + t.words) && dirty == Dirtied(t, was, first + t.words)
    {
      var j: nat := 0;
      ghost var k: nat := first;
      while j < length
        invariant j == 4 * (k - first) && first <= k <= first + t.words
        invariant Dram() == old(Dram())
        invariant Sp() == Stored(t, sp, Dram(), k) && dirty == Dirtied(t, was, k)
      {
        ReadWord(source, dest, j, t, first, k);
        j, k := j + 4, k + 1;
      }
    }

    /** The inner loop of a write. */
    method WriteRow(source: Word, dest: Word, length: nat, ghost t: Transfer, ghost first: nat, ghost was: Rdram)
      requires Valid() && Sane(t) && length == 4 * t.words && IsRow(t, first, dest, source)
      requires Dram() == Written(t, Sp(), was, first)
      modifies rdram
      ensures Dram() == Written(t, Sp(), was, first + t.words)
    {
      var j: nat := 0;
      ghost var k: nat := first;
      while j < length
        invariant j == 4 * (k - first) && first <= k <= first + t.words
        invariant Dram() == Written(t, Sp(), was, k)
      {
        WriteWord(source, dest, j, t, first, k);
        j, k := j + 4, k + 1;
      }
    }

    /** The outer loop of a read, with the addresses it ends on. */
    method ReadRows(from: Word, to: Word, length: nat, skip: nat, count: nat, ghost t: Transfer)
      returns (source: Word, dest: Word)
      requires Valid() && Sane(t) && length == 4 * t.words && skip == t.skip && count + 1 == t.rows
      requires RowStart(t, 0, 0, from, to)
      modifies this`dirty, dmem, imem
      ensures Sp() == Stored(t, old(Sp()), Dram(), Total(t)) && dirty == Dirtied(t, old(dirty), Total(t))
      ensures RowStart(t, t.rows, Total(t), source, dest)
    {
      source, dest := from, to;
      var i: nat := 0;
      ghost var k: nat := 0;
      while i <= count
        invariant i <= count + 1 && RowStart(t, i, k, source, dest)
        invariant Sp() == Stored(t, old(Sp()), Dram(), k) && dirty == Dirtied(t, old(dirty), k)
      {
        NextRow(t, i, k, source, dest);
        ReadRow(source, dest, length, t, k, old(Sp()), old(dirty));
        source := (source + length + skip) % TWO_32;
        dest := (dest + length) % TWO_32;
        i, k := i + 1, k + t.words;
      }
      RowsDone(t, i, k);
    }

    /** The outer loop of a write. */
    method WriteRows(from: Word, to: Word, length: nat, skip: nat, count: nat, ghost t: Transfer)
      returns (source: Word, dest: Word)
      requires Valid() && Sane(t) && length == 4 * t.words && skip == t.skip && count + 1 == t.rows
      requires RowStart(t, 0, 0, to, from)
      modifies rdram
      ensures Dram() == Written(t, Sp(), old(Dram()), Total(t))
      ensures RowStart(t, t.rows, Total(t), dest, source)
    {
      source, dest := from, to;
      var i: nat := 0;
      ghost var k: nat := 0;
      while i <= count
        invariant i <= count + 1 && RowStart(t, i, k, dest, source)
        invariant Dram() == Written(t, Sp(), old(Dram()), k)
      {
        NextRow(t, i, k, dest, source);
        WriteRow(source, dest, length, t, k, old(Dram()));
        source := (source + length) % TWO_32;
        dest := (dest + length + skip) % TWO_32;
        i, k := i + 1, k + t.words;
      }
      RowsDone(t, i, k);
    }

    /** The fields of a length register, the alignment it forces and the clamped length. */
    method Prepare(reg: Word, start: Word) returns (length: nat, skip: nat, count: nat, ghost t: Transfer)
      requires start % 4 == 0
      modifies this`cache, this`dram
      ensures t == Plan(start, old(dram), reg) && Sane(t) && RowStart(t, 0, 0, dram, cache)
      ensures length == 4 * t.words && skip == t.skip && count + 1 == t.rows
    {
      t := Plan(start, dram, reg);
      PlanSane(start, dram, reg);
      FirstRow(t);
      length, skip, count := LengthBytes(reg), Skip(reg), Count(reg);
      cache := start;
      dram := dram / 8 * 8;
      length := Clamp(cache, length);
    }

    /** `rsp_dma_read`. */
    method DmaRead() returns (mode: nat)
      requires Valid()
      modifies this, dmem, imem
      ensures Valid() && readLength == 0xff8 && writeLength == old(writeLength)
      ensures var t := ReadPlan(old(cache), old(dram), old(readLength));
              && Sane(t) && Sp() == Stored(t, old(Sp()), Dram(), Total(t))
              && dirty == Dirtied(t, old(dirty), Total(t)) && RowStart(t, t.rows, Total(t), dram, cache)
      ensures ReadDone(old(cache), old(dram), old(readLength), old(Sp()), Dram(), Sp(), cache, dram)
      ensures mode == if dirty == {} then MODE_CONTINUE else MODE_CHECK_FLAGS
    {
      var length, skip, count, t := Prepare(readLength, cache / 8 * 8);
      dram, cache := ReadRows(dram, cache, length, skip, count, t);
      ReadRegister(old(cache), old(dram), old(readLength), t, old(Sp()), Dram(), cache, dram);
      readLength := 0xff8;
      mode := if dirty != {} then MODE_CHECK_FLAGS else MODE_CONTINUE;
    }

    /** `rsp_dma_write`. */
    method DmaWrite()
      requires Valid()
      modifies this`cache, this`dram, this`writeLength, rdram
      ensures Valid() && writeLength == 0xff8
      ensures var t := WritePlan(old(cache), old(dram), old(writeLength));
              && Sane(t) && Dram() == Written(t, Sp(), old(Dram()), Total(t))
              && RowStart(t, t.rows, Total(t), dram, cache)
      ensures WriteDone(old(cache), old(dram), old(writeLength), Sp(), old(Dram()), Dram(), cache, dram)
    {
      var length, skip, count, t := Prepare(writeLength, cache / 4 * 4);
      cache, dram := WriteRows(cache, dram, length, skip, count, t);
      WriteRegister(old(cache), old(dram), old(writeLength), t, Sp(), old(Dram()), cache, dram);
      writeLength := 0xff8;
    }

    /** `RSP_MTC0` for the four DMA registers; writing a length register starts the transfer. */
    method MoveToCop0(rd: nat, value: Word) returns (mode: nat)
      requires Valid() && rd % 16 < 4
      modifies this, dmem, imem, rdram
      ensures Valid()
      ensures rd % 16 == 0 ==> cache == value % 0x2000 && dram == old(dram) && Sp() == old(Sp()) && Dram() == old(Dram())
      ensures rd % 16 == 1 ==> dram == value % 0x100_0000 && cache == old(cache) && Sp() == old(Sp()) && Dram() == old(Dram())
      ensures rd % 16 == 2 ==> var t := ReadPlan(old(cache), old(dram), value);
                && Sane(t) && Sp() == Stored(t, old(Sp()), Dram(), Total(t)) && Dram() == old(Dram())
                && dirty == Dirtied(t, old(dirty), Total(t))
                && ReadDone(old(cache), old(dram), value, old(Sp()), Dram(), Sp(), cache, dram)
      ensures rd % 16 == 3 ==> var t := WritePlan(old(cache), old(dram), value);
                && Sane(t) && Dram() == Written(t, Sp(), old(Dram()), Total(t)) && Sp() == old(Sp())
                && WriteDone(old(cache), old(dram), value, Sp(), old(Dram()), Dram(), cache, dram)
      ensures rd % 16 != 2 ==> dirty == old(dirty)
      ensures mode == if rd % 16 == 2 && dirty != {} then MODE_CHECK_FLAGS else MODE_CONTINUE
    {
      mode := MODE_CONTINUE;
      match rd % 16 {
        case 0 => cache := value % 0x2000;
        case 1 => dram := value % 0x100_0000;
        case 2 =>
          readLength := value;
          mode := DmaRead();
        case 3 =>
          writeLength := value;
          DmaWrite();
      }
    }

    /** The program sets both addresses and starts a write. */
    method Save(sp: Word, address: Word, length: Word)
      requires Valid()
      modifies this, dmem, imem, rdram
      ensures Valid() && Sp() == old(Sp())
      ensures var t := WritePlan(sp % 0x2000, address % 0x100_0000, length);
              Sane(t) && Dram() == Written(t, Sp(), old(Dram()), Total(t))
    {
      var _ := MoveToCop0(0, sp);
      var _ := MoveToCop0(1, address);
      var _ := MoveToCop0(3, length);
    }

    /** The program sets both addresses and starts a read. */
    method Restore(sp: Word, address: Word, length: Word)
      requires Valid()
      modifies this, dmem, imem, rdram
      ensures Valid() && Dram() == old(Dram())
      ensures var t := ReadPlan(sp % 0x2000, address % 0x100_0000, length);
              Sane(t) && Sp() == Stored(t, old(Sp()), Dram(), Total(t))
    {
      var _ := MoveToCop0(0, sp);
      var _ := MoveToCop0(1, address);
      var _ := MoveToCop0(2, length);
    }

    /** Saving SP memory to DRAM and loading it back with the same three values changes nothing in it. */
    method SaveAndRestore(sp: Word, address: Word, length: Word)
      requires Valid() && sp % 8 < 4
      modifies this, dmem, imem, rdram
      ensures Valid() && Sp() == old(Sp())
    {
      Save(sp, address, length);
      Restore(sp, address, length);
      Masked(sp);
      RestoresSaved(sp % 0x2000, address % 0x100_0000, length, old(Sp()), old(Dram()));
    }
  }

  /** The 32-bit running addresses at the start of the row whose first word is number `first`. */
  predicate IsRow(t: Transfer, first: nat, dram: Word, sp: Word)
    requires Sane(t)
  {
    && sp == (t.sp + 4 * first) % TWO_32
    && dram == (t.dram + DramOffset(t, first)) % TWO_32
    && forall k: nat :: first <= k < first + t.words ==> DramOffset(t, k) == DramOffset(t, first) + 4 * (k - first)
  }

  lemma RowAddresses(t: Transfer, first: nat, dram: Word, sp: Word, k: nat)
    requires Sane(t) && IsRow(t, first, dram, sp) && first <= k < first + t.words
    ensures (dram + 4 * (k - first)) % TWO_32 % DRAM_BYTES / 4 * 4 == 4 * DramIndex(t, k)
    ensures (sp + 4 * (k - first)) % TWO_32 % SP_BYTES / 4 * 4 == 4 * SpIndex(t, k)
  {
    RunningAddress(t.dram + DramOffset(t, first), dram, 4 * (k - first), DRAM_BYTES);
    RunningAddress(t.sp + 4 * first, sp, 4 * (k - first), SP_BYTES);
  }

  /** The addresses in front of row `i`, whose first word is number `k`. */
  predicate RowStart(t: Transfer, i: nat, k: nat, dram: Word, sp: Word) {
    && k == i * t.words && sp == (t.sp + 4 * k) % TWO_32
    && dram == (t.dram + 4 * k + SkippedAfter(i, t.skip)) % TWO_32
  }

  lemma RowsDone(t: Transfer, i: nat, k: nat)
    requires Sane(t) && i == t.rows && k == i * t.words
    ensures k == Total(t)
  {
  }

  lemma NextRow(t: Transfer, i: nat, k: nat, dram: Word, sp: Word)
    requires Sane(t) && RowStart(t, i, k, dram, sp)
    ensures IsRow(t, k, dram, sp)
    ensures RowStart(t, i + 1, k + t.words, (dram + 4 * t.words + t.skip) % TWO_32, (sp + 4 * t.words) % TWO_32)
  {
    RowOffsets(t, i, k);
    NextProduct(i, t.words);
    RunningStep(t.dram + 4 * k + SkippedAfter(i, t.skip), dram, 4 * t.words + t.skip);
    RunningStep(t.sp + 4 * k, sp, 4 * t.words);
  }

  lemma RowOffsets(t: Transfer, i: nat, k: nat)
    requires Sane(t) && k == i * t.words
    ensures forall l: nat :: k <= l < k + t.words ==> DramOffset(t, l) == 4 * k + SkippedAfter(i, t.skip) + 4 * (l - k)
  {
    forall l: nat | k <= l < k + t.words ensures DramOffset(t, l) == 4 * k + SkippedAfter(i, t.skip) + 4 * (l - k) {
      WordNumber(t, i, l - k);
    }
  }

  lemma NextProduct(i: nat, w: nat)
    ensures (i + 1) * w == i * w + w
  {
  }
}
