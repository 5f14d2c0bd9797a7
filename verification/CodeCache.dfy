/**
  The cache of compiled blocks and its invalidation (rsp_jit.cpp, with the dirty
  marking of rsp/cp0.cpp and the calling order of parallel.cpp): whatever the
  host, the DMA engine and the program do, a block that is looked up is the one
  compiling the current IMEM would produce.
 */
module CodeCache {
  import opened Wrappers
  import opened Isa
  import opened BlockCompiler
  import opened DelaySlots
  import opened StaticEnd

  const CODE_BLOCKS := 16

  /** A compiled block; `jit_region` is determined by the entry and the words it was given. */
  datatype Func = Func(pc: Addr, words: seq<Word>)

  type Blocks = s: seq<Option<Func>> | |s| == 1024 witness seq(1024, _ => None)
  type Table = s: seq<map<int, Func>> | |s| == 1024 witness seq(1024, _ => map[])

  /** `hash_imem` of a region, left uninterpreted. */
  type Hash = (int, seq<Word>) -> int

  datatype Cache = Cache(imem: Imem, cachedImem: Imem, blocks: Blocks, cachedBlocks: Table, dirty: set<nat>)

  // ---------------------------------------------------------------- dirty bits

  /** The bits of a mask shifted left by `i` and then right by one. */
  function ShiftMask(mask: set<nat>, i: nat): set<nat> {
    set b: nat | b in mask && b + i >= 1 :: b + i - 1
  }

  /** (0x3 << i) >> 1: a change in code block i concerns blocks that start in i or in i - 1. */
  function DirtyMask(i: nat): (m: set<nat>)
    ensures forall b: nat :: b in m <==> b == i || b + 1 == i
  {
    ShiftMask({0, 1}, i)
  }

  // ---------------------------------------------------------------- operations

  /** The words of code block `k`. */
  function Chunk(m: Imem, k: nat): seq<Word>
    requires k < CODE_BLOCKS
  {
    m[64 * k..64 * k + 64]
  }

  function Changed(c: Cache, k: nat): bool
    requires k < CODE_BLOCKS
  {
    Chunk(c.cachedImem, k) != Chunk(c.imem, k)
  }

  /** Bits for every code block below `n` that the host has changed. */
  function ChangedBits(c: Cache, n: nat): set<nat>
    requires n <= CODE_BLOCKS
  {
    if n == 0 then {} else ChangedBits(c, n - 1) + if Changed(c, n - 1) then DirtyMask(n - 1) else {}
  }

  function ImemInvalidated(c: Cache): Cache {
    c.(dirty := c.dirty + ChangedBits(c, CODE_BLOCKS))
  }

  function CodeInvalidated(c: Cache): Cache {
    c.(blocks := seq(1024, w requires 0 <= w < 1024 => if w / 64 in c.dirty then None else c.blocks[w]),
       cachedImem := seq(1024, w requires 0 <= w < 1024 => if w / 64 in c.dirty then c.imem[w] else c.cachedImem[w]),
       dirty := {})
  }

  /** What compiling `m` at `w` produces. */
  function Compile(m: Imem, w: Addr): Func {
    BlockEndFacts(m, w);
    Func(w, m[w..BlockEnd(m, w)])
  }

  /** `get_jit_block`: the table of compiled regions is consulted by hash before compiling. */
  function Lookup(hash: Hash, c: Cache, w: Addr): Cache {
    if c.blocks[w].Some? then c
    else
      var f := Compile(c.imem, w);
      var h := hash(w, f.words);
      if h in c.cachedBlocks[w] then c.(blocks := c.blocks[w := Some(c.cachedBlocks[w][h])])
      else c.(blocks := c.blocks[w := Some(f)], cachedBlocks := c.cachedBlocks[w := c.cachedBlocks[w][h := f]])
  }

  /** One IMEM word stored by the DMA engine. */
  function DmaStore(c: Cache, w: Addr, word: Word): Cache {
    c.(imem := c.imem[w := word], dirty := c.dirty + DirtyMask(w / 64))
  }

  function HostStore(c: Cache, w: Addr, word: Word): Cache {
    c.(imem := c.imem[w := word])
  }

  // ---------------------------------------------------------------- runs

  datatype Event =
    | HostWrite(w: Addr, word: Word)   // the emulated CPU writes IMEM while the RSP is not running
    | BeginCycles                      // DoRspCycles: invalidate_imem
    | BeginRun                         // CPU::run: invalidate_code
    | Fetch(w: Addr)                   // the enter thunk looks a block up
    | DmaWord(w: Addr, word: Word)     // a DMA read stores to IMEM; its status ends the run
    | EndRun                           // any other exit from the recompiled program
    | EndCycles                        // DoRspCycles returns

  datatype Phase = Idle | Ready | Active | Leaving

  datatype System = System(phase: Phase, c: Cache)

  /** The order in which `DoRspCycles` and `run` let things happen. */
  predicate Legal(s: System, e: Event) {
    match e
    case HostWrite(_, _) => s.phase.Idle?
    case BeginCycles => s.phase.Idle?
    case BeginRun => s.phase.Ready? || s.phase.Leaving?
    case Fetch(_) => s.phase.Active?
    case DmaWord(_, _) => s.phase.Active? || s.phase.Leaving?
    case EndRun => s.phase.Active?
    case EndCycles => s.phase.Ready? || s.phase.Leaving?
  }

  function Next(hash: Hash, s: System, e: Event): System {
    match e
    case HostWrite(w, word) => s.(c := HostStore(s.c, w, word))
    case BeginCycles => System(Ready, ImemInvalidated(s.c))
    case BeginRun => System(Active, CodeInvalidated(s.c))
    case Fetch(w) => s.(c := Lookup(hash, s.c, w))
    case DmaWord(w, word) => System(Leaving, DmaStore(s.c, w, word))
    case EndRun => s.(phase := Leaving)
    case EndCycles => s.(phase := Idle)
  }

  /** No region compiled earlier for `w` has other words but the same hash as the region needed now. */
  predicate NoCollision(hash: Hash, c: Cache, w: Addr) {
    var words, table := Compile(c.imem, w).words, c.cachedBlocks[w];
    forall k :: k in table && hash(w, table[k].words) == hash(w, words) ==> table[k].words == words
  }

  /** The system after a legal run of `events` in which no lookup that misses `blocks` collides, or nothing. */
  function Run(hash: Hash, s: System, events: seq<Event>): Option<System>
    decreases |events|
  {
    if |events| == 0 then Some(s)
    else
      var e := events[0];
      if Legal(s, e) && (e.Fetch? ==> Safe(hash, s.c, e.w)) then Run(hash, Next(hash, s, e), events[1..]) else None
  }

  predicate Safe(hash: Hash, c: Cache, w: Addr) { c.blocks[w].None? ==> NoCollision(hash, c, w) }

  /** A fresh CPU attached to any IMEM. */
  predicate Fresh(s: System) {
    s.phase.Idle? && s.c.dirty == {} && (forall w: Addr :: s.c.blocks[w].None? && s.c.cachedBlocks[w] == map[])
  }

  // ---------------------------------------------------------------- coherence

  /** Every block is what compiling the remembered IMEM would give. */
  predicate BlocksOf(c: Cache, m: Imem) {
    forall w: Addr :: c.blocks[w].Some? ==> c.blocks[w].value == Compile(m, w)
  }

  /** Wherever the remembered IMEM is out of date, the code block and its predecessor are marked. */
  predicate Marked(c: Cache) {
    forall w: Addr :: c.cachedImem[w] != c.imem[w] ==> forall b: nat :: b in DirtyMask(w / 64) ==> b in c.dirty
  }

  /** Every entry of the table is filed under its own address and the hash of its own words. */
  predicate TableFiled(hash: Hash, c: Cache) {
    forall w: Addr, h: int :: h in c.cachedBlocks[w] ==>
      c.cachedBlocks[w][h].pc == w && hash(w, c.cachedBlocks[w][h].words) == h
  }

  predicate Inv(hash: Hash, s: System) {
    && TableFiled(hash, s.c)
    && BlocksOf(s.c, s.c.cachedImem)
    && (!s.phase.Idle? ==> Marked(s.c))
    && (s.phase.Active? ==> s.c.dirty == {} && s.c.cachedImem == s.c.imem)
  }

  /** A block only depends on the code block it starts in and the next one. */
  lemma CompileLocal(a: Imem, b: Imem, w: Addr)
    requires forall v: Addr :: v / 64 == w / 64 || v / 64 == w / 64 + 1 ==> a[v] == b[v]
    ensures Compile(a, w) == Compile(b, w)
  {
    var end := WindowEnd(4 * w);
    WindowFacts(w);
    BlockEndFacts(a, w);
    assert a[w..end] == b[w..end];
    ScanLocal(a, b, w, end, w, w);
  }

  lemma {:induction false} ChangedBitsCover(c: Cache, n: nat, k: nat)
    requires k < n <= CODE_BLOCKS && Changed(c, k)
    ensures DirtyMask(k) <= ChangedBits(c, n)
  {
    if k < n - 1 { ChangedBitsCover(c, n - 1, k); }
  }

  /** Comparing chunk by chunk marks every place where the host has written. */
  lemma InvalidateImemMarks(c: Cache)
    ensures Marked(ImemInvalidated(c))
  {
    forall w: Addr, b: nat | c.cachedImem[w] != c.imem[w] && b in DirtyMask(w / 64)
      ensures b in ImemInvalidated(c).dirty
    {
      var k := w / 64;
      assert Chunk(c.cachedImem, k)[w - 64 * k] != Chunk(c.imem, k)[w - 64 * k];
      ChangedBitsCover(c, CODE_BLOCKS, k);
    }
  }

  /** Dropping the marked blocks leaves only blocks whose two code blocks did not change. */
  lemma InvalidateCodeRestores(c: Cache)
    requires BlocksOf(c, c.cachedImem) && Marked(c)
    ensures var d := CodeInvalidated(c);
            d.cachedImem == d.imem && BlocksOf(d, d.cachedImem)
  {
    var d := CodeInvalidated(c);
    forall w: Addr ensures d.cachedImem[w] == d.imem[w] {
      assert w / 64 in DirtyMask(w / 64);
    }
    forall w: Addr | d.blocks[w].Some? ensures d.blocks[w].value == Compile(d.cachedImem, w) {
      forall v: Addr | v / 64 == w / 64 || v / 64 == w / 64 + 1 ensures c.cachedImem[v] == d.cachedImem[v] {
        assert w / 64 in DirtyMask(v / 64);
      }
      CompileLocal(c.cachedImem, d.cachedImem, w);
    }
  }

  lemma {:induction false} ChangedBitsExact(c: Cache, n: nat, b: nat)
    requires n <= CODE_BLOCKS
    ensures b in ChangedBits(c, n) <==> (b < n && Changed(c, b)) || (b + 1 < n && Changed(c, b + 1))
  {
    if n > 0 { ChangedBitsExact(c, n - 1, b); }
  }

  /** The host has written a word of code block `k` that differs from the remembered one. */
  predicate Differs(c: Cache, k: nat) { exists v: Addr :: v / 64 == k && c.cachedImem[v] != c.imem[v] }

  lemma ChangedDiffers(c: Cache, k: nat)
    requires k < CODE_BLOCKS
    ensures Changed(c, k) <==> Differs(c, k)
  {
    if Differs(c, k) {
      var v: Addr :| v / 64 == k && c.cachedImem[v] != c.imem[v];
      assert Chunk(c.cachedImem, k)[v - 64 * k] != Chunk(c.imem, k)[v - 64 * k];
    } else {
      forall i | 0 <= i < 64 ensures Chunk(c.cachedImem, k)[i] == Chunk(c.imem, k)[i] {
        var v: Addr := 64 * k + i;
        assert v / 64 == k;
      }
    }
  }

  /**
    Invalidation is no coarser than its code blocks: at the start of a run a block
    is dropped exactly when its bit was set, or a word of its own or of the next
    code block differs from the remembered IMEM; the table of compiled regions and
    IMEM itself stay.
   */
  lemma InvalidationExact(hash: Hash, s: System, w: Addr)
    ensures var c, d := s.c, Next(hash, Next(hash, s, BeginCycles), BeginRun).c;
            && d.blocks[w] == (if w / 64 in c.dirty || Differs(c, w / 64) || Differs(c, w / 64 + 1) then None else c.blocks[w])
            && d.cachedBlocks == c.cachedBlocks && d.imem == c.imem && d.dirty == {}
  {
    ChangedBitsExact(s.c, CODE_BLOCKS, w / 64);
    ChangedDiffers(s.c, w / 64);
    if w / 64 + 1 < CODE_BLOCKS { ChangedDiffers(s.c, w / 64 + 1); }
  }

  /** A compiled block covers the words from its entry to the first place where the code closes in its window of two code blocks. */
  lemma CompileCovers(m: Imem, w: Addr)
    ensures var f := Compile(m, w);
            var r := w + |f.words|;
            && f.pc == w && r <= 1024 && f.words == m[w..r]
            && IsFirstEnd(m, w, if w < 960 then (w / 64 + 2) * 64 else 1024, r)
  {
    WindowFacts(w);
    StaticEndLeast(m, w, WindowEnd(4 * w));
  }

  /** A hit in the table is right, unless the hash collides. */
  lemma TableHit(hash: Hash, c: Cache, w: Addr)
    requires TableFiled(hash, c)
    ensures var f := Compile(c.imem, w);
            var h := hash(w, f.words);
            NoCollision(hash, c, w) <==> (h in c.cachedBlocks[w] ==> c.cachedBlocks[w][h] == f)
  {
  }

  lemma LookupKeepsInv(hash: Hash, s: System, w: Addr)
    requires Inv(hash, s) && s.phase.Active? && Safe(hash, s.c, w)
    ensures Inv(hash, Next(hash, s, Fetch(w)))
  {
    TableHit(hash, s.c, w);
  }

  lemma StepKeepsInv(hash: Hash, s: System, e: Event)
    requires Inv(hash, s) && Legal(s, e) && (e.Fetch? ==> Safe(hash, s.c, e.w))
    ensures Inv(hash, Next(hash, s, e))
  {
    match e
    case BeginCycles => InvalidateImemMarks(s.c);
    case BeginRun => InvalidateCodeRestores(s.c);
    case Fetch(w) => LookupKeepsInv(hash, s, w);
    case _ =>
  }

  lemma {:induction false} RunKeepsInv(hash: Hash, s: System, events: seq<Event>)
    requires Inv(hash, s) && Run(hash, s, events).Some?
    ensures Inv(hash, Run(hash, s, events).value)
    decreases |events|
  {
    if |events| > 0 {
      StepKeepsInv(hash, s, events[0]);
      RunKeepsInv(hash, Next(hash, s, events[0]), events[1..]);
    }
  }

  /**
    Code-cache coherence over every run: start from a fresh CPU with any IMEM and
    let the host, the DMA engine and the program interleave in any legal way.  At
    every lookup the block handed out, and every other block in the cache, is what
    compiling the current IMEM produces, provided that no region compiled earlier
    for that address has other words and the same hash.
   */
  lemma CoherentLookup(hash: Hash, s: System, events: seq<Event>, w: Addr)
    requires Fresh(s) && Run(hash, s, events).Some?
    requires var t := Run(hash, s, events).value; t.phase.Active? && Safe(hash, t.c, w)
    ensures var c := Lookup(hash, Run(hash, s, events).value.c, w);
            c.blocks[w] == Some(Compile(c.imem, w)) && BlocksOf(c, c.imem)
  {
    RunKeepsInv(hash, s, events);
    var t := Run(hash, s, events).value;
    StepKeepsInv(hash, t, Fetch(w));
  }

  /** The hypothesis on the hash is exact: a lookup that misses `blocks` goes wrong precisely when the hash collides. */
  lemma LookupExact(hash: Hash, s: System, w: Addr)
    requires Inv(hash, s) && s.phase.Active?
    ensures Lookup(hash, s.c, w).blocks[w] == Some(Compile(s.c.imem, w)) <==> Safe(hash, s.c, w)
  {
    TableHit(hash, s.c, w);
  }

  // ---------------------------------------------------------------- what a collision does

  /** The host changes the first `n` words of IMEM to those of `m`. */
  function HostWrites(m: Imem, n: nat): (es: seq<Event>)
    requires n <= 1024
    ensures |es| == n
  {
    if n == 0 then [] else HostWrites(m, n - 1) + [HostWrite(n - 1, m[n - 1])]
  }

  lemma {:induction false} RunConcat(hash: Hash, s: System, a: seq<Event>, b: seq<Event>)
    requires Run(hash, s, a).Some?
    ensures Run(hash, s, a + b) == Run(hash, Run(hash, s, a).value, b)
    decreases |a|
  {
    if |a| == 0 {
      assert a + b == b;
    } else {
      assert (a + b)[1..] == a[1..] + b;
      RunConcat(hash, Next(hash, s, a[0]), a[1..], b);
    }
  }

  /** One step, as a run. */
  lemma RunOne(hash: Hash, s: System, e: Event)
    requires Legal(s, e) && (e.Fetch? ==> Safe(hash, s.c, e.w))
    ensures Run(hash, s, [e]) == Some(Next(hash, s, e))
  {
    assert Run(hash, Next(hash, s, e), []) == Some(Next(hash, s, e));
  }

  lemma {:induction false} HostWritesRun(hash: Hash, s: System, m: Imem, n: nat)
    requires s.phase.Idle? && n <= 1024
    ensures Run(hash, s, HostWrites(m, n)) == Some(s.(c := s.c.(imem := m[..n] + s.c.imem[n..])))
  {
    if n == 0 {
      assert m[..0] + s.c.imem[0..] == s.c.imem;
    } else {
      HostWritesRun(hash, s, m, n - 1);
      var t := s.(c := s.c.(imem := m[..n - 1] + s.c.imem[n - 1..]));
      RunConcat(hash, s, HostWrites(m, n - 1), [HostWrite(n - 1, m[n - 1])]);
      RunOne(hash, t, HostWrite(n - 1, m[n - 1]));
      assert (m[..n - 1] + s.c.imem[n - 1..])[n - 1 := m[n - 1]] == m[..n] + s.c.imem[n..];
    }
  }

  /** The CPU compiles a block at `w`, stops, the host installs other code and the CPU runs again. */
  function Reload(m: Imem, w: Addr): seq<Event> {
    [BeginCycles] + [BeginRun] + [Fetch(w)] + [EndRun] + [EndCycles] + HostWrites(m, 1024) + [BeginCycles] + [BeginRun]
  }

  /** Where each part of that run leads. */
  lemma FirstVisit(hash: Hash, s: System, w: Addr)
    requires Fresh(s)
    ensures var run := Run(hash, s, [BeginCycles] + [BeginRun] + [Fetch(w)] + [EndRun] + [EndCycles]);
            && run.Some? && Inv(hash, run.value) && run.value.phase.Idle? && run.value.c.imem == s.c.imem == run.value.c.cachedImem
            && run.value.c.cachedBlocks[w] == map[hash(w, Compile(s.c.imem, w).words) := Compile(s.c.imem, w)]
  {
    var a := Next(hash, s, BeginCycles);
    var b := Next(hash, a, BeginRun);
    RunOne(hash, s, BeginCycles);
    RunOne(hash, a, BeginRun);
    RunConcat(hash, s, [BeginCycles], [BeginRun]);
    VisitBlock(hash, s, b, w);
    StepKeepsInv(hash, s, BeginCycles);
    StepKeepsInv(hash, a, BeginRun);
    RunConcat(hash, s, [BeginCycles] + [BeginRun], [Fetch(w)]);
    var d := Next(hash, b, Fetch(w));
    StepKeepsInv(hash, b, Fetch(w));
    RunOne(hash, d, EndRun);
    RunConcat(hash, s, [BeginCycles] + [BeginRun] + [Fetch(w)], [EndRun]);
    var e := Next(hash, d, EndRun);
    RunOne(hash, e, EndCycles);
    RunConcat(hash, s, [BeginCycles] + [BeginRun] + [Fetch(w)] + [EndRun], [EndCycles]);
  }

  lemma VisitBlock(hash: Hash, s: System, b: System, w: Addr)
    requires Fresh(s) && b == Next(hash, Next(hash, s, BeginCycles), BeginRun)
    ensures b.phase.Active? && b.c.imem == s.c.imem && b.c.blocks[w].None? && Safe(hash, b.c, w)
    ensures Run(hash, b, [Fetch(w)]) == Some(Next(hash, b, Fetch(w)))
    ensures Next(hash, b, Fetch(w)).c.cachedBlocks[w] == map[hash(w, Compile(s.c.imem, w).words) := Compile(s.c.imem, w)]
  {
    RunOne(hash, b, Fetch(w));
  }

  /**
    A collision between the regions two memories have at one address is enough to
    break coherence: there is a legal run of a fresh CPU, with no collision before
    its last lookup, in which that lookup hands out the block of the old memory.
   */
  lemma CollisionServesStale(hash: Hash, s: System, m: Imem, w: Addr)
    requires Fresh(s)
    requires var f, g := Compile(s.c.imem, w), Compile(m, w); f != g && hash(w, f.words) == hash(w, g.words)
    ensures var run := Run(hash, s, Reload(m, w));
            && run.Some? && run.value.phase.Active? && run.value.c.imem == m
            && Lookup(hash, run.value.c, w).blocks[w] == Some(Compile(s.c.imem, w)) && Compile(s.c.imem, w) != Compile(m, w)
  {
    var first := [BeginCycles] + [BeginRun] + [Fetch(w)] + [EndRun] + [EndCycles];
    FirstVisit(hash, s, w);
    var a := Run(hash, s, first).value;
    HostWritesRun(hash, a, m, 1024);
    assert m[..1024] + a.c.imem[1024..] == m;
    RunConcat(hash, s, first, HostWrites(m, 1024));
    var b := a.(c := a.c.(imem := m));
    RunOne(hash, b, BeginCycles);
    RunConcat(hash, s, first + HostWrites(m, 1024), [BeginCycles]);
    var d := Next(hash, b, BeginCycles);
    RunOne(hash, d, BeginRun);
    RunConcat(hash, s, first + HostWrites(m, 1024) + [BeginCycles], [BeginRun]);
    StaleLookup(hash, a, m, w);
  }

  /** The second run finds `blocks` empty at `w`, since the words differ, and takes the old entry from the table. */
  lemma StaleLookup(hash: Hash, a: System, m: Imem, w: Addr)
    requires Inv(hash, a) && a.phase.Idle? && a.c.cachedImem == a.c.imem
    requires var f, g := Compile(a.c.imem, w), Compile(m, w);
             && f != g && hash(w, f.words) == hash(w, g.words) && a.c.cachedBlocks[w] == map[hash(w, f.words) := f]
    ensures var t := Next(hash, Next(hash, a.(c := a.c.(imem := m)), BeginCycles), BeginRun);
            t.c.imem == m && t.phase.Active? && Lookup(hash, t.c, w).blocks[w] == Some(Compile(a.c.imem, w))
  {
    var b := a.(c := a.c.(imem := m));
    StepKeepsInv(hash, b, BeginCycles);
    StepKeepsInv(hash, Next(hash, b, BeginCycles), BeginRun);
    var t := Next(hash, Next(hash, b, BeginCycles), BeginRun);
    assert t.c.blocks[w] == None || t.c.blocks[w] == a.c.blocks[w];
  }

  /** For instance: with a hash that is always zero, changing the first word of a block is never noticed. */
  lemma ConstantHashFails(s: System, m: Imem, w: Addr)
    requires Fresh(s) && s.c.imem[w] != m[w]
    ensures var hash := (pc: int, words: seq<Word>) => 0;
            var run := Run(hash, s, Reload(m, w));
            run.Some? && run.value.c.imem == m && Lookup(hash, run.value.c, w).blocks[w] == Some(Compile(s.c.imem, w))
            && Compile(s.c.imem, w) != Compile(m, w)
  {
    BlockEndFacts(s.c.imem, w);
    BlockEndFacts(m, w);
    assert Compile(s.c.imem, w).words[0] != Compile(m, w).words[0];
    CollisionServesStale((pc: int, words: seq<Word>) => 0, s, m, w);
  }

  lemma LabelsLocal(a: Imem, b: Imem, lo: nat, hi: nat, t: nat)
    requires lo <= hi <= 1024 && a[lo..hi] == b[lo..hi]
    ensures Labelled(a, lo, hi, t) == Labelled(b, lo, hi, t)
  {
    forall p | lo <= p < hi ensures a[p] == b[p] {
      assert a[p] == a[lo..hi][p - lo] == b[lo..hi][p - lo];
    }
  }

  /** The words of a region determine its code, so a `Func` stands for one block of code. */
  lemma WordsDetermineCode(a: Imem, b: Imem, lo: nat, hi: nat)
    requires Region(lo, hi) && a[lo..hi] == b[lo..hi]
    ensures RegionCode(a, lo, hi) == RegionCode(b, lo, hi)
  {
    forall t ensures Labelled(a, lo, hi, t) == Labelled(b, lo, hi, t) {
      LabelsLocal(a, b, lo, hi, t);
    }
    forall p | lo <= p < hi ensures a[p] == b[p] {
      assert a[p] == a[lo..hi][p - lo] == b[lo..hi][p - lo];
    }
    var x, y := RegionCode(a, lo, hi), RegionCode(b, lo, hi);
    forall i | 0 <= i < hi - lo ensures x.segments[i] == y.segments[i] {
      SegmentAt(a, lo, hi, lo + i);
      SegmentAt(b, lo, hi, lo + i);
    }
  }

  // ---------------------------------------------------------------- the cache as it is mutated

  /** The fields of `CPU` that make up the cache, and the IMEM it is attached to. */
  class Cpu {
    const imem: array<Word>
    const cachedImem: array<Word>
    const blocks: array<Option<Func>>
    const cachedBlocks: array<map<int, Func>>
    var dirty: set<nat>

    ghost predicate Valid()
      reads this
    {
      imem.Length == cachedImem.Length == blocks.Length == cachedBlocks.Length == 1024 && imem != cachedImem
    }

    ghost function View(): Cache
      reads this, imem, cachedImem, blocks, cachedBlocks
      requires Valid()
    {
      Cache(imem[..], cachedImem[..], blocks[..], cachedBlocks[..], dirty)
    }

    constructor (m: array<Word>)
      requires m.Length == 1024
      ensures Valid() && imem == m && Fresh(System(Idle, View()))
    {
      imem := m;
      cachedImem := new Word[1024](_ => 0);
      blocks := new Option<Func>[1024](_ => None);
      cachedBlocks := new map<int, Func>[1024](_ => map[]);
      dirty := {};
    }

    method InvalidateImem()
      requires Valid()
      modifies this`dirty
      ensures Valid() && View() == ImemInvalidated(old(View()))
    {
      ghost var c := View();
      var i := 0;
      while i < CODE_BLOCKS
        invariant 0 <= i <= CODE_BLOCKS
        invariant dirty == c.dirty + ChangedBits(c, i)
      {
        if cachedImem[64 * i..64 * i + 64] != imem[64 * i..64 * i + 64] {
          dirty := dirty + DirtyMask(i);
        }
        i := i + 1;
      }
    }

    method InvalidateCode()
      requires Valid()
      modifies this`dirty, blocks, cachedImem
      ensures Valid() && View() == CodeInvalidated(old(View()))
    {
      ghost var c := View();
      if dirty == {} {
        assert View().blocks == CodeInvalidated(c).blocks;
        assert View().cachedImem == CodeInvalidated(c).cachedImem;
        return;
      }
      var i := 0;
      while i < CODE_BLOCKS
        invariant 0 <= i <= CODE_BLOCKS && dirty == c.dirty
        invariant forall w :: 0 <= w < 1024 ==> blocks[w] == if w < 64 * i && w / 64 in c.dirty then None else c.blocks[w]
        invariant forall w :: 0 <= w < 1024 ==>
                    cachedImem[w] == if w < 64 * i && w / 64 in c.dirty then c.imem[w] else c.cachedImem[w]
        invariant imem[..] == c.imem
      {
        if i in dirty {
          forall w | 64 * i <= w < 64 * i + 64 { blocks[w] := None; }
          forall w | 64 * i <= w < 64 * i + 64 { cachedImem[w] := imem[w]; }
        }
        i := i + 1;
      }
      dirty := {};
    }

    method GetJitBlock(hash: Hash, pc: nat) returns (f: Func)
      requires Valid()
      modifies blocks, cachedBlocks
      ensures Valid() && View() == Lookup(hash, old(View()), WordOf(pc))
      ensures View().blocks[WordOf(pc)] == Some(f)
    {
      var w: nat := WordOf(pc);
      if blocks[w].Some? { return blocks[w].value; }
      ghost var c := View();
      WindowFacts(w);
      WindowOfBytes(pc);
      var end := WindowEnd(pc % 4096);
      end := AnalyzeStaticEnd(imem[..], w, end);
      StaticEndClosed(imem[..], w, WindowEnd(4 * w));
      var words := imem[w..end];
      var h := hash(w, words);
      if h in cachedBlocks[w] {
        f := cachedBlocks[w][h];
      } else {
        f := Func(w, words);
        cachedBlocks[w] := cachedBlocks[w][h := f];
      }
      blocks[w] := Some(f);
      assert imem[..][w..end] == words;
    }
  }

  /** The window does not depend on the two low bits of the fetch address. */
  lemma WindowOfBytes(pc: nat)
    ensures WindowEnd(pc % 4096) == WindowEnd(4 * WordOf(pc))
  {
  }
}
