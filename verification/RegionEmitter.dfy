/**
  Compiling a region as the compiler performs it (rsp_jit.cpp, `jit_region` over
  `jit_instruction` and the delay-slot code), on the register cache itself.  Every
  assertion in the cache is a precondition of the call it guards, so these methods
  show that no program makes one fail; and what they emit is the code of
  `LowProgram`, whose meaning is proved there.
 */
module RegionEmitter {
  import opened Arithmetic
  import opened Wrappers
  import opened Isa
  import opened HostWords
  import opened RegisterCache
  import opened RegisterWindow
  import opened ScalarCode
  import opened MemoryCode
  import opened BranchRegisters
  import opened BranchCode
  import opened Decoder
  import opened LowCode
  import opened LowRelation
  import opened LowBranch
  import opened LowTails
  import opened LowRegion
  import opened LowProgram
  import E = Emitter
  import B = BlockCompiler
  import D = DelaySlots
  import R = RegionBuilder
  import HostBytes

  // ---------------------------------------------------------------- a host state for any cache

  function Zeros(n: nat): (s: seq<Guest>)
    ensures |s| == n && forall i :: 0 <= i < n ==> s[i] == 0
  {
    if n == 0 then [] else Zeros(n - 1) + [0]
  }

  function Blank(n: nat): Native<()> {
    Native(Host(Zeros(n), Zeros(33), HostBytes.MemView(seq(4096, _ => 0)), 0, RegisterCache.Control(0, 0, 0, 0, 0)), ())
  }

  function BlankHost(): Abstract<()> {
    B.Host(Machine(Zeros(32), Rest(HostBytes.MemView(HostBytes.MemView(seq(4096, _ => 0))), ())), 0, 0, 0, 0, 0, 0, 0, 0, 0, 0, 0)
  }

  /** Between instructions the cache is one that some host state is represented under. */
  ghost predicate Ready(c: Cache) { Starting(c) && Rel(c.entries, Blank(|c.entries|), BlankHost()) }

  /** If the cache represents any state at all, it represents the one in which everything is zero. */
  lemma AnyIsReady(d: Cache, h0: RegisterCache.Host, g: File)
    requires Leaves(d, h0, g)
    ensures Ready(Restarted(d))
  {
    var es, zero, h := d.entries, FileIn(BlankHost()), HostAt(d, h0);
    forall i | 0 <= i < |es| && es[i].live ensures RegisterCache.Holds(es[i], 0, zero) {
      assert RegisterCache.Holds(es[i], h.regs[i], g);
    }
  }

  lemma FreshReady(n: nat)
    requires n >= 3
    ensures Ready(Cache(Fresh(n), 0, []))
  {
    FreshIsDead(n);
    DeadRel(Fresh(n), Blank(n), BlankHost());
  }

  lemma ReadyLeaves(c: Cache)
    requires Ready(c)
    ensures Leaves(c, Blank(|c.entries|).core, FileIn(BlankHost())) && CondSmall(FileIn(BlankHost()))
  {
    ToLeaves(c, Blank(|c.entries|), BlankHost());
  }

  // ---------------------------------------------------------------- branches

  method JitTest(w: Window, cond: Cond, rs: nat, rt: nat, ghost h0: RegisterCache.Host, ghost g: File)
    requires Leaves(w.Value(), h0, g) && rs < 32 && rt < 32
    modifies w, w.entries
    ensures w.Value() == EmitTest(old(w.Value()), cond, rs, rt)
  {
    if ComparesPair(cond) {
      E.JitPair(w, TestOf(cond), Signed, COND_BRANCH_TAKEN, rs, rt, h0, g);
    } else {
      ImmediateOperand(TestOf(cond), 0);
      E.JitImmediate(w, TestOf(cond), Signed, COND_BRANCH_TAKEN, rs, 0, 0, h0, g);
    }
  }

  method JitLink(w: Window, link: nat, p: nat, ghost h0: RegisterCache.Host, ghost g: File) returns (ghost g': File)
    requires Leaves(w.Value(), h0, g) && link < 32
    modifies w, w.entries
    ensures w.Value() == LinkCache(old(w.Value()), link, p) && Leaves(w.Value(), h0, g')
  {
    g' := g;
    if link != 0 {
      ConstantCorrect(w.Value(), link, LinkValue(p), h0, g);
      g' := WithReg(g, link, LinkValue(p));
      E.JitConstant(w, link, LinkValue(p), h0, g);
    }
  }

  method JitJumpRegister(w: Window, rs: nat, link: nat, p: nat, v: Guest, ghost h0: RegisterCache.Host, ghost g: File)
    requires Leaves(w.Value(), h0, g) && rs < 32 && link < 32
    modifies w, w.entries
    ensures w.Value() == EmitConstant(LinkCache(SaveIndirect(old(w.Value()), rs), link, p), COND_BRANCH_TAKEN, v)
  {
    E.JitSaveIndirect(w, rs, h0, g);
    ghost var g1 := JitLink(w, link, p, h0, g);
    E.JitConstant(w, COND_BRANCH_TAKEN, v, h0, g1);
  }

  method JitConditional(w: Window, cond: Cond, rs: nat, rt: nat, link: nat, p: nat, ghost h0: RegisterCache.Host, ghost g: File)
    requires Leaves(w.Value(), h0, g) && rs < 32 && rt < 32 && link < 32
    modifies w, w.entries
    ensures w.Value() == LinkCache(EmitTest(old(w.Value()), cond, rs, rt), link, p)
  {
    TestCorrect(w.Value(), cond, rs, rt, h0, g);
    JitTest(w, cond, rs, rt, h0, g);
    ghost var g1 := JitLink(w, link, p, h0, WithReg(g, COND_BRANCH_TAKEN, if Isa.Holds(cond, g[rs], g[rt]) then 1 else 0));
  }

  method JitBranch(w: Window, word: Word, p: nat, next: bool, ghost h0: RegisterCache.Host, ghost g: File)
    requires Leaves(w.Value(), h0, g) && CondSmall(g) && ChangesFlow(Classify(word))
    modifies w, w.entries
    ensures w.Value() == BranchCache(word, p, next, old(w.Value()))
  {
    match Classify(word) {
      case JumpRegister(link) => JitJumpRegister(w, Rs(word), link, p, CondValue(next), h0, g);
      case Jump(link) =>
        if link == 0 { E.JitConstant(w, COND_BRANCH_TAKEN, CondValue(next), h0, g); }
        else { E.JitLinkAndCondition(w, link, LinkValue(p), CondValue(next), h0, g); }
      case Branch(cond, link) =>
        if !(Rs(word) == 0 && (cond.LessEqualZero? || cond.GreaterZero?)) {
          JitConditional(w, cond, Rs(word), Rt(word), link, p, h0, g);
        }
    }
  }

  /** A branch that follows a branch first saves what that has left. */
  method JitFlow(w: Window, word: Word, p: nat, last: B.Info, next: bool)
    requires Ready(w.Value()) && ChangesFlow(Classify(word))
    modifies w, w.entries
    ensures w.Value() == FlowCache(word, p, last, next, old(w.Value())) && Ready(Restarted(w.Value()))
  {
    ghost var c, low, h := w.Value(), Blank(w.entries.Length), BlankHost();
    ReadyLeaves(c);
    StartDone(c, low, h);
    SpillBeforeDone(last, c, low, h);
    FlowDone(word, p, last, next, c, low, h);
    if last.branch && last.conditional { E.JitSpillCondition(w, low.core, FileIn(h)); }
    if last.branch && last.indirect { w.code := w.code + [Transfer(SpilledPc, IndirectPc)]; }
    JitBranch(w, word, p, next, low.core, FileIn(D.Flushed(last, h)));
    AnyIsReady(w.Value(), low.core, FileIn(D.AfterBranch(word, p, last, next, h)));
  }

  // ---------------------------------------------------------------- straight words

  /** Before a call: the caller-saved registers, then the register the call uses. */
  method JitCallFlush(w: Window, touched: Option<nat>, callerSave: nat, ghost h0: RegisterCache.Host, ghost g: File)
    requires Leaves(w.Value(), h0, g) && (touched.Some? ==> touched.value < 32) && callerSave <= w.entries.Length
    modifies w, w.entries
    ensures w.Value() == FlushForCall(old(w.Value()), touched, callerSave)
  {
    E.CanFlush(w.Value(), 0, callerSave, h0, g);
    FlushStep(w.Value(), callerSave, h0, g);
    w.FlushRange(0, callerSave);
    if touched.Some? {
      E.CanFlush(w.Value(), 0, w.entries.Length, h0, g);
      w.FlushMipsRegister(touched.value);
    }
  }

  method JitPlain(w: Window, word: Word, callerSave: nat)
    requires Ready(w.Value()) && callerSave <= w.entries.Length
    modifies w, w.entries
    ensures w.Value() == PlainCache(word, old(w.Value()), callerSave)
  {
    ghost var low, h := Blank(w.entries.Length), BlankHost();
    ReadyLeaves(w.Value());
    DecodeLegal(word);
    match Decode(word) {
      case Exact(i) => E.JitInstruction(w, i, callerSave, low.core, ScalarState(FileIn(h), h.m.rest.dmem));
      case Call(touched) => JitCallFlush(w, touched, callerSave, low.core, FileIn(h));
      case Nothing =>
    }
  }

  /** What the called functions do does not matter to what is compiled. */
  function NoCalls(): Calls<()> {
    Calls((w: Word, v: Guest, r: Rest<()>) => 0, (w: Word, v: Guest, r: Rest<()>) => r,
          (w: Word, m: Machine<Rest<()>>) => m, (w: Word, m: Machine<Rest<()>>) => 0)
  }

  lemma PlainReady(w: Word, c: Cache, callerSave: nat)
    requires Ready(c)
    ensures Ready(Restarted(PlainCache(w, c, callerSave)))
  {
    var low, h := Blank(|c.entries|), BlankHost();
    var d, l, a := Restarted(PlainCache(w, c, callerSave)), PlainNative(NoCalls(), w, c, callerSave, low), h.(m := PlainStep(NoCalls(), w, h.m));
    PlainLowered(NoCalls(), w, c, callerSave, low, h);
    ToLeaves(d, l, a);
    AnyIsReady(d, l.core, FileIn(a));
  }

  // ---------------------------------------------------------------- one instruction

  /** The cache after the code of an instruction, that code included. */
  function WordCache(word: Word, pc: nat, last: B.Info, next: bool, c: Cache, callerSave: nat): Cache {
    match Classify(word)
    case Straight => PlainCache(word, c, callerSave)
    case Cop0 => FlushRegisterWindow(c)
    case Break => FlushRegisterWindow(c)
    case _ => FlowCache(word, pc / 4, last, next, c)
  }

  /** `jit_instruction`. */
  method JitWord(w: Window, word: Word, pc: nat, last: B.Info, next: bool, callerSave: nat)
    requires Ready(w.Value()) && callerSave <= w.entries.Length
    modifies w, w.entries
    ensures w.Value() == WordCache(word, pc, last, next, old(w.Value()), callerSave) && Ready(Restarted(w.Value()))
  {
    ghost var c, low, h := w.Value(), Blank(w.entries.Length), BlankHost();
    ReadyLeaves(c);
    match Classify(word) {
      case Straight =>
        PlainReady(word, c, callerSave);
        JitPlain(w, word, callerSave);
      case Cop0 =>
        E.FlushAll(w, low.core, FileIn(h));
        AnyIsReady(w.Value(), low.core, FileIn(h));
      case Break =>
        E.FlushAll(w, low.core, FileIn(h));
        AnyIsReady(w.Value(), low.core, FileIn(h));
      case _ => JitFlow(w, word, pc / 4, last, next);
    }
  }

  /** Takes the code emitted so far out of the window. */
  method TakeCode(w: Window) returns (ops: seq<HostOp>)
    modifies w`code
    ensures ops == old(w.code) && w.Value() == Restarted(old(w.Value()))
  {
    ops := w.code;
    w.code := [];
  }

  /** The handling of the delay slot the instruction is in. */
  method JitTail(w: Window, info: B.Info, last: B.Info, first: bool, base: nat, end: nat) returns (tail: LowCode)
    requires Ready(w.Value())
    modifies w, w.entries
    ensures tail == LowTail(info, last, first, base, end, old(w.Value()))
    ensures w.Value() == TailCache(info, last, first, old(w.Value())) && Ready(w.Value())
  {
    ghost var c, h0, g := w.Value(), Blank(w.entries.Length).core, FileIn(BlankHost());
    ReadyLeaves(c);
    if first && !info.handlesDelaySlot {
      var s := E.JitLatentCheck(w, h0, g);
      AnyIsReady(w.Value(), h0, g);
      var ops := TakeCode(w);
      tail := LRun(ops, LIf(s, 0, LFall, LLatent));
    } else if info.branch && last.branch {
      var i, s, r := E.JitHoldBranchState(w, h0, g);
      AnyIsReady(w.Value(), h0, g);
      var ops := TakeCode(w);
      tail := LRun(ops, LowImpossible(info, last, i, s, r));
    } else if !info.handlesDelaySlot && last.branch {
      tail := JitSlot(w, last, base, end, h0, g);
    } else {
      tail := LFall;
    }
  }

  method JitSlot(w: Window, last: B.Info, base: nat, end: nat, ghost h0: RegisterCache.Host, ghost g: File) returns (tail: LowCode)
    requires Leaves(w.Value(), h0, g) && CondSmall(g)
    modifies w, w.entries
    ensures var c := old(w.Value());
            if last.conditional then tail == LRun(TakeCondition(c).code, LowSlot(last, base, end, CopyIndex(c))) && w.Value() == Restarted(TakeCondition(c))
            else tail == LRun(DropCondition(c).code, LowSlot(last, base, end, 0)) && w.Value() == Restarted(DropCondition(c))
    ensures Ready(w.Value())
  {
    var s := 0;
    if last.conditional { s := E.JitTakeCondition(w, h0, g); } else { E.JitDropCondition(w, h0, g); }
    AnyIsReady(w.Value(), h0, WithReg(g, COND_BRANCH_TAKEN, 0));
    var ops := TakeCode(w);
    tail := LRun(ops, LowSlot(last, base, end, s));
  }

  /** The code of an instruction around the handling of its delay slot. */
  function Around(word: Word, pc: nat, last: B.Info, first: bool, ops: seq<HostOp>, callerSave: nat, k: LowCode): LowCode {
    match Classify(word)
    case Straight => if Decode(word).Call? then LRun(ops, LCall(word, Decode(word).touched, callerSave, k)) else LRun(ops, k)
    case Cop0 => LRun(ops, LCop0(word, callerSave, LIf(MODE, MODE_CONTINUE, k, LowLeave(pc, last, first))))
    case Break => LRun(ops, Then(Movi(MODE, MODE_BREAK), LowLeave(pc, last, first)))
    case _ => LRun(ops, k)
  }

  lemma AroundIs(word: Word, pc: nat, last: B.Info, first: bool, next: bool, c: Cache, callerSave: nat, k: LowCode)
    ensures LowInstruction(word, pc, last, first, next, c, callerSave, k)
            == Around(word, pc, last, first, WordCache(word, pc, last, next, c, callerSave).code, callerSave, k)
    ensures InstructionCache(word, pc, last, next, c, callerSave) == Restarted(WordCache(word, pc, last, next, c, callerSave))
  {
  }

  /** One turn of the loop in `jit_region`. */
  method JitWhole(w: Window, word: Word, pc: nat, last: B.Info, first: bool, next: bool, base: nat, end: nat, callerSave: nat)
    returns (code: LowCode, info: B.Info)
    requires Ready(w.Value()) && callerSave <= w.entries.Length
    modifies w, w.entries
    ensures code == LowWhole(word, pc, last, first, next, base, end, old(w.Value()), callerSave) && info == B.InfoOf(word, pc, next)
    ensures w.Value() == WholeCache(word, pc, last, first, next, old(w.Value()), callerSave) && Ready(w.Value())
  {
    ghost var c := w.Value();
    info := B.InfoOf(word, pc, next);
    JitWord(w, word, pc, last, next, callerSave);
    var ops := TakeCode(w);
    ghost var d := w.Value();
    AroundIs(word, pc, last, first, next, c, callerSave, LowTail(info, last, first, base, end, d));
    var tail := JitTail(w, info, last, first, base, end);
    code := Around(word, pc, last, first, ops, callerSave, tail);
  }

  // ---------------------------------------------------------------- regions

  /** What is emitted for one instruction: the flush in front of its label, and its code. */
  datatype LowSegment = LowSegment(before: seq<HostOp>, code: LowCode)

  function LowSegmentOf(t: Target, imem: Imem, lo: nat, hi: nat, p: nat): LowSegment
    requires B.Region(lo, hi) && lo <= p < hi
  {
    LowSegment(LowBeforeOf(t, imem, lo, hi, p), LowCodeOf(t, imem, lo, hi, p))
  }

  /** The segments of the instructions before `p`. */
  function LowSegmentsUpTo(t: Target, imem: Imem, lo: nat, hi: nat, p: nat): seq<LowSegment>
    requires B.Region(lo, hi) && lo <= p <= hi
  {
    if p == lo then [] else LowSegmentsUpTo(t, imem, lo, hi, p - 1) + [LowSegmentOf(t, imem, lo, hi, p - 1)]
  }

  lemma ResetIsFresh(w: seq<Entry>, n: nat)
    requires |w| == n && forall k :: 0 <= k < n ==> w[k] == EMPTY
    ensures w == Fresh(n)
  {
  }

  /** In front of a label the window is flushed and reset. */
  method JitLabel(w: Window) returns (ops: seq<HostOp>)
    requires Ready(w.Value())
    modifies w, w.entries
    ensures ops == FlushRegisterWindow(old(w.Value())).code && w.Value() == Cache(Fresh(w.entries.Length), 0, []) && Ready(w.Value())
  {
    ghost var n := w.entries.Length;
    ReadyLeaves(w.Value());
    E.FlushAll(w, Blank(n).core, FileIn(BlankHost()));
    ops := TakeCode(w);
    w.Reset();
    ResetIsFresh(w.entries[..], n);
    FreshReady(n);
  }

  lemma SegmentIs(t: Target, imem: Imem, lo: nat, hi: nat, p: nat, before: seq<HostOp>, code: LowCode)
    requires B.Region(lo, hi) && lo <= p < hi
    requires before == if p > lo && B.Labelled(imem, lo, hi, p) then FlushRegisterWindow(CacheAfter(t, imem, lo, hi, p - 1)).code else []
    requires code == LowWhole(imem[p], 4 * p, B.LastInfo(imem, lo, hi, p), p == lo, B.Labelled(imem, lo, hi, p + 1), 4 * lo, 4 * hi,
                              CacheAt(t, imem, lo, hi, p), t.callerSave)
    ensures LowSegment(before, code) == LowSegmentOf(t, imem, lo, hi, p)
  {
  }

  /** The cache before instruction `p` and its label. */
  ghost function CacheBefore(t: Target, imem: Imem, lo: nat, hi: nat, p: nat): Cache
    requires B.Region(lo, hi) && lo <= p <= hi
  {
    if p == lo then Cache(Fresh(t.registers), 0, []) else CacheAfter(t, imem, lo, hi, p - 1)
  }

  lemma FreshFlush(n: nat)
    ensures FlushRegisterWindow(Cache(Fresh(n), 0, [])).code == []
  {
    FreshOps(Fresh(n), n);
  }

  lemma {:induction false} FreshOps(es: seq<Entry>, n: nat)
    requires n <= |es| && forall k :: 0 <= k < |es| ==> !es[k].live
    ensures FlushOps(es, _ => true, n) == []
  {
    if n > 0 { FreshOps(es, n - 1); }
  }

  /** One instruction of the region: the label in front of it, its code and its delay slot. */
  method JitNext(w: Window, t: Target, imem: Imem, lo: nat, hi: nat, p: nat, last: B.Info, here: bool, next: bool)
    returns (segment: LowSegment, info: B.Info)
    requires B.Region(lo, hi) && lo <= p < hi && last == B.LastInfo(imem, lo, hi, p)
    requires here == B.Labelled(imem, lo, hi, p) && next == B.Labelled(imem, lo, hi, p + 1)
    requires t.callerSave <= w.entries.Length == t.registers
    requires w.Value() == CacheBefore(t, imem, lo, hi, p) && Ready(w.Value())
    modifies w, w.entries
    ensures segment == LowSegmentOf(t, imem, lo, hi, p) && info == B.RegionInfo(imem, lo, hi, p)
    ensures w.Value() == CacheAfter(t, imem, lo, hi, p) && Ready(w.Value())
  {
    var before: seq<HostOp> := [];
    if here {
      before := JitLabel(w);
      FreshFlush(t.registers);
    }
    assert w.Value() == CacheAt(t, imem, lo, hi, p);
    var code;
    code, info := JitWhole(w, imem[p], 4 * p, last, p == lo, next, 4 * lo, 4 * hi, t.callerSave);
    SegmentIs(t, imem, lo, hi, p, before, code);
    CacheAfterIs(t, imem, lo, hi, p);
    segment := LowSegment(before, code);
  }

  lemma Passed(t: Target, imem: Imem, lo: nat, hi: nat, p: nat, q: nat)
    requires B.Region(lo, hi) && lo <= p < hi && q == p + 1
    ensures CacheBefore(t, imem, lo, hi, q) == CacheAfter(t, imem, lo, hi, p)
    ensures LowSegmentsUpTo(t, imem, lo, hi, q) == LowSegmentsUpTo(t, imem, lo, hi, p) + [LowSegmentOf(t, imem, lo, hi, p)]
    ensures B.LastInfo(imem, lo, hi, q) == B.RegionInfo(imem, lo, hi, p)
  {
  }

  method JitOne(w: Window, t: Target, imem: Imem, lo: nat, hi: nat, p: nat, ghost q: nat, done: seq<LowSegment>, last: B.Info, here: bool, next: bool)
    returns (segments: seq<LowSegment>, info: B.Info)
    requires B.Region(lo, hi) && lo <= p < hi && q == p + 1 && last == B.LastInfo(imem, lo, hi, p)
    requires here == B.Labelled(imem, lo, hi, p) && next == B.Labelled(imem, lo, hi, p + 1)
    requires t.callerSave <= w.entries.Length == t.registers
    requires done == LowSegmentsUpTo(t, imem, lo, hi, p) && w.Value() == CacheBefore(t, imem, lo, hi, p) && Ready(w.Value())
    modifies w, w.entries
    ensures segments == LowSegmentsUpTo(t, imem, lo, hi, q) && info == B.LastInfo(imem, lo, hi, q) == B.RegionInfo(imem, lo, hi, p)
    ensures w.Value() == CacheBefore(t, imem, lo, hi, q) && Ready(w.Value())
  {
    Passed(t, imem, lo, hi, p, q);
    var segment;
    segment, info := JitNext(w, t, imem, lo, hi, p, last, here, next);
    segments := done + [segment];
  }

  /** The loop over the instructions. */
  method JitInstructions(w: Window, t: Target, imem: Imem, lo: nat, hi: nat, labelled: seq<bool>)
    returns (segments: seq<LowSegment>, first: B.Info, last: B.Info)
    requires B.Region(lo, hi) && hi - lo <= |labelled| && forall j :: 0 <= j < hi - lo ==> labelled[j] == B.Labelled(imem, lo, hi, lo + j)
    requires t.callerSave <= w.entries.Length == t.registers
    requires w.Value() == Cache(Fresh(t.registers), 0, []) && Ready(w.Value())
    modifies w, w.entries
    ensures segments == LowSegmentsUpTo(t, imem, lo, hi, hi)
    ensures first == B.RegionInfo(imem, lo, hi, lo) && last == B.LastInfo(imem, lo, hi, hi)
    ensures w.Value() == CacheBefore(t, imem, lo, hi, hi) && Ready(w.Value())
  {
    segments, first, last := [], B.NO_INFO, B.NO_INFO;
    var p := lo;
    while p < hi
      invariant lo <= p <= hi
      invariant last == B.LastInfo(imem, lo, hi, p) && (p > lo ==> first == B.RegionInfo(imem, lo, hi, lo))
      invariant segments == LowSegmentsUpTo(t, imem, lo, hi, p)
      invariant w.Value() == CacheBefore(t, imem, lo, hi, p) && Ready(w.Value())
    {
      var here, next := LabelsAt(labelled, imem, lo, hi, p);
      segments, last := JitOne(w, t, imem, lo, hi, p, p + 1, segments, last, here, next);
      if p == lo { first := last; }
      p := p + 1;
    }
  }

  /** Whether an instruction and the one after it are labelled. */
  method LabelsAt(labelled: seq<bool>, imem: Imem, lo: nat, hi: nat, p: nat) returns (here: bool, next: bool)
    requires B.Region(lo, hi) && hi - lo <= |labelled| && lo <= p < hi
    requires forall j :: 0 <= j < hi - lo ==> labelled[j] == B.Labelled(imem, lo, hi, lo + j)
    ensures here == B.Labelled(imem, lo, hi, p) && next == B.Labelled(imem, lo, hi, p + 1)
  {
    var i := p - lo;
    assert lo + i == p && lo + (i + 1) == p + 1;
    here, next := labelled[i], i + 1 < hi - lo && labelled[i + 1];
  }

  /** The flush after the last instruction and `jit_end_of_block`. */
  method JitEndOfBlock(w: Window, pc: nat, last: B.Info) returns (end: LowCode)
    requires Ready(w.Value())
    modifies w, w.entries
    ensures var f := FlushRegisterWindow(old(w.Value()));
            end == LRun(f.code, EndCode(pc, last, Restarted(f))) && w.Value() == Restarted(EndCache(last, Restarted(f)))
    ensures Ready(w.Value()) && w.timestamp == 0
  {
    ghost var h0, g := Blank(w.entries.Length).core, FileIn(BlankHost());
    ReadyLeaves(w.Value());
    E.FlushAll(w, h0, g);
    AnyIsReady(w.Value(), h0, g);
    FlushedAgain(w.Value(), h0, g);
    var ops := TakeCode(w);
    ghost var c := w.Value();
    ReadyLeaves(c);
    var i, s := E.JitHoldForEnd(w, last.branch && last.conditional, h0, g);
    AnyIsReady(w.Value(), h0, g);
    var held := TakeCode(w);
    EndIs(pc, last, c, held, i, s);
    end := LRun(ops, LRun(held, LowEnd(pc, last, i, s)));
  }

  /** A flushed window that starts on new code is flushed for the state in which everything is zero. */
  lemma FlushedAgain(d: Cache, h0: RegisterCache.Host, g: File)
    requires Flushed(d, h0, g)
    ensures var n := |d.entries|; Flushed(Restarted(d), Blank(n).core, FileIn(BlankHost()))
  {
    AnyIsReady(d, h0, g);
    ReadyLeaves(Restarted(d));
  }

  lemma EndIs(pc: nat, last: B.Info, c: Cache, held: seq<HostOp>, i: nat, s: nat)
    requires held == EndCache(last, c).code && s == EndScratch(last, c)
    requires last.branch && last.conditional ==> i == ConditionIndex(c)
    ensures LRun(held, LowEnd(pc, last, i, s)) == EndCode(pc, last, c)
  {
  }

  /** `jit_handle_latent_delay_slot`. */
  method JitLatent(w: Window, info: B.Info) returns (latent: LowCode)
    requires Ready(w.Value())
    modifies w, w.entries
    ensures latent == LatentCode(info, old(w.Value())) && w.code == [] && w.timestamp == 0
  {
    ghost var h0, g := Blank(w.entries.Length).core, FileIn(BlankHost());
    ReadyLeaves(w.Value());
    if info.branch && info.conditional {
      var i := E.JitHoldCondition(w, h0, g);
      var ops := TakeCode(w);
      latent := LRun(ops, LowRelay(info, i));
    } else {
      E.FlushAll(w, h0, g);
      var ops := TakeCode(w);
      latent := LRun(ops, if info.branch then Then(Movi(NEXT_PC, 1), LowRelay(info, NEXT_PC)) else LowSettle());
    }
  }

  /**
    `jit_region`: for every IMEM and every region of at most 128 instructions, all
    assertions of the register cache are met, and the code is that of `LowProgram`.
   */
  method JitRegion(w: Window, t: Target, imem: Imem, lo: nat, hi: nat) returns (segments: seq<LowSegment>, end: LowCode, latent: Option<LowCode>)
    requires B.Region(lo, hi) && t.callerSave <= w.entries.Length == t.registers && t.registers >= 3
    requires w.timestamp == 0 && w.code == []
    modifies w, w.entries
    ensures segments == LowSegmentsUpTo(t, imem, lo, hi, hi) && end == LowEndOf(t, imem, lo, hi)
    ensures latent == if B.RegionInfo(imem, lo, hi, lo).handlesDelaySlot then None else Some(LowLatentOf(t, imem, lo, hi))
    ensures w.timestamp == 0 && w.code == []
  {
    w.Reset();
    ResetIsFresh(w.entries[..], t.registers);
    FreshReady(t.registers);
    var blockEntry := new bool[R.MAX_REGION](_ => false);
    R.MarkBlockEntries(imem, lo, hi, blockEntry);
    var first, last;
    segments, first, last := JitInstructions(w, t, imem, lo, hi, blockEntry[..]);
    assert w.Value() == CacheAt(t, imem, lo, hi, hi);
    end := JitEndOfBlock(w, 4 * hi, last);
    if first.handlesDelaySlot {
      latent := None;
    } else {
      var code := JitLatent(w, first);
      latent := Some(code);
    }
  }
}
