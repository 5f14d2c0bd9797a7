/**
  Recompiled programs as they are emitted (rsp_jit.cpp): the blocks `jit_region`
  makes of the words in IMEM, entered through the thunk with arbitrary host
  registers, do what the interpreter does with the same words, instruction by
  instruction, over whole runs.
 */
module LowProgram {
  import opened Arithmetic
  import opened Wrappers
  import opened Isa
  import opened HostWords
  import opened RegisterCache
  import opened ScalarCode
  import opened BranchRegisters
  import opened Decoder
  import opened LowCode
  import opened LowRelation
  import opened LowTails
  import opened LowRegion
  import opened CacheShape
  import HostBytes
  import CacheCalls
  import B = BlockCompiler
  import D = DelaySlots
  import S = StaticEnd

  // ---------------------------------------------------------------- regions

  /** Lightning's registers: how many the cache has, and how many of them a call loses. */
  datatype Target = Target(registers: nat, callerSave: nat)

  /** The cache as `jit_region` finds it at instruction `p`; at a label it has been flushed and reset. */
  function CacheAt(t: Target, imem: Imem, lo: nat, hi: nat, p: nat): Cache
    requires B.Region(lo, hi) && lo <= p <= hi
    decreases p, 0
  {
    if p == lo || (p < hi && B.Labelled(imem, lo, hi, p)) then Cache(Fresh(t.registers), 0, [])
    else CacheAfter(t, imem, lo, hi, p - 1)
  }

  function CacheAfter(t: Target, imem: Imem, lo: nat, hi: nat, p: nat): Cache
    requires B.Region(lo, hi) && lo <= p < hi
    decreases p, 2
  {
    CompiledAt(t, imem, lo, hi, p)
  }

  /** Kept apart from `CacheAfter`, so that proofs that only hand a cache on do not look into it. */
  function CompiledAt(t: Target, imem: Imem, lo: nat, hi: nat, p: nat): Cache
    requires B.Region(lo, hi) && lo <= p < hi
    decreases p, 1
  {
    WholeCache(imem[p], 4 * p, B.LastInfo(imem, lo, hi, p), p == lo, B.Labelled(imem, lo, hi, p + 1),
               CacheAt(t, imem, lo, hi, p), t.callerSave)
  }

  /** What is run when control falls into instruction `p`, but not when it jumps there. */
  function LowBeforeOf(t: Target, imem: Imem, lo: nat, hi: nat, p: nat): seq<HostOp>
    requires B.Region(lo, hi) && lo <= p < hi
  {
    if p > lo && B.Labelled(imem, lo, hi, p) then FlushRegisterWindow(CacheAfter(t, imem, lo, hi, p - 1)).code else []
  }

  /** The code of instruction `p`. */
  function LowCodeOf(t: Target, imem: Imem, lo: nat, hi: nat, p: nat): LowCode
    requires B.Region(lo, hi) && lo <= p < hi
  {
    LowWhole(imem[p], 4 * p, B.LastInfo(imem, lo, hi, p), p == lo, B.Labelled(imem, lo, hi, p + 1), 4 * lo, 4 * hi,
             CacheAt(t, imem, lo, hi, p), t.callerSave)
  }

  /** The cache calls of `jit_end_of_block`, from a flushed cache. */
  function EndCache(last: B.Info, c: Cache): Cache {
    if last.branch && last.conditional then HoldForEnd(c)
    else FlushRegisterWindow(Unlock(Modify(c, SCRATCH_REGISTER0), SCRATCH_REGISTER0))
  }

  function EndScratch(last: B.Info, c: Cache): nat {
    if last.branch && last.conditional then EndScratchIndex(c) else Index(c, SCRATCH_REGISTER0)
  }

  function EndCode(pc: nat, last: B.Info, c: Cache): LowCode {
    LRun(EndCache(last, c).code, LowEnd(pc, last, ConditionIndex(c), EndScratch(last, c)))
  }

  /** `jit_handle_latent_delay_slot`. */
  function LatentCode(info: B.Info, c: Cache): LowCode {
    if info.branch && info.conditional then LRun(HoldCondition(c).code, LowRelay(info, ConditionIndex(c)))
    else if info.branch then LRun(FlushRegisterWindow(c).code, Then(Movi(NEXT_PC, 1), LowRelay(info, NEXT_PC)))
    else LRun(FlushRegisterWindow(c).code, LowSettle())
  }

  /** The cache after the flush that ends the last instruction. */
  function FinalCache(t: Target, imem: Imem, lo: nat, hi: nat): Cache
    requires B.Region(lo, hi)
  {
    FlushRegisterWindow(CacheAt(t, imem, lo, hi, hi))
  }

  /** The code after the last instruction. */
  function LowEndOf(t: Target, imem: Imem, lo: nat, hi: nat): LowCode
    requires B.Region(lo, hi)
  {
    var c := FinalCache(t, imem, lo, hi);
    LRun(c.code, EndCode(4 * hi, B.LastInfo(imem, lo, hi, hi), Restarted(c)))
  }

  /** The code for a latent delay slot, which follows that. */
  function LowLatentOf(t: Target, imem: Imem, lo: nat, hi: nat): LowCode
    requires B.Region(lo, hi)
  {
    LatentCode(B.RegionInfo(imem, lo, hi, lo),
               Restarted(EndCache(B.LastInfo(imem, lo, hi, hi), Restarted(FinalCache(t, imem, lo, hi)))))
  }

  lemma CacheAfterIs(t: Target, imem: Imem, lo: nat, hi: nat, p: nat)
    requires B.Region(lo, hi) && lo <= p < hi
    ensures CacheAfter(t, imem, lo, hi, p)
            == WholeCache(imem[p], 4 * p, B.LastInfo(imem, lo, hi, p), p == lo, B.Labelled(imem, lo, hi, p + 1),
                          CacheAt(t, imem, lo, hi, p), t.callerSave)
  {
    assert CacheAfter(t, imem, lo, hi, p) == CompiledAt(t, imem, lo, hi, p);
  }

  // ---------------------------------------------------------------- running blocks

  datatype LowConfig<V> =
    | LInside(base: Addr, p: nat, low: Native<V>)
    | LHalted(low: Native<V>)
    | LFault

  /** The enter thunk: a call finds the block, and the branch state is cleared. */
  function LowEnter<V>(t: Target, low: Native<V>): LowConfig<V> {
    var w, h := WordOf(Low(Reg(low.core, NEXT_PC))), Called(low.core, t.callerSave);
    LInside(w, w, low.(core := SaveSlot(SaveSlot(Put(Put(h, NEXT_PC, h.junk), MODE, 0), SpilledCond, 0), CondMemory, 0)))
  }

  function LowLeaveBlock<V>(t: Target, e: LowExit<V>): LowConfig<V> {
    match e
    case LEnters(low) => LowEnter(t, low)
    case LReturns(low) => LHalted(low)
    case _ => LFault
  }

  /** Where control goes after the code of instruction `p` of the block [lo, hi). */
  function LowResume<V>(calls: Calls<V>, t: Target, imem: Imem, lo: Addr, hi: nat, p: nat, e: LowExit<V>): LowConfig<V>
    requires B.Region(lo, hi) && lo <= p < hi
  {
    match e
    case LFalls(low) =>
      if p + 1 < hi then LInside(lo, p + 1, low.(core := Run(LowBeforeOf(t, imem, lo, hi, p + 1), low.core)))
      else LowLeaveBlock(t, LowExec(calls, LowEndOf(t, imem, lo, hi), low))
    case LToLabel(j, low) =>
      if lo + j < hi && B.Labelled(imem, lo, hi, lo + j) then LInside(lo, lo + j, low) else LFault
    case LToLatent(low) =>
      if B.RegionInfo(imem, lo, hi, lo).handlesDelaySlot then LFault
      else LowLeaveBlock(t, LowExec(calls, LowLatentOf(t, imem, lo, hi), low))
    case _ => LowLeaveBlock(t, e)
  }

  /** The code of one guest instruction, on the host. */
  function LowStep<V>(calls: Calls<V>, t: Target, imem: Imem, ends: Addr -> nat, c: LowConfig<V>): LowConfig<V>
    requires c.LInside? ==> B.Region(c.base, ends(c.base)) && c.base <= c.p < ends(c.base)
  {
    if c.LInside? then
      var hi := ends(c.base);
      LowResume(calls, t, imem, c.base, hi, c.p, LowExec(calls, LowCodeOf(t, imem, c.base, hi, c.p), c.low))
    else c
  }

  // ---------------------------------------------------------------- the relation

  ghost predicate AtInstruction<V>(t: Target, imem: Imem, lo: nat, hi: nat, p: nat, low: Native<V>, h: Abstract<V>)
    requires B.Region(lo, hi) && lo <= p <= hi
  {
    |low.core.regs| == t.registers && Rel(CacheAt(t, imem, lo, hi, p).entries, low, h)
  }

  ghost predicate ConfigRel<V>(t: Target, imem: Imem, ends: Addr -> nat, l: LowConfig<V>, c: D.Config<Rest<V>>) {
    match l
    case LInside(base, p, low) =>
      c.Inside? && c.base == base && c.p == p && B.Region(base, ends(base)) && base <= p < ends(base)
      && AtInstruction(t, imem, base, ends(base), p, low, c.h)
    case LHalted(low) =>
      c.Halted? && FlushedRel(t.registers, low, c.h) && SamePc(Reg(low.core, NEXT_PC), c.h.nextPc)
      && Low(Reg(low.core, MODE)) == c.h.mode
    case LFault => c.Fault?
  }

  lemma FreshIsDead(n: nat)
    ensures Dead(Fresh(n))
  {
  }

  lemma EnterLow<V>(t: Target, imem: Imem, ends: Addr -> nat, low: Native<V>, h: Abstract<V>)
    requires D.ValidEnds(ends) && FlushedRel(t.registers, low, h) && SamePc(Reg(low.core, NEXT_PC), h.nextPc)
    ensures ConfigRel(t, imem, ends, LowEnter(t, low), D.EnterBlock(h))
  {
    var w := WordOf(h.nextPc);
    assert B.Region(w, ends(w));
    var a := h.(cond := 0, spilledCond := 0);
    EnteredLow(t, low, h);
    FreshIsDead(t.registers);
    DeadRel(Fresh(t.registers), LowEnter(t, low).low, a);
  }

  lemma EnteredLow<V>(t: Target, low: Native<V>, h: Abstract<V>)
    requires FlushedRel(t.registers, low, h)
    ensures FlushedRel(t.registers, LowEnter(t, low).low, h.(cond := 0, spilledCond := 0))
  {
    ClearedFile(h);
  }

  lemma BlockLeft<V>(t: Target, imem: Imem, ends: Addr -> nat, es: seq<Entry>, l: LowExit<V>, e: B.Exit<Rest<V>>)
    requires D.ValidEnds(ends) && ExitRel(es, t.registers, l, e)
    ensures ConfigRel(t, imem, ends, LowLeaveBlock(t, l), D.LeaveBlock(e))
  {
    match l
    case LEnters(low) => EnterLow(t, imem, ends, low, e.h);
    case _ =>
  }

  // ---------------------------------------------------------------- the end of a block, and latent delay slots

  lemma EndReady<V>(last: B.Info, c: Cache, d: Cache, s: nat, n: nat, low: Native<V>, h: Abstract<V>)
    requires Starting(c) && Dead(c.entries) && |c.entries| == n && FlushedRel(n, low, h)
    requires d == EndCache(last, c) && s == EndScratch(last, c)
    ensures Dead(d.entries) && |d.entries| == n && s < n && FlushedRel(n, AfterRun(d, low), h)
    ensures last.branch && last.conditional ==> Reg(AfterRun(d, low).core, ConditionIndex(c)) == h.cond
  {
    DeadRel(c.entries, low, h);
    ToLeaves(c, low, h);
    if last.branch && last.conditional {
      HoldForEndCorrect(c, low.core, FileIn(h));
    } else {
      ScratchOnly(c, low.core, FileIn(h));
    }
    FlushedToFresh(d, low, h);
  }

  lemma EndLowered<V>(calls: Calls<V>, sem: Sem<Rest<V>>, pc: nat, last: B.Info, c: Cache, d: Cache, s: nat, n: nat, low: Native<V>, h: Abstract<V>)
    requires Starting(c) && Dead(c.entries) && |c.entries| == n && FlushedRel(n, low, h) && Fits(last) && pc < TWO_32
    requires d == EndCache(last, c) && s == EndScratch(last, c)
    ensures ExitRel(d.entries, n, LowExec(calls, LRun(d.code, LowEnd(pc, last, ConditionIndex(c), s)), low),
                    B.Exec(sem, B.EndOfBlock(pc, last), h))
  {
    EndReady(last, c, d, s, n, low, h);
    EndLow(calls, sem, pc, last, ConditionIndex(c), s, d.entries, n, AfterRun(d, low), h);
  }

  /** Falling off the last instruction: a flush, and the code of the block's end. */
  lemma FinalLowered<V>(calls: Calls<V>, sem: Sem<Rest<V>>, pc: nat, last: B.Info, c: Cache, f: Cache, n: nat, low: Native<V>, h: Abstract<V>)
    requires Starting(c) && Rel(c.entries, low, h) && |low.core.regs| == n && Fits(last) && pc < TWO_32 && f == FlushRegisterWindow(c)
    ensures ExitRel(EndCache(last, Restarted(f)).entries, n, LowExec(calls, LRun(f.code, EndCode(pc, last, Restarted(f))), low),
                    B.Exec(sem, B.EndOfBlock(pc, last), h))
  {
    ToLeaves(c, low, h);
    FlushWindowStep(c, low.core, FileIn(h));
    FlushedToFresh(f, low, h);
    var c1 := Restarted(f);
    EndLowered(calls, sem, pc, last, c1, EndCache(last, c1), EndScratch(last, c1), n, AfterRun(f, low), h);
  }

  lemma FlushAgain<V>(c: Cache, n: nat, low: Native<V>, h: Abstract<V>)
    requires Starting(c) && Dead(c.entries) && |c.entries| == n && FlushedRel(n, low, h)
    ensures FlushedRel(n, AfterRun(FlushRegisterWindow(c), low), h)
  {
    DeadRel(c.entries, low, h);
    ToLeaves(c, low, h);
    FlushWindowStep(c, low.core, FileIn(h));
    FlushedToFresh(FlushRegisterWindow(c), low, h);
  }

  lemma RelayLowered<V>(calls: Calls<V>, sem: Sem<Rest<V>>, info: B.Info, c: Cache, d: Cache, i: nat, n: nat, low: Native<V>, h: Abstract<V>)
    requires Starting(c) && Dead(c.entries) && |c.entries| == n && FlushedRel(n, low, h) && Fits(info)
    requires info.branch && info.conditional && d == HoldCondition(c) && i == ConditionIndex(c)
    ensures ExitRel(c.entries, n, LowExec(calls, LRun(d.code, LowRelay(info, i)), low), B.Exec(sem, B.HandleLatentDelaySlot(info), h))
  {
    DeadRel(c.entries, low, h);
    ToLeaves(c, low, h);
    HoldConditionCorrect(c, low.core, FileIn(h));
    FlushedToFresh(d, low, h);
    RelayLow(calls, sem, info, i, c.entries, n, AfterRun(d, low), h);
  }

  lemma LatentLowered<V>(calls: Calls<V>, sem: Sem<Rest<V>>, info: B.Info, c: Cache, n: nat, low: Native<V>, h: Abstract<V>)
    requires Starting(c) && Dead(c.entries) && |c.entries| == n && FlushedRel(n, low, h) && Fits(info)
    ensures ExitRel(c.entries, n, LowExec(calls, LatentCode(info, c), low), B.Exec(sem, B.HandleLatentDelaySlot(info), h))
  {
    var l := AfterRun(FlushRegisterWindow(c), low);
    if info.branch && info.conditional {
      RelayLowered(calls, sem, info, c, HoldCondition(c), ConditionIndex(c), n, low, h);
    } else {
      FlushAgain(c, n, low, h);
      if info.branch {
        ThenExec(calls, Movi(NEXT_PC, 1), LowRelay(info, NEXT_PC), l);
        PutLow(n, NEXT_PC, 1, l, h);
        RelayLow(calls, sem, info, NEXT_PC, c.entries, n, On(Movi(NEXT_PC, 1), l), h);
      } else {
        SettleLow(calls, sem, info, c.entries, n, l, h);
      }
    }
  }

  // ---------------------------------------------------------------- from one instruction to the next

  lemma {:induction false} CacheShaped(t: Target, imem: Imem, lo: nat, hi: nat, p: nat)
    requires B.Region(lo, hi) && lo <= p <= hi
    ensures Shaped(CacheAt(t, imem, lo, hi, p), t.registers) && Starting(CacheAt(t, imem, lo, hi, p))
    decreases p, 0
  {
    if p > lo { AfterShaped(t, imem, lo, hi, p - 1); }
  }

  lemma {:induction false} AfterShaped(t: Target, imem: Imem, lo: nat, hi: nat, p: nat)
    requires B.Region(lo, hi) && lo <= p < hi
    ensures Shaped(CacheAfter(t, imem, lo, hi, p), t.registers) && Starting(CacheAfter(t, imem, lo, hi, p))
    decreases p, 1
  {
    CacheShaped(t, imem, lo, hi, p);
    CacheAfterIs(t, imem, lo, hi, p);
    WholeShape(imem[p], 4 * p, B.LastInfo(imem, lo, hi, p), p == lo, B.Labelled(imem, lo, hi, p + 1),
               CacheAt(t, imem, lo, hi, p), t.callerSave, t.registers);
  }

  /** Control arrives at a label, where nothing is cached. */
  lemma LabelLow<V>(t: Target, imem: Imem, lo: nat, hi: nat, p: nat, low: Native<V>, h: Abstract<V>)
    requires B.Region(lo, hi) && lo <= p < hi && B.Labelled(imem, lo, hi, p) && FlushedRel(t.registers, low, h)
    ensures AtInstruction(t, imem, lo, hi, p, low, h)
  {
    FreshIsDead(t.registers);
    DeadRel(Fresh(t.registers), low, h);
  }

  lemma FallsIntoLabel<V>(t: Target, imem: Imem, lo: nat, hi: nat, p: nat, c: Cache, low: Native<V>, h: Abstract<V>)
    requires B.Region(lo, hi) && lo <= p < hi && B.Labelled(imem, lo, hi, p) && |low.core.regs| == t.registers
    requires Starting(c) && Rel(c.entries, low, h)
    ensures AtInstruction(t, imem, lo, hi, p, AfterRun(FlushRegisterWindow(c), low), h)
  {
    ToLeaves(c, low, h);
    FlushWindowStep(c, low.core, FileIn(h));
    FlushedToFresh(FlushRegisterWindow(c), low, h);
    LabelLow(t, imem, lo, hi, p, AfterRun(FlushRegisterWindow(c), low), h);
  }

  lemma FallsThrough<V>(t: Target, imem: Imem, lo: nat, hi: nat, q: nat, c: Cache, before: seq<HostOp>, low: Native<V>, h: Abstract<V>)
    requires B.Region(lo, hi) && lo <= q < hi && |low.core.regs| == t.registers && Starting(c) && Rel(c.entries, low, h)
    requires before == if B.Labelled(imem, lo, hi, q) then FlushRegisterWindow(c).code else []
    requires !B.Labelled(imem, lo, hi, q) ==> CacheAt(t, imem, lo, hi, q) == c
    ensures AtInstruction(t, imem, lo, hi, q, low.(core := Run(before, low.core)), h)
  {
    if B.Labelled(imem, lo, hi, q) { FallsIntoLabel(t, imem, lo, hi, q, c, low, h); }
  }

  lemma BeforeIs(t: Target, imem: Imem, lo: nat, hi: nat, p: nat)
    requires B.Region(lo, hi) && lo <= p && p + 1 < hi
    ensures LowBeforeOf(t, imem, lo, hi, p + 1)
            == if B.Labelled(imem, lo, hi, p + 1) then FlushRegisterWindow(CacheAfter(t, imem, lo, hi, p)).code else []
    ensures !B.Labelled(imem, lo, hi, p + 1) ==> CacheAt(t, imem, lo, hi, p + 1) == CacheAfter(t, imem, lo, hi, p)
  {
  }

  /** Control falls into the next instruction, through a flush if that is labelled. */
  lemma FallsLow<V>(t: Target, imem: Imem, lo: nat, hi: nat, p: nat, low: Native<V>, h: Abstract<V>)
    requires B.Region(lo, hi) && lo <= p && p + 1 < hi && |low.core.regs| == t.registers
    requires Rel(CacheAfter(t, imem, lo, hi, p).entries, low, h)
    ensures AtInstruction(t, imem, lo, hi, p + 1, low.(core := Run(LowBeforeOf(t, imem, lo, hi, p + 1), low.core)), h)
  {
    BeforeIs(t, imem, lo, hi, p);
    AfterShaped(t, imem, lo, hi, p);
    FallsThrough(t, imem, lo, hi, p + 1, CacheAfter(t, imem, lo, hi, p), LowBeforeOf(t, imem, lo, hi, p + 1), low, h);
  }

  /** Control falls off the last instruction. */
  lemma OffLow<V>(calls: Calls<V>, t: Target, imem: Imem, ends: Addr -> nat, lo: nat, low: Native<V>, h: Abstract<V>)
    requires D.ValidEnds(ends) && lo < 1024 && B.Region(lo, ends(lo)) && |low.core.regs| == t.registers
    requires Rel(CacheAfter(t, imem, lo, ends(lo), ends(lo) - 1).entries, low, h)
    ensures var hi := ends(lo);
            ConfigRel(t, imem, ends, LowLeaveBlock(t, LowExec(calls, LowEndOf(t, imem, lo, hi), low)),
                      D.LeaveBlock(B.Exec(SemOf(calls), B.EndOfBlock(4 * hi, B.LastInfo(imem, lo, hi, hi)), h)))
  {
    var hi := ends(lo);
    var c, f, last := CacheAt(t, imem, lo, hi, hi), FinalCache(t, imem, lo, hi), B.LastInfo(imem, lo, hi, hi);
    CacheShaped(t, imem, lo, hi, hi);
    InfoFits(imem[hi - 1], 4 * (hi - 1), B.Labelled(imem, lo, hi, hi));
    FinalLowered(calls, SemOf(calls), 4 * hi, last, c, f, t.registers, low, h);
    BlockLeft(t, imem, ends, EndCache(last, Restarted(f)).entries,
              LowExec(calls, LRun(f.code, EndCode(4 * hi, last, Restarted(f))), low), B.Exec(SemOf(calls), B.EndOfBlock(4 * hi, last), h));
  }

  /** The shared code for a latent delay slot. */
  lemma LatentLow<V>(calls: Calls<V>, t: Target, imem: Imem, ends: Addr -> nat, lo: nat, low: Native<V>, h: Abstract<V>)
    requires D.ValidEnds(ends) && lo < 1024 && B.Region(lo, ends(lo)) && FlushedRel(t.registers, low, h)
    requires !B.RegionInfo(imem, lo, ends(lo), lo).handlesDelaySlot
    ensures var hi := ends(lo);
            ConfigRel(t, imem, ends, LowLeaveBlock(t, LowExec(calls, LowLatentOf(t, imem, lo, hi), low)),
                      D.LeaveBlock(B.Exec(SemOf(calls), B.HandleLatentDelaySlot(B.RegionInfo(imem, lo, hi, lo)), h)))
  {
    var hi := ends(lo);
    var f, first, last := FinalCache(t, imem, lo, hi), B.RegionInfo(imem, lo, hi, lo), B.LastInfo(imem, lo, hi, hi);
    var c := Restarted(EndCache(last, Restarted(f)));
    CacheShaped(t, imem, lo, hi, hi);
    WindowShape(CacheAt(t, imem, lo, hi, hi), t.registers);
    EndShape(Restarted(f), t.registers);
    InfoFits(imem[lo], 4 * lo, B.Labelled(imem, lo, hi, lo + 1));
    LatentLowered(calls, SemOf(calls), first, c, t.registers, low, h);
    BlockLeft(t, imem, ends, c.entries, LowExec(calls, LatentCode(first, c), low), B.Exec(SemOf(calls), B.HandleLatentDelaySlot(first), h));
  }

  /** The control-flow code after instruction `p`, case by case. */
  function Onward<M>(sem: Sem<M>, imem: Imem, lo: Addr, hi: nat, p: nat, e: B.Exit<M>): D.Config<M>
    requires B.Region(lo, hi) && lo <= p < hi
  {
    match e
    case Falls(h) =>
      if p + 1 < hi then D.Inside(lo, p + 1, h) else D.LeaveBlock(B.Exec(sem, B.EndOfBlock(4 * hi, B.LastInfo(imem, lo, hi, hi)), h))
    case ToLabel(j, h) => if lo + j < hi && B.Labelled(imem, lo, hi, lo + j) then D.Inside(lo, lo + j, h) else D.Fault
    case ToLatent(h) =>
      if B.RegionInfo(imem, lo, hi, lo).handlesDelaySlot then D.Fault
      else D.LeaveBlock(B.Exec(sem, B.HandleLatentDelaySlot(B.RegionInfo(imem, lo, hi, lo)), h))
    case _ => D.LeaveBlock(e)
  }

  lemma ResumeIs<M>(sem: Sem<M>, imem: Imem, lo: Addr, hi: nat, p: nat, e: B.Exit<M>)
    requires B.Region(lo, hi) && lo <= p < hi
    ensures D.Resume(sem, B.RegionCode(imem, lo, hi), p - lo, e) == Onward(sem, imem, lo, hi, p, e)
  {
    D.SegmentAt(imem, lo, hi, lo);
    if e.ToLabel? && lo + e.index < hi { D.SegmentAt(imem, lo, hi, lo + e.index); }
  }

  lemma ResumeNext<V>(calls: Calls<V>, t: Target, imem: Imem, ends: Addr -> nat, lo: Addr, p: nat, low: Native<V>, h: Abstract<V>)
    requires D.ValidEnds(ends) && B.Region(lo, ends(lo)) && lo <= p && p + 1 < ends(lo)
    requires Rel(CacheAfter(t, imem, lo, ends(lo), p).entries, low, h) && |low.core.regs| == t.registers
    ensures ConfigRel(t, imem, ends, LowResume(calls, t, imem, lo, ends(lo), p, LFalls(low)), D.Inside(lo, p + 1, h))
  {
    FallsLow(t, imem, lo, ends(lo), p, low, h);
  }

  lemma ResumeFalls<V>(calls: Calls<V>, t: Target, imem: Imem, ends: Addr -> nat, lo: Addr, p: nat, low: Native<V>, h: Abstract<V>)
    requires D.ValidEnds(ends) && B.Region(lo, ends(lo)) && lo <= p < ends(lo)
    requires Rel(CacheAfter(t, imem, lo, ends(lo), p).entries, low, h) && |low.core.regs| == t.registers
    ensures ConfigRel(t, imem, ends, LowResume(calls, t, imem, lo, ends(lo), p, LFalls(low)),
                      Onward(SemOf(calls), imem, lo, ends(lo), p, B.Falls(h)))
  {
    if p + 1 < ends(lo) { ResumeNext(calls, t, imem, ends, lo, p, low, h); } else { OffLow(calls, t, imem, ends, lo, low, h); }
  }

  lemma ResumeLabel<V>(calls: Calls<V>, t: Target, imem: Imem, ends: Addr -> nat, lo: Addr, p: nat, j: nat, low: Native<V>, h: Abstract<V>)
    requires D.ValidEnds(ends) && B.Region(lo, ends(lo)) && lo <= p < ends(lo) && FlushedRel(t.registers, low, h)
    ensures ConfigRel(t, imem, ends, LowResume(calls, t, imem, lo, ends(lo), p, LToLabel(j, low)),
                      Onward(SemOf(calls), imem, lo, ends(lo), p, B.ToLabel(j, h)))
  {
    if lo + j < ends(lo) && B.Labelled(imem, lo, ends(lo), lo + j) { LabelLow(t, imem, lo, ends(lo), lo + j, low, h); }
  }

  lemma ResumeLatent<V>(calls: Calls<V>, t: Target, imem: Imem, ends: Addr -> nat, lo: Addr, p: nat, low: Native<V>, h: Abstract<V>)
    requires D.ValidEnds(ends) && B.Region(lo, ends(lo)) && lo <= p < ends(lo) && FlushedRel(t.registers, low, h)
    ensures ConfigRel(t, imem, ends, LowResume(calls, t, imem, lo, ends(lo), p, LToLatent(low)),
                      Onward(SemOf(calls), imem, lo, ends(lo), p, B.ToLatent(h)))
  {
    if !B.RegionInfo(imem, lo, ends(lo), lo).handlesDelaySlot { LatentLow(calls, t, imem, ends, lo, low, h); }
  }

  /** Where control goes after an instruction, on both sides. */
  lemma ResumeLow<V>(calls: Calls<V>, t: Target, imem: Imem, ends: Addr -> nat, lo: Addr, p: nat, l: LowExit<V>, e: B.Exit<Rest<V>>)
    requires D.ValidEnds(ends) && B.Region(lo, ends(lo)) && lo <= p < ends(lo)
    requires ExitRel(CacheAfter(t, imem, lo, ends(lo), p).entries, t.registers, l, e) && |l.low.core.regs| == t.registers
    ensures ConfigRel(t, imem, ends, LowResume(calls, t, imem, lo, ends(lo), p, l),
                      Onward(SemOf(calls), imem, lo, ends(lo), p, e))
  {
    match l
    case LFalls(low) => ResumeFalls(calls, t, imem, ends, lo, p, low, e.h);
    case LToLabel(j, low) => ResumeLabel(calls, t, imem, ends, lo, p, j, low, e.h);
    case LToLatent(low) => ResumeLatent(calls, t, imem, ends, lo, p, low, e.h);
    case _ => BlockLeft(t, imem, ends, CacheAfter(t, imem, lo, ends(lo), p).entries, l, e);
  }

  lemma {:induction false} LowExecSize<V>(calls: Calls<V>, k: LowCode, low: Native<V>)
    ensures |LowExec(calls, k, low).low.core.regs| == |low.core.regs|
    decreases k
  {
    match k
    case LRun(ops, next) =>
      RunSize(ops, low.core);
      LowExecSize(calls, next, low.(core := Run(ops, low.core)));
    case LCall(w, touched, callerSave, next) => LowExecSize(calls, next, CallPlain(calls, w, touched, callerSave, low));
    case LCop0(w, callerSave, next) => LowExecSize(calls, next, CallCop0(calls, w, callerSave, low));
    case LIf(_, _, equal, other) =>
      LowExecSize(calls, equal, low);
      LowExecSize(calls, other, low);
    case _ =>
  }

  /** One instruction of the emitted block does what the control-flow code does, from any related state. */
  lemma StepLow<V>(calls: Calls<V>, t: Target, imem: Imem, ends: Addr -> nat, l: LowConfig<V>, c: D.Config<Rest<V>>)
    requires D.ValidEnds(ends) && ConfigRel(t, imem, ends, l, c)
    ensures ConfigRel(t, imem, ends, LowStep(calls, t, imem, ends, l), D.HostStep(SemOf(calls), imem, ends, c))
  {
    if l.LInside? { InsideLow(calls, t, imem, ends, l.base, l.p, l.low, c.h); }
  }

  function WholeAt(imem: Imem, lo: nat, hi: nat, p: nat): B.Code
    requires B.Region(lo, hi) && lo <= p < hi
  {
    Whole(imem[p], 4 * p, B.LastInfo(imem, lo, hi, p), p == lo, B.Labelled(imem, lo, hi, p + 1), 4 * lo, 4 * hi)
  }

  lemma HostStepIs<M>(sem: Sem<M>, imem: Imem, ends: Addr -> nat, lo: Addr, p: Addr, h: B.Host<M>)
    requires B.Region(lo, ends(lo)) && lo <= p < ends(lo)
    ensures D.HostStep(sem, imem, ends, D.Inside(lo, p, h))
            == Onward(sem, imem, lo, ends(lo), p, B.Exec(sem, WholeAt(imem, lo, ends(lo), p), h))
  {
    D.HostStepUnfold(sem, imem, ends, lo, p, h);
    ResumeIs(sem, imem, lo, ends(lo), p, B.Exec(sem, WholeAt(imem, lo, ends(lo), p), h));
  }

  lemma SegmentWith<V>(calls: Calls<V>, t: Target, imem: Imem, lo: nat, hi: nat, p: nat, c: Cache, d: Cache, k: LowCode, low: Native<V>, h: Abstract<V>)
    requires B.Region(lo, hi) && lo <= p < hi && Starting(c) && Rel(c.entries, low, h) && |low.core.regs| == t.registers
    requires var last, next := B.LastInfo(imem, lo, hi, p), B.Labelled(imem, lo, hi, p + 1);
             k == LowWhole(imem[p], 4 * p, last, p == lo, next, 4 * lo, 4 * hi, c, t.callerSave)
             && d == WholeCache(imem[p], 4 * p, last, p == lo, next, c, t.callerSave)
    ensures var l := LowExec(calls, k, low);
            ExitRel(d.entries, t.registers, l, B.Exec(SemOf(calls), WholeAt(imem, lo, hi, p), h)) && |l.low.core.regs| == t.registers
  {
    var last, next := B.LastInfo(imem, lo, hi, p), B.Labelled(imem, lo, hi, p + 1);
    if p > lo { InfoFits(imem[p - 1], 4 * (p - 1), B.Labelled(imem, lo, hi, p)); }
    WholeLowered(calls, imem[p], 4 * p, last, p == lo, next, 4 * lo, 4 * hi, c, t.callerSave, t.registers, low, h);
    LowExecSize(calls, k, low);
  }

  lemma SegmentLow<V>(calls: Calls<V>, t: Target, imem: Imem, lo: nat, hi: nat, p: nat, low: Native<V>, h: Abstract<V>)
    requires B.Region(lo, hi) && lo <= p < hi && AtInstruction(t, imem, lo, hi, p, low, h)
    ensures var l := LowExec(calls, LowCodeOf(t, imem, lo, hi, p), low);
            ExitRel(CacheAfter(t, imem, lo, hi, p).entries, t.registers, l, B.Exec(SemOf(calls), WholeAt(imem, lo, hi, p), h))
            && |l.low.core.regs| == t.registers
  {
    CacheShaped(t, imem, lo, hi, p);
    CacheAfterIs(t, imem, lo, hi, p);
    SegmentWith(calls, t, imem, lo, hi, p, CacheAt(t, imem, lo, hi, p), CacheAfter(t, imem, lo, hi, p),
                LowCodeOf(t, imem, lo, hi, p), low, h);
  }

  lemma InsideLow<V>(calls: Calls<V>, t: Target, imem: Imem, ends: Addr -> nat, lo: Addr, p: Addr, low: Native<V>, h: Abstract<V>)
    requires D.ValidEnds(ends) && B.Region(lo, ends(lo)) && lo <= p < ends(lo) && AtInstruction(t, imem, lo, ends(lo), p, low, h)
    ensures ConfigRel(t, imem, ends, LowStep(calls, t, imem, ends, LInside(lo, p, low)),
                      D.HostStep(SemOf(calls), imem, ends, D.Inside(lo, p, h)))
  {
    HostStepIs(SemOf(calls), imem, ends, lo, p, h);
    SegmentLow(calls, t, imem, lo, ends(lo), p, low, h);
    ResumeLow(calls, t, imem, ends, lo, p, LowExec(calls, LowCodeOf(t, imem, lo, ends(lo), p), low),
              B.Exec(SemOf(calls), WholeAt(imem, lo, ends(lo), p), h));
  }

  // ---------------------------------------------------------------- whole runs

  ghost function LowAdvance<V>(calls: Calls<V>, t: Target, imem: Imem, ends: Addr -> nat, d: LowConfig<V>): LowConfig<V>
    requires D.ValidEnds(ends)
  {
    if d.LInside? && !(d.base <= d.p < ends(d.base)) then LFault else LowStep(calls, t, imem, ends, d)
  }

  function Iterate<C>(f: C -> C, c: C, k: nat): C { if k == 0 then c else f(Iterate(f, c, k - 1)) }

  lemma {:induction false} IterateKeeps<L(!new), C(!new)>(f: L -> L, g: C -> C, r: (L, C) -> bool, l: L, c: C, k: nat)
    requires r(l, c) && forall l', c' :: r(l', c') ==> r(f(l'), g(c'))
    ensures r(Iterate(f, l, k), Iterate(g, c, k))
  {
    if k > 0 { IterateKeeps(f, g, r, l, c, k - 1); }
  }

  ghost function LowAdvancer<V>(calls: Calls<V>, t: Target, imem: Imem, ends: Addr -> nat): LowConfig<V> -> LowConfig<V>
    requires D.ValidEnds(ends)
  {
    d => LowAdvance(calls, t, imem, ends, d)
  }

  ghost function LowRun<V>(calls: Calls<V>, t: Target, imem: Imem, ends: Addr -> nat, c: LowConfig<V>, k: nat): LowConfig<V>
    requires D.ValidEnds(ends)
  {
    Iterate(LowAdvancer(calls, t, imem, ends), c, k)
  }

  ghost function Advance<M>(sem: Sem<M>, imem: Imem, ends: Addr -> nat, d: D.Config<M>): D.Config<M>
    requires D.ValidEnds(ends)
  {
    if d.Inside? && !(d.base <= d.p < ends(d.base)) then D.Fault else D.HostStep(sem, imem, ends, d)
  }

  ghost function Advancer<M>(sem: Sem<M>, imem: Imem, ends: Addr -> nat): D.Config<M> -> D.Config<M>
    requires D.ValidEnds(ends)
  {
    d => Advance(sem, imem, ends, d)
  }

  predicate Follows<C(==)>(f: C -> C, g: nat -> C, i: nat) { g(i + 1) == f(g(i)) }

  lemma {:induction false} IterateUnique<C(!new)>(f: C -> C, g: nat -> C, k: nat)
    requires forall i: nat :: Follows(f, g, i)
    ensures g(k) == Iterate(f, g(0), k)
  {
    if k > 0 {
      IterateUnique(f, g, k - 1);
      assert Follows(f, g, k - 1);
    }
  }

  lemma HostRunIs<M(!new)>(sem: Sem<M>, imem: Imem, ends: Addr -> nat, c: D.Config<M>, k: nat)
    requires D.ValidEnds(ends)
    ensures D.HostRun(sem, imem, ends, c, k) == Iterate(Advancer(sem, imem, ends), c, k)
  {
    var f, g := Advancer(sem, imem, ends), (i: nat) => D.HostRun(sem, imem, ends, c, i);
    forall i: nat ensures Follows(f, g, i) {
      HostRunNext(sem, imem, ends, c, i + 1);
    }
    IterateUnique(f, g, k);
  }

  lemma HostRunNext<M>(sem: Sem<M>, imem: Imem, ends: Addr -> nat, c: D.Config<M>, k: nat)
    requires D.ValidEnds(ends) && k > 0
    ensures D.HostRun(sem, imem, ends, c, k) == Advancer(sem, imem, ends)(D.HostRun(sem, imem, ends, c, k - 1))
  {
    AdvancerIs(sem, imem, ends, D.HostRun(sem, imem, ends, c, k - 1));
  }

  lemma AdvancerIs<M>(sem: Sem<M>, imem: Imem, ends: Addr -> nat, d: D.Config<M>)
    requires D.ValidEnds(ends)
    ensures Advancer(sem, imem, ends)(d) == Advance(sem, imem, ends, d)
  {
  }

  lemma AdvanceLow<V>(calls: Calls<V>, t: Target, imem: Imem, ends: Addr -> nat, l: LowConfig<V>, c: D.Config<Rest<V>>)
    requires D.ValidEnds(ends) && ConfigRel(t, imem, ends, l, c)
    ensures ConfigRel(t, imem, ends, LowAdvance(calls, t, imem, ends, l), Advance(SemOf(calls), imem, ends, c))
  {
    StepLow(calls, t, imem, ends, l, c);
  }

  /**
    The emitted program refines the control-flow code over whole runs, for every
    program, safe or not, and every choice of host registers.
   */
  lemma RunLow<V(!new)>(calls: Calls<V>, t: Target, imem: Imem, ends: Addr -> nat, l: LowConfig<V>, c: D.Config<Rest<V>>, k: nat)
    requires D.ValidEnds(ends) && ConfigRel(t, imem, ends, l, c)
    ensures ConfigRel(t, imem, ends, LowRun(calls, t, imem, ends, l, k), D.HostRun(SemOf(calls), imem, ends, c, k))
  {
    HostRunIs(SemOf(calls), imem, ends, c, k);
    var f, g := LowAdvancer(calls, t, imem, ends), Advancer(SemOf(calls), imem, ends);
    var r := (l: LowConfig<V>, c: D.Config<Rest<V>>) => ConfigRel(t, imem, ends, l, c);
    forall l', c' | r(l', c') ensures r(f(l'), g(c')) {
      AdvanceLow(calls, t, imem, ends, l', c');
    }
    IterateKeeps(f, g, r, l, c, k);
  }

  // ---------------------------------------------------------------- the emitted program and the interpreter

  /** The machine as it is in memory. */
  function MachineIn<V>(low: Native<V>): Machine<Rest<V>>
    requires |low.core.sr| == 33
  {
    Machine(MemoryRegs(low.core), LowRest(low))
  }

  /** The branch an earlier block has left pending. */
  function LatentIn<V>(low: Native<V>): Option<Addr> {
    if low.core.control.hasDelay != 0 then Some(WordOf(low.core.control.branchTarget)) else None
  }

  function PcIn<V>(low: Native<V>): Addr { WordOf(Low(Reg(low.core, NEXT_PC))) }

  /** The abstract state the thunk enters with; branch condition and frame slots are cleared or never read. */
  function EntryOf<V>(low: Native<V>): Abstract<V>
    requires |low.core.sr| == 33
  {
    var k := low.core.control;
    B.Host(MachineIn(low), 0, Low(k.indirect), k.hasDelay, k.branchTarget, k.spilledCond, Low(k.spilledPc),
           0, 0, 0, Low(Reg(low.core, NEXT_PC)), 0)
  }

  lemma EntryLow<V>(t: Target, imem: Imem, ends: Addr -> nat, low: Native<V>)
    requires D.ValidEnds(ends) && |low.core.regs| == t.registers >= 3 && |low.core.sr| == 33
    ensures ConfigRel(t, imem, ends, LowEnter(t, low), D.EnterBlock(EntryOf(low)))
  {
    var cleared := low.(core := low.core.(sr := low.core.sr[COND_BRANCH_TAKEN := 0]));
    EntryFlushed(t.registers, low, cleared);
    EnterLow(t, imem, ends, cleared, EntryOf(low));
    assert LowEnter(t, cleared).low.core.sr == LowEnter(t, low).low.core.sr;
  }

  lemma EntryFlushed<V>(n: nat, low: Native<V>, cleared: Native<V>)
    requires |low.core.regs| == n >= 3 && |low.core.sr| == 33
    requires cleared == low.(core := low.core.(sr := low.core.sr[COND_BRANCH_TAKEN := 0]))
    ensures FlushedRel(n, cleared, EntryOf(low)) && SamePc(Reg(cleared.core, NEXT_PC), EntryOf(low).nextPc)
  {
  }

  /** The branch that the instruction before `p` has left pending, as the emitted code keeps it. */
  function PendingIn<V>(es: seq<Entry>, last: B.Info, low: Native<V>): Option<Addr>
    requires |low.core.regs| == |es| && |low.core.sr| == 33
  {
    if !last.branch || (last.conditional && CacheCalls.Overlay(es, low.core, COND_BRANCH_TAKEN) == 0) then None
    else Some(if last.indirect then WordOf(Low(low.core.control.indirect)) else WordOf(last.branchTarget))
  }

  /**
    At instruction `p` of the block [lo, hi): the register cache overlaid on
    memory is the register file, DMEM and all else are the interpreter's, and so
    is the branch still pending.
   */
  ghost predicate Agrees<V>(t: Target, imem: Imem, lo: nat, hi: nat, p: nat, low: Native<V>, s: State<Rest<V>>)
    requires B.Region(lo, hi) && lo <= p < hi
  {
    var es := CacheAt(t, imem, lo, hi, p).entries;
    && |low.core.regs| == |es| && |low.core.sr| == 33
    && s.pc == p && s.m.rest == LowRest(low)
    && (forall m :: 1 <= m < 32 ==> CacheCalls.Overlay(es, low.core, m) == s.m.sr[m])
    && s.pending == if p == lo then LatentIn(low) else PendingIn(es, B.LastInfo(imem, lo, hi, p), low)
  }

  ghost predicate NativeMatches<V(!new)>(t: Target, imem: Imem, ends: Addr -> nat, l: LowConfig<V>, o: Outcome<Rest<V>>) {
    match l
    case LInside(base, p, low) =>
      B.Region(base, ends(base)) && base <= p < ends(base) && o.Running? && Agrees(t, imem, base, ends(base), p, low, o.s)
    case LHalted(low) =>
      |low.core.sr| == 33 && o == Stopped(Low(Reg(low.core, MODE)), PcIn(low), MachineIn(low)) && LatentIn(low) == None
    case LFault => false
  }

  lemma InsideAgrees<V>(t: Target, imem: Imem, lo: nat, hi: nat, p: nat, low: Native<V>, h: Abstract<V>, s: State<Rest<V>>)
    requires B.Region(lo, hi) && lo <= p < hi && AtInstruction(t, imem, lo, hi, p, low, h) && D.Related(imem, lo, hi, p, h, s)
    ensures Agrees(t, imem, lo, hi, p, low, s)
  {
    var es := CacheAt(t, imem, lo, hi, p).entries;
    forall m | 1 <= m <= COND_BRANCH_TAKEN ensures CacheCalls.Overlay(es, low.core, m) == FileIn(h)[m] {
      CacheCalls.OverlayOf(es, low.core, FileIn(h), m);
    }
  }

  lemma HaltedAgrees<V>(n: nat, low: Native<V>, h: Abstract<V>)
    requires FlushedRel(n, low, h)
    ensures MachineIn(low) == h.m
  {
    assert MemoryRegs(low.core) == h.m.sr;
  }

  lemma MatchesAgree<V(!new)>(t: Target, imem: Imem, ends: Addr -> nat, l: LowConfig<V>, c: D.Config<Rest<V>>, o: Outcome<Rest<V>>)
    requires ConfigRel(t, imem, ends, l, c) && D.Matches(imem, ends, c, o)
    ensures NativeMatches(t, imem, ends, l, o)
  {
    match l
    case LInside(base, p, low) => InsideAgrees(t, imem, base, ends(base), p, low, c.h, o.s);
    case LHalted(low) => HaltedAgrees(t.registers, low, c.h);
    case LFault =>
  }

  /**
    The recompiler is correct.  Enter the emitted program through the thunk with
    any contents of host registers, frame and memory, possibly with a delay slot
    left by an earlier entry, on a host with at least three registers for the
    cache.  After any number of guest instructions it has returned exactly when
    the interpreter of the words in IMEM has stopped, with the same status, pc and
    machine and with no delay slot left, or both are at the same instruction with
    the same registers, DMEM, vector unit and pending branch.
   */
  lemma NativeSimulation<V(!new)>(calls: Calls<V>, t: Target, imem: Imem, ends: Addr -> nat, low: Native<V>, k: nat)
    requires D.SafeProgram(imem, ends) && |low.core.regs| == t.registers >= 3 && |low.core.sr| == 33
    ensures NativeMatches(t, imem, ends, LowRun(calls, t, imem, ends, LowEnter(t, low), k),
                          D.InterpreterRun(SemOf(calls), imem, State(PcIn(low), LatentIn(low), MachineIn(low)), k))
  {
    var h := EntryOf(low);
    EntryLow(t, imem, ends, low);
    RunLow(calls, t, imem, ends, LowEnter(t, low), D.EnterBlock(h), k);
    D.Simulation(SemOf(calls), imem, ends, h, k);
    MatchesAgree(t, imem, ends, LowRun(calls, t, imem, ends, LowEnter(t, low), k),
                 D.HostRun(SemOf(calls), imem, ends, D.EnterBlock(h), k),
                 D.InterpreterRun(SemOf(calls), imem, State(PcIn(low), LatentIn(low), MachineIn(low)), k));
  }

  /** The same for the blocks the recompiler cuts IMEM into. */
  lemma BlocksNative<V(!new)>(calls: Calls<V>, t: Target, imem: Imem, low: Native<V>, k: nat)
    requires S.SafeImem(imem) && |low.core.regs| == t.registers >= 3 && |low.core.sr| == 33
    ensures D.ValidEnds(S.BlockLengths(imem))
    ensures NativeMatches(t, imem, S.BlockLengths(imem), LowRun(calls, t, imem, S.BlockLengths(imem), LowEnter(t, low), k),
                          D.InterpreterRun(SemOf(calls), imem, State(PcIn(low), LatentIn(low), MachineIn(low)), k))
  {
    S.LengthsValid(imem);
    NativeSimulation(calls, t, imem, S.BlockLengths(imem), low, k);
  }
}
