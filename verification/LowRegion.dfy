/**
  Whole blocks as they are emitted (rsp_jit.cpp, `jit_region`): host instructions
  chosen by the register cache, entered through the thunk with arbitrary host
  registers, execute the instruction words in IMEM exactly as the interpreter
  does.
 */
module LowRegion {
  import opened Arithmetic
  import opened Wrappers
  import opened Isa
  import opened HostWords
  import opened RegisterCache
  import opened ScalarCode
  import opened MemoryCode
  import opened BranchRegisters
  import opened BranchCode
  import opened Decoder
  import opened LowCode
  import opened LowRelation
  import opened LowBranch
  import opened LowTails
  import HostBytes
  import CacheCalls
  import B = BlockCompiler
  import D = DelaySlots

  // ---------------------------------------------------------------- one instruction

  function PlainCache(w: Word, c: Cache, callerSave: nat): Cache {
    match Decode(w)
    case Exact(i) => CompileScalar(i, c, callerSave)
    case Call(touched) => FlushForCall(c, touched, callerSave)
    case Nothing => c
  }

  function LowPlain(w: Word, c: Cache, callerSave: nat, k: LowCode): LowCode {
    match Decode(w)
    case Call(touched) => LRun(PlainCache(w, c, callerSave).code, LCall(w, touched, callerSave, k))
    case _ => LRun(PlainCache(w, c, callerSave).code, k)
  }

  function PlainNative<V>(calls: Calls<V>, w: Word, c: Cache, callerSave: nat, low: Native<V>): Native<V> {
    match Decode(w)
    case Call(touched) => CallPlain(calls, w, touched, callerSave, AfterRun(PlainCache(w, c, callerSave), low))
    case _ => AfterRun(PlainCache(w, c, callerSave), low)
  }

  lemma CallRuns<V>(calls: Calls<V>, w: Word, touched: Option<nat>, d: Cache, callerSave: nat, k: LowCode, low: Native<V>)
    ensures LowExec(calls, LRun(d.code, LCall(w, touched, callerSave, k)), low)
            == LowExec(calls, k, CallPlain(calls, w, touched, callerSave, AfterRun(d, low)))
  {
    assert LowExec(calls, LCall(w, touched, callerSave, k), AfterRun(d, low))
        == LowExec(calls, k, CallPlain(calls, w, touched, callerSave, AfterRun(d, low)));
  }

  lemma PlainRuns<V>(calls: Calls<V>, w: Word, c: Cache, callerSave: nat, k: LowCode, low: Native<V>)
    ensures LowExec(calls, LowPlain(w, c, callerSave, k), low) == LowExec(calls, k, PlainNative(calls, w, c, callerSave, low))
  {
    var d := PlainCache(w, c, callerSave);
    if Decode(w).Call? { CallRuns(calls, w, Decode(w).touched, d, callerSave, k, low); }
  }

  lemma PlainLowered<V>(calls: Calls<V>, w: Word, c: Cache, callerSave: nat, low: Native<V>, h: Abstract<V>)
    requires Starting(c) && Rel(c.entries, low, h)
    ensures Rel(PlainCache(w, c, callerSave).entries, PlainNative(calls, w, c, callerSave, low), h.(m := PlainStep(calls, w, h.m)))
  {
    match Decode(w)
    case Exact(i) => ScalarLowered(calls, i, w, c, callerSave, low, h);
    case Call(touched) => CallLowered(calls, w, touched, c, callerSave, low, h);
    case Nothing =>
  }

  /** The cache after the code of an instruction, before its delay slot is dealt with. */
  function InstructionCache(w: Word, pc: nat, last: B.Info, next: bool, c: Cache, callerSave: nat): Cache {
    match Classify(w)
    case Straight => Restarted(PlainCache(w, c, callerSave))
    case Cop0 => Restarted(FlushRegisterWindow(c))
    case Break => Restarted(FlushRegisterWindow(c))
    case _ => Restarted(FlowCache(w, pc / 4, last, next, c))
  }

  function LowInstruction(w: Word, pc: nat, last: B.Info, first: bool, next: bool, c: Cache, callerSave: nat, k: LowCode): LowCode {
    match Classify(w)
    case Straight => LowPlain(w, c, callerSave, k)
    case Cop0 =>
      LRun(FlushRegisterWindow(c).code, LCop0(w, callerSave, LIf(MODE, MODE_CONTINUE, k, LowLeave(pc, last, first))))
    case Break => LRun(FlushRegisterWindow(c).code, Then(Movi(MODE, MODE_BREAK), LowLeave(pc, last, first)))
    case _ => LRun(FlowCache(w, pc / 4, last, next, c).code, k)
  }

  /** The handling of the delay slot that the instruction just emitted is in. */
  function LowTail(info: B.Info, last: B.Info, first: bool, base: nat, end: nat, c: Cache): LowCode {
    if first && !info.handlesDelaySlot then
      LRun(LatentCheck(c).code, LIf(Index(c, SCRATCH_REGISTER0), 0, LFall, LLatent))
    else if info.branch && last.branch then
      LRun(HoldBranchState(c).code, LowImpossible(info, last, ConditionIndex(c), Scratch0Index(c), Scratch1Index(c)))
    else if !info.handlesDelaySlot && last.branch then
      if last.conditional then LRun(TakeCondition(c).code, LowSlot(last, base, end, CopyIndex(c)))
      else LRun(DropCondition(c).code, LowSlot(last, base, end, 0))
    else LFall
  }

  function TailCache(info: B.Info, last: B.Info, first: bool, c: Cache): Cache {
    if first && !info.handlesDelaySlot then Restarted(LatentCheck(c))
    else if info.branch && last.branch then Restarted(HoldBranchState(c))
    else if !info.handlesDelaySlot && last.branch then
      if last.conditional then Restarted(TakeCondition(c)) else Restarted(DropCondition(c))
    else c
  }

  // ---------------------------------------------------------------- delay slots

  lemma CheckLowered<V>(calls: Calls<V>, sem: Sem<Rest<V>>, c: Cache, low: Native<V>, h: Abstract<V>)
    requires Starting(c) && Rel(c.entries, low, h)
    ensures ExitRel(LatentCheck(c).entries, |c.entries|,
                    LowExec(calls, LRun(LatentCheck(c).code, LIf(Index(c, SCRATCH_REGISTER0), 0, LFall, LLatent)), low),
                    B.Exec(sem, B.CheckLatentDelaySlot(B.Fall), h))
  {
    var d := LatentCheck(c);
    ToLeaves(c, low, h);
    LatentCheckCorrect(c, low.core, FileIn(h));
    FlushedToFresh(d, low, h);
    CheckLow(calls, sem, Index(c, SCRATCH_REGISTER0), d.entries, |c.entries|, AfterRun(d, low), h);
  }

  lemma StateHeld<V>(c: Cache, d: Cache, i: nat, s: nat, r: nat, low: Native<V>, h: Abstract<V>)
    requires Starting(c) && Rel(c.entries, low, h)
    requires d == HoldBranchState(c) && i == ConditionIndex(c) && s == Scratch0Index(c) && r == Scratch1Index(c)
    ensures Dead(d.entries) && |d.entries| == |c.entries| && FlushedRel(|c.entries|, AfterRun(d, low), h)
    ensures i < |c.entries| && s < |c.entries| && r < |c.entries| && i != s && i != r && s != r
    ensures Reg(AfterRun(d, low).core, i) == h.cond
  {
    ToLeaves(c, low, h);
    HoldBranchStateCorrect(c, low.core, FileIn(h));
    FlushedToFresh(d, low, h);
  }

  lemma ImpossibleLowered<V>(calls: Calls<V>, sem: Sem<Rest<V>>, info: B.Info, last: B.Info, c: Cache, d: Cache, i: nat, s: nat, r: nat,
                             low: Native<V>, h: Abstract<V>)
    requires Starting(c) && Rel(c.entries, low, h) && Fits(info) && Fits(last)
    requires d == HoldBranchState(c) && i == ConditionIndex(c) && s == Scratch0Index(c) && r == Scratch1Index(c)
    ensures ExitRel(d.entries, |c.entries|, LowExec(calls, LRun(d.code, LowImpossible(info, last, i, s, r)), low),
                    B.Exec(sem, B.HandleImpossibleDelaySlot(info, last, B.Fall), h))
  {
    StateHeld(c, d, i, s, r, low, h);
    ImpossibleLow(calls, sem, info, last, i, s, r, d.entries, |c.entries|, AfterRun(d, low), h);
  }

  lemma ClearedFile<V>(h: Abstract<V>)
    requires h.cond <= 1
    ensures FileIn(h.(cond := 0)) == WithReg(FileIn(h), COND_BRANCH_TAKEN, 0)
  {
    ConditionFile(h, 0);
  }

  lemma SlotLowered<V>(calls: Calls<V>, sem: Sem<Rest<V>>, last: B.Info, base: nat, end: nat, c: Cache, d: Cache, s: nat, low: Native<V>, h: Abstract<V>)
    requires Starting(c) && Rel(c.entries, low, h) && Fits(last)
    requires d == (if last.conditional then TakeCondition(c) else DropCondition(c)) && (last.conditional ==> s == CopyIndex(c))
    ensures ExitRel(d.entries, |c.entries|, LowExec(calls, LRun(d.code, LowSlot(last, base, end, s)), low),
                    B.Exec(sem, B.HandleDelaySlot(last, base, end, B.Fall), h))
  {
    ToLeaves(c, low, h);
    if last.conditional { TakeConditionCorrect(c, low.core, FileIn(h)); } else { DropConditionCorrect(c, low.core, FileIn(h)); }
    ClearedFile(h);
    FlushedToFresh(d, low, h.(cond := 0));
    SlotLow(calls, sem, last, base, end, s, d.entries, |c.entries|, AfterRun(d, low), h);
  }

  lemma TailLowered<V>(calls: Calls<V>, sem: Sem<Rest<V>>, info: B.Info, last: B.Info, first: bool, base: nat, end: nat, c: Cache,
                       low: Native<V>, h: Abstract<V>)
    requires Starting(c) && Rel(c.entries, low, h) && Fits(info) && Fits(last)
    ensures ExitRel(TailCache(info, last, first, c).entries, |c.entries|, LowExec(calls, LowTail(info, last, first, base, end, c), low),
                    B.Exec(sem, B.Tail(info, last, first, base, end), h))
  {
    if first && !info.handlesDelaySlot {
      CheckLowered(calls, sem, c, low, h);
    } else if info.branch && last.branch {
      ImpossibleLowered(calls, sem, info, last, c, HoldBranchState(c), ConditionIndex(c), Scratch0Index(c), Scratch1Index(c), low, h);
    } else if !info.handlesDelaySlot && last.branch {
      if last.conditional { SlotLowered(calls, sem, last, base, end, c, TakeCondition(c), CopyIndex(c), low, h); }
      else { SlotLowered(calls, sem, last, base, end, c, DropCondition(c), 0, low, h); }
    }
  }

  // ---------------------------------------------------------------- an instruction with its delay slot

  /** The code of one instruction of a region, with the handling of the delay slot it is in. */
  function LowWhole(w: Word, pc: nat, last: B.Info, first: bool, next: bool, base: nat, end: nat, c: Cache, callerSave: nat): LowCode {
    LowInstruction(w, pc, last, first, next, c, callerSave,
                   LowTail(B.InfoOf(w, pc, next), last, first, base, end, InstructionCache(w, pc, last, next, c, callerSave)))
  }

  function WholeCache(w: Word, pc: nat, last: B.Info, first: bool, next: bool, c: Cache, callerSave: nat): Cache {
    TailCache(B.InfoOf(w, pc, next), last, first, InstructionCache(w, pc, last, next, c, callerSave))
  }

  function Whole(w: Word, pc: nat, last: B.Info, first: bool, next: bool, base: nat, end: nat): B.Code {
    B.Instruction(w, pc, last, first, next, B.Tail(B.InfoOf(w, pc, next), last, first, base, end))
  }

  lemma InfoFits(w: Word, pc: nat, next: bool)
    ensures B.InfoOf(w, pc, next).branchTarget < 4096
  {
  }

  lemma StraightLowered<V>(calls: Calls<V>, w: Word, pc: nat, last: B.Info, first: bool, next: bool, base: nat, end: nat,
                           c: Cache, callerSave: nat, n: nat, low: Native<V>, h: Abstract<V>)
    requires Starting(c) && Rel(c.entries, low, h) && Fits(last) && Classify(w).Straight? && n == |low.core.regs|
    ensures ExitRel(WholeCache(w, pc, last, first, next, c, callerSave).entries, n,
                    LowExec(calls, LowWhole(w, pc, last, first, next, base, end, c, callerSave), low),
                    B.Exec(SemOf(calls), Whole(w, pc, last, first, next, base, end), h))
  {
    var info, d := B.InfoOf(w, pc, next), Restarted(PlainCache(w, c, callerSave));
    var l, a := PlainNative(calls, w, c, callerSave, low), h.(m := PlainStep(calls, w, h.m));
    InfoFits(w, pc, next);
    PlainLowered(calls, w, c, callerSave, low, h);
    PlainRuns(calls, w, c, callerSave, LowTail(info, last, first, base, end, d), low);
    PlainSize(calls, w, c, callerSave, low);
    D.PlainExec(SemOf(calls), w, pc, last, first, next, B.Tail(info, last, first, base, end), h);
    TailLowered(calls, SemOf(calls), info, last, first, base, end, d, l, a);
  }

  lemma {:induction false} RunSize(code: seq<HostOp>, h: Host)
    ensures |Run(code, h).regs| == |h.regs|
    decreases |code|
  {
    if |code| > 0 {
      RunSize(code[..|code| - 1], h);
      ExecSize(code[|code| - 1], Run(code[..|code| - 1], h));
    }
  }

  lemma ExecSize(op: HostOp, h: Host)
    ensures |Exec(op, h).regs| == |h.regs|
  {
  }

  lemma PlainSize<V>(calls: Calls<V>, w: Word, c: Cache, callerSave: nat, low: Native<V>)
    ensures |PlainNative(calls, w, c, callerSave, low).core.regs| == |low.core.regs|
  {
    RunSize(PlainCache(w, c, callerSave).code, low.core);
  }

  lemma FlowLowered<V>(calls: Calls<V>, w: Word, pc: nat, last: B.Info, first: bool, next: bool, base: nat, end: nat,
                       c: Cache, callerSave: nat, n: nat, low: Native<V>, h: Abstract<V>)
    requires Starting(c) && Rel(c.entries, low, h) && Fits(last) && ChangesFlow(Classify(w)) && n == |low.core.regs|
    ensures ExitRel(WholeCache(w, pc, last, first, next, c, callerSave).entries, n,
                    LowExec(calls, LowWhole(w, pc, last, first, next, base, end, c, callerSave), low),
                    B.Exec(SemOf(calls), Whole(w, pc, last, first, next, base, end), h))
  {
    var info, d := B.InfoOf(w, pc, next), FlowCache(w, pc / 4, last, next, c);
    var l, a := AfterRun(d, low), D.AfterBranch(w, pc / 4, last, next, h);
    var kk := B.Tail(info, last, first, base, end);
    InfoFits(w, pc, next);
    StartDone(c, low, h);
    FlowDone(w, pc / 4, last, next, c, low, h);
    DoneRel(d, low, a);
    RunSize(d.code, low.core);
    D.FlushExec(SemOf(calls), last, B.BranchBody(w, pc / 4, next, kk), h);
    D.BranchExec(SemOf(calls), w, pc / 4, next, kk, D.Flushed(last, h));
    TailLowered(calls, SemOf(calls), info, last, first, base, end, Restarted(d), l, a);
  }

  lemma BreakReady<V>(c: Cache, n: nat, low: Native<V>, h: Abstract<V>)
    requires Starting(c) && Rel(c.entries, low, h) && n == |low.core.regs|
    ensures Stopping(n, On(Movi(MODE, MODE_BREAK), AfterRun(FlushRegisterWindow(c), low)), h.(mode := MODE_BREAK))
  {
    ToLeaves(c, low, h);
    FlushWindowStep(c, low.core, FileIn(h));
    FlushedToFresh(FlushRegisterWindow(c), low, h);
    PutLow(n, MODE, MODE_BREAK, AfterRun(FlushRegisterWindow(c), low), h);
  }

  lemma BreakLowered<V>(calls: Calls<V>, w: Word, pc: nat, last: B.Info, first: bool, next: bool, base: nat, end: nat,
                        c: Cache, callerSave: nat, n: nat, low: Native<V>, h: Abstract<V>)
    requires Starting(c) && Rel(c.entries, low, h) && Fits(last) && Classify(w).Break? && n == |low.core.regs|
    ensures ExitRel(WholeCache(w, pc, last, first, next, c, callerSave).entries, n,
                    LowExec(calls, LowWhole(w, pc, last, first, next, base, end, c, callerSave), low),
                    B.Exec(SemOf(calls), Whole(w, pc, last, first, next, base, end), h))
  {
    var l := AfterRun(FlushRegisterWindow(c), low);
    BreakReady(c, n, low, h);
    ThenExec(calls, Movi(MODE, MODE_BREAK), LowLeave(pc, last, first), l);
    D.PlainExec(SemOf(calls), w, pc, last, first, next, B.Tail(B.InfoOf(w, pc, next), last, first, base, end), h);
    ExitLow(calls, SemOf(calls), pc, last, first, WholeCache(w, pc, last, first, next, c, callerSave).entries, n,
            On(Movi(MODE, MODE_BREAK), l), h.(mode := MODE_BREAK));
  }

  lemma Cop0Runs<V>(calls: Calls<V>, w: Word, c: Cache, callerSave: nat, k: LowCode, leave: LowCode, low: Native<V>)
    ensures var l := CallCop0(calls, w, callerSave, AfterRun(FlushRegisterWindow(c), low));
            LowExec(calls, LRun(FlushRegisterWindow(c).code, LCop0(w, callerSave, LIf(MODE, MODE_CONTINUE, k, leave))), low)
            == if Reg(l.core, MODE) == MODE_CONTINUE then LowExec(calls, k, l) else LowExec(calls, leave, l)
  {
    var low1 := AfterRun(FlushRegisterWindow(c), low);
    var test := LIf(MODE, MODE_CONTINUE, k, leave);
    assert LowExec(calls, LCop0(w, callerSave, test), low1) == LowExec(calls, test, CallCop0(calls, w, callerSave, low1));
  }

  /** The 64-bit comparison with a small status is the 32-bit one. */
  lemma StatusAgrees(status: Guest)
    ensures SignExtend(status) == MODE_CONTINUE <==> status == MODE_CONTINUE
    ensures Low(SignExtend(status)) == status
  {
    LowOfExtension(status);
  }

  lemma FlushDead(c: Cache)
    requires forall k :: 0 <= k < |c.entries| && !c.entries[k].live ==> c.entries[k].locks == 0
    ensures Dead(FlushRegisterWindow(c).entries) && |FlushRegisterWindow(c).entries| == |c.entries|
  {
  }

  lemma Cop0Ready<V>(calls: Calls<V>, w: Word, c: Cache, callerSave: nat, n: nat, low: Native<V>, h: Abstract<V>)
    requires Starting(c) && Rel(c.entries, low, h) && n == |low.core.regs|
    ensures var l, a := CallCop0(calls, w, callerSave, AfterRun(FlushRegisterWindow(c), low)), h.(m := calls.cop0(w, h.m), mode := calls.mode(w, h.m));
            && Rel(FlushRegisterWindow(c).entries, l, a) && Stopping(n, l, a) && |l.core.regs| == n
            && (Reg(l.core, MODE) == MODE_CONTINUE <==> a.mode == MODE_CONTINUE)
  {
    var l, a := CallCop0(calls, w, callerSave, AfterRun(FlushRegisterWindow(c), low)), h.(m := calls.cop0(w, h.m), mode := calls.mode(w, h.m));
    Cop0Lowered(calls, w, c, callerSave, low, h);
    StatusAgrees(calls.mode(w, h.m));
    FlushDead(c);
    DeadRel(FlushRegisterWindow(c).entries, l, a);
  }

  lemma Cop0Parts<V>(calls: Calls<V>, w: Word, pc: nat, last: B.Info, first: bool, next: bool, k: B.Code, h: Abstract<V>)
    requires Classify(w).Cop0?
    ensures var a := h.(m := calls.cop0(w, h.m), mode := calls.mode(w, h.m));
            B.Exec(SemOf(calls), B.Instruction(w, pc, last, first, next, k), h)
            == if a.mode == MODE_CONTINUE then B.Exec(SemOf(calls), k, a) else B.Exec(SemOf(calls), B.ExitDynamic(pc, last, first), a)
  {
    SemIs(calls, w, h.m);
    D.PlainExec(SemOf(calls), w, pc, last, first, next, k, h);
  }

  lemma Cop0Whole<V>(calls: Calls<V>, w: Word, pc: nat, last: B.Info, first: bool, next: bool, base: nat, end: nat,
                     c: Cache, callerSave: nat, n: nat, low: Native<V>, h: Abstract<V>)
    requires Starting(c) && Rel(c.entries, low, h) && Fits(last) && Classify(w).Cop0? && n == |low.core.regs|
    ensures ExitRel(WholeCache(w, pc, last, first, next, c, callerSave).entries, n,
                    LowExec(calls, LowWhole(w, pc, last, first, next, base, end, c, callerSave), low),
                    B.Exec(SemOf(calls), Whole(w, pc, last, first, next, base, end), h))
  {
    var info, d := B.InfoOf(w, pc, next), Restarted(FlushRegisterWindow(c));
    var l, a := CallCop0(calls, w, callerSave, AfterRun(FlushRegisterWindow(c), low)), h.(m := calls.cop0(w, h.m), mode := calls.mode(w, h.m));
    Cop0Ready(calls, w, c, callerSave, n, low, h);
    Cop0Runs(calls, w, c, callerSave, LowTail(info, last, first, base, end, d), LowLeave(pc, last, first), low);
    Cop0Parts(calls, w, pc, last, first, next, B.Tail(info, last, first, base, end), h);
    InfoFits(w, pc, next);
    if a.mode == MODE_CONTINUE {
      TailLowered(calls, SemOf(calls), info, last, first, base, end, d, l, a);
    } else {
      ExitLow(calls, SemOf(calls), pc, last, first, TailCache(info, last, first, d).entries, n, l, a);
    }
  }

  /** The host code of any instruction word does what the control-flow code says, whatever the cache held before it. */
  lemma WholeLowered<V>(calls: Calls<V>, w: Word, pc: nat, last: B.Info, first: bool, next: bool, base: nat, end: nat,
                        c: Cache, callerSave: nat, n: nat, low: Native<V>, h: Abstract<V>)
    requires Starting(c) && Rel(c.entries, low, h) && Fits(last) && n == |low.core.regs|
    ensures ExitRel(WholeCache(w, pc, last, first, next, c, callerSave).entries, n,
                    LowExec(calls, LowWhole(w, pc, last, first, next, base, end, c, callerSave), low),
                    B.Exec(SemOf(calls), Whole(w, pc, last, first, next, base, end), h))
  {
    match Classify(w)
    case Straight => StraightLowered(calls, w, pc, last, first, next, base, end, c, callerSave, n, low, h);
    case Cop0 => Cop0Whole(calls, w, pc, last, first, next, base, end, c, callerSave, n, low, h);
    case Break => BreakLowered(calls, w, pc, last, first, next, base, end, c, callerSave, n, low, h);
    case _ => FlowLowered(calls, w, pc, last, first, next, base, end, c, callerSave, n, low, h);
  }
}
