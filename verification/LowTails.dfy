/**
  The code around delay slots as it is emitted (rsp_jit.cpp): once the window has
  been flushed it works on bare host registers, which the cache has named before
  the flush and which may coincide with those of the next pc and the exit status.
 */
module LowTails {
  import opened Arithmetic
  import opened Wrappers
  import opened Isa
  import opened HostWords
  import opened RegisterCache
  import opened Decoder
  import opened LowCode
  import opened LowRelation
  import HostBytes
  import B = BlockCompiler
  import D = DelaySlots

  function Then(op: HostOp, k: LowCode): LowCode { LRun([op], k) }

  function On<V>(op: HostOp, low: Native<V>): Native<V> { low.(core := Exec(op, low.core)) }

  lemma ThenExec<V>(calls: Calls<V>, op: HostOp, k: LowCode, low: Native<V>)
    ensures LowExec(calls, Then(op, k), low) == LowExec(calls, k, On(op, low))
  {
    RunOne(op, low.core);
  }

  lemma TwoThenExec<V>(calls: Calls<V>, a: HostOp, b: HostOp, k: LowCode, low: Native<V>)
    ensures LowExec(calls, Then(a, Then(b, k)), low) == LowExec(calls, k, On(b, On(a, low)))
  {
    ThenExec(calls, a, Then(b, k), low);
    ThenExec(calls, b, k, On(a, low));
  }

  // ---------------------------------------------------------------- single operations

  /** `branch_target` is a 32-bit field. */
  function TargetOp(info: B.Info, r: nat): HostOp {
    if info.indirect then Fill(r, IndirectPc) else Movi(r, info.branchTarget % TWO_32)
  }

  predicate Fits(info: B.Info) { info.branchTarget < TWO_32 }

  function TargetValue<V>(info: B.Info, h: Abstract<V>): nat { if info.indirect then h.indirect else info.branchTarget }

  /** Writing a host register does not matter to a flushed window. */
  lemma PutLow<V>(n: nat, r: nat, x: Host64, low: Native<V>, h: Abstract<V>)
    requires FlushedRel(n, low, h)
    ensures FlushedRel(n, low.(core := Put(low.core, r, x)), h)
  {
  }

  lemma TargetLow<V>(n: nat, info: B.Info, r: nat, low: Native<V>, h: Abstract<V>)
    requires FlushedRel(n, low, h) && Fits(info) && r < n
    ensures var l := On(TargetOp(info, r), low);
            FlushedRel(n, l, h) && Low(Reg(l.core, r)) == TargetValue(info, h)
            && forall k :: 0 <= k < n && k != r ==> Reg(l.core, k) == Reg(low.core, k)
  {
  }

  lemma SpillLow<V>(n: nat, slot: Slot, r: nat, low: Native<V>, h: Abstract<V>)
    requires FlushedRel(n, low, h) && (slot.HasDelay? || slot.BranchTarget? || slot.SpilledCond?)
    ensures var l, x := On(Spill(slot, r), low), Reg(low.core, r);
            l.core.regs == low.core.regs
            && FlushedRel(n, l, match slot
                                case HasDelay => h.(hasDelay := Low(x))
                                case BranchTarget => h.(branchTarget := Low(x))
                                case SpilledCond => h.(spilledCond := x)
                                case _ => h)
  {
  }

  lemma PcOfBytes(a: nat)
    requires a < TWO_32
    ensures SamePc(a, a) && Low(a) == a
  {
  }

  lemma ExtensionKeepsPc(v: Guest)
    ensures Low(SignExtend(v)) == v && SamePc(SignExtend(v), v) && (SignExtend(v) == 0 <==> v == 0)
  {
    LowOfExtension(v);
  }

  // ---------------------------------------------------------------- leaving a block in the middle

  function LowContinue(pc: nat): LowCode { Then(Movi(NEXT_PC, B.FollowingBytes(pc) % TWO_32), LReturn) }

  function LowLatentLeave(): LowCode {
    Then(Movi(NEXT_PC, 0), Then(Spill(HasDelay, NEXT_PC), Then(Fill(NEXT_PC, BranchTarget), LReturn)))
  }

  function LatentLeave(): B.Code {
    B.Do(B.Movi(B.NextPcReg, 0), B.Do(B.StoreHasDelay(B.NextPcReg), B.Do(B.LoadBranchTarget(B.NextPcReg), B.Return)))
  }

  function LowExitFirst(pc: nat): LowCode {
    Then(Fill(NEXT_PC, HasDelay), LIf(NEXT_PC, 0, LowContinue(pc), LowLatentLeave()))
  }

  function LowExitLater(pc: nat, last: B.Info): LowCode {
    if !last.branch then LowContinue(pc)
    else if !last.conditional then Then(TargetOp(last, NEXT_PC), LReturn)
    else Then(Fill(NEXT_PC, CondMemory), LIf(NEXT_PC, 0, LowContinue(pc), Then(TargetOp(last, NEXT_PC), LReturn)))
  }

  function LowLeave(pc: nat, last: B.Info, first: bool): LowCode { if first then LowExitFirst(pc) else LowExitLater(pc, last) }

  ghost predicate Stopping<V>(n: nat, low: Native<V>, h: Abstract<V>) {
    FlushedRel(n, low, h) && Low(Reg(low.core, MODE)) == h.mode
  }

  lemma ContinueLow<V>(calls: Calls<V>, sem: Sem<Rest<V>>, pc: nat, es: seq<Entry>, n: nat, low: Native<V>, h: Abstract<V>)
    requires Stopping(n, low, h)
    ensures ExitRel(es, n, LowExec(calls, LowContinue(pc), low),
                    B.Exec(sem, B.Do(B.Movi(B.NextPcReg, B.FollowingBytes(pc)), B.Return), h))
  {
    ThenExec(calls, Movi(NEXT_PC, B.FollowingBytes(pc) % TWO_32), LReturn, low);
    D.ExecLeaf(sem, B.Movi(B.NextPcReg, B.FollowingBytes(pc)), h);
    PcOfBytes(B.FollowingBytes(pc));
  }

  lemma LeaveLow<V>(calls: Calls<V>, sem: Sem<Rest<V>>, last: B.Info, es: seq<Entry>, n: nat, low: Native<V>, h: Abstract<V>)
    requires Stopping(n, low, h) && Fits(last)
    ensures ExitRel(es, n, LowExec(calls, Then(TargetOp(last, NEXT_PC), LReturn), low),
                    B.Exec(sem, B.Do(B.LoadTarget(last, B.NextPcReg), B.Return), h))
  {
    ThenExec(calls, TargetOp(last, NEXT_PC), LReturn, low);
    D.ExecLeaf(sem, B.LoadTarget(last, B.NextPcReg), h);
    TargetLow(n, last, NEXT_PC, low, h);
  }

  lemma LatentLeaveRuns<V>(calls: Calls<V>, low: Native<V>)
    ensures LowExec(calls, LowLatentLeave(), low)
            == LReturns(On(Fill(NEXT_PC, BranchTarget), On(Spill(HasDelay, NEXT_PC), On(Movi(NEXT_PC, 0), low))))
  {
    TwoThenExec(calls, Movi(NEXT_PC, 0), Spill(HasDelay, NEXT_PC), Then(Fill(NEXT_PC, BranchTarget), LReturn), low);
    ThenExec(calls, Fill(NEXT_PC, BranchTarget), LReturn, On(Spill(HasDelay, NEXT_PC), On(Movi(NEXT_PC, 0), low)));
  }

  lemma LatentLeaveExec<V>(sem: Sem<Rest<V>>, h: Abstract<V>)
    ensures B.Exec(sem, LatentLeave(), h) == B.Returns(h.(hasDelay := 0, nextPc := h.branchTarget))
  {
    D.ExecThree(sem, B.Movi(B.NextPcReg, 0), B.StoreHasDelay(B.NextPcReg), B.LoadBranchTarget(B.NextPcReg), B.Return, h);
  }

  lemma LatentLeaveLow<V>(calls: Calls<V>, sem: Sem<Rest<V>>, es: seq<Entry>, n: nat, low: Native<V>, h: Abstract<V>)
    requires Stopping(n, low, h)
    ensures ExitRel(es, n, LowExec(calls, LowLatentLeave(), low), B.Exec(sem, LatentLeave(), h))
  {
    var l1 := On(Movi(NEXT_PC, 0), low);
    var l2 := On(Spill(HasDelay, NEXT_PC), l1);
    LatentLeaveRuns(calls, low);
    LatentLeaveExec(sem, h);
    PutLow(n, NEXT_PC, 0, low, h);
    SpillLow(n, HasDelay, NEXT_PC, l1, h);
    PutLow(n, NEXT_PC, SignExtend(h.branchTarget), l2, h.(hasDelay := 0));
    ExtensionKeepsPc(h.branchTarget);
    LatentReturns(es, n, On(Fill(NEXT_PC, BranchTarget), l2), h.(hasDelay := 0, nextPc := h.branchTarget));
  }

  lemma LatentReturns<V>(es: seq<Entry>, n: nat, low: Native<V>, h: Abstract<V>)
    requires Stopping(n, low, h) && SamePc(Reg(low.core, NEXT_PC), h.nextPc)
    ensures ExitRel(es, n, LReturns(low), B.Returns(h))
  {
  }

  lemma ExitFirstLow<V>(calls: Calls<V>, sem: Sem<Rest<V>>, pc: nat, es: seq<Entry>, n: nat, low: Native<V>, h: Abstract<V>)
    requires Stopping(n, low, h)
    ensures ExitRel(es, n, LowExec(calls, LowExitFirst(pc), low), B.Exec(sem, B.ExitFirst(pc), h))
  {
    var l, a := On(Fill(NEXT_PC, HasDelay), low), B.Put(h, B.NextPcReg, h.hasDelay);
    PutLow(n, NEXT_PC, SignExtend(h.hasDelay), low, h);
    ExtensionKeepsPc(h.hasDelay);
    if h.hasDelay == 0 { ContinueLow(calls, sem, pc, es, n, l, a); } else { LatentLeaveLow(calls, sem, es, n, l, a); }
    ExitFirstParts(calls, sem, pc, low, h);
  }

  lemma ExitFirstParts<V>(calls: Calls<V>, sem: Sem<Rest<V>>, pc: nat, low: Native<V>, h: Abstract<V>)
    ensures var l := On(Fill(NEXT_PC, HasDelay), low);
            LowExec(calls, LowExitFirst(pc), low)
            == if Reg(l.core, NEXT_PC) == 0 then LowExec(calls, LowContinue(pc), l)
               else LowExec(calls, LowLatentLeave(), l)
    ensures var a := B.Put(h, B.NextPcReg, h.hasDelay);
            B.Exec(sem, B.ExitFirst(pc), h)
            == if h.hasDelay == 0 then B.Exec(sem, B.Do(B.Movi(B.NextPcReg, B.FollowingBytes(pc)), B.Return), a)
               else B.Exec(sem, LatentLeave(), a)
  {
    ThenExec(calls, Fill(NEXT_PC, HasDelay), LIf(NEXT_PC, 0, LowContinue(pc), LowLatentLeave()), low);
  }

  lemma ExitLaterLow<V>(calls: Calls<V>, sem: Sem<Rest<V>>, pc: nat, last: B.Info, es: seq<Entry>, n: nat, low: Native<V>, h: Abstract<V>)
    requires Stopping(n, low, h) && Fits(last)
    ensures ExitRel(es, n, LowExec(calls, LowExitLater(pc, last), low), B.Exec(sem, B.ExitLater(pc, last), h))
  {
    if !last.branch {
      ContinueLow(calls, sem, pc, es, n, low, h);
    } else if !last.conditional {
      LeaveLow(calls, sem, last, es, n, low, h);
    } else {
      var leave := Then(TargetOp(last, NEXT_PC), LReturn);
      var l, a := On(Fill(NEXT_PC, CondMemory), low), B.Put(h, B.NextPcReg, h.cond);
      ThenExec(calls, Fill(NEXT_PC, CondMemory), LIf(NEXT_PC, 0, LowContinue(pc), leave), low);
      PutLow(n, NEXT_PC, SignExtend(h.cond), low, h);
      ExtensionKeepsPc(h.cond);
      if h.cond == 0 { ContinueLow(calls, sem, pc, es, n, l, a); } else { LeaveLow(calls, sem, last, es, n, l, a); }
    }
  }

  /** Leaving with a status: the pc, the cleared delay slot and the status are those of the control-flow code. */
  lemma ExitLow<V>(calls: Calls<V>, sem: Sem<Rest<V>>, pc: nat, last: B.Info, first: bool, es: seq<Entry>, n: nat, low: Native<V>, h: Abstract<V>)
    requires Stopping(n, low, h) && Fits(last)
    ensures ExitRel(es, n, LowExec(calls, LowLeave(pc, last, first), low), B.Exec(sem, B.ExitDynamic(pc, last, first), h))
  {
    if first { ExitFirstLow(calls, sem, pc, es, n, low, h); } else { ExitLaterLow(calls, sem, pc, last, es, n, low, h); }
  }

  // ---------------------------------------------------------------- after a branch in the delay slot of a branch

  function LowTakeBranch(last: B.Info, base: nat, end: nat): LowCode {
    if !last.indirect && base <= last.branchTarget < end then LGoto((last.branchTarget - base) / 4)
    else Then(TargetOp(last, NEXT_PC), LEnter)
  }

  lemma TakeBranchLow<V>(calls: Calls<V>, sem: Sem<Rest<V>>, last: B.Info, base: nat, end: nat, es: seq<Entry>, n: nat, low: Native<V>, h: Abstract<V>)
    requires FlushedRel(n, low, h) && Fits(last)
    ensures ExitRel(es, n, LowExec(calls, LowTakeBranch(last, base, end), low), B.Exec(sem, B.TakeBranch(last, base, end), h))
  {
    if last.indirect || !(base <= last.branchTarget < end) {
      ThenExec(calls, TargetOp(last, NEXT_PC), LEnter, low);
      D.ExecLeaf(sem, B.LoadTarget(last, B.NextPcReg), h);
      TargetLow(n, last, NEXT_PC, low, h);
    }
  }

  function LowFirstPc(last: B.Info): LowCode {
    Then(if last.indirect then Fill(NEXT_PC, SpilledPc) else Movi(NEXT_PC, last.branchTarget % TWO_32), LEnter)
  }

  function FirstPc(last: B.Info): B.Code {
    B.Do(if last.indirect then B.LoadSpilledIndirect(B.NextPcReg) else B.Movi(B.NextPcReg, last.branchTarget), B.Enter)
  }

  function Deferred<V>(info: B.Info, h: Abstract<V>): Abstract<V> {
    h.(hasDelay := h.condReg, branchTarget := TargetValue(info, h), condReg := TargetValue(info, h))
  }

  function LowDeferred<V>(info: B.Info, i: nat, low: Native<V>): Native<V> {
    On(Spill(BranchTarget, i), On(TargetOp(info, i), On(Spill(HasDelay, i), low)))
  }

  /** Host register `i` holds the condition of the second branch, or what is to be stored for it. */
  function LowTakeFirst(info: B.Info, last: B.Info, i: nat): LowCode {
    Then(Spill(HasDelay, i),
    Then(TargetOp(info, i),
    Then(Spill(BranchTarget, i),
    LowFirstPc(last))))
  }

  /** Storing what the second branch leaves latent. */
  lemma DeferLow<V>(n: nat, info: B.Info, i: nat, low: Native<V>, h: Abstract<V>)
    requires FlushedRel(n, low, h) && Fits(info) && i < n && Reg(low.core, i) == h.condReg <= 1
    ensures FlushedRel(n, LowDeferred(info, i, low), Deferred(info, h))
  {
    var l1 := On(Spill(HasDelay, i), low);
    var h1 := h.(hasDelay := h.condReg);
    SpillLow(n, HasDelay, i, low, h);
    TargetLow(n, info, i, l1, h1);
    SpillLow(n, BranchTarget, i, On(TargetOp(info, i), l1), h1);
  }

  lemma FirstPcLow<V>(calls: Calls<V>, sem: Sem<Rest<V>>, last: B.Info, es: seq<Entry>, n: nat, low: Native<V>, h: Abstract<V>)
    requires FlushedRel(n, low, h) && Fits(last)
    ensures ExitRel(es, n, LowExec(calls, LowFirstPc(last), low), B.Exec(sem, FirstPc(last), h))
  {
    ThenExec(calls, if last.indirect then Fill(NEXT_PC, SpilledPc) else Movi(NEXT_PC, last.branchTarget % TWO_32), LEnter, low);
    D.ExecLeaf(sem, if last.indirect then B.LoadSpilledIndirect(B.NextPcReg) else B.Movi(B.NextPcReg, last.branchTarget), h);
    PcOfBytes(last.branchTarget);
  }

  lemma TakeFirstRuns<V>(calls: Calls<V>, info: B.Info, last: B.Info, i: nat, low: Native<V>)
    ensures LowExec(calls, LowTakeFirst(info, last, i), low) == LowExec(calls, LowFirstPc(last), LowDeferred(info, i, low))
  {
    TwoThenExec(calls, Spill(HasDelay, i), TargetOp(info, i), Then(Spill(BranchTarget, i), LowFirstPc(last)), low);
    ThenExec(calls, Spill(BranchTarget, i), LowFirstPc(last), On(TargetOp(info, i), On(Spill(HasDelay, i), low)));
  }

  lemma TakeFirstParts<V>(sem: Sem<Rest<V>>, info: B.Info, last: B.Info, h: Abstract<V>)
    ensures B.Exec(sem, B.TakeFirstBranch(info, last), h) == B.Exec(sem, FirstPc(last), Deferred(info, h))
  {
    D.ExecThree(sem, B.StoreHasDelay(B.CondReg), B.LoadTarget(info, B.CondReg), B.StoreBranchTarget(B.CondReg), FirstPc(last), h);
  }

  /** Taking the first of two branches: what the second leaves latent is stored, and control enters the first's target. */
  lemma TakeFirstLow<V>(calls: Calls<V>, sem: Sem<Rest<V>>, info: B.Info, last: B.Info, i: nat, es: seq<Entry>, n: nat, low: Native<V>, h: Abstract<V>)
    requires FlushedRel(n, low, h) && Fits(info) && Fits(last) && i < n && Reg(low.core, i) == h.condReg <= 1
    ensures ExitRel(es, n, LowExec(calls, LowTakeFirst(info, last, i), low), B.Exec(sem, B.TakeFirstBranch(info, last), h))
  {
    TakeFirstRuns(calls, info, last, i, low);
    TakeFirstParts(sem, info, last, h);
    DeferLow(n, info, i, low, h);
    FirstPcLow(calls, sem, last, es, n, LowDeferred(info, i, low), Deferred(info, h));
  }

  // ---------------------------------------------------------------- two branches in a row

  function LowTaken(info: B.Info, last: B.Info, i: nat): LowCode {
    if info.conditional then LowTakeFirst(info, last, i) else Then(Movi(i, 1), LowTakeFirst(info, last, i))
  }

  function Taken(info: B.Info, last: B.Info): B.Code {
    if info.conditional then B.TakeFirstBranch(info, last) else B.Do(B.Movi(B.CondReg, 1), B.TakeFirstBranch(info, last))
  }

  /** `i` is the register of the condition, `s` and `r` the scratch registers. */
  function LowImpossible(info: B.Info, last: B.Info, i: nat, s: nat, r: nat): LowCode {
    if last.conditional then
      Then(Fill(r, SpilledCond), Then(Movi(s, 0), Then(Spill(SpilledCond, s), LIf(r, 0, LFall, LowTaken(info, last, i)))))
    else
      Then(Movi(i, 0), Then(Spill(SpilledCond, i), LowTaken(info, last, i)))
  }

  lemma TakenLow<V>(calls: Calls<V>, sem: Sem<Rest<V>>, info: B.Info, last: B.Info, i: nat, es: seq<Entry>, n: nat, low: Native<V>, h: Abstract<V>)
    requires FlushedRel(n, low, h) && Fits(info) && Fits(last) && i < n && Reg(low.core, i) == h.condReg <= 1
    ensures ExitRel(es, n, LowExec(calls, LowTaken(info, last, i), low), B.Exec(sem, Taken(info, last), h))
  {
    if info.conditional {
      TakeFirstLow(calls, sem, info, last, i, es, n, low, h);
    } else {
      ThenExec(calls, Movi(i, 1), LowTakeFirst(info, last, i), low);
      PutLow(n, i, 1, low, h);
      TakeFirstLow(calls, sem, info, last, i, es, n, On(Movi(i, 1), low), B.Put(h, B.CondReg, 1));
    }
  }

  /** The condition of the first branch fetched into `r`, and its slot cleared through `s`. */
  function Fetched<V>(r: nat, s: nat, low: Native<V>): Native<V> {
    On(Spill(SpilledCond, s), On(Movi(s, 0), On(Fill(r, SpilledCond), low)))
  }

  lemma FetchedLow<V>(n: nat, i: nat, s: nat, r: nat, low: Native<V>, h: Abstract<V>)
    requires FlushedRel(n, low, h) && i < n && s < n && r < n && i != s && i != r && s != r
    ensures var l := Fetched(r, s, low);
            FlushedRel(n, l, h.(spilledCond := 0)) && Reg(l.core, r) == h.spilledCond && Reg(l.core, i) == Reg(low.core, i)
  {
    var l1 := On(Fill(r, SpilledCond), low);
    PutLow(n, r, low.core.control.spilledCond, low, h);
    PutLow(n, s, 0, l1, h);
    SpillLow(n, SpilledCond, s, On(Movi(s, 0), l1), h);
  }

  lemma FetchedRuns<V>(calls: Calls<V>, r: nat, s: nat, k: LowCode, low: Native<V>)
    ensures LowExec(calls, Then(Fill(r, SpilledCond), Then(Movi(s, 0), Then(Spill(SpilledCond, s), LIf(r, 0, LFall, k)))), low)
            == if Reg(Fetched(r, s, low).core, r) == 0 then LFalls(Fetched(r, s, low)) else LowExec(calls, k, Fetched(r, s, low))
  {
    var test := LIf(r, 0, LFall, k);
    TwoThenExec(calls, Fill(r, SpilledCond), Movi(s, 0), Then(Spill(SpilledCond, s), test), low);
    ThenExec(calls, Spill(SpilledCond, s), test, On(Movi(s, 0), On(Fill(r, SpilledCond), low)));
  }

  lemma ImpossibleParts<V>(sem: Sem<Rest<V>>, info: B.Info, last: B.Info, h: Abstract<V>)
    ensures var e := B.Exec(sem, B.HandleImpossibleDelaySlot(info, last, B.Fall), h);
            if last.conditional then
              var a := h.(condReg := h.cond, scratch1 := h.spilledCond, scratch0 := 0, spilledCond := 0);
              e == if h.spilledCond == 0 then B.Falls(a) else B.Exec(sem, Taken(info, last), a)
            else e == B.Exec(sem, Taken(info, last), h.(condReg := 0, spilledCond := 0))
  {
    var taken := Taken(info, last);
    if last.conditional {
      var k := B.IfEq(B.Scratch1, 0, B.Fall, taken);
      D.ExecThree(sem, B.LoadSpilledCond(B.Scratch1), B.Movi(B.Scratch0, 0), B.StoreSpilledCond(B.Scratch0), k, B.Put(h, B.CondReg, h.cond));
    } else {
      D.ExecThree(sem, B.LoadCond(B.CondReg), B.Movi(B.CondReg, 0), B.StoreSpilledCond(B.CondReg), taken, h);
    }
  }

  /** An exit that falls, over dead entries. */
  lemma FallsLow<V>(es: seq<Entry>, n: nat, low: Native<V>, h: Abstract<V>)
    requires FlushedRel(n, low, h) && Dead(es) && |es| == n
    ensures ExitRel(es, n, LFalls(low), B.Falls(h))
  {
    DeadRel(es, low, h);
  }

  lemma ImpossibleLow<V>(calls: Calls<V>, sem: Sem<Rest<V>>, info: B.Info, last: B.Info, i: nat, s: nat, r: nat, es: seq<Entry>, n: nat,
                         low: Native<V>, h: Abstract<V>)
    requires FlushedRel(n, low, h) && Dead(es) && |es| == n && Fits(info) && Fits(last) && Reg(low.core, i) == h.cond
    requires i < n && s < n && r < n && i != s && i != r && s != r
    ensures ExitRel(es, n, LowExec(calls, LowImpossible(info, last, i, s, r), low),
                    B.Exec(sem, B.HandleImpossibleDelaySlot(info, last, B.Fall), h))
  {
    ImpossibleParts(sem, info, last, h);
    if last.conditional {
      var l, a := Fetched(r, s, low), h.(condReg := h.cond, scratch1 := h.spilledCond, scratch0 := 0, spilledCond := 0);
      FetchedLow(n, i, s, r, low, h);
      FetchedRuns(calls, r, s, LowTaken(info, last, i), low);
      if h.spilledCond == 0 { FallsLow(es, n, l, a); } else { TakenLow(calls, sem, info, last, i, es, n, l, a); }
    } else {
      UnconditionalLow(calls, sem, info, last, i, es, n, low, h);
    }
  }

  lemma UnconditionalLow<V>(calls: Calls<V>, sem: Sem<Rest<V>>, info: B.Info, last: B.Info, i: nat, es: seq<Entry>, n: nat,
                            low: Native<V>, h: Abstract<V>)
    requires FlushedRel(n, low, h) && Fits(info) && Fits(last) && i < n
    ensures ExitRel(es, n, LowExec(calls, Then(Movi(i, 0), Then(Spill(SpilledCond, i), LowTaken(info, last, i))), low),
                    B.Exec(sem, Taken(info, last), h.(condReg := 0, spilledCond := 0)))
  {
    TwoThenExec(calls, Movi(i, 0), Spill(SpilledCond, i), LowTaken(info, last, i), low);
    PutLow(n, i, 0, low, h);
    SpillLow(n, SpilledCond, i, On(Movi(i, 0), low), h);
    TakenLow(calls, sem, info, last, i, es, n, On(Spill(SpilledCond, i), On(Movi(i, 0), low)), h.(condReg := 0, spilledCond := 0));
  }

  // ---------------------------------------------------------------- the delay slot of a branch

  /** `s` holds the condition a conditional branch has left. */
  function LowSlot(last: B.Info, base: nat, end: nat, s: nat): LowCode {
    if last.conditional then LIf(s, 0, LFall, LowTakeBranch(last, base, end)) else LowTakeBranch(last, base, end)
  }

  lemma SlotParts<V>(sem: Sem<Rest<V>>, last: B.Info, base: nat, end: nat, h: Abstract<V>)
    ensures var e := B.Exec(sem, B.HandleDelaySlot(last, base, end, B.Fall), h);
            if last.conditional then
              var a := h.(scratch0 := h.cond, cond := 0);
              e == if h.cond == 0 then B.Falls(a) else B.Exec(sem, B.TakeBranch(last, base, end), a)
            else e == B.Exec(sem, B.TakeBranch(last, base, end), h.(cond := 0))
  {
    if last.conditional {
      var k := B.IfEq(B.Scratch0, 0, B.Fall, B.TakeBranch(last, base, end));
      assert B.Exec(sem, B.Do(B.SetCond(0), k), B.Put(h, B.Scratch0, h.cond)) == B.Exec(sem, k, h.(scratch0 := h.cond, cond := 0));
    }
  }

  /** The condition has been cleared; `s` has what it was. */
  lemma SlotLow<V>(calls: Calls<V>, sem: Sem<Rest<V>>, last: B.Info, base: nat, end: nat, s: nat, es: seq<Entry>, n: nat,
                   low: Native<V>, h: Abstract<V>)
    requires FlushedRel(n, low, h.(cond := 0)) && Dead(es) && |es| == n && Fits(last)
    requires last.conditional ==> Reg(low.core, s) == h.cond
    ensures ExitRel(es, n, LowExec(calls, LowSlot(last, base, end, s), low), B.Exec(sem, B.HandleDelaySlot(last, base, end, B.Fall), h))
  {
    SlotParts(sem, last, base, end, h);
    var a := if last.conditional then h.(scratch0 := h.cond, cond := 0) else h.(cond := 0);
    if last.conditional && h.cond == 0 {
      FallsLow(es, n, low, a);
    } else {
      TakeBranchLow(calls, sem, last, base, end, es, n, low, a);
    }
  }

  // ---------------------------------------------------------------- latent delay slots

  /** `s` holds `has_delay_slot`. */
  lemma CheckLow<V>(calls: Calls<V>, sem: Sem<Rest<V>>, s: nat, es: seq<Entry>, n: nat, low: Native<V>, h: Abstract<V>)
    requires FlushedRel(n, low, h) && Dead(es) && |es| == n && s < n && Reg(low.core, s) == SignExtend(h.hasDelay)
    ensures ExitRel(es, n, LowExec(calls, LIf(s, 0, LFall, LLatent), low), B.Exec(sem, B.CheckLatentDelaySlot(B.Fall), h))
  {
    ExtensionKeepsPc(h.hasDelay);
    CheckParts(sem, h);
    var a := B.Put(h, B.Scratch0, h.hasDelay);
    if h.hasDelay == 0 {
      FallsLow(es, n, low, a);
      assert LowExec(calls, LIf(s, 0, LFall, LLatent), low) == LFalls(low);
    } else {
      assert FlushedRel(n, low, a);
      assert LowExec(calls, LIf(s, 0, LFall, LLatent), low) == LToLatent(low);
    }
  }

  lemma CheckParts<V>(sem: Sem<Rest<V>>, h: Abstract<V>)
    ensures var a := B.Put(h, B.Scratch0, h.hasDelay);
            B.Exec(sem, B.CheckLatentDelaySlot(B.Fall), h) == if h.hasDelay == 0 then B.Falls(a) else B.ToLatent(a)
  {
    var a, test := B.Put(h, B.Scratch0, h.hasDelay), B.IfEq(B.Scratch0, 0, B.Fall, B.GotoLatent);
    assert B.Exec(sem, B.CheckLatentDelaySlot(B.Fall), h) == B.Exec(sem, test, a);
    assert B.Exec(sem, test, a) == if B.Get(a, B.Scratch0) == 0 then B.Exec(sem, B.Fall, a) else B.Exec(sem, B.GotoLatent, a);
  }

  /** The end of the code for a latent delay slot that holds a branch; `r` has the branch's condition. */
  function LowRelay(info: B.Info, r: nat): LowCode {
    Then(Spill(HasDelay, r), Then(Fill(NEXT_PC, BranchTarget), Then(TargetOp(info, MODE), Then(Spill(BranchTarget, MODE), LEnter))))
  }

  function LowSettle(): LowCode {
    Then(Movi(NEXT_PC, 0), Then(Spill(HasDelay, NEXT_PC), Then(Fill(NEXT_PC, BranchTarget), LEnter)))
  }

  function Relayed<V>(info: B.Info, r: nat, low: Native<V>): Native<V> {
    On(Spill(BranchTarget, MODE), On(TargetOp(info, MODE), On(Fill(NEXT_PC, BranchTarget), On(Spill(HasDelay, r), low))))
  }

  lemma RelayRuns<V>(calls: Calls<V>, info: B.Info, r: nat, low: Native<V>)
    ensures LowExec(calls, LowRelay(info, r), low) == LEnters(Relayed(info, r, low))
  {
    var k := Then(TargetOp(info, MODE), Then(Spill(BranchTarget, MODE), LEnter));
    TwoThenExec(calls, Spill(HasDelay, r), Fill(NEXT_PC, BranchTarget), k, low);
    TwoThenExec(calls, TargetOp(info, MODE), Spill(BranchTarget, MODE), LEnter, On(Fill(NEXT_PC, BranchTarget), On(Spill(HasDelay, r), low)));
  }

  lemma RelayedLow<V>(n: nat, info: B.Info, r: nat, low: Native<V>, h: Abstract<V>)
    requires FlushedRel(n, low, h) && Fits(info) && r < n && Reg(low.core, r) <= 1
    ensures var l := Relayed(info, r, low);
            FlushedRel(n, l, h.(hasDelay := Reg(low.core, r), branchTarget := TargetValue(info, h)))
            && SamePc(Reg(l.core, NEXT_PC), h.branchTarget)
  {
    var l1, h1 := On(Spill(HasDelay, r), low), h.(hasDelay := Reg(low.core, r));
    var l2 := On(Fill(NEXT_PC, BranchTarget), l1);
    SpillLow(n, HasDelay, r, low, h);
    PutLow(n, NEXT_PC, SignExtend(h.branchTarget), l1, h1);
    ExtensionKeepsPc(h.branchTarget);
    TargetLow(n, info, MODE, l2, h1);
    SpillLow(n, BranchTarget, MODE, On(TargetOp(info, MODE), l2), h1);
  }

  lemma RelayExec<V>(sem: Sem<Rest<V>>, info: B.Info, h: Abstract<V>)
    requires info.branch
    ensures var e := B.Exec(sem, B.HandleLatentDelaySlot(info), h);
            e.Enters? && e.h.nextPc == h.branchTarget && e.h.m == h.m && e.h.cond == h.cond && e.h.indirect == h.indirect
            && e.h.spilledCond == h.spilledCond && e.h.spilledIndirect == h.spilledIndirect
            && e.h.hasDelay == (if info.conditional then h.cond else 1) && e.h.branchTarget == TargetValue(info, h)
  {
    var r := if info.conditional then B.CondReg else B.NextPcReg;
    var a := if info.conditional then B.LoadCond(r) else B.Movi(r, 1);
    var k := B.Do(B.LoadTarget(info, B.ModeReg), B.Do(B.StoreBranchTarget(B.ModeReg), B.Enter));
    D.ExecThree(sem, a, B.StoreHasDelay(r), B.LoadBranchTarget(B.NextPcReg), k, h);
    var h3 := B.Apply(sem, B.LoadBranchTarget(B.NextPcReg), B.Apply(sem, B.StoreHasDelay(r), B.Apply(sem, a, h)));
    D.ExecLeaf(sem, B.StoreBranchTarget(B.ModeReg), B.Apply(sem, B.LoadTarget(info, B.ModeReg), h3));
  }

  /** An exit through the enter thunk, compared field by field. */
  lemma EntersLow<V>(es: seq<Entry>, n: nat, low: Native<V>, h: Abstract<V>, e: B.Exit<Rest<V>>)
    requires FlushedRel(n, low, h) && e.Enters? && SamePc(Reg(low.core, NEXT_PC), e.h.nextPc)
    requires e.h.m == h.m && e.h.cond == h.cond && e.h.indirect == h.indirect && e.h.hasDelay == h.hasDelay
    requires e.h.branchTarget == h.branchTarget && e.h.spilledCond == h.spilledCond && e.h.spilledIndirect == h.spilledIndirect
    ensures ExitRel(es, n, LEnters(low), e)
  {
  }

  lemma RelayLow<V>(calls: Calls<V>, sem: Sem<Rest<V>>, info: B.Info, r: nat, es: seq<Entry>, n: nat, low: Native<V>, h: Abstract<V>)
    requires FlushedRel(n, low, h) && Fits(info) && info.branch && r < n
    requires Reg(low.core, r) == if info.conditional then h.cond else 1
    ensures ExitRel(es, n, LowExec(calls, LowRelay(info, r), low), B.Exec(sem, B.HandleLatentDelaySlot(info), h))
  {
    RelayRuns(calls, info, r, low);
    RelayedLow(n, info, r, low, h);
    RelayExec(sem, info, h);
    EntersLow(es, n, Relayed(info, r, low), h.(hasDelay := Reg(low.core, r), branchTarget := TargetValue(info, h)),
              B.Exec(sem, B.HandleLatentDelaySlot(info), h));
  }

  lemma SettleLow<V>(calls: Calls<V>, sem: Sem<Rest<V>>, info: B.Info, es: seq<Entry>, n: nat, low: Native<V>, h: Abstract<V>)
    requires FlushedRel(n, low, h) && !info.branch
    ensures ExitRel(es, n, LowExec(calls, LowSettle(), low), B.Exec(sem, B.HandleLatentDelaySlot(info), h))
  {
    var l1 := On(Movi(NEXT_PC, 0), low);
    var l2 := On(Spill(HasDelay, NEXT_PC), l1);
    SettleRuns(calls, sem, info, low, h);
    PutLow(n, NEXT_PC, 0, low, h);
    SpillLow(n, HasDelay, NEXT_PC, l1, h);
    PutLow(n, NEXT_PC, SignExtend(h.branchTarget), l2, h.(hasDelay := 0));
    ExtensionKeepsPc(h.branchTarget);
    EntersLow(es, n, On(Fill(NEXT_PC, BranchTarget), l2), h.(hasDelay := 0), B.Exec(sem, B.HandleLatentDelaySlot(info), h));
  }

  lemma SettleRuns<V>(calls: Calls<V>, sem: Sem<Rest<V>>, info: B.Info, low: Native<V>, h: Abstract<V>)
    requires !info.branch
    ensures LowExec(calls, LowSettle(), low)
            == LEnters(On(Fill(NEXT_PC, BranchTarget), On(Spill(HasDelay, NEXT_PC), On(Movi(NEXT_PC, 0), low))))
    ensures B.Exec(sem, B.HandleLatentDelaySlot(info), h) == B.Enters(h.(hasDelay := 0, nextPc := h.branchTarget))
  {
    TwoThenExec(calls, Movi(NEXT_PC, 0), Spill(HasDelay, NEXT_PC), Then(Fill(NEXT_PC, BranchTarget), LEnter), low);
    ThenExec(calls, Fill(NEXT_PC, BranchTarget), LEnter, On(Spill(HasDelay, NEXT_PC), On(Movi(NEXT_PC, 0), low)));
    D.ExecThree(sem, B.Movi(B.NextPcReg, 0), B.StoreHasDelay(B.NextPcReg), B.LoadBranchTarget(B.NextPcReg), B.Enter, h);
  }

  // ---------------------------------------------------------------- the end of a block

  function LowNext(pc: nat): LowCode { Then(Movi(NEXT_PC, pc % TWO_32), LEnter) }

  /** The pending branch becomes latent; `s` is a scratch register. */
  function LowDefer(pc: nat, last: B.Info, s: nat): LowCode {
    Then(TargetOp(last, s), Then(Spill(BranchTarget, s), Then(Movi(s, 1), Then(Spill(HasDelay, s), LowNext(pc)))))
  }

  /** `i` holds the condition of a conditional branch. */
  function LowEnd(pc: nat, last: B.Info, i: nat, s: nat): LowCode {
    if !last.branch then LowNext(pc)
    else if last.conditional then LIf(i, 0, LowNext(pc), LowDefer(pc, last, s))
    else LowDefer(pc, last, s)
  }

  function Defer(pc: nat, last: B.Info): B.Code {
    B.Do(B.LoadTarget(last, B.Scratch0), B.Do(B.StoreBranchTarget(B.Scratch0),
    B.Do(B.Movi(B.Scratch0, 1), B.Do(B.StoreHasDelay(B.Scratch0), B.Do(B.Movi(B.NextPcReg, pc), B.Enter)))))
  }

  function LeftLatent<V>(last: B.Info, s: nat, low: Native<V>): Native<V> {
    On(Spill(HasDelay, s), On(Movi(s, 1), On(Spill(BranchTarget, s), On(TargetOp(last, s), low))))
  }

  lemma NextLow<V>(calls: Calls<V>, sem: Sem<Rest<V>>, pc: nat, es: seq<Entry>, n: nat, low: Native<V>, h: Abstract<V>)
    requires FlushedRel(n, low, h) && pc < TWO_32
    ensures ExitRel(es, n, LowExec(calls, LowNext(pc), low), B.Exec(sem, B.Do(B.Movi(B.NextPcReg, pc), B.Enter), h))
  {
    ThenExec(calls, Movi(NEXT_PC, pc % TWO_32), LEnter, low);
    D.ExecLeaf(sem, B.Movi(B.NextPcReg, pc), h);
    PutLow(n, NEXT_PC, pc, low, h);
    PcOfBytes(pc);
  }

  lemma DeferRuns<V>(calls: Calls<V>, pc: nat, last: B.Info, s: nat, low: Native<V>)
    ensures LowExec(calls, LowDefer(pc, last, s), low) == LowExec(calls, LowNext(pc), LeftLatent(last, s, low))
  {
    var k := Then(Movi(s, 1), Then(Spill(HasDelay, s), LowNext(pc)));
    TwoThenExec(calls, TargetOp(last, s), Spill(BranchTarget, s), k, low);
    TwoThenExec(calls, Movi(s, 1), Spill(HasDelay, s), LowNext(pc), On(Spill(BranchTarget, s), On(TargetOp(last, s), low)));
  }

  lemma LeftLatentLow<V>(n: nat, last: B.Info, s: nat, low: Native<V>, h: Abstract<V>)
    requires FlushedRel(n, low, h) && Fits(last) && s < n
    ensures FlushedRel(n, LeftLatent(last, s, low), h.(branchTarget := TargetValue(last, h), hasDelay := 1, scratch0 := 1))
  {
    var l1, h1 := On(TargetOp(last, s), low), h.(branchTarget := TargetValue(last, h));
    var l2 := On(Spill(BranchTarget, s), l1);
    TargetLow(n, last, s, low, h);
    SpillLow(n, BranchTarget, s, l1, h);
    PutLow(n, s, 1, l2, h1);
    SpillLow(n, HasDelay, s, On(Movi(s, 1), l2), h1);
  }

  lemma DeferExec<V>(sem: Sem<Rest<V>>, pc: nat, last: B.Info, h: Abstract<V>)
    ensures B.Exec(sem, Defer(pc, last), h)
            == B.Exec(sem, B.Do(B.Movi(B.NextPcReg, pc), B.Enter), h.(branchTarget := TargetValue(last, h), hasDelay := 1, scratch0 := 1))
  {
    var next := B.Do(B.Movi(B.NextPcReg, pc), B.Enter);
    D.ExecThree(sem, B.LoadTarget(last, B.Scratch0), B.StoreBranchTarget(B.Scratch0), B.Movi(B.Scratch0, 1), B.Do(B.StoreHasDelay(B.Scratch0), next), h);
  }

  lemma DeferredLow<V>(calls: Calls<V>, sem: Sem<Rest<V>>, pc: nat, last: B.Info, s: nat, es: seq<Entry>, n: nat, low: Native<V>, h: Abstract<V>)
    requires FlushedRel(n, low, h) && Fits(last) && s < n && pc < TWO_32
    ensures ExitRel(es, n, LowExec(calls, LowDefer(pc, last, s), low), B.Exec(sem, Defer(pc, last), h))
  {
    DeferRuns(calls, pc, last, s, low);
    LeftLatentLow(n, last, s, low, h);
    DeferExec(sem, pc, last, h);
    NextLow(calls, sem, pc, es, n, LeftLatent(last, s, low), h.(branchTarget := TargetValue(last, h), hasDelay := 1, scratch0 := 1));
  }

  lemma EndParts<V>(sem: Sem<Rest<V>>, pc: nat, last: B.Info, h: Abstract<V>)
    ensures var e, next := B.Exec(sem, B.EndOfBlock(pc, last), h), B.Do(B.Movi(B.NextPcReg, pc), B.Enter);
            if !last.branch then e == B.Exec(sem, next, h)
            else if last.conditional then
              var a := B.Put(h, B.CondReg, h.cond);
              e == if h.cond == 0 then B.Exec(sem, next, a) else B.Exec(sem, Defer(pc, last), a)
            else e == B.Exec(sem, Defer(pc, last), h)
  {
    var next, a := B.Do(B.Movi(B.NextPcReg, pc), B.Enter), B.Put(h, B.CondReg, h.cond);
    assert B.Exec(sem, B.Do(B.LoadCond(B.CondReg), B.IfEq(B.CondReg, 0, next, Defer(pc, last))), h)
        == B.Exec(sem, B.IfEq(B.CondReg, 0, next, Defer(pc, last)), a);
  }

  lemma EndLow<V>(calls: Calls<V>, sem: Sem<Rest<V>>, pc: nat, last: B.Info, i: nat, s: nat, es: seq<Entry>, n: nat, low: Native<V>, h: Abstract<V>)
    requires FlushedRel(n, low, h) && Fits(last) && s < n && pc < TWO_32
    requires last.branch && last.conditional ==> Reg(low.core, i) == h.cond
    ensures ExitRel(es, n, LowExec(calls, LowEnd(pc, last, i, s), low), B.Exec(sem, B.EndOfBlock(pc, last), h))
  {
    EndParts(sem, pc, last, h);
    var a := if last.branch && last.conditional then B.Put(h, B.CondReg, h.cond) else h;
    if !last.branch || (last.conditional && h.cond == 0) {
      NextLow(calls, sem, pc, es, n, low, a);
    } else {
      DeferredLow(calls, sem, pc, last, s, es, n, low, a);
    }
  }
}
