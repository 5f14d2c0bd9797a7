/**
  The exact limits of the delay-slot compilation.  A region agrees with the
  interpreter step by step, from every related state, if and only if it is free
  of the two unsafe shapes; each shape has a concrete program, cut into blocks as
  the recompiler cuts it, whose run goes wrong.  A block that ends early can be
  left at its end if and only if its last delay slot is a label.
 */
module DelaySlotLimits {
  import opened Wrappers
  import opened Isa
  import opened BlockCompiler
  import opened DelaySlots
  import opened StaticEnd

  /** Every instruction of the region agrees with the interpreter, from every related state, reachable or not. */
  ghost predicate RegionAgrees<M(!new)>(imem: Imem, ends: Addr -> nat, lo: Addr)
    requires Region(lo, ends(lo))
  {
    forall sem: Sem<M>, p: Addr, h: Host<M>, s: State<M> ::
      lo <= p < ends(lo) && Related(imem, lo, ends(lo), p, h, s) ==>
        Matches(imem, ends, HostStep(sem, imem, ends, Inside(lo, p, h)), Step(sem, imem, s))
  }

  function ZeroRegs(): Regs { seq(32, _ => 0) }

  /** Register contents that make a branch taken, when there are any. */
  function TakingRegs(w: Word): Regs {
    var r := if Rs(w) != 0 then Rs(w) else Rt(w);
    if r == 0 then ZeroRegs()
    else
      match Classify(w)
      case Branch(NotEqual, _) => ZeroRegs()[r := 1]
      case Branch(LessZero, _) => ZeroRegs()[r := 0x8000_0000]
      case Branch(GreaterZero, _) => ZeroRegs()[r := 1]
      case _ => ZeroRegs()
  }

  lemma TakingRegsTake<M>(w: Word, rest: M)
    requires CanBeTaken(w)
    ensures Taken(w, Machine(TakingRegs(w), rest))
  {
  }

  /** A semantics in which nothing but control flow happens. */
  function IdleSem<M(!new)>(): Sem<M> {
    Sem((w: Word, m: Machine<M>) => m, (w: Word, m: Machine<M>) => m, (w: Word, m: Machine<M>) => MODE_CONTINUE)
  }

  function HostWith<M>(m: Machine<M>): Host<M> {
    Host(m, 1, 0, 0, 0, 0, 0, 0, 0, 0, 0, 0)
  }

  /** An unconditional transfer followed by a branch that is taken: the second transfer is lost. */
  lemma SecondBranchLost<M(!new)>(sem: Sem<M>, imem: Imem, ends: Addr -> nat, lo: Addr, p: Addr, h: Host<M>, s: State<M>)
    requires ValidEnds(ends) && Region(lo, ends(lo)) && lo < p < ends(lo)
    requires var last, info := LastInfo(imem, lo, ends(lo), p), RegionInfo(imem, lo, ends(lo), p);
             last.branch && !last.conditional && info.branch && info.conditional && Taken(imem[p], h.m)
    requires Related(imem, lo, ends(lo), p, h, s)
    ensures var c := HostStep(sem, imem, ends, Inside(lo, p, h));
            c.Inside? && c.base == c.p && LatentPending(c.h) == None
    ensures var o := Step(sem, imem, s); o.Running? && o.s.pending.Some?
    ensures !Matches(imem, ends, HostStep(sem, imem, ends, Inside(lo, p, h)), Step(sem, imem, s))
  {
    var hi := ends(lo);
    var info, last := RegionInfo(imem, lo, hi, p), LastInfo(imem, lo, hi, p);
    var h1 := AfterBranch(imem[p], p, last, Labelled(imem, lo, hi, p + 1), h);
    HostStepUnfold(sem, imem, ends, lo, p, h);
    FlowExit(sem, imem, lo, hi, p, TailAt(imem, lo, hi, p), h);
    ImpossibleExec(sem, info, last, h1);
    FlowStep(sem, imem, s);
  }

  /** The state after an instruction that is neither a branch nor BREAK and does not stop. */
  lemma PlainExit<M>(sem: Sem<M>, imem: Imem, lo: nat, hi: nat, r: Addr, k: Code, h: Host<M>, s: State<M>) returns (h1: Host<M>)
    requires Region(lo, hi) && lo < r < hi && s.pc == r && s.m == h.m && Step(sem, imem, s).Running?
    requires var info := RegionInfo(imem, lo, hi, r); !info.branch && !info.handlesDelaySlot
    ensures h1.cond == h.cond && h1.hasDelay == h.hasDelay && h1.indirect == h.indirect
    ensures InstructionExit(sem, imem, lo, hi, r, k, h) == Exec(sem, k, h1)
    ensures Step(sem, imem, s) == Running(State(NextPc(r, s.pending), None, h1.m))
  {
    var w, last, next := imem[r], LastInfo(imem, lo, hi, r), Labelled(imem, lo, hi, r + 1);
    if ChangesFlow(Classify(w)) {
      FlowExit(sem, imem, lo, hi, r, k, h);
      h1 := AfterBranch(w, r, last, next, h);
    } else {
      PlainExec(sem, w, 4 * r, last, false, next, k, h);
      h1 := if Classify(w).Cop0? then h.(m := sem.cop0(w, h.m), mode := sem.cop0Mode(w, h.m))
            else h.(m := sem.exec(w, h.m));
    }
  }

  /**
    A jump to a label that is the delay slot of an unconditional transfer finds
    that transfer pending again, whatever the instructions do: the interpreter
    goes on from the label, the recompiled program performs the transfer.
   */
  lemma LabelInheritsTransfer<M(!new)>(sem: Sem<M>, imem: Imem, ends: Addr -> nat, lo: Addr, r: Addr, t: Addr, h: Host<M>, s: State<M>)
    requires ValidEnds(ends) && Region(lo, ends(lo)) && lo < r < ends(lo) && lo < t < ends(lo)
    requires JumpsTo(imem, lo, ends(lo), r, t) && Step(sem, imem, s).Running?
    requires var last := LastInfo(imem, lo, ends(lo), t); last.branch && !last.conditional
    requires Related(imem, lo, ends(lo), r, h, s) && s.pending.Some?
    ensures var c := HostStep(sem, imem, ends, Inside(lo, r, h));
            c.Inside? && c.base == lo && c.p == t && PendingAt(imem, lo, ends(lo), t, c.h).Some?
    ensures Step(sem, imem, s).s.pc == t && Step(sem, imem, s).s.pending == None
    ensures !Matches(imem, ends, HostStep(sem, imem, ends, Inside(lo, r, h)), Step(sem, imem, s))
  {
    var hi := ends(lo);
    HostStepUnfold(sem, imem, ends, lo, r, h);
    var h1 := PlainExit(sem, imem, lo, hi, r, TailAt(imem, lo, hi, r), h, s);
    LocalJumpLands(sem, imem, lo, hi, r, t, h1);
    WordOfTarget(t);
  }

  /** The code after a delay slot whose branch is pending and local. */
  lemma LocalJumpLands<M>(sem: Sem<M>, imem: Imem, lo: Addr, hi: nat, r: Addr, t: Addr, h: Host<M>)
    requires Region(lo, hi) && lo < r < hi && lo <= t < hi && JumpsTo(imem, lo, hi, r, t) && h.hasDelay == 0
    requires PendingOf(LastInfo(imem, lo, hi, r), h).Some?
    ensures var c := Resume(sem, RegionCode(imem, lo, hi), r - lo, Exec(sem, TailAt(imem, lo, hi, r), h));
            c.Inside? && c.base == lo && c.p == t && c.h.cond == 0 && c.h.hasDelay == 0 && c.h.m == h.m
  {
    TailJumps(sem, imem, lo, hi, r, t, h);
    LabelResumes(sem, imem, lo, hi, r, Exec(sem, TailAt(imem, lo, hi, r), h), t);
  }

  lemma TailJumps<M>(sem: Sem<M>, imem: Imem, lo: Addr, hi: nat, r: Addr, t: Addr, h: Host<M>)
    requires Region(lo, hi) && lo < r < hi && lo <= t < hi && JumpsTo(imem, lo, hi, r, t) && h.hasDelay == 0
    requires PendingOf(LastInfo(imem, lo, hi, r), h).Some?
    ensures var e := Exec(sem, TailAt(imem, lo, hi, r), h);
            e.ToLabel? && e.index == t - lo && e.h.cond == 0 && e.h.hasDelay == 0 && e.h.m == h.m
    ensures Labelled(imem, lo, hi, t)
  {
    LocalTarget(imem, lo, hi, r - 1);
    DelaySlotExec(sem, LastInfo(imem, lo, hi, r), 4 * lo, 4 * hi, h);
  }

  lemma LabelResumes<M>(sem: Sem<M>, imem: Imem, lo: Addr, hi: nat, r: Addr, e: Exit<M>, t: Addr)
    requires Region(lo, hi) && lo <= r < hi && lo <= t < hi && e.ToLabel? && e.index == t - lo && Labelled(imem, lo, hi, t)
    ensures Resume(sem, RegionCode(imem, lo, hi), r - lo, e) == Inside(lo, t, e.h)
  {
    SegmentAt(imem, lo, hi, t);
  }

  lemma UnsafeDisagrees<M(!new)>(imem: Imem, ends: Addr -> nat, lo: Addr, p: Addr, rest: M)
    requires ValidEnds(ends) && Region(lo, ends(lo)) && lo <= p < ends(lo) && !SafeSlot(imem, lo, ends(lo), p)
    ensures !RegionAgrees<M>(imem, ends, lo)
  {
    var hi, sem := ends(lo), IdleSem<M>();
    var info := RegionInfo(imem, lo, hi, p);
    if info.branch && info.conditional && CanBeTaken(imem[p]) {
      var h := HostWith(Machine(TakingRegs(imem[p]), rest));
      var s := State(p, PendingAt(imem, lo, hi, p, h), h.m);
      TakingRegsTake(imem[p], rest);
      SecondBranchLost(sem, imem, ends, lo, p, h, s);
    } else {
      var r :| lo < r < hi && JumpsTo(imem, lo, hi, r, p);
      var h := HostWith(Machine(ZeroRegs(), rest));
      var s := State(r, PendingAt(imem, lo, hi, r, h), h.m);
      LabelInheritsTransfer(sem, imem, ends, lo, r, p, h, s);
    }
  }

  /**
    The emitted code of a region agrees with the interpreter, one step at a time
    and from every related state, exactly when the region is safe.  States no run
    reaches are included: a region can have an unsafe slot that is never used.
   */
  lemma RegionExact<M(!new)>(imem: Imem, ends: Addr -> nat, lo: Addr, rest: M)
    requires ValidEnds(ends) && Region(lo, ends(lo))
    ensures RegionAgrees<M>(imem, ends, lo) <==> SafeRegion(imem, lo, ends(lo))
  {
    if SafeRegion(imem, lo, ends(lo)) {
      forall sem: Sem<M>, p: Addr, h: Host<M>, s: State<M>
        | lo <= p < ends(lo) && Related(imem, lo, ends(lo), p, h, s)
        ensures Matches(imem, ends, HostStep(sem, imem, ends, Inside(lo, p, h)), Step(sem, imem, s))
      {
        StepMatches(sem, imem, ends, lo, p, h, s);
      }
    } else {
      var p: Addr :| lo <= p < ends(lo) && !SafeSlot(imem, lo, ends(lo), p);
      UnsafeDisagrees(imem, ends, lo, p, rest);
    }
  }

  // ---------------------------------------------------------------- falling through the end of a block

  /** Some execution of the last instruction's code runs off the end of the block. */
  ghost predicate CanFall<M(!new)>(imem: Imem, pc: nat, r: nat)
    requires Region(pc, r)
  {
    exists sem: Sem<M>, h: Host<M> :: FallsFrom(sem, imem, pc, r, h)
  }

  predicate FallsFrom<M>(sem: Sem<M>, imem: Imem, pc: nat, r: nat, h: Host<M>)
    requires Region(pc, r)
  {
    Exec(sem, SegmentOf(imem, pc, r, r - 1).code, h).Falls?
  }

  /** A conditional transfer that is not taken lets its delay slot fall through, whatever the slot holds but BREAK. */
  lemma UntakenFalls<M(!new)>(imem: Imem, pc: nat, r: nat, rest: M)
    requires Region(pc, r) && pc + 1 < r && !Classify(imem[r - 1]).Break?
    requires var last := LastInfo(imem, pc, r, r - 1); last.branch && last.conditional
    ensures CanFall<M>(imem, pc, r)
  {
    var sem, h := IdleSem<M>(), HostWith(Machine(ZeroRegs(), rest)).(cond := 0);
    var p, last, info := r - 1, LastInfo(imem, pc, r, r - 1), RegionInfo(imem, pc, r, r - 1);
    var next := Labelled(imem, pc, r, r);
    if ChangesFlow(Classify(imem[p])) {
      var h1 := AfterBranch(imem[p], p, last, next, h);
      FlowExit(sem, imem, pc, r, p, TailAt(imem, pc, r, p), h);
      if info.branch {
        ImpossibleExec(sem, info, last, h1);
      } else {
        BranchWithoutTarget(imem[p], p, last, next, h);
        DelaySlotExec(sem, last, 4 * pc, 4 * r, h1);
      }
    } else {
      PlainExec(sem, imem[p], 4 * p, last, false, next, TailAt(imem, pc, r, p), h);
      DelaySlotExec(sem, last, 4 * pc, 4 * r, h);
      DelaySlotExec(sem, last, 4 * pc, 4 * r, h.(mode := MODE_CONTINUE));
    }
    assert FallsFrom(sem, imem, pc, r, h);
  }

  /**
    A block that ends before its window can be left at its end if and only if its
    last instruction is not BREAK and the delay slot of the jump before it is a
    label of the block.
   */
  lemma FallThroughExact<M(!new)>(imem: Imem, pc: nat, end: nat, rest: M)
    requires pc < end <= 1024 && end - pc <= 128 && StaticEnd.StaticEnd(imem, pc, end) < end
    ensures var r := StaticEnd.StaticEnd(imem, pc, end);
            Region(pc, r) && (CanFall<M>(imem, pc, r) <==> !Classify(imem[r - 1]).Break? && Labelled(imem, pc, r, r - 1))
  {
    StaticEndClosed(imem, pc, end);
    var r := StaticEnd.StaticEnd(imem, pc, end);
    if Classify(imem[r - 1]).Break? || !Labelled(imem, pc, r, r - 1) {
      forall sem: Sem<M>, h: Host<M> ensures !FallsFrom(sem, imem, pc, r, h) {
        NoFallThrough(sem, imem, pc, end, h);
      }
    } else {
      UntakenFalls(imem, pc, r, rest);
    }
  }

  // ---------------------------------------------------------------- single steps of concrete programs

  /** The first instruction of a block, a branch, with nothing left over from before. */
  lemma FirstBranchStep<M>(sem: Sem<M>, imem: Imem, ends: Addr -> nat, lo: Addr, h: Host<M>)
    requires Region(lo, ends(lo)) && lo + 1 < ends(lo) && h.hasDelay == 0 && ChangesFlow(Classify(imem[lo]))
    ensures var h1 := AfterBranch(imem[lo], lo, NO_INFO, Labelled(imem, lo, ends(lo), lo + 1), h);
            HostStep(sem, imem, ends, Inside(lo, lo, h)) == Inside(lo, lo + 1, h1.(scratch0 := 0))
  {
    var hi := ends(lo);
    var h1 := AfterBranch(imem[lo], lo, NO_INFO, Labelled(imem, lo, hi, lo + 1), h);
    HostStepUnfold(sem, imem, ends, lo, lo, h);
    FlowExit(sem, imem, lo, hi, lo, TailAt(imem, lo, hi, lo), h);
    assert Exec(sem, CheckLatentDelaySlot(Fall), h1) == Falls(h1.(scratch0 := 0));
  }

  /** A later branch that does not follow a branch. */
  lemma LoneBranchStep<M>(sem: Sem<M>, imem: Imem, ends: Addr -> nat, lo: Addr, p: Addr, h: Host<M>)
    requires Region(lo, ends(lo)) && lo < p && p + 1 < ends(lo) && ChangesFlow(Classify(imem[p]))
    requires !LastInfo(imem, lo, ends(lo), p).branch
    ensures HostStep(sem, imem, ends, Inside(lo, p, h))
            == Inside(lo, p + 1, AfterBranch(imem[p], p, LastInfo(imem, lo, ends(lo), p), Labelled(imem, lo, ends(lo), p + 1), h))
  {
    HostStepUnfold(sem, imem, ends, lo, p, h);
    FlowExit(sem, imem, lo, ends(lo), p, TailAt(imem, lo, ends(lo), p), h);
  }

  /** A straight instruction in a delay slot: its own effect, and then the code after the slot. */
  lemma SlotUnfold<M>(sem: Sem<M>, imem: Imem, ends: Addr -> nat, lo: Addr, p: Addr, h: Host<M>)
    requires Region(lo, ends(lo)) && lo < p < ends(lo) && Classify(imem[p]).Straight?
    ensures HostStep(sem, imem, ends, Inside(lo, p, h))
            == Resume(sem, RegionCode(imem, lo, ends(lo)), p - lo,
                      Exec(sem, TailAt(imem, lo, ends(lo), p), h.(m := sem.exec(imem[p], h.m))))
  {
    var hi := ends(lo);
    HostStepUnfold(sem, imem, ends, lo, p, h);
    PlainExec(sem, imem[p], 4 * p, LastInfo(imem, lo, hi, p), false, Labelled(imem, lo, hi, p + 1), TailAt(imem, lo, hi, p), h);
  }

  /** The host stands in front of instruction `p` of the block at `base`, with this branch condition. */
  ghost predicate Stands<M>(c: Config<M>, base: Addr, p: nat, cond: nat, m: Machine<M>) {
    c.Inside? && c.base == base && c.p == p && c.h.cond == cond && c.h.hasDelay == 0 && c.h.m == m
  }

  lemma SlotJumps<M>(sem: Sem<M>, imem: Imem, ends: Addr -> nat, lo: Addr, p: Addr, t: Addr, h: Host<M>)
    requires Region(lo, ends(lo)) && lo < p < ends(lo) && lo <= t < ends(lo) && Classify(imem[p]).Straight? && h.hasDelay == 0
    requires JumpsTo(imem, lo, ends(lo), p, t) && PendingOf(LastInfo(imem, lo, ends(lo), p), h).Some?
    ensures Stands(HostStep(sem, imem, ends, Inside(lo, p, h)), lo, t, 0, sem.exec(imem[p], h.m))
  {
    SlotUnfold(sem, imem, ends, lo, p, h);
    LocalJumpLands(sem, imem, lo, ends(lo), p, t, h.(m := sem.exec(imem[p], h.m)));
  }

  lemma SlotLeaves<M>(sem: Sem<M>, imem: Imem, ends: Addr -> nat, lo: Addr, p: Addr, t: Addr, h: Host<M>)
    requires Region(lo, ends(lo)) && lo < p < ends(lo) && Classify(imem[p]).Straight? && h.hasDelay == 0
    requires var last := LastInfo(imem, lo, ends(lo), p);
             last.branch && PendingOf(last, h) == Some(t) && (last.indirect || last.branchTarget >= 4 * ends(lo))
    ensures Stands(HostStep(sem, imem, ends, Inside(lo, p, h)), t, t, 0, sem.exec(imem[p], h.m))
  {
    SlotUnfold(sem, imem, ends, lo, p, h);
    DelaySlotExec(sem, LastInfo(imem, lo, ends(lo), p), 4 * lo, 4 * ends(lo), h.(m := sem.exec(imem[p], h.m)));
  }

  lemma SlotEnds<M>(sem: Sem<M>, imem: Imem, ends: Addr -> nat, lo: Addr, p: Addr, h: Host<M>)
    requires Region(lo, ends(lo)) && lo < p && p + 1 == ends(lo) < 1024 && Classify(imem[p]).Straight? && h.hasDelay == 0
    requires var last := LastInfo(imem, lo, ends(lo), p); last.branch && PendingOf(last, h) == None
    ensures Stands(HostStep(sem, imem, ends, Inside(lo, p, h)), p + 1, p + 1, 0, sem.exec(imem[p], h.m))
  {
    var hi := ends(lo);
    var last, h1 := LastInfo(imem, lo, hi, p), h.(m := sem.exec(imem[p], h.m));
    SlotUnfold(sem, imem, ends, lo, p, h);
    DelaySlotExec(sem, last, 4 * lo, 4 * hi, h1);
    EndExec(sem, hi, RegionInfo(imem, lo, hi, p), Exec(sem, HandleDelaySlot(last, 4 * lo, 4 * hi, Fall), h1).h);
  }

  // ---------------------------------------------------------------- concrete programs

  function Program(words: seq<Word>): Imem
    requires |words| <= 1024
  {
    words + seq(1024 - |words|, _ => 0)
  }

  const JUMP_16: Word := 0x0800_0010
  const ALWAYS_TO_7: Word := 0x1000_0005  // beq $0, $0 at word 1

  function TwoBranches(): Imem { Program([JUMP_16, ALWAYS_TO_7]) }

  lemma TwoBranchesEnd()
    ensures BlockEnd(TwoBranches(), 0) == 2
  {
    var imem := TwoBranches();
    assert imem[0] == JUMP_16 && Classify(JUMP_16) == Jump(0);
  }

  lemma TwoBranchesInfo()
    ensures Region(0, 2)
    ensures LastInfo(TwoBranches(), 0, 2, 1) == Info(64, false, true, false, false)
    ensures var info := RegionInfo(TwoBranches(), 0, 2, 1); info.branch && info.conditional
    ensures Classify(TwoBranches()[0]).Jump? && Classify(TwoBranches()[1]) == Branch(Equal, 0)
    ensures Rs(TwoBranches()[1]) == 0 && Rt(TwoBranches()[1]) == 0
  {
    var imem := TwoBranches();
    assert imem[0] == JUMP_16 && imem[1] == ALWAYS_TO_7;
    assert StaticTarget(imem[0], 0) == Some(16) && StaticTarget(imem[1], 1) == Some(7);
    assert !Labelled(imem, 0, 2, 1);
  }

  /**
    J 16 followed by an always-taken BEQ, from any state with nothing left over:
    after two instructions the interpreter is at 16 with the second branch
    pending, and the recompiled program has lost it.
   */
  lemma JumpThenBranchFails<M(!new)>(sem: Sem<M>, h: Host<M>)
    requires h.nextPc == 0 && h.hasDelay == 0
    ensures ValidEnds(BlockLengths(TwoBranches()))
    ensures var s, ends := State(0, None, h.m), BlockLengths(TwoBranches());
            !Matches(TwoBranches(), ends, HostRun(sem, TwoBranches(), ends, EnterBlock(h), 2),
                     InterpreterRun(sem, TwoBranches(), s, 2))
  {
    var imem, ends := TwoBranches(), BlockLengths(TwoBranches());
    LengthsValid(imem);
    TwoBranchesEnd();
    TwoBranchesInfo();
    var c := EnterBlock(h);
    var h2 := AfterBranch(imem[0], 0, NO_INFO, Labelled(imem, 0, 2, 1), c.h).(scratch0 := 0);
    FirstBranchStep(sem, imem, ends, 0, c.h);
    FlowStepIs(sem, imem, 0, 2, 0, c.h, State(0, None, h.m));
    var s1 := Step(sem, imem, State(0, None, h.m)).s;
    assert HostRun(sem, imem, ends, c, 1) == Inside(0, 1, h2);
    assert InterpreterRun(sem, imem, State(0, None, h.m), 1) == Running(s1);
    SecondBranchLost(sem, imem, ends, 0, 1, h2, s1);
  }

  const FORWARD_TO_4: Word := 0x1000_0003   // beq $0, $0 at word 0
  const BLEZ_ZERO: Word := 0x1800_0100      // blez $0 at word 2, to word 259
  const BACK_TO_3: Word := 0x1000_fffe      // beq $0, $0 at word 4
  const BREAK: Word := 0x0000_000d

  /** BLEZ $0 at word 2, whose delay slot is the target of a backward branch that is reached around it. */
  function LabelledSlot(): Imem { Program([FORWARD_TO_4, 0, BLEZ_ZERO, 0, BACK_TO_3, 0, BREAK]) }

  lemma LabelledSlotWords()
    ensures var m := LabelledSlot();
            && m[0] == FORWARD_TO_4 && m[2] == BLEZ_ZERO && m[4] == BACK_TO_3 && m[6] == BREAK
            && m[1] == 0 && m[3] == 0 && m[5] == 0
    ensures Classify(FORWARD_TO_4) == Branch(Equal, 0) && Classify(BACK_TO_3) == Branch(Equal, 0)
    ensures Classify(BLEZ_ZERO) == Branch(LessEqualZero, 0) && Classify(0).Straight? && Classify(BREAK).Break?
    ensures Rs(FORWARD_TO_4) == 0 == Rt(FORWARD_TO_4) && Rs(BACK_TO_3) == 0 == Rt(BACK_TO_3) && Rs(BLEZ_ZERO) == 0
    ensures StaticTarget(FORWARD_TO_4, 0) == Some(4) && StaticTarget(BACK_TO_3, 4) == Some(3)
    ensures StaticTarget(BLEZ_ZERO, 2) == Some(259)
  {
  }

  lemma LabelledSlotEnd()
    ensures BlockEnd(LabelledSlot(), 0) == 7
  {
    LabelledSlotWords();
    var m := LabelledSlot();
    assert Inspect(m[0], 0, 0, 128, 0) == Continue(5);
    assert Inspect(m[1], 1, 0, 128, 5) == Continue(5);
    assert Inspect(m[2], 2, 0, 128, 5) == Continue(5);
    assert Inspect(m[3], 3, 0, 128, 5) == Continue(5);
    assert Inspect(m[4], 4, 0, 128, 5) == Continue(5);
    assert Inspect(m[5], 5, 0, 128, 5) == Continue(6);
    assert Inspect(m[6], 6, 0, 128, 6) == Stop(7);
    assert Scan(m, 0, 128, 6, 6) == 7;
    assert Scan(m, 0, 128, 4, 5) == Scan(m, 0, 128, 5, 5) == 7;
    assert Scan(m, 0, 128, 2, 5) == Scan(m, 0, 128, 3, 5) == 7;
    assert Scan(m, 0, 128, 0, 0) == Scan(m, 0, 128, 1, 5) == 7;
  }

  lemma LabelledSlotInfo()
    ensures Region(0, 7)
    ensures RegionInfo(LabelledSlot(), 0, 7, 0) == Info(16, false, true, true, false)
    ensures RegionInfo(LabelledSlot(), 0, 7, 2) == Info(1036, false, true, false, false)
    ensures RegionInfo(LabelledSlot(), 0, 7, 4) == Info(12, false, true, true, false)
    ensures !RegionInfo(LabelledSlot(), 0, 7, 3).branch
  {
    LabelledSlotWords();
    TargetsAgree(FORWARD_TO_4, 0, Labelled(LabelledSlot(), 0, 7, 1));
    TargetsAgree(BLEZ_ZERO, 2, Labelled(LabelledSlot(), 0, 7, 3));
    TargetsAgree(BACK_TO_3, 4, Labelled(LabelledSlot(), 0, 7, 5));
  }

  /** The two branches of the program are always taken. */
  lemma LabelledSlotBranches<M>(sem: Sem<M>, ends: Addr -> nat, h: Host<M>)
    requires ends(0) == 7 && h.hasDelay == 0
    ensures Stands(HostStep(sem, LabelledSlot(), ends, Inside(0, 0, h)), 0, 1, 1, h.m)
    ensures Stands(HostStep(sem, LabelledSlot(), ends, Inside(0, 4, h)), 0, 5, 1, h.m)
  {
    LabelledSlotWords();
    LabelledSlotInfo();
    FirstBranchStep(sem, LabelledSlot(), ends, 0, h);
    LoneBranchStep(sem, LabelledSlot(), ends, 0, 4, h);
  }

  /** Their delay slots jump to 4 and back to 3, and the slot at 3 always performs the BLEZ. */
  lemma LabelledSlotSlots<M>(sem: Sem<M>, ends: Addr -> nat, h: Host<M>)
    requires ends(0) == 7 && h.hasDelay == 0
    ensures h.cond == 1 ==> Stands(HostStep(sem, LabelledSlot(), ends, Inside(0, 1, h)), 0, 4, 0, sem.exec(0, h.m))
    ensures h.cond == 1 ==> Stands(HostStep(sem, LabelledSlot(), ends, Inside(0, 5, h)), 0, 3, 0, sem.exec(0, h.m))
    ensures Stands(HostStep(sem, LabelledSlot(), ends, Inside(0, 3, h)), 259, 259, 0, sem.exec(0, h.m))
  {
    LabelledSlotWords();
    LabelledSlotInfo();
    if h.cond == 1 {
      SlotJumps(sem, LabelledSlot(), ends, 0, 1, 4, h);
      SlotJumps(sem, LabelledSlot(), ends, 0, 5, 3, h);
    }
    SlotLeaves(sem, LabelledSlot(), ends, 0, 3, 259, h);
  }

  lemma NextRun<M>(sem: Sem<M>, imem: Imem, ends: Addr -> nat, c: Config<M>, n: nat)
    requires ValidEnds(ends)
    requires var d := HostRun(sem, imem, ends, c, n); d.Inside? && d.base <= d.p < ends(d.base)
    ensures HostRun(sem, imem, ends, c, n + 1) == HostStep(sem, imem, ends, HostRun(sem, imem, ends, c, n))
  {
  }

  lemma LabelledSlotRun<M>(sem: Sem<M>, ends: Addr -> nat, h: Host<M>, n: nat)
    requires ValidEnds(ends) && ends(0) == 7 && h.nextPc == 0 && h.hasDelay == 0 && n == 5
    ensures Stands(HostRun(sem, LabelledSlot(), ends, EnterBlock(h), n), 259, 259, 0, sem.exec(0, sem.exec(0, sem.exec(0, h.m))))
  {
    var imem, c := LabelledSlot(), EnterBlock(h);
    NextRun(sem, imem, ends, c, n - 5);
    LabelledSlotBranches(sem, ends, c.h);
    NextRun(sem, imem, ends, c, n - 4);
    LabelledSlotSlots(sem, ends, HostRun(sem, imem, ends, c, n - 4).h);
    NextRun(sem, imem, ends, c, n - 3);
    LabelledSlotBranches(sem, ends, HostRun(sem, imem, ends, c, n - 3).h);
    NextRun(sem, imem, ends, c, n - 2);
    LabelledSlotSlots(sem, ends, HostRun(sem, imem, ends, c, n - 2).h);
    NextRun(sem, imem, ends, c, n - 1);
    LabelledSlotSlots(sem, ends, HostRun(sem, imem, ends, c, n - 1).h);
  }

  lemma LabelledSlotInterpreted<M>(sem: Sem<M>, m: Machine<M>, n: nat)
    requires n == 5
    ensures InterpreterRun(sem, LabelledSlot(), State(0, None, m), n)
            == Running(State(4, None, sem.exec(0, sem.exec(0, sem.exec(0, m)))))
  {
    var imem := LabelledSlot();
    LabelledSlotWords();
    var m1 := sem.exec(0, m);
    assert InterpreterRun(sem, imem, State(0, None, m), n - 4) == Running(State(1, Some(4), m));
    assert InterpreterRun(sem, imem, State(0, None, m), n - 3) == Running(State(4, None, m1));
    assert InterpreterRun(sem, imem, State(0, None, m), n - 2) == Running(State(5, Some(3), m1));
    assert InterpreterRun(sem, imem, State(0, None, m), n - 1) == Running(State(3, None, sem.exec(0, m1)));
  }

  /**
    The run goes around a BLEZ $0 and branches back to its delay slot.  After
    five instructions, from any state with nothing left over and whatever the
    straight instructions do, the interpreter goes on at word 4; the recompiled
    program has performed the BLEZ it never ran and is at word 259.
   */
  lemma LabelledSlotFails<M>(sem: Sem<M>, ends: Addr -> nat, h: Host<M>, n: nat)
    requires ends == BlockLengths(LabelledSlot()) && h.nextPc == 0 && h.hasDelay == 0 && n == 5
    ensures ValidEnds(ends)
    ensures var m2 := sem.exec(0, sem.exec(0, sem.exec(0, h.m)));
            && Stands(HostRun(sem, LabelledSlot(), ends, EnterBlock(h), n), 259, 259, 0, m2)
            && InterpreterRun(sem, LabelledSlot(), State(0, None, h.m), n) == Running(State(4, None, m2))
  {
    LabelledSlotLengths(ends);
    LabelledSlotRuns(sem, ends, h, n);
  }

  lemma LabelledSlotRuns<M>(sem: Sem<M>, ends: Addr -> nat, h: Host<M>, n: nat)
    requires ValidEnds(ends) && ends(0) == 7 && h.nextPc == 0 && h.hasDelay == 0 && n == 5
    ensures var m2 := sem.exec(0, sem.exec(0, sem.exec(0, h.m)));
            && Stands(HostRun(sem, LabelledSlot(), ends, EnterBlock(h), n), 259, 259, 0, m2)
            && InterpreterRun(sem, LabelledSlot(), State(0, None, h.m), n) == Running(State(4, None, m2))
  {
    LabelledSlotInterpreted(sem, h.m, n);
    LabelledSlotRun(sem, ends, h, n);
  }

  lemma LabelledSlotLengths(ends: Addr -> nat)
    requires ends == BlockLengths(LabelledSlot())
    ensures ValidEnds(ends) && ends(0) == 7
  {
    LengthsValid(LabelledSlot());
    LabelledSlotEnd();
  }

  const JUMP_1: Word := 0x0800_0001

  /** A jump to its own delay slot. */
  function OwnSlot(): Imem { Program([JUMP_1, 0]) }

  lemma OwnSlotFacts()
    ensures BlockEnd(OwnSlot(), 0) == 2 && Region(0, 2) && Labelled(OwnSlot(), 0, 2, 1)
    ensures OwnSlot()[0] == JUMP_1 && OwnSlot()[1] == 0 && Classify(JUMP_1) == Jump(0) && Classify(0).Straight?
    ensures RegionInfo(OwnSlot(), 0, 2, 0) == Info(4, false, true, true, false) && !RegionInfo(OwnSlot(), 0, 2, 1).branch
  {
    var imem := OwnSlot();
    assert imem[0] == JUMP_1 && imem[1] == 0 && Classify(JUMP_1) == Jump(0);
    assert StaticTarget(imem[0], 0) == Some(1);
  }

  /** J to its own delay slot: the slot runs twice, and then control does fall through the end of the block. */
  lemma OwnSlotFalls<M>(sem: Sem<M>, h: Host<M>)
    requires h.nextPc == 0 && h.hasDelay == 0
    ensures ValidEnds(BlockLengths(OwnSlot()))
    ensures Stands(HostRun(sem, OwnSlot(), BlockLengths(OwnSlot()), EnterBlock(h), 3), 2, 2, 0, sem.exec(0, sem.exec(0, h.m)))
  {
    var imem, ends, c := OwnSlot(), BlockLengths(OwnSlot()), EnterBlock(h);
    LengthsValid(imem);
    OwnSlotFacts();
    FirstBranchStep(sem, imem, ends, 0, c.h);
    var h1 := AfterBranch(imem[0], 0, NO_INFO, Labelled(imem, 0, 2, 1), c.h).(scratch0 := 0);
    assert HostRun(sem, imem, ends, c, 1) == Inside(0, 1, h1);
    SlotJumps(sem, imem, ends, 0, 1, 1, h1);
    var c2 := HostRun(sem, imem, ends, c, 2);
    SlotEnds(sem, imem, ends, 0, 1, c2.h);
  }
}
