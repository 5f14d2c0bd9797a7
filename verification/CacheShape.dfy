/**
  What compile-time code keeps true of the register cache whatever the program:
  the number of entries, and that a free entry is not locked.
 */
module CacheShape {
  import opened Arithmetic
  import opened Wrappers
  import opened Isa
  import opened HostWords
  import opened RegisterCache
  import opened ScalarCode
  import opened MemoryCode
  import opened BranchRegisters
  import opened BranchCode
  import opened Decoder
  import opened LowRelation
  import opened LowBranch
  import opened LowRegion
  import B = BlockCompiler

  predicate Shaped(c: Cache, n: nat) {
    |c.entries| == n && forall k :: 0 <= k < n && !c.entries[k].live ==> c.entries[k].locks == 0
  }

  // ---------------------------------------------------------------- single calls

  lemma LoadShape(c: Cache, m: nat, want: Want, n: nat)
    requires Shaped(c, n)
    ensures Shaped(Load(c, m, want), n)
  {
  }

  lemma ClaimShape(c: Cache, m: nat, n: nat)
    requires Shaped(c, n)
    ensures Shaped(Modify(c, m), n)
  {
  }

  lemma UnlockShape(c: Cache, m: nat, n: nat)
    requires Shaped(c, n)
    ensures Shaped(Unlock(c, m), n)
  {
  }

  lemma UnlockThreeShape(c: Cache, m1: nat, m2: nat, m3: nat, n: nat)
    requires Shaped(c, n)
    ensures Shaped(UnlockThree(c, m1, m2, m3), n)
  {
    UnlockShape(c, m1, n);
    UnlockShape(Unlock(c, m1), m2, n);
    UnlockShape(Unlock(Unlock(c, m1), m2), m3, n);
  }

  /** Flushing makes entries free, and the free entries of a flushed window are all of them. */
  lemma FlushShape(c: Cache, which: nat -> bool, n: nat)
    requires Shaped(c, n)
    ensures Shaped(Flush(c, which), n)
  {
  }

  lemma WindowShape(c: Cache, n: nat)
    requires Shaped(c, n)
    ensures Shaped(FlushRegisterWindow(c), n) && Dead(FlushRegisterWindow(c).entries)
  {
  }

  lemma WriteShape(c: Cache, m: nat, op: HostOp, n: nat)
    requires Shaped(c, n)
    ensures Shaped(Emit(Modify(c, m), op), n)
  {
    ClaimShape(c, m, n);
  }

  // ---------------------------------------------------------------- scalar instructions

  lemma PairShape(c: Cache, op: Alu, want: Want, dest: nat, m1: nat, m2: nat, n: nat)
    requires Shaped(c, n)
    ensures Shaped(ComputePair(c, op, want, dest, m1, m2), n)
  {
    LoadShape(c, m1, want, n);
    LoadShape(Load(c, m1, want), m2, want, n);
    ClaimShape(Load(Load(c, m1, want), m2, want), dest, n);
  }

  lemma ImmediateShape(c: Cache, op: Alu, want: Want, dest: nat, src: nat, y: Host64, n: nat)
    requires Shaped(c, n)
    ensures Shaped(EmitImmediate(c, op, want, dest, src, y), n)
  {
    var c1 := Load(c, src, want);
    var c2 := Emit(Modify(c1, dest), Compute(op, Index(c1, dest), Index(c, src), Immediate(y)));
    LoadShape(c, src, want, n);
    ClaimShape(c1, dest, n);
    UnlockShape(c2, src, n);
    UnlockShape(Unlock(c2, src), dest, n);
  }

  lemma NorShape(c: Cache, rd: nat, rs: nat, rt: nat, n: nat)
    requires Shaped(c, n)
    ensures Shaped(EmitNor(c, rd, rs, rt), n)
  {
    var k := Index(Load(Load(c, rt, Any), rs, Any), rd);
    PairShape(c, Bits(BitOr), Any, rd, rt, rs, n);
    UnlockThreeShape(Emit(ComputePair(c, Bits(BitOr), Any, rd, rt, rs), Compute(Bits(BitXor), k, k, Immediate(TWO_64 - 1))), rt, rs, rd, n);
  }

  lemma ShiftShape(c: Cache, op: Alu, rd: nat, rt: nat, rs: nat, n: nat)
    requires Shaped(c, n)
    ensures Shaped(EmitShiftVariable(c, op, rd, rt, rs), n)
  {
    var c2, c4 := Load(Load(c, rt, WantOf(op)), rs, Any), ShiftOperands(c, op, rt, rs);
    LoadShape(c, rt, WantOf(op), n);
    LoadShape(Load(c, rt, WantOf(op)), rs, Any, n);
    ClaimShape(c2, SCRATCH_REGISTER0, n);
    var mask := Compute(Bits(BitAnd), Index(c2, SCRATCH_REGISTER0), Index(Load(c, rt, WantOf(op)), rs), Immediate(31));
    UnlockShape(Emit(Modify(c2, SCRATCH_REGISTER0), mask), rs, n);
    var shift := Compute(op, Index(c4, rd), Index(c, rt), InReg(ScratchIndex(c, op, rt, rs)));
    WriteShape(c4, rd, shift, n);
    UnlockThreeShape(Emit(Modify(c4, rd), shift), rt, rd, SCRATCH_REGISTER0, n);
  }

  lemma ConstantShape(c: Cache, m: nat, v: Guest, n: nat)
    requires Shaped(c, n)
    ensures Shaped(ClaimConstant(c, m, v), n) && Shaped(EmitConstant(c, m, v), n)
  {
    ClaimShape(c, m, n);
    UnlockShape(ClaimConstant(c, m, v), m, n);
  }

  lemma EmitPairShape(c: Cache, op: Alu, want: Want, dest: nat, m1: nat, m2: nat, n: nat)
    requires Shaped(c, n)
    ensures Shaped(EmitPair(c, op, want, dest, m1, m2), n)
  {
    PairShape(c, op, want, dest, m1, m2, n);
    UnlockThreeShape(ComputePair(c, op, want, dest, m1, m2), m1, m2, dest, n);
  }

  lemma CompileShape(i: Instr, c: Cache, n: nat)
    requires Shaped(c, n)
    ensures Shaped(Compile(i, c), n)
  {
    match i
    case Three(op, rd, rs, rt) => EmitPairShape(c, op, WantOf(op), rd, rs, rt, n);
    case Nor(rd, rs, rt) => NorShape(c, rd, rs, rt, n);
    case ShiftBy(op, rd, rt, amount) => ImmediateShape(c, op, WantOf(op), rd, rt, amount % TWO_64, n);
    case ShiftVar(op, rd, rt, rs) => ShiftShape(c, op, rd, rt, rs, n);
    case WithImm(op, rt, rs, imm) => ImmediateShape(c, op, ImmediateWant(op), rt, rs, SignExtend(imm), n);
    case Constant(rt, v) => ConstantShape(c, rt, v, n);
    case TestPair(op, rs, rt) => EmitPairShape(c, op, Signed, COND_BRANCH_TAKEN, rs, rt, n);
    case TestZero(op, rs) => ImmediateShape(c, op, Signed, COND_BRANCH_TAKEN, rs, 0, n);
  }

  lemma AddressShape(c: Cache, i: nat, offset: Guest, n: nat)
    requires Shaped(c, n)
    ensures Shaped(AddressInto(c, i, offset), n)
  {
    ClaimShape(c, SCRATCH_REGISTER0, n);
  }

  lemma AccessShape(c: Cache, m1: nat, m2: nat, m3: nat, op: HostOp, width: nat, callerSave: nat, n: nat)
    requires Shaped(c, n)
    ensures Shaped(Accessed(c, m1, m2, m3, op, width, callerSave), n)
  {
    if width == 1 {
      UnlockThreeShape(Emit(c, op), m1, m2, m3, n);
    } else {
      UnlockThreeShape(c, m1, m2, m3, n);
      FlushShape(UnlockThree(c, m1, m2, m3), Between(0, callerSave), n);
    }
  }

  lemma LoadFromShape(c: Cache, rt: nat, rs: nat, offset: Guest, width: nat, signed: bool, callerSave: nat, n: nat)
    requires Shaped(c, n)
    ensures Shaped(EmitLoad(c, rt, rs, offset, width, signed, callerSave), n)
  {
    var c1, r := Load(c, rs, Any), LoadScratch1(c, rs, offset);
    LoadShape(c, rs, Any, n);
    AddressShape(c1, Index(c, rs), offset, n);
    ClaimShape(AddressInto(c1, Index(c, rs), offset), SCRATCH_REGISTER1, n);
    var op := LoadMem(r, LoadScratch0(c, rs), width, signed, callerSave);
    AccessShape(LoadPrepared(c, rs, offset), rs, SCRATCH_REGISTER0, SCRATCH_REGISTER1, op, width, callerSave, n);
    var d := Accessed(LoadPrepared(c, rs, offset), rs, SCRATCH_REGISTER0, SCRATCH_REGISTER1, op, width, callerSave);
    WriteShape(d, rt, Move(Index(d, rt), r), n);
    UnlockShape(Emit(Modify(d, rt), Move(Index(d, rt), r)), rt, n);
  }

  lemma StoreToShape(c: Cache, rt: nat, rs: nat, offset: Guest, width: nat, callerSave: nat, n: nat)
    requires Shaped(c, n)
    ensures Shaped(EmitStore(c, rt, rs, offset, width, callerSave), n)
  {
    var c1 := Load(c, rt, Any);
    LoadShape(c, rt, Any, n);
    LoadShape(c1, rs, Any, n);
    AddressShape(Load(c1, rs, Any), Index(c1, rs), offset, n);
    AccessShape(StorePrepared(c, rt, rs, offset), rt, rs, SCRATCH_REGISTER0,
                StoreMem(Index(c, rt), StoreScratch0(c, rt, rs), width, callerSave), width, callerSave, n);
  }

  lemma ScalarShape(i: Scalar, c: Cache, callerSave: nat, n: nat)
    requires Shaped(c, n)
    ensures Shaped(CompileScalar(i, c, callerSave), n)
  {
    match i
    case Arithmetic(a) => CompileShape(a, c, n);
    case LoadFrom(rt, rs, offset, width, signed) => LoadFromShape(c, rt, rs, offset, width, signed, callerSave, n);
    case StoreTo(rt, rs, offset, width) => StoreToShape(c, rt, rs, offset, width, callerSave, n);
  }

  lemma PlainShape(w: Word, c: Cache, callerSave: nat, n: nat)
    requires Shaped(c, n)
    ensures Shaped(PlainCache(w, c, callerSave), n)
  {
    match Decode(w)
    case Exact(i) => ScalarShape(i, c, callerSave, n);
    case Call(touched) =>
      var d := FlushCallerSave(c, callerSave);
      FlushShape(c, Between(0, callerSave), n);
      if touched.Some? { FlushShape(d, Holding(d.entries, touched.value), n); }
    case Nothing =>
  }

  // ---------------------------------------------------------------- branches

  lemma SpillBeforeShape(last: B.Info, c: Cache, n: nat)
    requires Shaped(c, n)
    ensures Shaped(SpillBefore(last, c), n)
  {
    var c1 := Load(c, COND_BRANCH_TAKEN, Any);
    LoadShape(c, COND_BRANCH_TAKEN, Any, n);
    UnlockShape(Emit(c1, Spill(SpilledCond, ConditionIndex(c))), COND_BRANCH_TAKEN, n);
  }

  lemma SaveShape(c: Cache, rs: nat, n: nat)
    requires Shaped(c, n)
    ensures Shaped(SaveIndirect(c, rs), n)
  {
    LoadShape(c, rs, Any, n);
    UnlockShape(Emit(Load(c, rs, Any), Spill(IndirectPc, Index(c, rs))), rs, n);
  }

  lemma LinkShape(c: Cache, link: nat, p: nat, n: nat)
    requires Shaped(c, n)
    ensures Shaped(LinkCache(c, link, p), n)
  {
    ConstantShape(c, link, LinkValue(p), n);
  }

  lemma JumpShape(c: Cache, link: nat, v: Guest, cond: Guest, n: nat)
    requires Shaped(c, n)
    ensures Shaped(LinkAndCondition(c, link, v, cond), n)
  {
    var c1 := ClaimConstant(c, link, v);
    var c2 := ClaimConstant(c1, COND_BRANCH_TAKEN, cond);
    ConstantShape(c, link, v, n);
    ConstantShape(c1, COND_BRANCH_TAKEN, cond, n);
    UnlockShape(c2, link, n);
    UnlockShape(Unlock(c2, link), COND_BRANCH_TAKEN, n);
  }

  lemma TestShape(c: Cache, cond: Cond, rs: nat, rt: nat, n: nat)
    requires Shaped(c, n)
    ensures Shaped(EmitTest(c, cond, rs, rt), n)
  {
    EmitPairShape(c, TestOf(cond), Signed, COND_BRANCH_TAKEN, rs, rt, n);
    ImmediateShape(c, TestOf(cond), Signed, COND_BRANCH_TAKEN, rs, 0, n);
  }

  lemma BranchShape(w: Word, p: nat, next: bool, c: Cache, n: nat)
    requires Shaped(c, n)
    ensures Shaped(BranchCache(w, p, next, c), n)
  {
    match Classify(w)
    case JumpRegister(link) =>
      SaveShape(c, Rs(w), n);
      LinkShape(SaveIndirect(c, Rs(w)), link, p, n);
      ConstantShape(LinkCache(SaveIndirect(c, Rs(w)), link, p), COND_BRANCH_TAKEN, CondValue(next), n);
    case Jump(link) =>
      ConstantShape(c, COND_BRANCH_TAKEN, CondValue(next), n);
      JumpShape(c, link, LinkValue(p), CondValue(next), n);
    case Branch(cond, link) =>
      TestShape(c, cond, Rs(w), Rt(w), n);
      LinkShape(EmitTest(c, cond, Rs(w), Rt(w)), link, p, n);
    case _ =>
  }

  lemma InstructionShape(w: Word, pc: nat, last: B.Info, next: bool, c: Cache, callerSave: nat, n: nat)
    requires Shaped(c, n)
    ensures Shaped(InstructionCache(w, pc, last, next, c, callerSave), n)
  {
    PlainShape(w, c, callerSave, n);
    WindowShape(c, n);
    SpillBeforeShape(last, c, n);
    BranchShape(w, pc / 4, next, SpillBefore(last, c), n);
  }

  // ---------------------------------------------------------------- delay slots

  lemma CheckShape(c: Cache, n: nat)
    requires Shaped(c, n)
    ensures Shaped(LatentCheck(c), n)
  {
    var d := Emit(Modify(c, SCRATCH_REGISTER0), Fill(Index(c, SCRATCH_REGISTER0), HasDelay));
    WriteShape(c, SCRATCH_REGISTER0, Fill(Index(c, SCRATCH_REGISTER0), HasDelay), n);
    UnlockShape(d, SCRATCH_REGISTER0, n);
    WindowShape(Unlock(d, SCRATCH_REGISTER0), n);
  }

  lemma HoldShape(c: Cache, n: nat)
    requires Shaped(c, n)
    ensures Shaped(HoldBranchState(c), n)
  {
    var c1 := Load(c, COND_BRANCH_TAKEN, Any);
    LoadShape(c, COND_BRANCH_TAKEN, Any, n);
    ClaimShape(c1, SCRATCH_REGISTER0, n);
    ClaimShape(Modify(c1, SCRATCH_REGISTER0), SCRATCH_REGISTER1, n);
    UnlockThreeShape(ConditionAndScratch(c), COND_BRANCH_TAKEN, SCRATCH_REGISTER0, SCRATCH_REGISTER1, n);
    WindowShape(UnlockThree(ConditionAndScratch(c), COND_BRANCH_TAKEN, SCRATCH_REGISTER0, SCRATCH_REGISTER1), n);
  }

  lemma TakeShape(c: Cache, n: nat)
    requires Shaped(c, n)
    ensures Shaped(TakeCondition(c), n)
  {
    var c1, i, s := Load(c, COND_BRANCH_TAKEN, Any), ConditionIndex(c), CopyIndex(c);
    LoadShape(c, COND_BRANCH_TAKEN, Any, n);
    ClaimShape(c1, COND_BRANCH_TAKEN, n);
    ClaimShape(Modify(c1, COND_BRANCH_TAKEN), SCRATCH_REGISTER0, n);
    var d := Emit(Emit(ConditionTwice(c), Move(s, i)), Movi(i, 0));
    UnlockThreeShape(d, COND_BRANCH_TAKEN, COND_BRANCH_TAKEN, SCRATCH_REGISTER0, n);
    WindowShape(UnlockThree(d, COND_BRANCH_TAKEN, COND_BRANCH_TAKEN, SCRATCH_REGISTER0), n);
  }

  lemma DropShape(c: Cache, n: nat)
    requires Shaped(c, n)
    ensures Shaped(DropCondition(c), n)
  {
    var d := Emit(Modify(c, COND_BRANCH_TAKEN), Movi(ConditionIndex(c), 0));
    WriteShape(c, COND_BRANCH_TAKEN, Movi(ConditionIndex(c), 0), n);
    UnlockShape(d, COND_BRANCH_TAKEN, n);
    WindowShape(Unlock(d, COND_BRANCH_TAKEN), n);
  }

  lemma TailShape(info: B.Info, last: B.Info, first: bool, c: Cache, n: nat)
    requires Shaped(c, n) && Starting(c)
    ensures Shaped(TailCache(info, last, first, c), n) && Starting(TailCache(info, last, first, c))
  {
    CheckShape(c, n);
    HoldShape(c, n);
    TakeShape(c, n);
    DropShape(c, n);
  }

  lemma InstructionStarts(w: Word, pc: nat, last: B.Info, next: bool, c: Cache, callerSave: nat)
    ensures Starting(InstructionCache(w, pc, last, next, c, callerSave))
  {
  }

  /** One instruction with its delay slot keeps the shape. */
  lemma WholeShape(w: Word, pc: nat, last: B.Info, first: bool, next: bool, c: Cache, callerSave: nat, n: nat)
    requires Shaped(c, n)
    ensures var d := WholeCache(w, pc, last, first, next, c, callerSave); Shaped(d, n) && Starting(d)
  {
    InstructionShape(w, pc, last, next, c, callerSave, n);
    InstructionStarts(w, pc, last, next, c, callerSave);
    TailShape(B.InfoOf(w, pc, next), last, first, InstructionCache(w, pc, last, next, c, callerSave), n);
  }

  /** The end of a block leaves nothing cached. */
  lemma EndShape(c: Cache, n: nat)
    requires Shaped(c, n)
    ensures Shaped(HoldForEnd(c), n) && Dead(HoldForEnd(c).entries)
    ensures var d := FlushRegisterWindow(Unlock(Modify(c, SCRATCH_REGISTER0), SCRATCH_REGISTER0)); Shaped(d, n) && Dead(d.entries)
  {
    var c1 := Load(c, COND_BRANCH_TAKEN, Any);
    LoadShape(c, COND_BRANCH_TAKEN, Any, n);
    UnlockShape(c1, COND_BRANCH_TAKEN, n);
    ScratchShape(Unlock(c1, COND_BRANCH_TAKEN), n);
    ScratchShape(c, n);
  }

  lemma ScratchShape(c: Cache, n: nat)
    requires Shaped(c, n)
    ensures var d := FlushRegisterWindow(Unlock(Modify(c, SCRATCH_REGISTER0), SCRATCH_REGISTER0)); Shaped(d, n) && Dead(d.entries)
  {
    ClaimShape(c, SCRATCH_REGISTER0, n);
    UnlockShape(Modify(c, SCRATCH_REGISTER0), SCRATCH_REGISTER0, n);
    WindowShape(Unlock(Modify(c, SCRATCH_REGISTER0), SCRATCH_REGISTER0), n);
  }
}
