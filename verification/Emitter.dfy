/**
  Instruction emission as the compiler performs it (rsp_jit.cpp,
  `jit_instruction` and the delay-slot code): calls on the register cache in their
  order, with the operations between them.  The assertions in the cache (a
  register is always found, register 0 is never written back, a lock is only
  dropped by its holder, nothing locked is flushed) are preconditions of the
  calls, so verifying these methods shows that none of these paths can fail one.
 */
module Emitter {
  import opened Arithmetic
  import opened HostWords
  import opened RegisterCache
  import opened RegisterWindow
  import opened ScalarCode
  import opened MemoryCode
  import opened BranchRegisters
  import opened BranchCode
  import HostBytes
  import ScalarMemory

  lemma Holder(c: Cache, m: nat, i: nat, h0: Host, g: File)
    requires Rep(c, h0, g) && At(c.entries, i, m)
    ensures FindLive(c.entries, m) == i
  {
  }

  /** Drops three locks, of registers that may coincide. */
  method UnlockRegisters(w: Window, m1: nat, m2: nat, m3: nat, ghost n: nat, ghost i: nat, ghost j: nat, ghost k: nat, ghost h0: Host, ghost g: File)
    requires ThreeLocked(w.Value(), n, i, m1, j, m2, k, m3, h0, g) && n >= 3
    modifies w.entries
    ensures w.Value() == Unlock(Unlock(Unlock(old(w.Value()), m1), m2), m3)
  {
    Holder(w.Value(), m1, i, h0, g);
    UnlockStep(w.Value(), m1, i, h0, g);
    w.UnlockMipsRegister(m1);
    Holder(w.Value(), m2, j, h0, g);
    UnlockStep(w.Value(), m2, j, h0, g);
    w.UnlockMipsRegister(m2);
    Holder(w.Value(), m3, k, h0, g);
    w.UnlockMipsRegister(m3);
  }

  /** With nothing, one register or two registers locked, another one can be claimed. */
  lemma CanClaim(c: Cache, m: nat, a: nat, b: nat, h0: Host, g: File)
    requires |c.entries| >= 3 && LockedOnly(c.entries, a, b) && Rep(c, h0, g)
    ensures FindRegister(c.entries, m) < |c.entries| && NoDirtyZero(c.entries)
  {
    NeverStuck(c.entries, m, a, b);
    RepNoDirtyZero(c, h0, g);
  }

  /** With nothing locked, any part of the window can be flushed. */
  lemma CanFlush(c: Cache, low: nat, high: nat, h0: Host, g: File)
    requires Leaves(c, h0, g)
    ensures UnlockedBetween(c.entries, low, high) && NoDirtyZero(c.entries)
  {
    RepNoDirtyZero(c, h0, g);
  }

  method LoadFirst(w: Window, m: nat, want: Want, ghost h0: Host, ghost g: File) returns (i: nat)
    requires Leaves(w.Value(), h0, g) && m <= 32 && (m == COND_BRANCH_TAKEN ==> CondSmall(g))
    modifies w, w.entries
    ensures w.Value() == Load(old(w.Value()), m, want) && i == Index(old(w.Value()), m)
    ensures OneLoaded(w.Value(), w.entries.Length, i, m, want, h0, g)
  {
    CanClaim(w.Value(), m, 0, 0, h0, g);
    LoadOne(w.Value(), want, m, h0, g);
    i := w.LoadMipsRegister(m, want);
  }

  method LoadNext(w: Window, ghost i: nat, ghost m1: nat, ghost want1: Want, m2: nat, want2: Want, ghost h0: Host, ghost g: File)
    returns (j: nat)
    requires m1 < 32 && m2 < 32 && OneLoaded(w.Value(), w.entries.Length, i, m1, want1, h0, g) && w.entries.Length >= 3
    requires m1 == m2 ==> want1 == want2 || want2.Any?
    modifies w, w.entries
    ensures w.Value() == Load(old(w.Value()), m2, want2) && j == Index(old(w.Value()), m2)
    ensures BothLoaded(w.Value(), w.entries.Length, i, m1, want1, j, m2, want2, h0, g)
  {
    CanClaim(w.Value(), m2, i, i, h0, g);
    LoadSecond(w.Value(), w.entries.Length, i, want1, want2, m1, m2, h0, g);
    j := w.LoadMipsRegister(m2, want2);
  }

  /** Claims the destination and emits the operation. */
  method ComputeInto(w: Window, op: Alu, dest: nat, i: nat, y: Operand, ghost a: nat, ghost b: nat, ghost h0: Host, ghost g: File)
    returns (k: nat)
    requires w.entries.Length >= 3 && LockedOnly(w.entries[..], a, b) && Rep(w.Value(), h0, g) && dest != 0
    modifies w, w.entries
    ensures k == Index(old(w.Value()), dest)
    ensures w.Value() == Emit(Modify(old(w.Value()), dest), Compute(op, k, i, y))
  {
    CanClaim(w.Value(), dest, a, b, h0, g);
    k := w.ModifyMipsRegister(dest);
    w.code := w.code + [Compute(op, k, i, y)];
  }

  /** ADDU, SUBU, AND, OR, XOR, SLT, SLTU and the conditions of BEQ and BNE, with all three registers still locked. */
  method EmitComputePair(w: Window, op: Alu, want: Want, dest: nat, m1: nat, m2: nat, ghost h0: Host, ghost g: File)
    returns (i: nat, j: nat, k: nat)
    requires Leaves(w.Value(), h0, g) && Destination(op, dest) && m1 < 32 && m2 < 32 && !IsShift(op) && want == WantOf(op)
    modifies w, w.entries
    ensures w.Value() == ComputePair(old(w.Value()), op, want, dest, m1, m2)
    ensures k == Index(Load(Load(old(w.Value()), m1, want), m2, want), dest)
    ensures PairComputed(w.Value(), w.entries.Length, i, m1, j, m2, k, dest, h0, WithReg(g, dest, Mips(op, g[m1], g[m2])))
  {
    i := LoadFirst(w, m1, want, h0, g);
    j := LoadNext(w, i, m1, want, m2, want, h0, g);
    ComputeBoth(w.Value(), w.entries.Length, i, j, op, want, dest, m1, m2, h0, g);
    k := ComputeInto(w, op, dest, i, InReg(j), i, j, h0, g);
  }

  method JitPair(w: Window, op: Alu, want: Want, dest: nat, m1: nat, m2: nat, ghost h0: Host, ghost g: File)
    requires Leaves(w.Value(), h0, g) && Destination(op, dest) && m1 < 32 && m2 < 32 && !IsShift(op) && want == WantOf(op)
    modifies w, w.entries
    ensures w.Value() == EmitPair(old(w.Value()), op, want, dest, m1, m2)
  {
    var i, j, k := EmitComputePair(w, op, want, dest, m1, m2, h0, g);
    UnlockRegisters(w, m1, m2, dest, w.entries.Length, i, j, k, h0, WithReg(g, dest, Mips(op, g[m1], g[m2])));
  }

  method JitNor(w: Window, rd: nat, rs: nat, rt: nat, ghost h0: Host, ghost g: File)
    requires Leaves(w.Value(), h0, g) && 0 < rd < 32 && rs < 32 && rt < 32
    modifies w, w.entries
    ensures w.Value() == EmitNor(old(w.Value()), rd, rs, rt)
  {
    var i, j, k := EmitComputePair(w, Bits(BitOr), Any, rd, rt, rs, h0, g);
    ghost var g3 := WithReg(g, rd, Mips(Bits(BitOr), g[rt], g[rs]));
    FlipPair(w.Value(), w.entries.Length, i, rt, j, rs, k, rd, g[rt], g[rs], h0, g3);
    w.code := w.code + [Compute(Bits(BitXor), k, k, Immediate(TWO_64 - 1))];
    UnlockRegisters(w, rt, rs, rd, w.entries.Length, i, j, k, h0, WithReg(g3, rd, Mips(Bits(BitNor), g[rt], g[rs])));
  }

  method UnlockBoth(w: Window, m1: nat, m2: nat, ghost n: nat, ghost i: nat, ghost k: nat, ghost h0: Host, ghost g: File)
    requires TwoHeld(w.Value(), n, i, m1, k, m2, h0, g) && n >= 3
    modifies w.entries
    ensures w.Value() == Unlock(Unlock(old(w.Value()), m1), m2)
  {
    Holder(w.Value(), m1, i, h0, g);
    UnlockStep(w.Value(), m1, i, h0, g);
    w.UnlockMipsRegister(m1);
    Holder(w.Value(), m2, k, h0, g);
    w.UnlockMipsRegister(m2);
  }

  /** Shifts by a constant, ADDIU, SLTI, SLTIU, ANDI, ORI, XORI and the conditions against zero. */
  method JitImmediate(w: Window, op: Alu, want: Want, dest: nat, src: nat, y: Host64, ghost b: Guest, ghost h0: Host, ghost g: File)
    requires Leaves(w.Value(), h0, g) && Destination(op, dest) && src < 32
    requires want == WantOf(op) || (op.LessUnsigned? && want.Signed?)
    requires SecondOperand(op, want, y, b)
    modifies w, w.entries
    ensures w.Value() == EmitImmediate(old(w.Value()), op, want, dest, src, y)
  {
    var i := LoadFirst(w, src, want, h0, g);
    ImmediateComputed(w.Value(), w.entries.Length, i, op, want, dest, src, y, b, h0, g);
    var k := ComputeInto(w, op, dest, i, Immediate(y), i, i, h0, g);
    UnlockBoth(w, src, dest, w.entries.Length, i, k, h0, WithReg(g, dest, Mips(op, g[src], b)));
  }

  /** The masked amount goes to a scratch register, and the amount's own register is unlocked. */
  method JitMaskAmount(w: Window, op: Alu, rt: nat, rs: nat, i: nat, j: nat, ghost h0: Host, ghost g: File) returns (s: nat)
    requires rt < 32 && rs < 32 && w.entries.Length >= 3
    requires BothLoaded(w.Value(), w.entries.Length, i, rt, WantOf(op), j, rs, Any, h0, g)
    modifies w, w.entries
    ensures s == Index(old(w.Value()), SCRATCH_REGISTER0)
    ensures w.Value() == Unlock(Emit(Modify(old(w.Value()), SCRATCH_REGISTER0), Compute(Bits(BitAnd), s, j, Immediate(31))), rs)
    ensures ShiftReady(w.Value(), w.entries.Length, op, rt, i, s, g[rt], g[rs], h0, g)
  {
    ghost var c, n := w.Value(), w.entries.Length;
    MaskAmount(c, op, rt, rs, i, j, h0, g);
    MaskHolder(c, n, op, rt, rs, i, j, h0, g);
    s := ComputeInto(w, Bits(BitAnd), SCRATCH_REGISTER0, j, Immediate(31), i, j, h0, g);
    w.UnlockMipsRegister(rs);
  }

  lemma MaskHolder(c: Cache, n: nat, op: Alu, rt: nat, rs: nat, i: nat, j: nat, h0: Host, g: File)
    requires rt < 32 && rs < 32 && n >= 3 && BothLoaded(c, n, i, rt, WantOf(op), j, rs, Any, h0, g)
    ensures LockedOnly(c.entries, i, j)
    ensures var s := Index(c, SCRATCH_REGISTER0);
            var d := Emit(Modify(c, SCRATCH_REGISTER0), Compute(Bits(BitAnd), s, j, Immediate(31)));
            FindLive(d.entries, rs) == j < |d.entries| && d.entries[j].locks > 0
  {
    ScratchStep(c, i, j, j, h0, g);
    var s := Index(c, SCRATCH_REGISTER0);
    Holder(Emit(Modify(c, SCRATCH_REGISTER0), Compute(Bits(BitAnd), s, j, Immediate(31))), rs, j, h0, g);
  }

  /** SLLV, SRLV, SRAV. */
  method JitShiftVariable(w: Window, op: Alu, rd: nat, rt: nat, rs: nat, ghost h0: Host, ghost g: File)
    requires Leaves(w.Value(), h0, g) && 0 < rd < 32 && rt < 32 && rs < 32 && IsShift(op)
    modifies w, w.entries
    ensures w.Value() == EmitShiftVariable(old(w.Value()), op, rd, rt, rs)
  {
    var i := LoadFirst(w, rt, WantOf(op), h0, g);
    var j := LoadNext(w, i, rt, WantOf(op), rs, Any, h0, g);
    var s := JitMaskAmount(w, op, rt, rs, i, j, h0, g);
    ShiftComputed(w.Value(), w.entries.Length, op, rd, rt, i, s, g[rt], g[rs], h0, g);
    var k := ComputeInto(w, op, rd, i, InReg(s), i, s, h0, g);
    UnlockRegisters(w, rt, rd, SCRATCH_REGISTER0, w.entries.Length, i, k, s, h0, WithReg(g, rd, Mips(op, g[rt], g[rs])));
  }

  /** LUI, and ADDIU or ORI from $0. */
  method JitConstant(w: Window, rt: nat, v: Guest, ghost h0: Host, ghost g: File)
    requires Leaves(w.Value(), h0, g) && 0 < rt <= 32
    modifies w, w.entries
    ensures w.Value() == EmitConstant(old(w.Value()), rt, v)
  {
    ClaimConstantStep(w.Value(), rt, v, 0, 0, h0, g);
    var i := JitClaimConstant(w, rt, v, 0, 0, h0, g);
    UnlockOnly(w, rt, i, h0, WithReg(g, rt, v));
  }

  // ---------------------------------------------------------------- memory

  /** The DMEM address of an access, into the first scratch register. */
  method JitAddress(w: Window, i: nat, offset: Guest, ghost a: nat, ghost b: nat, ghost h0: Host, ghost g: File)
    returns (s: nat)
    requires w.entries.Length >= 3 && LockedOnly(w.entries[..], a, b) && Rep(w.Value(), h0, g)
    modifies w, w.entries
    ensures s == Index(old(w.Value()), SCRATCH_REGISTER0) && w.Value() == AddressInto(old(w.Value()), i, offset)
  {
    s := ComputeInto(w, Add, SCRATCH_REGISTER0, i, Immediate(SignExtend(offset)), a, b, h0, g);
    w.code := w.code + [Compute(Bits(BitAnd), s, s, Immediate(0xfff))];
  }

  /** The access with its locks dropped; wide accesses may call, so the caller-saved registers are flushed before them. */
  method JitAccess(w: Window, m1: nat, m2: nat, m3: nat, op: HostOp, n: nat, callerSave: nat,
                   ghost i: nat, ghost j: nat, ghost k: nat, ghost h0: Host, ghost g: File)
    requires ThreeLocked(w.Value(), w.entries.Length, i, m1, j, m2, k, m3, h0, g) && w.entries.Length >= 3
    requires callerSave <= w.entries.Length
    requires n == 1 ==> ThreeLocked(Emit(w.Value(), op), w.entries.Length, i, m1, j, m2, k, m3, h0, g)
    modifies w, w.entries
    ensures w.Value() == Accessed(old(w.Value()), m1, m2, m3, op, n, callerSave)
  {
    if n == 1 {
      w.code := w.code + [op];
      UnlockRegisters(w, m1, m2, m3, w.entries.Length, i, j, k, h0, g);
    } else {
      UnlockThreeStep(w.Value(), w.entries.Length, i, m1, j, m2, k, m3, h0, g);
      UnlockRegisters(w, m1, m2, m3, w.entries.Length, i, j, k, h0, g);
      w.FlushRange(0, callerSave);
      w.code := w.code + [op];
    }
  }

  /** The loaded value moves from the scratch register to its own. */
  method JitMove(w: Window, rt: nat, r: nat, ghost v: Guest, ghost h0: Host, ghost g: File)
    requires ValueIn(w.Value(), r, v, h0, g) && 0 < rt < 32
    modifies w, w.entries
    ensures w.Value() == MoveInto(old(w.Value()), rt, r)
  {
    CanClaim(w.Value(), rt, 0, 0, h0, g);
    MoveHolder(w.Value(), rt, r, v, h0, g);
    var k := w.ModifyMipsRegister(rt);
    w.code := w.code + [Move(k, r)];
    w.UnlockMipsRegister(rt);
  }

  lemma MoveHolder(c: Cache, rt: nat, r: nat, v: Guest, h0: Host, g: File)
    requires ValueIn(c, r, v, h0, g) && 0 < rt < 32
    ensures var k, d := Index(c, rt), Modify(c, rt);
            FindLive(d.entries, rt) == k < |d.entries| && d.entries[k].locks > 0
  {
    ModifyStep(c, rt, h0, g, 0, 0);
    Holder(Modify(c, rt), rt, Index(c, rt), h0, WithReg(g, rt, Low(HostAt(c, h0).regs[Index(c, rt)])));
  }

  /** LB, LH, LW, LBU, LHU up to the access. */
  method JitLoadPrepare(w: Window, rs: nat, offset: Guest, ghost h0: Host, ghost g: File) returns (i: nat, s: nat, r: nat)
    requires Leaves(w.Value(), h0, g) && rs < 32
    modifies w, w.entries
    ensures i == Index(old(w.Value()), rs) && s == LoadScratch0(old(w.Value()), rs)
    ensures r == LoadScratch1(old(w.Value()), rs, offset) && w.Value() == LoadPrepared(old(w.Value()), rs, offset)
  {
    i := LoadFirst(w, rs, Any, h0, g);
    ghost var c1, a := w.Value(), (g[rs] + offset) % 4096;
    AddressLocked(c1, AddressInto(c1, i, offset), w.entries.Length, i, rs, Index(c1, SCRATCH_REGISTER0), a, offset, h0, g);
    s := JitAddress(w, i, offset, i, i, h0, g);
    ScratchFree(w.Value(), w.entries.Length, i, rs, s, a, h0, g);
    r := w.ModifyMipsRegister(SCRATCH_REGISTER1);
  }

  lemma ScratchFree(c: Cache, n: nat, i: nat, rs: nat, s: nat, a: nat, h0: Host, g: File)
    requires TwoLocked(c, n, i, rs, s, a, h0, g) && n >= 3
    ensures FindRegister(c.entries, SCRATCH_REGISTER1) < |c.entries|
  {
    CanClaim(c, SCRATCH_REGISTER1, i, s, h0, g);
  }

  method JitLoad(w: Window, rt: nat, rs: nat, offset: Guest, n: nat, signed: bool, callerSave: nat, ghost h0: Host, ghost g: File)
    requires Leaves(w.Value(), h0, g) && 0 < rt < 32 && rs < 32 && ScalarMemory.Width(n) && callerSave <= w.entries.Length
    modifies w, w.entries
    ensures w.Value() == EmitLoad(old(w.Value()), rt, rs, offset, n, signed, callerSave)
  {
    ghost var a, length := (g[rs] + offset) % 4096, w.entries.Length;
    LoadPreparedCorrect(w.Value(), rs, offset, h0, g);
    var i, s, r := JitLoadPrepare(w, rs, offset, h0, g);
    LoadReady(w.Value(), length, i, rs, s, r, n, signed, callerSave, a, h0, g);
    ghost var v := LoadedValue(HostBytes.MemView(HostAt(w.Value(), h0).dmem), a, n, signed);
    JitAccess(w, rs, SCRATCH_REGISTER0, SCRATCH_REGISTER1, LoadMem(r, s, n, signed, callerSave), n, callerSave, i, s, r, h0, g);
    JitMove(w, rt, r, v, h0, g);
  }

  lemma LoadReady(c: Cache, k: nat, i: nat, rs: nat, s: nat, r: nat, n: nat, signed: bool, callerSave: nat, a: nat, h0: Host, g: File)
    requires ThreeLocked(c, k, i, rs, s, SCRATCH_REGISTER0, r, SCRATCH_REGISTER1, h0, g) && k >= 3 && ScalarMemory.Width(n) && rs < 32
    requires Reg(HostAt(c, h0), s) == a < 4096
    ensures n == 1 ==> ThreeLocked(Emit(c, LoadMem(r, s, n, signed, callerSave)), k, i, rs, s, SCRATCH_REGISTER0,
                                   r, SCRATCH_REGISTER1, h0, g)
    ensures ValueIn(Accessed(c, rs, SCRATCH_REGISTER0, SCRATCH_REGISTER1, LoadMem(r, s, n, signed, callerSave), n, callerSave),
                    r, LoadedValue(HostBytes.MemView(HostAt(c, h0).dmem), a, n, signed), h0, g)
  {
    if n == 1 { LoadAccess(c, r, s, n, signed, callerSave, h0, g); }
    LoadAccessed(c, k, i, rs, s, r, n, signed, callerSave, a, h0, g);
  }

  method JitStorePrepare(w: Window, rt: nat, rs: nat, offset: Guest, ghost h0: Host, ghost g: File) returns (i: nat, j: nat, s: nat)
    requires Leaves(w.Value(), h0, g) && rt < 32 && rs < 32
    modifies w, w.entries
    ensures i == Index(old(w.Value()), rt) && s == StoreScratch0(old(w.Value()), rt, rs)
    ensures w.Value() == StorePrepared(old(w.Value()), rt, rs, offset)
    ensures ThreeLocked(w.Value(), w.entries.Length, i, rt, j, rs, s, SCRATCH_REGISTER0, h0, g)
  {
    StorePreparedCorrect(w.Value(), rt, rs, offset, h0, g);
    i := LoadFirst(w, rt, Any, h0, g);
    j := LoadNext(w, i, rt, Any, rs, Any, h0, g);
    s := JitAddress(w, j, offset, i, j, h0, g);
  }

  /** SB, SH, SW. */
  method JitStore(w: Window, rt: nat, rs: nat, offset: Guest, n: nat, callerSave: nat, ghost h0: Host, ghost g: File)
    requires Leaves(w.Value(), h0, g) && rt < 32 && rs < 32 && ScalarMemory.Width(n) && callerSave <= w.entries.Length
    modifies w, w.entries
    ensures w.Value() == EmitStore(old(w.Value()), rt, rs, offset, n, callerSave)
  {
    var i, j, s := JitStorePrepare(w, rt, rs, offset, h0, g);
    if n == 1 { StoreLocked(w.Value(), w.entries.Length, i, rt, j, rs, s, callerSave, h0, g); }
    JitAccess(w, rt, rs, SCRATCH_REGISTER0, StoreMem(i, s, n, callerSave), n, callerSave, i, j, s, h0, g);
  }

  // ---------------------------------------------------------------- instructions and straight code

  method JitRegisters(w: Window, i: Instr, ghost h0: Host, ghost g: File)
    requires Leaves(w.Value(), h0, g) && Legal(i) && (i.Three? || i.Nor? || i.ShiftVar? || i.TestPair?)
    modifies w, w.entries
    ensures w.Value() == Compile(i, old(w.Value()))
  {
    match i {
      case Three(op, rd, rs, rt) => if rd != 0 { JitPair(w, op, WantOf(op), rd, rs, rt, h0, g); }
      case Nor(rd, rs, rt) => if rd != 0 { JitNor(w, rd, rs, rt, h0, g); }
      case ShiftVar(op, rd, rt, rs) => if rd != 0 { JitShiftVariable(w, op, rd, rt, rs, h0, g); }
      case TestPair(op, rs, rt) => JitPair(w, op, Signed, COND_BRANCH_TAKEN, rs, rt, h0, g);
    }
  }

  method JitImmediates(w: Window, i: Instr, ghost h0: Host, ghost g: File)
    requires Leaves(w.Value(), h0, g) && Legal(i) && (i.ShiftBy? || i.WithImm? || i.Constant? || i.TestZero?)
    modifies w, w.entries
    ensures w.Value() == Compile(i, old(w.Value()))
  {
    match i {
      case ShiftBy(op, rd, rt, amount) =>
        Amount(amount);
        if rd != 0 { JitImmediate(w, op, WantOf(op), rd, rt, amount % TWO_64, amount, h0, g); }
      case WithImm(op, rt, rs, imm) =>
        ImmediateOperand(op, imm);
        if rt != 0 { JitImmediate(w, op, ImmediateWant(op), rt, rs, SignExtend(imm), imm, h0, g); }
      case Constant(rt, v) => if rt != 0 { JitConstant(w, rt, v, h0, g); }
      case TestZero(op, rs) =>
        ImmediateOperand(op, 0);
        JitImmediate(w, op, Signed, COND_BRANCH_TAKEN, rs, 0, 0, h0, g);
    }
  }

  method JitMemory(w: Window, i: Scalar, callerSave: nat, ghost h0: Host, ghost g: File)
    requires Leaves(w.Value(), h0, g) && LegalScalar(i) && !i.Arithmetic? && callerSave <= w.entries.Length
    modifies w, w.entries
    ensures w.Value() == CompileScalar(i, old(w.Value()), callerSave)
  {
    match i {
      case LoadFrom(rt, rs, offset, n, signed) =>
        if rt != 0 { JitLoad(w, rt, rs, offset, n, signed, callerSave, h0, g); }
      case StoreTo(rt, rs, offset, n) => JitStore(w, rt, rs, offset, n, callerSave, h0, g);
    }
  }

  /** One instruction through the register cache. */
  method JitInstruction(w: Window, i: Scalar, callerSave: nat, ghost h0: Host, ghost s: ScalarState)
    requires LeavesState(w.Value(), h0, s) && LegalScalar(i) && callerSave <= w.entries.Length
    modifies w, w.entries
    ensures w.Value() == CompileScalar(i, old(w.Value()), callerSave) && LeavesState(w.Value(), h0, StepScalar(i, s))
  {
    CompileScalarCorrect(i, w.Value(), callerSave, h0, s);
    if !i.Arithmetic? {
      JitMemory(w, i, callerSave, h0, s.g);
    } else if i.i.Three? || i.i.Nor? || i.i.ShiftVar? || i.i.TestPair? {
      JitRegisters(w, i.i, h0, s.g);
    } else {
      JitImmediates(w, i.i, h0, s.g);
    }
  }

  method JitAll(w: Window, p: seq<Scalar>, callerSave: nat, ghost h0: Host, ghost s: ScalarState)
    requires LeavesState(w.Value(), h0, s) && (forall i :: i in p ==> LegalScalar(i)) && callerSave <= w.entries.Length
    modifies w, w.entries
    ensures w.Value() == CompileAll(p, old(w.Value()), callerSave)
    ensures LeavesState(w.Value(), h0, StepAll(p, s))
  {
    var k := 0;
    while k < |p|
      invariant 0 <= k <= |p| && LeavesState(w.Value(), h0, StepAll(p[..k], s))
      invariant w.Value() == CompileAll(p[..k], old(w.Value()), callerSave)
    {
      NextInstruction(p, k, old(w.Value()), callerSave, s);
      JitInstruction(w, p[k], callerSave, h0, StepAll(p[..k], s));
      k := k + 1;
    }
    assert p[..k] == p;
  }

  lemma NextInstruction(p: seq<Scalar>, k: nat, c: Cache, callerSave: nat, s: ScalarState)
    requires k < |p| && forall i :: i in p ==> LegalScalar(i)
    ensures CompileAll(p[..k + 1], c, callerSave) == CompileScalar(p[k], CompileAll(p[..k], c, callerSave), callerSave)
    ensures StepAll(p[..k + 1], s) == StepScalar(p[k], StepAll(p[..k], s))
  {
    assert p[..k + 1][..k] == p[..k];
  }

  /**
    A straight run of instructions compiled into a fresh cache and flushed: the
    code emitted does what the instructions do, from every host state.
   */
  method JitStraight(w: Window, p: seq<Scalar>, callerSave: nat, ghost h0: Host, ghost s: ScalarState)
    requires Starts(w.Value(), h0, s) && (forall i :: i in p ==> LegalScalar(i)) && callerSave <= w.entries.Length
    modifies w, w.entries
    ensures w.Value() == FlushRegisterWindow(CompileAll(p, old(w.Value()), callerSave))
    ensures var h := Run(w.code, h0);
            |h.sr| == 33 && h.sr[1..] == StepAll(p, s).g[1..] && HostBytes.MemView(h.dmem) == StepAll(p, s).m
  {
    StraightCodeCorrect(p, w.Value(), callerSave, h0, s);
    StartsLeaves(w.Value(), h0, s);
    JitAll(w, p, callerSave, h0, s);
    w.FlushWindow();
  }

  // ---------------------------------------------------------------- the delay-slot code

  /** Claims a register for writing while at most two others are locked. */
  method Claim(w: Window, m: nat, ghost a: nat, ghost b: nat, ghost h0: Host, ghost g: File) returns (i: nat)
    requires Rep(w.Value(), h0, g) && 0 < m <= SCRATCH_REGISTER1 && w.entries.Length >= 3 && LockedOnly(w.entries[..], a, b)
    modifies w, w.entries
    ensures w.Value() == Modify(old(w.Value()), m) && i == Index(old(w.Value()), m)
    ensures ClaimedIn(old(w.Value()), w.Value(), i, m, h0, g)
  {
    CanClaim(w.Value(), m, a, b, h0, g);
    ClaimStep(w.Value(), Modify(w.Value(), m), Index(w.Value(), m), m, h0, g, a, b);
    i := w.ModifyMipsRegister(m);
  }

  method FlushAll(w: Window, ghost h0: Host, ghost g: File)
    requires Leaves(w.Value(), h0, g)
    modifies w, w.entries
    ensures w.Value() == FlushRegisterWindow(old(w.Value())) && Flushed(w.Value(), h0, g)
  {
    CanFlush(w.Value(), 0, w.entries.Length, h0, g);
    FlushWindowStep(w.Value(), h0, g);
    w.FlushWindow();
  }

  /** `jit_handle_impossible_delay_slot` up to its branches: three locks, dropped before the flush. */
  method JitHoldBranchState(w: Window, ghost h0: Host, ghost g: File) returns (i: nat, s: nat, r: nat)
    requires Leaves(w.Value(), h0, g) && CondSmall(g)
    modifies w, w.entries
    ensures w.Value() == HoldBranchState(old(w.Value())) && Flushed(w.Value(), h0, g)
    ensures i == ConditionIndex(old(w.Value())) && s == Scratch0Index(old(w.Value())) && r == Scratch1Index(old(w.Value()))
  {
    ghost var n := w.entries.Length;
    i, s, r := JitClaimBranchState(w, h0, g);
    UnlockThreeStep(w.Value(), n, i, COND_BRANCH_TAKEN, s, SCRATCH_REGISTER0, r, SCRATCH_REGISTER1, h0, g);
    UnlockRegisters(w, COND_BRANCH_TAKEN, SCRATCH_REGISTER0, SCRATCH_REGISTER1, n, i, s, r, h0, g);
    FlushAll(w, h0, g);
  }

  method JitClaimBranchState(w: Window, ghost h0: Host, ghost g: File) returns (i: nat, s: nat, r: nat)
    requires Leaves(w.Value(), h0, g) && CondSmall(g)
    modifies w, w.entries
    ensures w.Value() == ConditionAndScratch(old(w.Value()))
    ensures i == ConditionIndex(old(w.Value())) && s == Scratch0Index(old(w.Value())) && r == Scratch1Index(old(w.Value()))
    ensures ThreeLocked(w.Value(), w.entries.Length, i, COND_BRANCH_TAKEN, s, SCRATCH_REGISTER0, r, SCRATCH_REGISTER1, h0, g)
  {
    ghost var n := w.entries.Length;
    i := LoadFirst(w, COND_BRANCH_TAKEN, Any, h0, g);
    ghost var c1 := w.Value();
    OneHeldOnly(c1, n, i, h0, g);
    s := Claim(w, SCRATCH_REGISTER0, i, i, h0, g);
    ghost var c2 := w.Value();
    ScratchAfterOne(c1, c2, n, i, s, h0, g);
    TwoHeldOnly(c2, n, i, COND_BRANCH_TAKEN, s, SCRATCH_REGISTER0, h0, g);
    r := Claim(w, SCRATCH_REGISTER1, i, s, h0, g);
    ScratchAfterTwo(c2, w.Value(), n, i, s, r, h0, g);
  }

  /** The condition, locked for reading and for writing, and a scratch register for its copy. */
  method JitClaimCondition(w: Window, ghost h0: Host, ghost g: File) returns (i: nat, s: nat)
    requires Leaves(w.Value(), h0, g) && CondSmall(g)
    modifies w, w.entries
    ensures w.Value() == ConditionTwice(old(w.Value()))
    ensures i == ConditionIndex(old(w.Value())) && s == CopyIndex(old(w.Value()))
    ensures Claimed(w.Value(), w.entries.Length, i, s, h0, g) && Reg(HostAt(w.Value(), h0), i) == g[COND_BRANCH_TAKEN]
  {
    ghost var n := w.entries.Length;
    ConditionTwiceCorrect(w.Value(), h0, g);
    i := LoadFirst(w, COND_BRANCH_TAKEN, Any, h0, g);
    ghost var c1 := w.Value();
    OneHeldOnly(c1, n, i, h0, g);
    var k := Claim(w, COND_BRANCH_TAKEN, i, i, h0, g);
    ClaimAgain(c1, w.Value(), n, i, k, h0, g);
    TwoHeldOnly(w.Value(), n, i, COND_BRANCH_TAKEN, i, COND_BRANCH_TAKEN, h0, g);
    s := Claim(w, SCRATCH_REGISTER0, i, i, h0, g);
  }

  /** `jit_handle_delay_slot` up to its branch, for a conditional branch. */
  method JitTakeCondition(w: Window, ghost h0: Host, ghost g: File) returns (s: nat)
    requires Leaves(w.Value(), h0, g) && CondSmall(g)
    modifies w, w.entries
    ensures w.Value() == TakeCondition(old(w.Value())) && s == CopyIndex(old(w.Value()))
    ensures Flushed(w.Value(), h0, WithReg(g, COND_BRANCH_TAKEN, 0))
  {
    ghost var n, g0 := w.entries.Length, WithReg(g, COND_BRANCH_TAKEN, 0);
    var i;
    i, s := JitClaimCondition(w, h0, g);
    CopyAndClear(w.Value(), n, i, s, g[COND_BRANCH_TAKEN], h0, g);
    w.code := w.code + [Move(s, i)] + [Movi(i, 0)];
    UnlockThreeStep(w.Value(), n, i, COND_BRANCH_TAKEN, i, COND_BRANCH_TAKEN, s, SCRATCH_REGISTER0, h0, g0);
    UnlockRegisters(w, COND_BRANCH_TAKEN, COND_BRANCH_TAKEN, SCRATCH_REGISTER0, n, i, i, s, h0, g0);
    FlushAll(w, h0, g0);
  }

  lemma CopyAndClear(c: Cache, n: nat, i: nat, s: nat, v: Guest, h0: Host, g: File)
    requires Claimed(c, n, i, s, h0, g) && Reg(HostAt(c, h0), i) == v
    ensures Claimed(Emit(Emit(c, Move(s, i)), Movi(i, 0)), n, i, s, h0, WithReg(g, COND_BRANCH_TAKEN, 0))
  {
    CopyCondition(c, n, i, s, v, h0, g);
    ClearCondition(Emit(c, Move(s, i)), n, i, s, v, h0, g);
  }

  /** Drops the only lock. */
  method UnlockOnly(w: Window, m: nat, ghost i: nat, ghost h0: Host, ghost g: File)
    requires Rep(w.Value(), h0, g) && At(w.entries[..], i, m) && w.entries[i].locks > 0
    modifies w.entries
    ensures w.Value() == Unlock(old(w.Value()), m)
  {
    Holder(w.Value(), m, i, h0, g);
    w.UnlockMipsRegister(m);
  }

  /** The same for an unconditional branch. */
  method JitDropCondition(w: Window, ghost h0: Host, ghost g: File)
    requires Leaves(w.Value(), h0, g)
    modifies w, w.entries
    ensures w.Value() == DropCondition(old(w.Value())) && Flushed(w.Value(), h0, WithReg(g, COND_BRANCH_TAKEN, 0))
  {
    ghost var c, g0 := w.Value(), WithReg(g, COND_BRANCH_TAKEN, 0);
    var i := Claim(w, COND_BRANCH_TAKEN, 0, 0, h0, g);
    ClearClaimed(c, w.Value(), i, h0, g);
    ClaimedHolder(c, w.Value(), i, COND_BRANCH_TAKEN, h0, g);
    w.code := w.code + [Movi(i, 0)];
    w.UnlockMipsRegister(COND_BRANCH_TAKEN);
    FlushAll(w, h0, g0);
  }

  lemma ClaimedHolder(c: Cache, d: Cache, i: nat, m: nat, h0: Host, g: File)
    requires ClaimedIn(c, d, i, m, h0, g)
    ensures FindLive(d.entries, m) == i < |d.entries| && d.entries[i].locks > 0
  {
    Holder(d, m, i, h0, WithReg(g, m, Low(Reg(HostAt(c, h0), i))));
  }

  /** Loads a register, keeps it somewhere outside the window and unlocks it again. */
  method SaveRegister(w: Window, m: nat, slot: Slot, ghost h0: Host, ghost g: File)
    requires Leaves(w.Value(), h0, g) && m <= 32 && (m == COND_BRANCH_TAKEN ==> CondSmall(g)) && !slot.CondMemory?
    modifies w, w.entries
    ensures w.Value() == Unlock(Emit(Load(old(w.Value()), m, Any), Spill(slot, Index(old(w.Value()), m))), m)
    ensures Leaves(w.Value(), h0, g)
  {
    var i := LoadFirst(w, m, Any, h0, g);
    SpillLoaded(w.Value(), w.entries.Length, i, m, slot, h0, g);
    SpillStep(w.Value(), slot, i, h0, g);
    w.code := w.code + [Spill(slot, i)];
    UnlockOnly(w, m, i, h0, g);
  }

  /** `jit_save_illegal_cond_branch_taken`. */
  method JitSpillCondition(w: Window, ghost h0: Host, ghost g: File)
    requires Leaves(w.Value(), h0, g) && CondSmall(g)
    modifies w, w.entries
    ensures w.Value() == SpillCondition(old(w.Value())) && Leaves(w.Value(), h0, g)
  {
    SaveRegister(w, COND_BRANCH_TAKEN, SpilledCond, h0, g);
  }

  /** `jit_save_indirect_register`, for JR and JALR. */
  method JitSaveIndirect(w: Window, rs: nat, ghost h0: Host, ghost g: File)
    requires Leaves(w.Value(), h0, g) && rs < 32
    modifies w, w.entries
    ensures w.Value() == SaveIndirect(old(w.Value()), rs) && Leaves(w.Value(), h0, g)
  {
    SaveRegister(w, rs, IndirectPc, h0, g);
  }

  /** `immediate_mips_register`, leaving the register locked. */
  method JitClaimConstant(w: Window, m: nat, v: Guest, ghost a: nat, ghost b: nat, ghost h0: Host, ghost g: File) returns (i: nat)
    requires Rep(w.Value(), h0, g) && 0 < m <= 32 && w.entries.Length >= 3 && LockedOnly(w.entries[..], a, b)
    modifies w, w.entries
    ensures w.Value() == ClaimConstant(old(w.Value()), m, v) && i == Index(old(w.Value()), m)
  {
    CanClaim(w.Value(), m, a, b, h0, g);
    i := w.ImmediateMipsRegister(m, SignExtend(v));
  }

  /** JAL: the link register and the condition are locked at once. */
  method JitLinkAndCondition(w: Window, link: nat, v: Guest, cond: Guest, ghost h0: Host, ghost g: File)
    requires Leaves(w.Value(), h0, g) && 0 < link < 32 && cond < 0x8000_0000
    modifies w, w.entries
    ensures w.Value() == LinkAndCondition(old(w.Value()), link, v, cond)
  {
    ghost var c, n := w.Value(), w.entries.Length;
    ClaimConstantStep(c, link, v, 0, 0, h0, g);
    var i := JitClaimConstant(w, link, v, 0, 0, h0, g);
    ghost var c1, g1 := w.Value(), WithReg(g, link, v);
    LinkLocked(c, c1, i, link, h0);
    ClaimConstantStep(c1, COND_BRANCH_TAKEN, cond, i, i, h0, g1);
    var k := JitClaimConstant(w, COND_BRANCH_TAKEN, cond, i, i, h0, g1);
    ghost var g2 := WithReg(g1, COND_BRANCH_TAKEN, cond);
    LinkHeld(c1, w.Value(), n, i, link, k, h0, g2);
    UnlockBoth(w, link, COND_BRANCH_TAKEN, n, i, k, h0, g2);
  }

  /** The check for a latent delay slot after the first instruction of a block. */
  method JitLatentCheck(w: Window, ghost h0: Host, ghost g: File) returns (s: nat)
    requires Leaves(w.Value(), h0, g)
    modifies w, w.entries
    ensures w.Value() == LatentCheck(old(w.Value())) && s == Index(old(w.Value()), SCRATCH_REGISTER0)
    ensures Flushed(w.Value(), h0, g)
  {
    s := JitFillScratch(w, HasDelay, h0, g);
    FlushAll(w, h0, g);
  }

  method JitFillScratch(w: Window, slot: Slot, ghost h0: Host, ghost g: File) returns (s: nat)
    requires Leaves(w.Value(), h0, g)
    modifies w, w.entries
    ensures s == Index(old(w.Value()), SCRATCH_REGISTER0) && Leaves(w.Value(), h0, g)
    ensures w.Value() == Unlock(Emit(Modify(old(w.Value()), SCRATCH_REGISTER0), Fill(s, slot)), SCRATCH_REGISTER0)
  {
    ghost var c := w.Value();
    s := Claim(w, SCRATCH_REGISTER0, 0, 0, h0, g);
    FillClaimed(w, s, slot, c, h0, g);
  }

  /** Fills a scratch register just claimed and unlocks it. */
  method FillClaimed(w: Window, s: nat, slot: Slot, ghost c: Cache, ghost h0: Host, ghost g: File)
    requires Leaves(c, h0, g) && ClaimedIn(c, w.Value(), s, SCRATCH_REGISTER0, h0, g)
    modifies w, w.entries
    ensures w.Value() == Unlock(Emit(old(w.Value()), Fill(s, slot)), SCRATCH_REGISTER0) && Leaves(w.Value(), h0, g)
  {
    FillScratch(c, w.Value(), s, slot, h0, g);
    ClaimedHolder(c, w.Value(), s, SCRATCH_REGISTER0, h0, g);
    w.code := w.code + [Fill(s, slot)];
    w.UnlockMipsRegister(SCRATCH_REGISTER0);
  }

  /** The start of `jit_handle_latent_delay_slot`. */
  method JitHoldCondition(w: Window, ghost h0: Host, ghost g: File) returns (i: nat)
    requires Leaves(w.Value(), h0, g) && CondSmall(g)
    modifies w, w.entries
    ensures w.Value() == HoldCondition(old(w.Value())) && i == ConditionIndex(old(w.Value())) && Flushed(w.Value(), h0, g)
  {
    i := LoadFirst(w, COND_BRANCH_TAKEN, Any, h0, g);
    ReleaseLoaded(w.Value(), w.entries.Length, i, h0, g);
    UnlockOnly(w, COND_BRANCH_TAKEN, i, h0, g);
    FlushAll(w, h0, g);
  }

  /** The start of `jit_end_of_block`, from a flushed window; the condition is only taken for a conditional branch. */
  method JitHoldForEnd(w: Window, conditional: bool, ghost h0: Host, ghost g: File) returns (i: nat, s: nat)
    requires Flushed(w.Value(), h0, g) && CondSmall(g)
    modifies w, w.entries
    ensures conditional ==> w.Value() == HoldForEnd(old(w.Value()))
    ensures conditional ==> i == ConditionIndex(old(w.Value())) && s == EndScratchIndex(old(w.Value()))
    ensures !conditional ==> s == Index(old(w.Value()), SCRATCH_REGISTER0)
    ensures !conditional ==>
              w.Value() == FlushRegisterWindow(Unlock(Modify(old(w.Value()), SCRATCH_REGISTER0), SCRATCH_REGISTER0))
    ensures Flushed(w.Value(), h0, g)
  {
    i := 0;
    if conditional {
      i := LoadFirst(w, COND_BRANCH_TAKEN, Any, h0, g);
      ReleaseLoaded(w.Value(), w.entries.Length, i, h0, g);
      UnlockOnly(w, COND_BRANCH_TAKEN, i, h0, g);
    }
    s := JitScratchOnly(w, h0, g);
  }

  method JitScratchOnly(w: Window, ghost h0: Host, ghost g: File) returns (s: nat)
    requires Leaves(w.Value(), h0, g)
    modifies w, w.entries
    ensures s == Index(old(w.Value()), SCRATCH_REGISTER0) && Flushed(w.Value(), h0, g)
    ensures w.Value() == FlushRegisterWindow(Unlock(Modify(old(w.Value()), SCRATCH_REGISTER0), SCRATCH_REGISTER0))
  {
    ghost var c := w.Value();
    s := Claim(w, SCRATCH_REGISTER0, 0, 0, h0, g);
    ReleaseScratch(c, w.Value(), s, h0, g);
    ClaimedHolder(c, w.Value(), s, SCRATCH_REGISTER0, h0, g);
    w.UnlockMipsRegister(SCRATCH_REGISTER0);
    FlushAll(w, h0, g);
  }
}
