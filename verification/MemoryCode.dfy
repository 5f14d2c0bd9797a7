/**
  Loads and stores through the register cache (rsp_jit.cpp,
  `jit_emit_load_operation` and `jit_emit_store_operation`), and straight code
  that mixes them with the arithmetic of `ScalarCode`.

  An access that is not a multiple of its width is a call, which loses the
  caller-saved registers: the compiler flushes those first, and drops its locks
  before it flushes.
 */
module MemoryCode {
  import opened Arithmetic
  import opened HostWords
  import opened RegisterCache
  import opened ScalarCode
  import HostBytes
  import opened ScalarMemory

  // ---------------------------------------------------------------- host registers outside the register file

  /** A register that no part of the register file lives in can be overwritten. */
  lemma ScratchWrite(es: seq<Entry>, h: Host, g: File, i: nat, x: Host64)
    requires Represents(es, h, g) && i < |es| && (!es[i].live || es[i].mips > 32)
    ensures Represents(es, Put(h, i, x), g)
  {
  }

  /** A call may lose the registers below `n` once nothing lives in them. */
  lemma ClobberKeeps(es: seq<Entry>, h: Host, g: File, n: nat)
    requires Represents(es, h, g) && forall k :: 0 <= k < |es| && k < n ==> !es[k].live
    ensures Represents(es, h.(regs := Clobbered(h.regs, h.junk, n)), g)
  {
  }

  /** Neither DMEM nor the branch state has changed. */
  predicate Undisturbed(h: Host, k: Host) { k.dmem == h.dmem && k.control == h.control && k.junk == h.junk }

  /** The two states differ at most in the `sr` array. */
  predicate SameRegs(h: Host, k: Host) { k.regs == h.regs && Undisturbed(h, k) }

  /** Flushing changes neither host registers nor DMEM. */
  lemma {:induction false} FlushKeepsRegs(es: seq<Entry>, which: nat -> bool, n: nat, h: Host)
    requires n <= |es|
    ensures SameRegs(h, Run(FlushOps(es, which, n), h))
  {
    if n == 0 {
      assert FlushOps(es, which, n) == [];
    } else {
      FlushKeepsRegs(es, which, n - 1, h);
      FlushOneKeepsRegs(FlushOps(es, which, n), FlushOps(es, which, n - 1), es[n - 1], n - 1, which(n - 1), h);
    }
  }

  lemma FlushOneKeepsRegs(all: seq<HostOp>, code: seq<HostOp>, e: Entry, i: nat, selected: bool, h: Host)
    requires all == code + (if selected then Writeback(e, i) else []) && SameRegs(h, Run(code, h))
    ensures SameRegs(h, Run(all, h))
  {
    RunAppend(code, if selected then Writeback(e, i) else [], h);
    WritebackKeepsRegs(e, i, Run(code, h));
  }

  lemma WritebackKeepsRegs(e: Entry, i: nat, h: Host)
    ensures SameRegs(h, Run(Writeback(e, i), h)) && Run([], h) == h
  {
    RunOne(Store(i, e.mips), h);
  }

  // ---------------------------------------------------------------- the address

  /** `addi` and `andi` into a scratch register. */
  function AddressInto(c: Cache, i: nat, offset: Guest): Cache {
    var s := Index(c, SCRATCH_REGISTER0);
    Emit(Emit(Modify(c, SCRATCH_REGISTER0), Compute(Add, s, i, Immediate(SignExtend(offset)))),
         Compute(Bits(BitAnd), s, s, Immediate(0xfff)))
  }

  lemma MaskedSum(x: Host64, v: Guest, offset: Guest)
    requires Low(x) == v
    ensures Result(Bits(BitAnd), Result(Add, x, SignExtend(offset)), 0xfff) == (v + offset) % 4096
  {
    MaskTwelve(Result(Add, x, SignExtend(offset)));
    AddressExact(x, v, offset);
  }

  /** A second computation into a scratch register just written. */
  lemma MaskStep(c: Cache, d: Cache, s: nat, h0: Host, g: File)
    requires Rep(d, h0, g) && Locked(c, d, h0, s, SCRATCH_REGISTER0) && d.entries[s].modified && d.entries[s].sign == Unknown
    ensures var e := Emit(d, Compute(Bits(BitAnd), s, s, Immediate(0xfff)));
            && Rep(e, h0, g) && Locked(c, e, h0, s, SCRATCH_REGISTER0)
            && HostAt(e, h0).regs[s] == Result(Bits(BitAnd), HostAt(d, h0).regs[s], 0xfff)
            && Undisturbed(HostAt(d, h0), HostAt(e, h0))
  {
    WriteStep(d, s, Compute(Bits(BitAnd), s, s, Immediate(0xfff)), Result(Bits(BitAnd), HostAt(d, h0).regs[s], 0xfff), h0, g);
  }

  lemma {:induction false} QuietRun(code: seq<HostOp>, h: Host)
    requires forall k :: 0 <= k < |code| ==> Quiet(code[k])
    ensures Undisturbed(h, Run(code, h))
    decreases |code|
  {
    if |code| > 0 {
      QuietRun(code[..|code| - 1], h);
      QuietExec(code[|code| - 1], Run(code[..|code| - 1], h));
    }
  }

  predicate Quiet(op: HostOp) { !op.StoreMem? && !op.Spill? && !op.Transfer? }

  lemma QuietExec(op: HostOp, h: Host)
    requires Quiet(op)
    ensures Undisturbed(h, Exec(op, h))
  {
  }

  lemma ModifyMemory(c: Cache, m: nat, h0: Host)
    ensures Undisturbed(HostAt(c, h0), HostAt(Modify(c, m), h0))
  {
    if FindRegister(c.entries, m) < |c.entries| {
      RunAppend(c.code, ModifyOps(c.entries, m), h0);
      QuietRun(ModifyOps(c.entries, m), HostAt(c, h0));
    }
  }

  /** `d` is `c` with `m` claimed for writing in entry `i`; no host register has changed yet. */
  predicate ClaimedIn(c: Cache, d: Cache, i: nat, m: nat, h0: Host, g: File) {
    && Locked(c, d, h0, i, m) && SameRegs(HostAt(c, h0), HostAt(d, h0))
    && d.entries[i].modified && d.entries[i].sign == Unknown
    && Rep(d, h0, WithReg(g, m, Low(Reg(HostAt(c, h0), i))))
  }

  lemma ClaimStep(c: Cache, d: Cache, i: nat, m: nat, h0: Host, g: File, a: nat, b: nat)
    requires Rep(c, h0, g) && 0 < m <= SCRATCH_REGISTER1 && |c.entries| >= 3 && LockedOnly(c.entries, a, b)
    requires d == Modify(c, m) && i == Index(c, m)
    ensures ClaimedIn(c, d, i, m, h0, g)
  {
    ModifyStep(c, m, h0, g, a, b);
    ModifyMemory(c, m, h0);
  }

  lemma LoadOpsQuiet(es: seq<Entry>, m: nat, want: Want)
    requires FindRegister(es, m) < |es|
    ensures forall k :: 0 <= k < |LoadOps(es, m, want)| ==> Quiet(LoadOps(es, m, want)[k])
  {
  }

  lemma LoadMemory(c: Cache, m: nat, want: Want, h0: Host)
    ensures Undisturbed(HostAt(c, h0), HostAt(Load(c, m, want), h0))
  {
    if FindRegister(c.entries, m) < |c.entries| {
      var ops := LoadOps(c.entries, m, want);
      LoadOpsQuiet(c.entries, m, want);
      QuietRun(ops, HostAt(c, h0));
      RunAppend(c.code, ops, h0);
      assert Load(c, m, want).code == c.code + ops;
    }
  }

  lemma EmitMemory(c: Cache, op: HostOp, h0: Host)
    requires Quiet(op)
    ensures Undisturbed(HostAt(c, h0), HostAt(Emit(c, op), h0))
  {
    EmitRep(c, op, h0);
  }

  /** The address `a` is in the newly locked scratch register `s`. */
  predicate AddressDone(c: Cache, d: Cache, s: nat, a: nat, h0: Host, g: File) {
    && Rep(d, h0, g) && Locked(c, d, h0, s, SCRATCH_REGISTER0)
    && HostAt(d, h0).regs[s] == a && Undisturbed(HostAt(c, h0), HostAt(d, h0))
  }

  lemma AddressStep(c: Cache, a: nat, b: nat, i: nat, v: Guest, offset: Guest, h0: Host, g: File)
    requires Rep(c, h0, g) && |c.entries| >= 3 && LockedOnly(c.entries, a, b) && Low(Reg(HostAt(c, h0), i)) == v
    ensures AddressDone(c, AddressInto(c, i, offset), Index(c, SCRATCH_REGISTER0), (v + offset) % 4096, h0, g)
  {
    var s, c1 := Index(c, SCRATCH_REGISTER0), Modify(c, SCRATCH_REGISTER0);
    ModifyStep(c, SCRATCH_REGISTER0, h0, g, a, b);
    WriteInto(c, c1, s, SCRATCH_REGISTER0, Add, i, Immediate(SignExtend(offset)), h0, g);
    var c2 := Emit(c1, Compute(Add, s, i, Immediate(SignExtend(offset))));
    ModifyMemory(c, SCRATCH_REGISTER0, h0);
    EmitMemory(c1, Compute(Add, s, i, Immediate(SignExtend(offset))), h0);
    MaskStep(c, c2, s, h0, g);
    MaskedSum(Reg(HostAt(c, h0), i), v, offset);
  }

  // ---------------------------------------------------------------- unlocking and flushing before the access

  /** `flush_caller_save_registers`. */
  function FlushCallerSave(c: Cache, callerSave: nat): Cache { Flush(c, Between(0, callerSave)) }

  lemma FlushStep(c: Cache, callerSave: nat, h0: Host, g: File)
    requires Leaves(c, h0, g)
    ensures var d := FlushCallerSave(c, callerSave);
            && Leaves(d, h0, g) && |d.entries| == |c.entries|
            && HostAt(d, h0).regs == HostAt(c, h0).regs && Undisturbed(HostAt(c, h0), HostAt(d, h0))
            && (forall k :: 0 <= k < |d.entries| && k < callerSave ==> !d.entries[k].live)
            && (forall k :: 0 <= k < |d.entries| ==> d.entries[k] == EMPTY || d.entries[k] == c.entries[k])
  {
    FlushRep(c, Between(0, callerSave), h0, g);
    RunAppend(c.code, FlushOps(c.entries, Between(0, callerSave), |c.entries|), h0);
    FlushKeepsRegs(c.entries, Between(0, callerSave), |c.entries|, HostAt(c, h0));
  }

  function UnlockThree(c: Cache, m1: nat, m2: nat, m3: nat): Cache { Unlock(Unlock(Unlock(c, m1), m2), m3) }

  /** Entries keep what they hold when they are unlocked. */
  predicate SameHolders(c: Cache, d: Cache) {
    |c.entries| == |d.entries| && c.code == d.code
    && forall k :: 0 <= k < |c.entries| ==> c.entries[k].live == d.entries[k].live && c.entries[k].mips == d.entries[k].mips
  }

  lemma UnlockHolders(c: Cache, m: nat)
    ensures SameHolders(c, Unlock(c, m))
  {
  }

  lemma UnlockThreeStep(c: Cache, n: nat, i: nat, m1: nat, j: nat, m2: nat, k: nat, m3: nat, h0: Host, g: File)
    requires ThreeLocked(c, n, i, m1, j, m2, k, m3, h0, g) && n >= 3
    ensures var d := UnlockThree(c, m1, m2, m3); Leaves(d, h0, g) && SameHolders(c, d)
  {
    ReleaseThree(c, m1, i, m2, j, m3, k, h0, g);
    UnlockHolders(c, m1);
    UnlockHolders(Unlock(c, m1), m2);
    UnlockHolders(Unlock(Unlock(c, m1), m2), m3);
  }

  /** `d` is `c` without locks and without anything in the caller-saved registers, and the host registers still hold what they did. */
  predicate ReadyToCall(c: Cache, d: Cache, n: nat, callerSave: nat, h0: Host, g: File) {
    && Leaves(d, h0, g) && |d.entries| == n == |c.entries| && SameRegs(HostAt(c, h0), HostAt(d, h0))
    && (forall l :: 0 <= l < n && l < callerSave ==> !d.entries[l].live)
    && (forall l :: 0 <= l < n && d.entries[l].live ==> c.entries[l].live && d.entries[l].mips == c.entries[l].mips)
  }

  lemma FlushReady(c: Cache, u: Cache, n: nat, callerSave: nat, h0: Host, g: File)
    requires Leaves(u, h0, g) && SameHolders(c, u) && |c.entries| == n
    ensures ReadyToCall(c, FlushCallerSave(u, callerSave), n, callerSave, h0, g)
  {
    FlushStep(u, callerSave, h0, g);
  }

  /** The locks are dropped and the caller-saved registers flushed before an access that may be a call. */
  lemma ReleaseAndFlush(c: Cache, n: nat, i: nat, m1: nat, j: nat, m2: nat, k: nat, m3: nat, callerSave: nat, h0: Host, g: File)
    requires ThreeLocked(c, n, i, m1, j, m2, k, m3, h0, g) && n >= 3
    ensures ReadyToCall(c, FlushCallerSave(UnlockThree(c, m1, m2, m3), callerSave), n, callerSave, h0, g)
  {
    UnlockThreeStep(c, n, i, m1, j, m2, k, m3, h0, g);
    FlushReady(c, UnlockThree(c, m1, m2, m3), n, callerSave, h0, g);
  }

  // ---------------------------------------------------------------- the access itself

  lemma AccessKeeps(es: seq<Entry>, h: Host, g: File, a: nat, n: nat, callerSave: nat)
    requires Represents(es, h, g) && n > 0 && (n == 1 || forall l :: 0 <= l < |es| && l < callerSave ==> !es[l].live)
    ensures Represents(es, AfterAccess(h, a, n, callerSave), g)
  {
    if a % n != 0 { ClobberKeeps(es, h, g, callerSave); }
  }

  /** A load into a register that nothing of the register file lives in. */
  lemma LoadAccess(c: Cache, r: nat, s: nat, n: nat, signed: bool, callerSave: nat, h0: Host, g: File)
    requires Rep(c, h0, g) && r < |c.entries| && Width(n) && (!c.entries[r].live || c.entries[r].mips > 32)
    requires n == 1 || forall l :: 0 <= l < |c.entries| && l < callerSave ==> !c.entries[l].live
    ensures var d := Emit(c, LoadMem(r, s, n, signed, callerSave));
            && Rep(d, h0, g) && Reg(HostAt(d, h0), r) == LoadResult(HostAt(c, h0), s, n, signed)
            && Undisturbed(HostAt(c, h0), HostAt(d, h0))
  {
    var h := HostAt(c, h0);
    EmitRep(c, LoadMem(r, s, n, signed, callerSave), h0);
    AccessKeeps(c.entries, h, g, Address(h, s), n, callerSave);
    ScratchWrite(c.entries, AfterAccess(h, Address(h, s), n, callerSave), g, r, LoadResult(h, s, n, signed));
  }

  lemma StoreAccess(c: Cache, r: nat, s: nat, n: nat, callerSave: nat, h0: Host, g: File)
    requires Rep(c, h0, g) && Width(n)
    requires n == 1 || forall l :: 0 <= l < |c.entries| && l < callerSave ==> !c.entries[l].live
    ensures var d, h := Emit(c, StoreMem(r, s, n, callerSave)), HostAt(c, h0);
            && Rep(d, h0, g) && HostAt(d, h0).dmem == HostStore(h.dmem, Address(h, s), n, Reg(h, r))
            && HostAt(d, h0).control == h.control && HostAt(d, h0).junk == h.junk
  {
    var h := HostAt(c, h0);
    EmitRep(c, StoreMem(r, s, n, callerSave), h0);
    AccessKeeps(c.entries, h, g, Address(h, s), n, callerSave);
  }

  // ---------------------------------------------------------------- loads

  /** The MIPS machine seen by straight code: the register file, and DMEM in program order. */
  datatype ScalarState = ScalarState(g: File, m: HostBytes.Dmem)

  /** The code emitted so far leaves exactly this machine, and no lock is held. */
  predicate LeavesState(c: Cache, h0: Host, s: ScalarState) {
    Leaves(c, h0, s.g) && HostBytes.MemView(HostAt(c, h0).dmem) == s.m && HostAt(c, h0).control == h0.control
  }

  /** The 32-bit extension of a value of `n` bytes. */
  function Extend32(v: nat, n: nat, signed: bool): Guest
    requires Width(n) && v < Pow256(n)
  {
    WidthPowers(n);
    if signed && 2 * v >= Pow256(n) then v + (TWO_32 - Pow256(n)) else v
  }

  /** The 32-bit register value of a load. */
  function LoadedValue(m: HostBytes.Dmem, a: nat, n: nat, signed: bool): Guest
    requires Width(n)
  {
    ReadBound(m, a, n);
    Extend32(ReadBig(m, a, n), n, signed)
  }

  lemma LowOfExtended(v: nat, n: nat, signed: bool)
    requires Width(n) && v < Pow256(n)
    ensures Low(Extended(v, n, signed)) == Extend32(v, n, signed)
  {
    WidthPowers(n);
    if signed && 2 * v >= Pow256(n) { Arithmetic.ModShift(v + (TWO_32 - Pow256(n)), TWO_32, 0xffff_ffff); }
  }

  lemma LoadResultExact(h: Host, s: nat, n: nat, signed: bool, a: nat)
    requires Width(n) && Reg(h, s) == a < 4096
    ensures Low(LoadResult(h, s, n, signed)) == LoadedValue(HostBytes.MemView(h.dmem), a, n, signed)
  {
    assert Address(h, s) == a;
    LoadExact(h.dmem, a, n);
    LowOfExtended(HostLoad(h.dmem, a, n), n, signed);
  }

  /** Up to the access: address in one scratch register, the other claimed for the result. */
  function LoadPrepared(c: Cache, rs: nat, offset: Guest): Cache {
    Modify(AddressInto(Load(c, rs, Any), Index(c, rs), offset), SCRATCH_REGISTER1)
  }

  function LoadScratch0(c: Cache, rs: nat): nat { Index(Load(c, rs, Any), SCRATCH_REGISTER0) }

  function LoadScratch1(c: Cache, rs: nat, offset: Guest): nat {
    Index(AddressInto(Load(c, rs, Any), Index(c, rs), offset), SCRATCH_REGISTER1)
  }

  /** The access with its locks dropped, before the flush if it may be a call. */
  function Accessed(c: Cache, m1: nat, m2: nat, m3: nat, op: HostOp, n: nat, callerSave: nat): Cache {
    if n == 1 then UnlockThree(Emit(c, op), m1, m2, m3)
    else Emit(FlushCallerSave(UnlockThree(c, m1, m2, m3), callerSave), op)
  }

  /** The result moved to its register. */
  function MoveInto(c: Cache, rt: nat, r: nat): Cache { Unlock(Emit(Modify(c, rt), Move(Index(c, rt), r)), rt) }

  function EmitLoad(c: Cache, rt: nat, rs: nat, offset: Guest, n: nat, signed: bool, callerSave: nat): Cache {
    var r := LoadScratch1(c, rs, offset);
    var d := Accessed(LoadPrepared(c, rs, offset), rs, SCRATCH_REGISTER0, SCRATCH_REGISTER1,
                      LoadMem(r, LoadScratch0(c, rs), n, signed, callerSave), n, callerSave);
    MoveInto(d, rt, r)
  }

  /** Claiming the second scratch register when the first two registers are locked. */
  lemma ClaimScratch1(c: Cache, n: nat, i: nat, rs: nat, s: nat, a: nat, h0: Host, g: File)
    requires TwoLocked(c, n, i, rs, s, a, h0, g) && n >= 3 && rs < 32
    ensures var d, r := Modify(c, SCRATCH_REGISTER1), Index(c, SCRATCH_REGISTER1);
            && ThreeLocked(d, n, i, rs, s, SCRATCH_REGISTER0, r, SCRATCH_REGISTER1, h0, g)
            && HostAt(d, h0).regs == HostAt(c, h0).regs && Undisturbed(HostAt(c, h0), HostAt(d, h0))
  {
    ModifyStep(c, SCRATCH_REGISTER1, h0, g, i, s);
    ModifyMemory(c, SCRATCH_REGISTER1, h0);
  }

  /** The base register and the address are locked. */
  predicate TwoLocked(d: Cache, n: nat, i: nat, rs: nat, s: nat, a: nat, h0: Host, g: File) {
    && Rep(d, h0, g) && |d.entries| == n && At(d.entries, i, rs) && At(d.entries, s, SCRATCH_REGISTER0)
    && (forall l :: 0 <= l < n ==> d.entries[l].locks == One(l == i) + One(l == s))
    && Reg(HostAt(d, h0), s) == a
  }

  lemma SecondLock(c: Cache, d: Cache, n: nat, i: nat, rs: nat, s: nat, a: nat, h0: Host, g: File)
    requires rs < 32 && OneLoaded(c, n, i, rs, Any, h0, g) && AddressDone(c, d, s, a, h0, g)
    ensures TwoLocked(d, n, i, rs, s, a, h0, g) && Undisturbed(HostAt(c, h0), HostAt(d, h0))
  {
  }

  lemma OneLock(c: Cache, n: nat, i: nat, rs: nat, h0: Host, g: File)
    requires rs < 32 && OneLoaded(c, n, i, rs, Any, h0, g)
    ensures Rep(c, h0, g) && LockedOnly(c.entries, i, i) && Low(Reg(HostAt(c, h0), i)) == g[rs]
  {
  }

  /** The address is computed while the base register is locked. */
  lemma AddressLocked(c: Cache, d: Cache, n: nat, i: nat, rs: nat, s: nat, a: nat, offset: Guest, h0: Host, g: File)
    requires rs < 32 && OneLoaded(c, n, i, rs, Any, h0, g) && n >= 3
    requires d == AddressInto(c, i, offset) && s == Index(c, SCRATCH_REGISTER0) && a == (g[rs] + offset) % 4096
    ensures TwoLocked(d, n, i, rs, s, a, h0, g) && Undisturbed(HostAt(c, h0), HostAt(d, h0))
  {
    OneLock(c, n, i, rs, h0, g);
    AddressIs(c, d, i, s, a, g[rs], offset, h0, g);
    SecondLock(c, d, n, i, rs, s, a, h0, g);
  }

  lemma AddressIs(c: Cache, d: Cache, i: nat, s: nat, a: nat, v: Guest, offset: Guest, h0: Host, g: File)
    requires Rep(c, h0, g) && |c.entries| >= 3 && LockedOnly(c.entries, i, i) && Low(Reg(HostAt(c, h0), i)) == v
    requires d == AddressInto(c, i, offset) && s == Index(c, SCRATCH_REGISTER0) && a == (v + offset) % 4096
    ensures AddressDone(c, d, s, a, h0, g)
  {
    AddressStep(c, i, i, i, v, offset, h0, g);
  }

  lemma LoadPreparedCorrect(c: Cache, rs: nat, offset: Guest, h0: Host, g: File)
    requires Leaves(c, h0, g) && rs < 32
    ensures var d, s := LoadPrepared(c, rs, offset), LoadScratch0(c, rs);
            && ThreeLocked(d, |c.entries|, Index(c, rs), rs, s, SCRATCH_REGISTER0,
                           LoadScratch1(c, rs, offset), SCRATCH_REGISTER1, h0, g)
            && Reg(HostAt(d, h0), s) == (g[rs] + offset) % 4096 && Undisturbed(HostAt(c, h0), HostAt(d, h0))
  {
    LoadOne(c, Any, rs, h0, g);
    LoadMemory(c, rs, Any, h0);
    var c1 := Load(c, rs, Any);
    var c2, s, a := AddressInto(c1, Index(c, rs), offset), LoadScratch0(c, rs), (g[rs] + offset) % 4096;
    AddressLocked(c1, c2, |c.entries|, Index(c, rs), rs, s, a, offset, h0, g);
    ClaimScratch1(c2, |c.entries|, Index(c, rs), rs, s, a, h0, g);
  }

  /** The state between the access and the move: the value is in host register `r`. */
  predicate ValueIn(c: Cache, r: nat, v: Guest, h0: Host, g: File) {
    Leaves(c, h0, g) && r < |c.entries| && Low(Reg(HostAt(c, h0), r)) == v
  }

  lemma LoadByteAccessed(c: Cache, k: nat, i: nat, rs: nat, s: nat, r: nat, signed: bool, callerSave: nat, h0: Host, g: File)
    requires ThreeLocked(c, k, i, rs, s, SCRATCH_REGISTER0, r, SCRATCH_REGISTER1, h0, g) && k >= 3 && rs < 32
    ensures var d := UnlockThree(Emit(c, LoadMem(r, s, 1, signed, callerSave)), rs, SCRATCH_REGISTER0, SCRATCH_REGISTER1);
            && Leaves(d, h0, g) && |d.entries| == k && Reg(HostAt(d, h0), r) == LoadResult(HostAt(c, h0), s, 1, signed)
            && Undisturbed(HostAt(c, h0), HostAt(d, h0))
  {
    LoadAccess(c, r, s, 1, signed, callerSave, h0, g);
    UnlockThreeStep(Emit(c, LoadMem(r, s, 1, signed, callerSave)), k, i, rs, s, SCRATCH_REGISTER0, r, SCRATCH_REGISTER1, h0, g);
  }

  lemma LoadWideAccessed(c: Cache, k: nat, i: nat, rs: nat, s: nat, r: nat, n: nat, signed: bool, callerSave: nat, h0: Host, g: File)
    requires ThreeLocked(c, k, i, rs, s, SCRATCH_REGISTER0, r, SCRATCH_REGISTER1, h0, g) && k >= 3 && Width(n) && rs < 32
    ensures var f := FlushCallerSave(UnlockThree(c, rs, SCRATCH_REGISTER0, SCRATCH_REGISTER1), callerSave);
            var d := Emit(f, LoadMem(r, s, n, signed, callerSave));
            && Leaves(d, h0, g) && |d.entries| == k && Reg(HostAt(d, h0), r) == LoadResult(HostAt(c, h0), s, n, signed)
            && Undisturbed(HostAt(c, h0), HostAt(d, h0))
  {
    ReleaseAndFlush(c, k, i, rs, s, SCRATCH_REGISTER0, r, SCRATCH_REGISTER1, callerSave, h0, g);
    var f := FlushCallerSave(UnlockThree(c, rs, SCRATCH_REGISTER0, SCRATCH_REGISTER1), callerSave);
    LoadAccess(f, r, s, n, signed, callerSave, h0, g);
    SameLoad(HostAt(c, h0), HostAt(f, h0), s, n, signed);
  }

  lemma SameLoad(h: Host, k: Host, s: nat, n: nat, signed: bool)
    requires SameRegs(h, k) && Width(n)
    ensures LoadResult(h, s, n, signed) == LoadResult(k, s, n, signed)
  {
  }

  lemma LoadAccessed(c: Cache, k: nat, i: nat, rs: nat, s: nat, r: nat, n: nat, signed: bool, callerSave: nat, a: nat, h0: Host, g: File)
    requires ThreeLocked(c, k, i, rs, s, SCRATCH_REGISTER0, r, SCRATCH_REGISTER1, h0, g) && k >= 3 && Width(n) && rs < 32
    requires Reg(HostAt(c, h0), s) == a < 4096
    ensures var d := Accessed(c, rs, SCRATCH_REGISTER0, SCRATCH_REGISTER1, LoadMem(r, s, n, signed, callerSave), n, callerSave);
            && ValueIn(d, r, LoadedValue(HostBytes.MemView(HostAt(c, h0).dmem), a, n, signed), h0, g)
            && Undisturbed(HostAt(c, h0), HostAt(d, h0))
  {
    LoadResultExact(HostAt(c, h0), s, n, signed, a);
    if n == 1 {
      LoadByteAccessed(c, k, i, rs, s, r, signed, callerSave, h0, g);
    } else {
      LoadWideAccessed(c, k, i, rs, s, r, n, signed, callerSave, h0, g);
    }
  }

  lemma MoveCorrect(c: Cache, rt: nat, r: nat, v: Guest, h0: Host, g: File)
    requires ValueIn(c, r, v, h0, g) && 0 < rt < 32
    ensures Leaves(MoveInto(c, rt, r), h0, WithReg(g, rt, v)) && Undisturbed(HostAt(c, h0), HostAt(MoveInto(c, rt, r), h0))
  {
    var k, c1, h := Index(c, rt), Modify(c, rt), HostAt(c, h0);
    ModifyStep(c, rt, h0, g, 0, 0);
    ModifyMemory(c, rt, h0);
    var g1 := WithReg(g, rt, Low(h.regs[k]));
    MoveWrite(c1, k, rt, r, v, h0, g1);
    assert WithReg(g1, rt, v) == WithReg(g, rt, v);
    ReleaseOne(c, Emit(c1, Move(k, r)), k, rt, h0, WithReg(g, rt, v));
  }

  lemma MoveWrite(c: Cache, k: nat, rt: nat, r: nat, v: Guest, h0: Host, g: File)
    requires Rep(c, h0, g) && At(c.entries, k, rt) && c.entries[k].modified && c.entries[k].sign == Unknown
    requires c.entries[k].locks > 0 && 0 < rt < 32 && Low(Reg(HostAt(c, h0), r)) == v
    ensures var d := Emit(c, Move(k, r));
            Rep(d, h0, WithReg(g, rt, v)) && Undisturbed(HostAt(c, h0), HostAt(d, h0))
  {
    WriteStep(c, k, Move(k, r), Reg(HostAt(c, h0), r), h0, g);
  }

  lemma LoadCorrect(c: Cache, rt: nat, rs: nat, offset: Guest, n: nat, signed: bool, callerSave: nat, h0: Host, s: ScalarState)
    requires LeavesState(c, h0, s) && 0 < rt < 32 && rs < 32 && Width(n)
    ensures LeavesState(EmitLoad(c, rt, rs, offset, n, signed, callerSave), h0,
                          s.(g := WithReg(s.g, rt, LoadedValue(s.m, (s.g[rs] + offset) % 4096, n, signed))))
  {
    LoadPreparedCorrect(c, rs, offset, h0, s.g);
    var d, s0, r, a := LoadPrepared(c, rs, offset), LoadScratch0(c, rs), LoadScratch1(c, rs, offset), (s.g[rs] + offset) % 4096;
    LoadAccessed(d, |c.entries|, Index(c, rs), rs, s0, r, n, signed, callerSave, a, h0, s.g);
    MoveCorrect(Accessed(d, rs, SCRATCH_REGISTER0, SCRATCH_REGISTER1, LoadMem(r, s0, n, signed, callerSave), n, callerSave),
                rt, r, LoadedValue(s.m, a, n, signed), h0, s.g);
  }

  // ---------------------------------------------------------------- stores

  function StorePrepared(c: Cache, rt: nat, rs: nat, offset: Guest): Cache {
    var c1 := Load(c, rt, Any);
    AddressInto(Load(c1, rs, Any), Index(c1, rs), offset)
  }

  function StoreScratch0(c: Cache, rt: nat, rs: nat): nat { Index(Load(Load(c, rt, Any), rs, Any), SCRATCH_REGISTER0) }

  function EmitStore(c: Cache, rt: nat, rs: nat, offset: Guest, n: nat, callerSave: nat): Cache {
    Accessed(StorePrepared(c, rt, rs, offset), rt, rs, SCRATCH_REGISTER0,
             StoreMem(Index(c, rt), StoreScratch0(c, rt, rs), n, callerSave), n, callerSave)
  }

  /** The address is computed while both registers are locked; the value to store stays where it is. */
  lemma StoreAddress(c: Cache, d: Cache, n: nat, i: nat, rt: nat, j: nat, rs: nat, s: nat, a: nat, offset: Guest, h0: Host, g: File)
    requires rt < 32 && rs < 32 && BothLoaded(c, n, i, rt, Any, j, rs, Any, h0, g) && n >= 3
    requires d == AddressInto(c, j, offset) && s == Index(c, SCRATCH_REGISTER0) && a == (g[rs] + offset) % 4096
    ensures ThreeLocked(d, n, i, rt, j, rs, s, SCRATCH_REGISTER0, h0, g)
    ensures Reg(HostAt(d, h0), s) == a && Low(Reg(HostAt(d, h0), i)) == g[rt] && Undisturbed(HostAt(c, h0), HostAt(d, h0))
  {
    TwoLocks(c, n, i, rt, j, rs, h0, g);
    AddressStep(c, i, j, j, g[rs], offset, h0, g);
    ThirdLock(c, d, n, i, rt, j, rs, s, a, h0, g);
  }

  lemma TwoLocks(c: Cache, n: nat, i: nat, rt: nat, j: nat, rs: nat, h0: Host, g: File)
    requires rt < 32 && rs < 32 && BothLoaded(c, n, i, rt, Any, j, rs, Any, h0, g)
    ensures Rep(c, h0, g) && LockedOnly(c.entries, i, j) && Low(Reg(HostAt(c, h0), j)) == g[rs]
  {
  }

  lemma ThirdLock(c: Cache, d: Cache, n: nat, i: nat, rt: nat, j: nat, rs: nat, s: nat, a: nat, h0: Host, g: File)
    requires rt < 32 && rs < 32 && BothLoaded(c, n, i, rt, Any, j, rs, Any, h0, g) && AddressDone(c, d, s, a, h0, g)
    ensures ThreeLocked(d, n, i, rt, j, rs, s, SCRATCH_REGISTER0, h0, g) && Reg(HostAt(d, h0), s) == a
    ensures Low(Reg(HostAt(d, h0), i)) == g[rt] && Undisturbed(HostAt(c, h0), HostAt(d, h0))
  {
  }

  lemma StorePreparedCorrect(c: Cache, rt: nat, rs: nat, offset: Guest, h0: Host, g: File)
    requires Leaves(c, h0, g) && rt < 32 && rs < 32
    ensures var d, i, s := StorePrepared(c, rt, rs, offset), Index(c, rt), StoreScratch0(c, rt, rs);
            && ThreeLocked(d, |c.entries|, i, rt, Index(Load(c, rt, Any), rs), rs, s, SCRATCH_REGISTER0, h0, g)
            && Reg(HostAt(d, h0), s) == (g[rs] + offset) % 4096 && Low(Reg(HostAt(d, h0), i)) == g[rt]
            && Undisturbed(HostAt(c, h0), HostAt(d, h0))
  {
    var c1 := Load(c, rt, Any);
    LoadTwo(c, Any, Any, rt, rs, h0, g);
    LoadMemory(c, rt, Any, h0);
    LoadMemory(c1, rs, Any, h0);
    StoreAddress(Load(c1, rs, Any), StorePrepared(c, rt, rs, offset), |c.entries|, Index(c, rt), rt, Index(c1, rs), rs,
                 StoreScratch0(c, rt, rs), (g[rs] + offset) % 4096, offset, h0, g);
  }

  lemma StoreByteAccessed(c: Cache, k: nat, i: nat, rt: nat, j: nat, rs: nat, s: nat, callerSave: nat, h0: Host, g: File)
    requires ThreeLocked(c, k, i, rt, j, rs, s, SCRATCH_REGISTER0, h0, g) && k >= 3
    ensures var d, h := UnlockThree(Emit(c, StoreMem(i, s, 1, callerSave)), rt, rs, SCRATCH_REGISTER0), HostAt(c, h0);
            && Leaves(d, h0, g) && HostAt(d, h0).dmem == HostStore(h.dmem, Address(h, s), 1, Reg(h, i))
            && HostAt(d, h0).control == h.control
  {
    StoreLocked(c, k, i, rt, j, rs, s, callerSave, h0, g);
    UnlockThreeStep(Emit(c, StoreMem(i, s, 1, callerSave)), k, i, rt, j, rs, s, SCRATCH_REGISTER0, h0, g);
  }

  /** A byte store with everything still locked. */
  lemma StoreLocked(c: Cache, k: nat, i: nat, rt: nat, j: nat, rs: nat, s: nat, callerSave: nat, h0: Host, g: File)
    requires ThreeLocked(c, k, i, rt, j, rs, s, SCRATCH_REGISTER0, h0, g)
    ensures var d, h := Emit(c, StoreMem(i, s, 1, callerSave)), HostAt(c, h0);
            && ThreeLocked(d, k, i, rt, j, rs, s, SCRATCH_REGISTER0, h0, g)
            && HostAt(d, h0).dmem == HostStore(h.dmem, Address(h, s), 1, Reg(h, i)) && HostAt(d, h0).control == h.control
  {
    var d := Emit(c, StoreMem(i, s, 1, callerSave));
    EmitRep(c, StoreMem(i, s, 1, callerSave), h0);
    ByteStore(i, s, callerSave, HostAt(c, h0));
    DmemIrrelevant(c.entries, HostAt(c, h0), HostAt(d, h0), g);
    assert forall l :: Exact(c, l, h0) ==> Exact(d, l, h0);
  }

  /** Every address is a multiple of one, so a byte store is never a call. */
  lemma ByteStore(r: nat, s: nat, callerSave: nat, h: Host)
    ensures Exec(StoreMem(r, s, 1, callerSave), h) == h.(dmem := HostStore(h.dmem, Address(h, s), 1, Reg(h, r)))
  {
    assert Address(h, s) % 1 == 0;
  }

  lemma DmemIrrelevant(es: seq<Entry>, h: Host, k: Host, g: File)
    requires Represents(es, h, g) && k == h.(dmem := k.dmem)
    ensures Represents(es, k, g)
  {
  }

  lemma StoreWideAccessed(c: Cache, k: nat, i: nat, rt: nat, j: nat, rs: nat, s: nat, n: nat, callerSave: nat, h0: Host, g: File)
    requires ThreeLocked(c, k, i, rt, j, rs, s, SCRATCH_REGISTER0, h0, g) && k >= 3 && Width(n)
    ensures var f, h := FlushCallerSave(UnlockThree(c, rt, rs, SCRATCH_REGISTER0), callerSave), HostAt(c, h0);
            var d := Emit(f, StoreMem(i, s, n, callerSave));
            && Leaves(d, h0, g) && HostAt(d, h0).dmem == HostStore(h.dmem, Address(h, s), n, Reg(h, i))
            && HostAt(d, h0).control == h.control
  {
    ReleaseAndFlush(c, k, i, rt, j, rs, s, SCRATCH_REGISTER0, callerSave, h0, g);
    var f := FlushCallerSave(UnlockThree(c, rt, rs, SCRATCH_REGISTER0), callerSave);
    StoreAccess(f, i, s, n, callerSave, h0, g);
    assert Address(HostAt(f, h0), s) == Address(HostAt(c, h0), s) && Reg(HostAt(f, h0), i) == Reg(HostAt(c, h0), i);
  }

  lemma StoreAccessed(c: Cache, k: nat, i: nat, rt: nat, j: nat, rs: nat, s: nat, n: nat, callerSave: nat, h0: Host, g: File)
    requires ThreeLocked(c, k, i, rt, j, rs, s, SCRATCH_REGISTER0, h0, g) && k >= 3 && Width(n)
    ensures var d, h := Accessed(c, rt, rs, SCRATCH_REGISTER0, StoreMem(i, s, n, callerSave), n, callerSave), HostAt(c, h0);
            && Leaves(d, h0, g) && HostAt(d, h0).dmem == HostStore(h.dmem, Address(h, s), n, Reg(h, i))
            && HostAt(d, h0).control == h.control
  {
    if n == 1 {
      StoreByteAccessed(c, k, i, rt, j, rs, s, callerSave, h0, g);
    } else {
      StoreWideAccessed(c, k, i, rt, j, rs, s, n, callerSave, h0, g);
    }
  }

  /** Only the low `n` bytes are stored, so what the upper half of the host register holds does not matter. */
  lemma {:induction false} StoresLowBytes(m: HostBytes.Dmem, a: nat, n: nat, v: nat, q: nat, k: nat)
    requires n <= k
    ensures WriteBig(m, a, n, v + q * Pow256(k)) == WriteBig(m, a, n, v)
  {
    if n > 0 {
      var p := Pow256(k - 1);
      assert q * Pow256(k) == 256 * (q * p);
      Arithmetic.MulNonNegative(q, p);
      SplitByte(v, q * p);
      StoresLowBytes(m, a, n - 1, v / 256, q, k - 1);
    }
  }

  lemma SplitByte(v: nat, r: nat)
    ensures (v + 256 * r) / 256 == v / 256 + r && (v + 256 * r) % 256 == v % 256
  {
  }

  lemma StoresLow(m: HostBytes.Dmem, a: nat, n: nat, x: Host64)
    requires Width(n)
    ensures WriteBig(m, a, n, x) == WriteBig(m, a, n, Low(x))
  {
    var k := 4;
    WidthPowers(k);
    Arithmetic.DivMod(x, TWO_32);
    StoresLowBytes(m, a, n, Low(x), x / TWO_32, k);
  }

  lemma StoreCorrect(c: Cache, rt: nat, rs: nat, offset: Guest, n: nat, callerSave: nat, h0: Host, s: ScalarState)
    requires LeavesState(c, h0, s) && rt < 32 && rs < 32 && Width(n)
    ensures LeavesState(EmitStore(c, rt, rs, offset, n, callerSave), h0,
                          s.(m := WriteBig(s.m, (s.g[rs] + offset) % 4096, n, s.g[rt])))
  {
    StorePreparedCorrect(c, rt, rs, offset, h0, s.g);
    var d, i, s0, a := StorePrepared(c, rt, rs, offset), Index(c, rt), StoreScratch0(c, rt, rs), (s.g[rs] + offset) % 4096;
    StoreAccessed(d, |c.entries|, i, rt, Index(Load(c, rt, Any), rs), rs, s0, n, callerSave, h0, s.g);
    StoreEffect(Accessed(d, rt, rs, SCRATCH_REGISTER0, StoreMem(i, s0, n, callerSave), n, callerSave),
                HostAt(d, h0), i, s0, n, a, s.g[rt], h0, s);
  }

  /** What the store has done, in program order. */
  lemma StoreEffect(e: Cache, h: Host, i: nat, s0: nat, n: nat, a: nat, v: Guest, h0: Host, s: ScalarState)
    requires Width(n) && Leaves(e, h0, s.g) && HostAt(e, h0).dmem == HostStore(h.dmem, Address(h, s0), n, Reg(h, i))
    requires HostAt(e, h0).control == h0.control
    requires Reg(h, s0) == a < 4096 && Low(Reg(h, i)) == v && HostBytes.MemView(h.dmem) == s.m
    ensures LeavesState(e, h0, s.(m := WriteBig(s.m, a, n, v)))
  {
    StoreEffectBytes(h, i, s0, n, a, v, s.m);
  }

  lemma StoreEffectBytes(h: Host, i: nat, s0: nat, n: nat, a: nat, v: Guest, m: HostBytes.Dmem)
    requires Width(n) && Reg(h, s0) == a < 4096 && Low(Reg(h, i)) == v && HostBytes.MemView(h.dmem) == m
    ensures HostBytes.MemView(HostStore(h.dmem, Address(h, s0), n, Reg(h, i))) == WriteBig(m, a, n, v)
  {
    assert Address(h, s0) == a;
    StoreExact(h.dmem, a, n, Reg(h, i));
    StoresLow(m, a, n, Reg(h, i));
  }

  // ---------------------------------------------------------------- straight code

  datatype Scalar =
    | Arithmetic(i: Instr)
    | LoadFrom(rt: nat, rs: nat, offset: Guest, n: nat, signed: bool)   // LB, LH, LW, LBU, LHU
    | StoreTo(rt: nat, rs: nat, offset: Guest, n: nat)                  // SB, SH, SW

  predicate LegalScalar(i: Scalar) {
    match i
    case Arithmetic(a) => Legal(a)
    case LoadFrom(rt, rs, _, n, _) => rt < 32 && rs < 32 && Width(n)
    case StoreTo(rt, rs, _, n) => rt < 32 && rs < 32 && Width(n)
  }

  /** Reference semantics. */
  function StepScalar(i: Scalar, s: ScalarState): ScalarState
    requires LegalScalar(i)
  {
    match i
    case Arithmetic(a) => s.(g := Step(a, s.g))
    case LoadFrom(rt, rs, offset, n, signed) =>
      s.(g := WithReg(s.g, rt, LoadedValue(s.m, (s.g[rs] + offset) % 4096, n, signed)))
    case StoreTo(rt, rs, offset, n) => s.(m := WriteBig(s.m, (s.g[rs] + offset) % 4096, n, s.g[rt]))
  }

  function CompileScalar(i: Scalar, c: Cache, callerSave: nat): Cache {
    match i
    case Arithmetic(a) => Compile(a, c)
    case LoadFrom(rt, rs, offset, n, signed) =>
      if rt == 0 then c else EmitLoad(c, rt, rs, offset, n, signed, callerSave)
    case StoreTo(rt, rs, offset, n) => EmitStore(c, rt, rs, offset, n, callerSave)
  }

  lemma WriteMemory(c: Cache, m: nat, op: HostOp, h0: Host)
    requires Quiet(op)
    ensures Undisturbed(HostAt(c, h0), HostAt(Emit(Modify(c, m), op), h0))
  {
    ModifyMemory(c, m, h0);
    EmitMemory(Modify(c, m), op, h0);
  }

  lemma PairMemory(c: Cache, op: Alu, want: Want, dest: nat, m1: nat, m2: nat, h0: Host)
    ensures Undisturbed(HostAt(c, h0), HostAt(ComputePair(c, op, want, dest, m1, m2), h0))
  {
    var c1 := Load(c, m1, want);
    var c2 := Load(c1, m2, want);
    LoadMemory(c, m1, want, h0);
    LoadMemory(c1, m2, want, h0);
    WriteMemory(c2, dest, Compute(op, Index(c2, dest), Index(c, m1), InReg(Index(c1, m2))), h0);
  }

  lemma UnlockQuiet(c: Cache, m: nat, h0: Host)
    ensures HostAt(Unlock(c, m), h0) == HostAt(c, h0)
  {
  }

  lemma ImmediateMemory(c: Cache, op: Alu, want: Want, dest: nat, src: nat, y: Host64, h0: Host)
    ensures Undisturbed(HostAt(c, h0), HostAt(EmitImmediate(c, op, want, dest, src, y), h0))
  {
    var c1 := Load(c, src, want);
    var c2 := Emit(Modify(c1, dest), Compute(op, Index(c1, dest), Index(c, src), Immediate(y)));
    LoadMemory(c, src, want, h0);
    WriteMemory(c1, dest, Compute(op, Index(c1, dest), Index(c, src), Immediate(y)), h0);
    UnlockQuiet(c2, src, h0);
    UnlockQuiet(Unlock(c2, src), dest, h0);
  }

  lemma NorMemory(c: Cache, rd: nat, rs: nat, rt: nat, h0: Host)
    ensures Undisturbed(HostAt(c, h0), HostAt(EmitNor(c, rd, rs, rt), h0))
  {
    PairMemory(c, Bits(BitOr), Any, rd, rt, rs, h0);
    var k := Index(Load(Load(c, rt, Any), rs, Any), rd);
    EmitMemory(ComputePair(c, Bits(BitOr), Any, rd, rt, rs), Compute(Bits(BitXor), k, k, Immediate(TWO_64 - 1)), h0);
  }

  lemma OperandsMemory(c: Cache, op: Alu, rt: nat, rs: nat, h0: Host)
    ensures Undisturbed(HostAt(c, h0), HostAt(ShiftOperands(c, op, rt, rs), h0))
  {
    var c1 := Load(c, rt, WantOf(op));
    var c2 := Load(c1, rs, Any);
    LoadMemory(c, rt, WantOf(op), h0);
    LoadMemory(c1, rs, Any, h0);
    var mask := Compute(Bits(BitAnd), Index(c2, SCRATCH_REGISTER0), Index(c1, rs), Immediate(31));
    WriteMemory(c2, SCRATCH_REGISTER0, mask, h0);
    UnlockQuiet(Emit(Modify(c2, SCRATCH_REGISTER0), mask), rs, h0);
  }

  lemma ShiftMemory(c: Cache, op: Alu, rd: nat, rt: nat, rs: nat, h0: Host)
    ensures Undisturbed(HostAt(c, h0), HostAt(EmitShiftVariable(c, op, rd, rt, rs), h0))
  {
    var c4 := ShiftOperands(c, op, rt, rs);
    OperandsMemory(c, op, rt, rs, h0);
    WriteMemory(c4, rd, Compute(op, Index(c4, rd), Index(c, rt), InReg(ScratchIndex(c, op, rt, rs))), h0);
  }

  lemma PairQuiet(c: Cache, op: Alu, want: Want, dest: nat, m1: nat, m2: nat, h0: Host)
    ensures Undisturbed(HostAt(c, h0), HostAt(EmitPair(c, op, want, dest, m1, m2), h0))
  {
    var d := ComputePair(c, op, want, dest, m1, m2);
    PairMemory(c, op, want, dest, m1, m2, h0);
    UnlockQuiet(d, m1, h0);
    UnlockQuiet(Unlock(d, m1), m2, h0);
    UnlockQuiet(Unlock(Unlock(d, m1), m2), dest, h0);
  }

  lemma RegistersMemory(i: Instr, c: Cache, h0: Host)
    requires i.Three? || i.Nor? || i.ShiftVar? || i.TestPair?
    ensures Undisturbed(HostAt(c, h0), HostAt(Compile(i, c), h0))
  {
    match i
    case Three(op, rd, rs, rt) => PairQuiet(c, op, WantOf(op), rd, rs, rt, h0);
    case Nor(rd, rs, rt) => NorMemory(c, rd, rs, rt, h0);
    case ShiftVar(op, rd, rt, rs) => ShiftMemory(c, op, rd, rt, rs, h0);
    case TestPair(op, rs, rt) => PairQuiet(c, op, Signed, COND_BRANCH_TAKEN, rs, rt, h0);
  }

  lemma ConstantsMemory(i: Instr, c: Cache, h0: Host)
    requires i.ShiftBy? || i.WithImm? || i.Constant? || i.TestZero?
    ensures Undisturbed(HostAt(c, h0), HostAt(Compile(i, c), h0))
  {
    match i
    case ShiftBy(op, rd, rt, amount) => ImmediateMemory(c, op, WantOf(op), rd, rt, amount % TWO_64, h0);
    case WithImm(op, rt, rs, imm) => ImmediateMemory(c, op, ImmediateWant(op), rt, rs, SignExtend(imm), h0);
    case Constant(rt, v) => WriteMemory(c, rt, Movi(Index(c, rt), SignExtend(v)), h0);
    case TestZero(op, rs) => ImmediateMemory(c, op, Signed, COND_BRANCH_TAKEN, rs, 0, h0);
  }

  /** Arithmetic leaves DMEM alone. */
  lemma CompileMemory(i: Instr, c: Cache, h0: Host)
    ensures Undisturbed(HostAt(c, h0), HostAt(Compile(i, c), h0))
  {
    if i.Three? || i.Nor? || i.ShiftVar? || i.TestPair? {
      RegistersMemory(i, c, h0);
    } else {
      ConstantsMemory(i, c, h0);
    }
  }

  /** One instruction: the code emitted for it does exactly what the instruction does, and no lock is left. */
  lemma CompileScalarCorrect(i: Scalar, c: Cache, callerSave: nat, h0: Host, s: ScalarState)
    requires LegalScalar(i) && LeavesState(c, h0, s)
    ensures LeavesState(CompileScalar(i, c, callerSave), h0, StepScalar(i, s))
  {
    var d, t := CompileScalar(i, c, callerSave), StepScalar(i, s);
    match i
    case Arithmetic(a) => ArithmeticCorrect(a, c, h0, s);
    case LoadFrom(rt, rs, offset, n, signed) =>
      if rt > 0 {
        LoadCode(rt, rs, offset, n, signed, c, callerSave);
        LoadMeaning(rt, rs, offset, n, signed, s);
        LoadLeaves(rt, rs, offset, n, signed, c, callerSave, h0, s, d, t);
      }
    case StoreTo(rt, rs, offset, n) =>
      StoreCode(rt, rs, offset, n, c, callerSave);
      StoreMeaning(rt, rs, offset, n, s);
      StoreLeaves(rt, rs, offset, n, c, callerSave, h0, s, d, t);
  }

  lemma LoadCode(rt: nat, rs: nat, offset: Guest, n: nat, signed: bool, c: Cache, callerSave: nat)
    requires rt > 0
    ensures CompileScalar(LoadFrom(rt, rs, offset, n, signed), c, callerSave)
            == EmitLoad(c, rt, rs, offset, n, signed, callerSave)
  {
  }

  lemma LoadMeaning(rt: nat, rs: nat, offset: Guest, n: nat, signed: bool, s: ScalarState)
    requires 0 < rt < 32 && rs < 32 && Width(n)
    ensures StepScalar(LoadFrom(rt, rs, offset, n, signed), s)
            == s.(g := WithReg(s.g, rt, LoadedValue(s.m, (s.g[rs] + offset) % 4096, n, signed)))
  {
  }

  lemma StoreCode(rt: nat, rs: nat, offset: Guest, n: nat, c: Cache, callerSave: nat)
    ensures CompileScalar(StoreTo(rt, rs, offset, n), c, callerSave) == EmitStore(c, rt, rs, offset, n, callerSave)
  {
  }

  lemma StoreMeaning(rt: nat, rs: nat, offset: Guest, n: nat, s: ScalarState)
    requires rt < 32 && rs < 32 && Width(n)
    ensures StepScalar(StoreTo(rt, rs, offset, n), s) == s.(m := WriteBig(s.m, (s.g[rs] + offset) % 4096, n, s.g[rt]))
  {
  }

  lemma LoadLeaves(rt: nat, rs: nat, offset: Guest, n: nat, signed: bool, c: Cache, callerSave: nat, h0: Host, s: ScalarState, d: Cache, t: ScalarState)
    requires 0 < rt < 32 && rs < 32 && Width(n) && LeavesState(c, h0, s)
    requires d == EmitLoad(c, rt, rs, offset, n, signed, callerSave)
    requires t == s.(g := WithReg(s.g, rt, LoadedValue(s.m, (s.g[rs] + offset) % 4096, n, signed)))
    ensures LeavesState(d, h0, t)
  {
    LoadCorrect(c, rt, rs, offset, n, signed, callerSave, h0, s);
  }

  lemma StoreLeaves(rt: nat, rs: nat, offset: Guest, n: nat, c: Cache, callerSave: nat, h0: Host, s: ScalarState, d: Cache, t: ScalarState)
    requires rt < 32 && rs < 32 && Width(n) && LeavesState(c, h0, s)
    requires d == EmitStore(c, rt, rs, offset, n, callerSave)
    requires t == s.(m := WriteBig(s.m, (s.g[rs] + offset) % 4096, n, s.g[rt]))
    ensures LeavesState(d, h0, t)
  {
    StoreCorrect(c, rt, rs, offset, n, callerSave, h0, s);
  }

  lemma ArithmeticCorrect(i: Instr, c: Cache, h0: Host, s: ScalarState)
    requires Legal(i) && LeavesState(c, h0, s)
    ensures LeavesState(Compile(i, c), h0, s.(g := Step(i, s.g)))
  {
    CompileCorrect(i, c, h0, s.g);
    CompileMemory(i, c, h0);
  }

  function CompileAll(p: seq<Scalar>, c: Cache, callerSave: nat): Cache {
    if |p| == 0 then c else CompileScalar(p[|p| - 1], CompileAll(p[..|p| - 1], c, callerSave), callerSave)
  }

  function StepAll(p: seq<Scalar>, s: ScalarState): ScalarState
    requires forall i :: i in p ==> LegalScalar(i)
  {
    if |p| == 0 then s else StepScalar(p[|p| - 1], StepAll(p[..|p| - 1], s))
  }

  lemma {:induction false} CompileAllCorrect(p: seq<Scalar>, c: Cache, callerSave: nat, h0: Host, s: ScalarState)
    requires (forall i :: i in p ==> LegalScalar(i)) && LeavesState(c, h0, s)
    ensures LeavesState(CompileAll(p, c, callerSave), h0, StepAll(p, s))
  {
    if |p| > 0 {
      var q := p[..|p| - 1];
      CompileAllCorrect(q, c, callerSave, h0, s);
      CompileScalarCorrect(p[|p| - 1], CompileAll(q, c, callerSave), callerSave, h0, StepAll(q, s));
    }
  }

  /** A fresh cache over a host state whose memory holds the register file. */
  predicate Starts(c: Cache, h0: Host, s: ScalarState) {
    && |c.entries| >= 3 && (forall k :: 0 <= k < |c.entries| ==> c.entries[k] == EMPTY) && c.code == []
    && |h0.regs| == |c.entries| && |h0.sr| == 33 && h0.sr[1..] == s.g[1..] && HostBytes.MemView(h0.dmem) == s.m
  }

  lemma StartsLeaves(c: Cache, h0: Host, s: ScalarState)
    requires Starts(c, h0, s)
    ensures LeavesState(c, h0, s)
  {
    forall m | 1 <= m <= 32 ensures h0.sr[m] == s.g[m] {
      assert h0.sr[m] == h0.sr[1..][m - 1] == s.g[1..][m - 1];
    }
  }

  /**
    Compile any straight run of scalar instructions with an empty cache of at
    least three host registers and flush it at the end: running the emitted code
    from any host state whose memory holds the register file leaves memory
    holding exactly the registers, and DMEM exactly the bytes, that the MIPS
    instructions would, and nothing cached.
   */
  lemma StraightCodeCorrect(p: seq<Scalar>, c: Cache, callerSave: nat, h0: Host, s: ScalarState)
    requires (forall i :: i in p ==> LegalScalar(i)) && Starts(c, h0, s)
    ensures var d := FlushRegisterWindow(CompileAll(p, c, callerSave));
            var h := HostAt(d, h0);
            && |h.sr| == 33 && h.sr[1..] == StepAll(p, s).g[1..] && HostBytes.MemView(h.dmem) == StepAll(p, s).m
            && (forall k :: 0 <= k < |d.entries| ==> !d.entries[k].live)
  {
    StartsLeaves(c, h0, s);
    CompileAllCorrect(p, c, callerSave, h0, s);
    var e := CompileAll(p, c, callerSave);
    FlushWindowWritesAll(e, h0, StepAll(p, s).g);
    RunAppend(e.code, FlushOps(e.entries, _ => true, |e.entries|), h0);
    FlushKeepsRegs(e.entries, _ => true, |e.entries|, HostAt(e, h0));
  }
}
