/**
  The scalar arithmetic the block compiler emits through the register cache
  (rsp_jit.cpp, `jit_instruction`): every instruction, and every straight run of
  them, leaves exactly the 32-bit MIPS results.
 */
module ScalarCode {
  import opened Arithmetic
  import opened HostWords
  import opened RegisterCache

  /** The operand extension each host operation needs, for register operands. */
  function WantOf(op: Alu): Want {
    match op
    case Add => Any
    case Sub => Any
    case Bits(_) => Any
    case ShiftLeft => Any
    case ShiftRightLogical => Unsigned
    case LessUnsigned => Unsigned
    case _ => Signed
  }

  /** The 32-bit MIPS result. */
  function Mips(op: Alu, a: Guest, b: Guest): Guest {
    match op
    case Add => (a + b) % TWO_32
    case Sub => (a - b) % TWO_32
    case Bits(f) => Bits32(f, a, b)
    case ShiftLeft => a * Pow2(b % 32) % TWO_32
    case ShiftRightLogical => a / Pow2(b % 32) % TWO_32
    case ShiftRightArithmetic => Signed32(a) / Pow2(b % 32) % TWO_32
    case LessSigned => if Signed32(a) < Signed32(b) then 1 else 0
    case LessUnsigned => if a < b then 1 else 0
    case EqualTo => if a == b then 1 else 0
    case NotEqualTo => if a != b then 1 else 0
    case LessEqualSigned => if Signed32(a) <= Signed32(b) then 1 else 0
    case GreaterSigned => if Signed32(a) > Signed32(b) then 1 else 0
    case GreaterEqualSigned => if Signed32(a) >= Signed32(b) then 1 else 0
  }

  predicate IsShift(op: Alu) { op.ShiftLeft? || op.ShiftRightLogical? || op.ShiftRightArithmetic? }

  /** How the second operand must present `b`: extended like the first, or as a shift amount. */
  predicate SecondOperand(op: Alu, want: Want, y: Host64, b: Guest) {
    if IsShift(op) then y < 32 && y == b % 32 else Loaded(want, y, b)
  }

  lemma Amount(y: nat)
    requires y < 32
    ensures y % 64 == y && y % 32 == y
  {
  }

  lemma LogicalRightExact(x: Host64, p: nat)
    requires p > 0 && x < TWO_32
    ensures Low(x / p % TWO_64) == x / p % TWO_32
  {
    WrapTwice(x / p);
  }

  lemma ArithmeticRightExact(s: int, p: nat)
    requires p > 0
    ensures Low(s / p % TWO_64) == s / p % TWO_32
  {
    WrapTwice(s / p);
  }

  lemma ShiftExact(op: Alu, x: Host64, y: Host64, a: Guest)
    requires IsShift(op) && Loaded(WantOf(op), x, a) && y < 32
    ensures Low(Result(op, x, y)) == Mips(op, a, y)
  {
    Amount(y);
    if op.ShiftLeft? {
      ShiftLeftExact(x, Pow2(y));
    } else if op.ShiftRightLogical? {
      LogicalRightExact(x, Pow2(y));
    } else {
      SignedOfExtension(a);
      ArithmeticRightExact(Signed32(a), Pow2(y));
    }
  }

  lemma BitsExact(f: BitOp, x: Host64, y: Host64)
    ensures Low(Result(Bits(f), x, y)) == Mips(Bits(f), Low(x), Low(y))
  {
    BitwiseExact(Truth(f), x, y);
  }

  /** The extension tags are enough: the low half of the host result is the MIPS result. */
  lemma ResultExact(op: Alu, want: Want, x: Host64, y: Host64, a: Guest, b: Guest)
    requires want == WantOf(op) || (op.LessUnsigned? && want.Signed?)
    requires Loaded(want, x, a) && SecondOperand(op, want, y, b)
    ensures Low(Result(op, x, y)) == Mips(op, a, b)
  {
    if IsShift(op) {
      ShiftExact(op, x, y, a);
      SmallShift(b);
    } else {
      match op
      case Add => AddExact(x, y);
      case Sub => SubExact(x, y);
      case Bits(f) => BitsExact(f, x, y);
      case _ => ComparisonsExact(a, b); ComparisonsExact(b, a);
    }
  }

  lemma SmallShift(b: Guest)
    ensures b % 32 % 32 == b % 32
  {
  }

  // ---------------------------------------------------------------- cache calls with their locks

  /** The register file after a write; writes to register 0 are dropped. */
  function WithReg(g: File, r: nat, v: Guest): File {
    if 0 < r <= 32 then g[r := v] else g
  }

  /** Nothing is locked and the code emitted so far computes `g`. */
  predicate Leaves(d: Cache, h0: Host, g: File) { Idle(d) && Rep(d, h0, g) }

  /** Only the entries `a` and `b` may be locked. */
  predicate LockedOnly(es: seq<Entry>, a: nat, b: nat) {
    forall k :: 0 <= k < |es| && es[k].locks > 0 ==> k == a || k == b
  }

  function Index(c: Cache, m: nat): nat { FindRegister(c.entries, m) }

  function HostAt(c: Cache, h0: Host): Host { Run(c.code, h0) }

  /** `d` is `c` with entry `i` locked once more and now holding `m`; other entries and their registers are untouched. */
  predicate Locked(c: Cache, d: Cache, h0: Host, i: nat, m: nat) {
    && i < |c.entries| == |d.entries| == |HostAt(c, h0).regs| == |HostAt(d, h0).regs|
    && d.entries[i].live && d.entries[i].mips == m && d.entries[i].locks == c.entries[i].locks + 1
    && (forall k :: 0 <= k < |c.entries| && k != i ==>
          d.entries[k] == c.entries[k] && HostAt(d, h0).regs[k] == HostAt(c, h0).regs[k])
    && (forall k :: 0 <= k < |c.entries| && c.entries[k].locks > 0 && c.entries[k].mips != m ==> k != i)
    && (forall k :: 0 <= k < |c.entries| && c.entries[k].live && c.entries[k].mips == m ==> k == i)
  }

  /** If entry `i` holds the branch condition, the upper half of its register is clear. */
  predicate Exact(c: Cache, i: nat, h0: Host) {
    i < |c.entries| && c.entries[i].mips == COND_BRANCH_TAKEN ==> Reg(HostAt(c, h0), i) < TWO_32
  }

  lemma LoadStep(c: Cache, m: nat, want: Want, h0: Host, g: File, a: nat, b: nat)
    requires Rep(c, h0, g) && m <= 32 && |c.entries| >= 3 && LockedOnly(c.entries, a, b)
    ensures var d, i := Load(c, m, want), Index(c, m);
            && Rep(d, h0, g) && Locked(c, d, h0, i, m) && Loaded(want, HostAt(d, h0).regs[i], g[m])
            && (c.entries[i].locks == 0 && g[m] < TWO_31 ==> Exact(d, i, h0))
  {
    NeverStuck(c.entries, m, a, b);
    LoadKeeps(c, m, want, HostAt(c, h0), g);
    LoadRuns(c, m, want, h0);
    Found(c.entries, m);
  }

  lemma LoadRuns(c: Cache, m: nat, want: Want, h0: Host)
    requires FindRegister(c.entries, m) < |c.entries|
    ensures HostAt(Load(c, m, want), h0) == Run(LoadOps(c.entries, m, want), HostAt(c, h0))
  {
    RunAppend(c.code, LoadOps(c.entries, m, want), h0);
  }

  lemma ModifyStep(c: Cache, m: nat, h0: Host, g: File, a: nat, b: nat)
    requires Rep(c, h0, g) && 0 < m <= SCRATCH_REGISTER1 && |c.entries| >= 3 && LockedOnly(c.entries, a, b)
    ensures var d, i := Modify(c, m), Index(c, m);
            && Locked(c, d, h0, i, m) && HostAt(d, h0).regs == HostAt(c, h0).regs
            && d.entries[i].modified && d.entries[i].sign == Unknown
            && Rep(d, h0, if m <= 32 then g[m := Low(HostAt(c, h0).regs[i])] else g)
  {
    NeverStuck(c.entries, m, a, b);
    ModifyKeeps(c, m, HostAt(c, h0), g);
    RunAppend(c.code, ModifyOps(c.entries, m), h0);
    Found(c.entries, m);
  }

  /** An operation into a register claimed for writing. */
  lemma WriteStep(c: Cache, i: nat, op: HostOp, x: Host64, h0: Host, g: File)
    requires Rep(c, h0, g) && i < |c.entries|
    requires var e := c.entries[i]; e.live && e.modified && e.sign == Unknown && e.mips != 0 && e.locks > 0
    requires Exec(op, HostAt(c, h0)) == Put(HostAt(c, h0), i, x)
    ensures var m := c.entries[i].mips;
            Rep(Emit(c, op), h0, if m <= 32 then g[m := Low(x)] else g)
            && HostAt(Emit(c, op), h0) == Put(HostAt(c, h0), i, x)
  {
    EmitRep(c, op, h0);
    Overwrite(c.entries, HostAt(c, h0), g, i, c.entries[i], x);
    assert c.entries[i := c.entries[i]] == c.entries;
  }

  lemma UnlockStep(c: Cache, m: nat, i: nat, h0: Host, g: File)
    requires Rep(c, h0, g) && i < |c.entries| && c.entries[i].live && c.entries[i].mips == m && c.entries[i].locks > 0
    requires Exact(c, i, h0)
    ensures Unlock(c, m) == c.(entries := c.entries[i := c.entries[i].(locks := c.entries[i].locks - 1)])
    ensures Rep(Unlock(c, m), h0, g)
  {
    assert FindLive(c.entries, m) == i;
    var h := HostAt(c, h0);
    Retag(c.entries, h, g, i, c.entries[i].(locks := c.entries[i].locks - 1), h.regs[i]);
    assert Put(h, i, h.regs[i]) == h;
  }

  function One(b: bool): nat { if b then 1 else 0 }

  /** The register `m` is held by entry `i`. */
  predicate At(es: seq<Entry>, i: nat, m: nat) { i < |es| && es[i].live && es[i].mips == m }

  /** Unlocking two registers that hold the only locks. */
  lemma ReleaseTwo(c: Cache, m1: nat, i: nat, m2: nat, j: nat, h0: Host, g: File)
    requires Rep(c, h0, g) && |c.entries| >= 3 && At(c.entries, i, m1) && At(c.entries, j, m2)
    requires Exact(c, i, h0) && Exact(c, j, h0)
    requires forall k :: 0 <= k < |c.entries| ==> c.entries[k].locks == One(k == i) + One(k == j)
    ensures var d := Unlock(Unlock(c, m1), m2); Idle(d) && Rep(d, h0, g)
  {
    UnlockStep(c, m1, i, h0, g);
    UnlockStep(Unlock(c, m1), m2, j, h0, g);
  }

  lemma ReleaseThree(c: Cache, m1: nat, i: nat, m2: nat, j: nat, m3: nat, l: nat, h0: Host, g: File)
    requires Rep(c, h0, g) && |c.entries| >= 3
    requires At(c.entries, i, m1) && At(c.entries, j, m2) && At(c.entries, l, m3)
    requires Exact(c, i, h0) && Exact(c, j, h0) && Exact(c, l, h0)
    requires forall k :: 0 <= k < |c.entries| ==> c.entries[k].locks == One(k == i) + One(k == j) + One(k == l)
    ensures var d := Unlock(Unlock(Unlock(c, m1), m2), m3); Idle(d) && Rep(d, h0, g)
  {
    UnlockStep(c, m1, i, h0, g);
    ReleaseTwo(Unlock(c, m1), m2, j, m3, l, h0, g);
  }

  function Second(h: Host, y: Operand): Host64 {
    match y case InReg(r) => Reg(h, r) case Immediate(v) => v
  }

  /** Computing into the entry `k` that was just claimed for `dest`. */
  lemma WriteInto(c: Cache, d: Cache, k: nat, dest: nat, op: Alu, rs: nat, y: Operand, h0: Host, g: File)
    requires Locked(c, d, h0, k, dest) && HostAt(d, h0).regs == HostAt(c, h0).regs && 0 < dest
    requires d.entries[k].modified && d.entries[k].sign == Unknown && Rep(d, h0, g)
    ensures var h, e := HostAt(c, h0), Emit(d, Compute(op, k, rs, y));
            var x := Result(op, Reg(h, rs), Second(h, y));
            && Rep(e, h0, WithReg(g, dest, Low(x))) && e.entries == d.entries
            && HostAt(e, h0).regs == h.regs[k := x]
  {
    var h := HostAt(c, h0);
    WriteStep(d, k, Compute(op, k, rs, y), Result(op, Reg(h, rs), Second(h, y)), h0, g);
  }

  /** `d` is `c` with `dest` claimed in entry `k`, locked once more, and the value `x` written to it. */
  predicate Computed(c: Cache, d: Cache, k: nat, dest: nat, x: Host64, h0: Host, g: File) {
    && Rep(d, h0, WithReg(g, dest, Low(x))) && |d.entries| == |c.entries| && At(d.entries, k, dest)
    && d.entries[k].locks == c.entries[k].locks + 1
    && d.entries[k].modified && d.entries[k].sign == Unknown && Reg(HostAt(d, h0), k) == x
    && (forall j :: 0 <= j < |c.entries| && j != k ==> d.entries[j] == c.entries[j])
    && (forall j :: 0 <= j < |c.entries| && c.entries[j].locks > 0 && c.entries[j].mips != dest ==> j != k)
  }

  /** Claiming `dest` and computing into it, given what the code has loaded so far. */
  lemma ComputeStep(c: Cache, dest: nat, a: nat, b: nat, op: Alu, rs: nat, y: Operand, h0: Host, g: File)
    requires Rep(c, h0, g) && 0 < dest <= 32 && |c.entries| >= 3 && LockedOnly(c.entries, a, b)
    ensures var k, h := Index(c, dest), HostAt(c, h0);
            Computed(c, Emit(Modify(c, dest), Compute(op, k, rs, y)), k, dest, Result(op, Reg(h, rs), Second(h, y)), h0, g)
  {
    var k, c2, h := Index(c, dest), Modify(c, dest), HostAt(c, h0);
    var x := Result(op, Reg(h, rs), Second(h, y));
    ModifyStep(c, dest, h0, g, a, b);
    var g2 := WithReg(g, dest, Low(h.regs[k]));
    WriteInto(c, c2, k, dest, op, rs, y, h0, g2);
    assert WithReg(g2, dest, Low(x)) == WithReg(g, dest, Low(x));
  }

  // ---------------------------------------------------------------- instructions with an immediate operand

  /** Load `src`, claim `dest`, compute, unlock both. */
  function EmitImmediate(c: Cache, op: Alu, want: Want, dest: nat, src: nat, y: Host64): Cache {
    var c1 := Load(c, src, want);
    var c2 := Emit(Modify(c1, dest), Compute(op, Index(c1, dest), Index(c, src), Immediate(y)));
    Unlock(Unlock(c2, src), dest)
  }

  /** One operand loaded and locked. */
  predicate OneLoaded(c: Cache, n: nat, i: nat, m: nat, want: Want, h0: Host, g: File)
    requires m <= 32
  {
    && Rep(c, h0, g) && |c.entries| == n && At(c.entries, i, m) && Loaded(want, Reg(HostAt(c, h0), i), g[m])
    && Exact(c, i, h0)
    && (forall k :: 0 <= k < n ==> c.entries[k].locks == One(k == i))
  }

  lemma LoadOne(c: Cache, want: Want, m: nat, h0: Host, g: File)
    requires Rep(c, h0, g) && Idle(c) && m <= 32 && (m == COND_BRANCH_TAKEN ==> g[m] < TWO_31)
    ensures OneLoaded(Load(c, m, want), |c.entries|, Index(c, m), m, want, h0, g)
  {
    LoadStep(c, m, want, h0, g, 0, 0);
    FirstLoaded(c, Load(c, m, want), Index(c, m), m, want, h0, g);
  }

  lemma FirstLoaded(c: Cache, d: Cache, i: nat, m: nat, want: Want, h0: Host, g: File)
    requires Idle(c) && m <= 32 && Rep(d, h0, g) && Locked(c, d, h0, i, m) && Loaded(want, HostAt(d, h0).regs[i], g[m])
    requires Exact(d, i, h0)
    ensures OneLoaded(d, |c.entries|, i, m, want, h0, g)
  {
  }

  /** Two registers hold the only locks. */
  predicate TwoHeld(d: Cache, n: nat, i: nat, m1: nat, k: nat, m2: nat, h0: Host, g: File) {
    && Rep(d, h0, g) && |d.entries| == n && At(d.entries, i, m1) && At(d.entries, k, m2)
    && Exact(d, i, h0) && Exact(d, k, h0)
    && (forall l :: 0 <= l < n ==> d.entries[l].locks == One(l == i) + One(l == k))
  }

  predicate IsTest(op: Alu) {
    !op.Add? && !op.Sub? && !op.Bits? && !IsShift(op)
  }

  /** The branch condition is only ever the result of a comparison. */
  predicate Destination(op: Alu, dest: nat) { 0 < dest <= 32 && (dest == COND_BRANCH_TAKEN ==> IsTest(op)) }

  /** Computing from one loaded operand and a constant. */
  lemma ImmediateComputed(c: Cache, n: nat, i: nat, op: Alu, want: Want, dest: nat, src: nat, y: Host64, b: Guest, h0: Host, g: File)
    requires src < 32 && OneLoaded(c, n, i, src, want, h0, g) && n >= 3 && Destination(op, dest)
    requires want == WantOf(op) || (op.LessUnsigned? && want.Signed?)
    requires SecondOperand(op, want, y, b)
    ensures var k := Index(c, dest);
            TwoHeld(Emit(Modify(c, dest), Compute(op, k, i, Immediate(y))), n, i, src, k, dest,
                    h0, WithReg(g, dest, Mips(op, g[src], b)))
  {
    var x, k := Result(op, Reg(HostAt(c, h0), i), y), Index(c, dest);
    ResultExact(op, want, Reg(HostAt(c, h0), i), y, g[src], b);
    ComputeStep(c, dest, i, i, op, i, Immediate(y), h0, g);
    HeldAfterOne(c, Emit(Modify(c, dest), Compute(op, k, i, Immediate(y))), n, i, k, src, dest, x, h0, g);
  }

  lemma HeldAfterOne(c: Cache, d: Cache, n: nat, i: nat, k: nat, src: nat, dest: nat, x: Host64, h0: Host, g: File)
    requires |c.entries| == n && At(c.entries, i, src) && src < 32 && Computed(c, d, k, dest, x, h0, g)
    requires forall l :: 0 <= l < n ==> c.entries[l].locks == One(l == i)
    requires dest == COND_BRANCH_TAKEN ==> x < TWO_32
    ensures TwoHeld(d, n, i, src, k, dest, h0, WithReg(g, dest, Low(x)))
  {
  }

  lemma HeldAfterTwo(c: Cache, d: Cache, n: nat, i: nat, m1: nat, j: nat, m2: nat, k: nat, dest: nat, x: Host64, h0: Host, g: File)
    requires |c.entries| == n && At(c.entries, i, m1) && At(c.entries, j, m2) && m1 != 32 && m2 != 32
    requires Computed(c, d, k, dest, x, h0, g) && (dest == COND_BRANCH_TAKEN ==> x < TWO_32)
    requires forall l :: 0 <= l < n ==> c.entries[l].locks == One(l == i) + One(l == j)
    ensures PairComputed(d, n, i, m1, j, m2, k, dest, h0, WithReg(g, dest, Low(x)))
  {
  }

  lemma ReleaseHeld(d: Cache, n: nat, i: nat, m1: nat, k: nat, m2: nat, h0: Host, g: File)
    requires TwoHeld(d, n, i, m1, k, m2, h0, g) && n >= 3
    ensures Leaves(Unlock(Unlock(d, m1), m2), h0, g)
  {
    ReleaseTwo(d, m1, i, m2, k, h0, g);
  }

  lemma ImmediateCorrect(c: Cache, op: Alu, want: Want, dest: nat, src: nat, y: Host64, b: Guest, h0: Host, g: File)
    requires Rep(c, h0, g) && Idle(c) && Destination(op, dest) && src < 32
    requires want == WantOf(op) || (op.LessUnsigned? && want.Signed?)
    requires SecondOperand(op, want, y, b)
    ensures var d := EmitImmediate(c, op, want, dest, src, y);
            Leaves(d, h0, WithReg(g, dest, Mips(op, g[src], b)))
  {
    var c1 := Load(c, src, want);
    LoadOne(c, want, src, h0, g);
    ImmediateComputed(c1, |c.entries|, Index(c, src), op, want, dest, src, y, b, h0, g);
    ReleaseHeld(Emit(Modify(c1, dest), Compute(op, Index(c1, dest), Index(c, src), Immediate(y))), |c.entries|,
                Index(c, src), src, Index(c1, dest), dest, h0, WithReg(g, dest, Mips(op, g[src], b)));
  }

  // ---------------------------------------------------------------- instructions with two register operands

  /** Loads both operands and computes, all three registers still locked. */
  function ComputePair(c: Cache, op: Alu, want: Want, dest: nat, m1: nat, m2: nat): Cache {
    var c1 := Load(c, m1, want);
    var c2 := Load(c1, m2, want);
    Emit(Modify(c2, dest), Compute(op, Index(c2, dest), Index(c, m1), InReg(Index(c1, m2))))
  }

  function EmitPair(c: Cache, op: Alu, want: Want, dest: nat, m1: nat, m2: nat): Cache {
    Unlock(Unlock(Unlock(ComputePair(c, op, want, dest, m1, m2), m1), m2), dest)
  }

  /** Two operands loaded: both values are available at once. */
  predicate BothLoaded(c: Cache, n: nat, i: nat, m1: nat, want1: Want, j: nat, m2: nat, want2: Want, h0: Host, g: File)
    requires m1 < 32 && m2 < 32
  {
    && Rep(c, h0, g) && |c.entries| == n && At(c.entries, i, m1) && At(c.entries, j, m2)
    && (forall k :: 0 <= k < n ==> c.entries[k].locks == One(k == i) + One(k == j))
    && Loaded(want1, Reg(HostAt(c, h0), i), g[m1]) && Loaded(want2, Reg(HostAt(c, h0), j), g[m2])
  }

  lemma SecondLoaded(c: Cache, d: Cache, i: nat, j: nat, want1: Want, want2: Want, m1: nat, m2: nat, h0: Host, g: File)
    requires m1 < 32 && m2 < 32 && At(c.entries, i, m1) && Rep(d, h0, g) && Locked(c, d, h0, j, m2)
    requires forall k :: 0 <= k < |c.entries| ==> c.entries[k].locks == One(k == i)
    requires Loaded(want1, HostAt(c, h0).regs[i], g[m1]) && Loaded(want2, HostAt(d, h0).regs[j], g[m2])
    requires m1 == m2 ==> want1 == want2 || HostAt(d, h0).regs == HostAt(c, h0).regs
    ensures BothLoaded(d, |c.entries|, i, m1, want1, j, m2, want2, h0, g)
  {
  }

  lemma LoadSecond(c: Cache, n: nat, i: nat, want1: Want, want2: Want, m1: nat, m2: nat, h0: Host, g: File)
    requires m1 < 32 && m2 < 32 && OneLoaded(c, n, i, m1, want1, h0, g) && n >= 3
    requires m1 == m2 ==> want1 == want2 || want2.Any?
    ensures BothLoaded(Load(c, m2, want2), n, i, m1, want1, Index(c, m2), m2, want2, h0, g)
  {
    LoadStep(c, m2, want2, h0, g, i, i);
    if m1 == m2 && want2.Any? { AnyLoadKeepsRegister(c, m2, i, h0); }
    SecondLoaded(c, Load(c, m2, want2), i, Index(c, m2), want1, want2, m1, m2, h0, g);
  }

  lemma LoadTwo(c: Cache, want1: Want, want2: Want, m1: nat, m2: nat, h0: Host, g: File)
    requires Rep(c, h0, g) && Idle(c) && m1 < 32 && m2 < 32 && (m1 == m2 ==> want1 == want2 || want2.Any?)
    ensures var c1 := Load(c, m1, want1);
            BothLoaded(Load(c1, m2, want2), |c.entries|, Index(c, m1), m1, want1, Index(c1, m2), m2, want2, h0, g)
  {
    LoadOne(c, want1, m1, h0, g);
    LoadSecond(Load(c, m1, want1), |c.entries|, Index(c, m1), want1, want2, m1, m2, h0, g);
  }

  /** A load without extension does not touch a register that is already live. */
  lemma AnyLoadKeepsRegister(c: Cache, m: nat, i: nat, h0: Host)
    requires At(c.entries, i, m) && Index(c, m) == i
    ensures HostAt(Load(c, m, Any), h0) == HostAt(c, h0)
  {
    assert Load(c, m, Any).code == c.code;
  }

  /** Three registers, not necessarily distinct, hold the only locks. */
  predicate ThreeLocked(c: Cache, n: nat, i: nat, m1: nat, j: nat, m2: nat, k: nat, m3: nat, h0: Host, g: File) {
    && Rep(c, h0, g) && |c.entries| == n && At(c.entries, i, m1) && At(c.entries, j, m2) && At(c.entries, k, m3)
    && Exact(c, i, h0) && Exact(c, j, h0) && Exact(c, k, h0)
    && (forall l :: 0 <= l < n ==> c.entries[l].locks == One(l == i) + One(l == j) + One(l == k))
  }

  /** Three registers locked, `dest` holding its new value. */
  predicate PairComputed(d: Cache, n: nat, i: nat, m1: nat, j: nat, m2: nat, k: nat, dest: nat, h0: Host, g: File) {
    ThreeLocked(d, n, i, m1, j, m2, k, dest, h0, g) && d.entries[k].modified && d.entries[k].sign == Unknown
  }

  lemma ComputeBoth(c: Cache, n: nat, i: nat, j: nat, op: Alu, want: Want, dest: nat, m1: nat, m2: nat, h0: Host, g: File)
    requires m1 < 32 && m2 < 32 && BothLoaded(c, n, i, m1, want, j, m2, want, h0, g) && n >= 3 && Destination(op, dest)
    requires !IsShift(op) && want == WantOf(op)
    ensures var k := Index(c, dest);
            PairComputed(Emit(Modify(c, dest), Compute(op, k, i, InReg(j))), n, i, m1, j, m2, k, dest,
                         h0, WithReg(g, dest, Mips(op, g[m1], g[m2])))
  {
    var h := HostAt(c, h0);
    var x, k := Result(op, Reg(h, i), Reg(h, j)), Index(c, dest);
    ResultExact(op, want, Reg(h, i), Reg(h, j), g[m1], g[m2]);
    ComputeStep(c, dest, i, j, op, i, InReg(j), h0, g);
    HeldAfterTwo(c, Emit(Modify(c, dest), Compute(op, k, i, InReg(j))), n, i, m1, j, m2, k, dest, x, h0, g);
  }

  lemma ComputePairCorrect(c: Cache, op: Alu, want: Want, dest: nat, m1: nat, m2: nat, h0: Host, g: File)
    requires Rep(c, h0, g) && Idle(c) && Destination(op, dest) && m1 < 32 && m2 < 32 && !IsShift(op) && want == WantOf(op)
    ensures var c1 := Load(c, m1, want);
            PairComputed(ComputePair(c, op, want, dest, m1, m2), |c.entries|, Index(c, m1), m1, Index(c1, m2), m2,
                         Index(Load(c1, m2, want), dest), dest, h0, WithReg(g, dest, Mips(op, g[m1], g[m2])))
  {
    var c1 := Load(c, m1, want);
    LoadTwo(c, want, want, m1, m2, h0, g);
    ComputeBoth(Load(c1, m2, want), |c.entries|, Index(c, m1), Index(c1, m2), op, want, dest, m1, m2, h0, g);
  }

  lemma PairCorrect(c: Cache, op: Alu, want: Want, dest: nat, m1: nat, m2: nat, h0: Host, g: File)
    requires Rep(c, h0, g) && Idle(c) && Destination(op, dest) && m1 < 32 && m2 < 32 && !IsShift(op) && want == WantOf(op)
    ensures var d := EmitPair(c, op, want, dest, m1, m2);
            Leaves(d, h0, WithReg(g, dest, Mips(op, g[m1], g[m2])))
  {
    ComputePairCorrect(c, op, want, dest, m1, m2, h0, g);
    var c1 := Load(c, m1, want);
    ReleasePair(ComputePair(c, op, want, dest, m1, m2), |c.entries|, Index(c, m1), m1, Index(c1, m2), m2,
                Index(Load(c1, m2, want), dest), dest, h0, WithReg(g, dest, Mips(op, g[m1], g[m2])));
  }

  lemma ReleasePair(d: Cache, n: nat, i: nat, m1: nat, j: nat, m2: nat, k: nat, dest: nat, h0: Host, g: File)
    requires ThreeLocked(d, n, i, m1, j, m2, k, dest, h0, g) && n >= 3
    ensures Leaves(Unlock(Unlock(Unlock(d, m1), m2), dest), h0, g)
  {
    ReleaseThree(d, m1, i, m2, j, dest, k, h0, g);
  }

  /** NOR has no host operation of its own: OR, then flip every bit. */
  function EmitNor(c: Cache, rd: nat, rs: nat, rt: nat): Cache {
    var c3 := ComputePair(c, Bits(BitOr), Any, rd, rt, rs);
    var k := Index(Load(Load(c, rt, Any), rs, Any), rd);
    Unlock(Unlock(Unlock(Emit(c3, Compute(Bits(BitXor), k, k, Immediate(TWO_64 - 1))), rt), rs), rd)
  }

  lemma NorFromOr(a: Guest, b: Guest, or: Guest, ones: Guest)
    requires or == Mips(Bits(BitOr), a, b) && ones == TWO_32 - 1
    ensures Mips(Bits(BitXor), or, ones) == Mips(Bits(BitNor), a, b)
  {
    FlipOr32(a, b);
  }

  lemma AllOnes()
    ensures Low(TWO_64 - 1) == TWO_32 - 1
  {
  }

  /** Flipping the bits of the OR just computed. */
  lemma FlipStep(c: Cache, rd: nat, k: nat, a: Guest, b: Guest, h0: Host, g: File)
    requires Rep(c, h0, g) && At(c.entries, k, rd) && 0 < rd < 32 && g[rd] == Mips(Bits(BitOr), a, b)
    requires c.entries[k].modified && c.entries[k].sign == Unknown && c.entries[k].locks > 0
    ensures Rep(Emit(c, Compute(Bits(BitXor), k, k, Immediate(TWO_64 - 1))), h0, WithReg(g, rd, Mips(Bits(BitNor), a, b)))
  {
    var x := HostAt(c, h0).regs[k];
    AllOnes();
    BitsExact(BitXor, x, TWO_64 - 1);
    NorFromOr(a, b, g[rd], TWO_32 - 1);
    WriteStep(c, k, Compute(Bits(BitXor), k, k, Immediate(TWO_64 - 1)), Result(Bits(BitXor), x, TWO_64 - 1), h0, g);
  }

  lemma FlipPair(d: Cache, n: nat, i: nat, rt: nat, j: nat, rs: nat, k: nat, rd: nat, a: Guest, b: Guest, h0: Host, g: File)
    requires PairComputed(d, n, i, rt, j, rs, k, rd, h0, g) && 0 < rd < 32 && g[rd] == Mips(Bits(BitOr), a, b)
    ensures PairComputed(Emit(d, Compute(Bits(BitXor), k, k, Immediate(TWO_64 - 1))), n, i, rt, j, rs, k, rd,
                         h0, WithReg(g, rd, Mips(Bits(BitNor), a, b)))
  {
    FlipStep(d, rd, k, a, b, h0, g);
  }

  lemma NorCorrect(c: Cache, rd: nat, rs: nat, rt: nat, h0: Host, g: File)
    requires Rep(c, h0, g) && Idle(c) && 0 < rd < 32 && rs < 32 && rt < 32
    ensures var d := EmitNor(c, rd, rs, rt);
            Leaves(d, h0, WithReg(g, rd, Mips(Bits(BitNor), g[rt], g[rs])))
  {
    ComputePairCorrect(c, Bits(BitOr), Any, rd, rt, rs, h0, g);
    var c1 := Load(c, rt, Any);
    var c3, k := ComputePair(c, Bits(BitOr), Any, rd, rt, rs), Index(Load(c1, rs, Any), rd);
    var g3 := WithReg(g, rd, Mips(Bits(BitOr), g[rt], g[rs]));
    var g4 := WithReg(g3, rd, Mips(Bits(BitNor), g[rt], g[rs]));
    assert g4 == WithReg(g, rd, Mips(Bits(BitNor), g[rt], g[rs]));
    FlipAndRelease(c3, |c.entries|, Index(c, rt), rt, Index(c1, rs), rs, k, rd, g[rt], g[rs], h0, g3);
  }

  lemma FlipAndRelease(d: Cache, n: nat, i: nat, rt: nat, j: nat, rs: nat, k: nat, rd: nat, a: Guest, b: Guest, h0: Host, g: File)
    requires PairComputed(d, n, i, rt, j, rs, k, rd, h0, g) && n >= 3 && 0 < rd < 32 && g[rd] == Mips(Bits(BitOr), a, b)
    ensures var e := Emit(d, Compute(Bits(BitXor), k, k, Immediate(TWO_64 - 1)));
            Leaves(Unlock(Unlock(Unlock(e, rt), rs), rd), h0, WithReg(g, rd, Mips(Bits(BitNor), a, b)))
  {
    FlipPair(d, n, i, rt, j, rs, k, rd, a, b, h0, g);
    ReleasePair(Emit(d, Compute(Bits(BitXor), k, k, Immediate(TWO_64 - 1))), n, i, rt, j, rs, k, rd,
                h0, WithReg(g, rd, Mips(Bits(BitNor), a, b)));
  }

  // ---------------------------------------------------------------- variable shifts

  /** Loads the operand and masks the amount into a scratch register; the amount's own register is unlocked again. */
  function ShiftOperands(c: Cache, op: Alu, rt: nat, rs: nat): Cache {
    var c1 := Load(c, rt, WantOf(op));
    var c2 := Load(c1, rs, Any);
    var s := Index(c2, SCRATCH_REGISTER0);
    Unlock(Emit(Modify(c2, SCRATCH_REGISTER0), Compute(Bits(BitAnd), s, Index(c1, rs), Immediate(31))), rs)
  }

  function ScratchIndex(c: Cache, op: Alu, rt: nat, rs: nat): nat {
    Index(Load(Load(c, rt, WantOf(op)), rs, Any), SCRATCH_REGISTER0)
  }

  function EmitShiftVariable(c: Cache, op: Alu, rd: nat, rt: nat, rs: nat): Cache {
    var c4 := ShiftOperands(c, op, rt, rs);
    var c5 := Emit(Modify(c4, rd), Compute(op, Index(c4, rd), Index(c, rt), InReg(ScratchIndex(c, op, rt, rs))));
    Unlock(Unlock(Unlock(c5, rt), rd), SCRATCH_REGISTER0)
  }

  lemma MaskedAmount(x: Host64)
    ensures Result(Bits(BitAnd), x, 31) == Low(x) % 32 < 32
  {
    MaskFive(x);
    Arithmetic.DivMod(x, TWO_32);
    Arithmetic.ModShift(Low(x), 32, x / TWO_32 * 0x800_0000);
  }

  /** A computation into the scratch register leaves the register file and the other host registers alone. */
  lemma ScratchStep(c: Cache, a: nat, b: nat, j: nat, h0: Host, g: File)
    requires Rep(c, h0, g) && |c.entries| >= 3 && LockedOnly(c.entries, a, b)
    ensures var s := Index(c, SCRATCH_REGISTER0);
            var d := Emit(Modify(c, SCRATCH_REGISTER0), Compute(Bits(BitAnd), s, j, Immediate(31)));
            && Rep(d, h0, g) && Locked(c, d, h0, s, SCRATCH_REGISTER0)
            && HostAt(d, h0).regs[s] == Result(Bits(BitAnd), Reg(HostAt(c, h0), j), 31)
  {
    ModifyStep(c, SCRATCH_REGISTER0, h0, g, a, b);
    WriteInto(c, Modify(c, SCRATCH_REGISTER0), Index(c, SCRATCH_REGISTER0), SCRATCH_REGISTER0,
              Bits(BitAnd), j, Immediate(31), h0, g);
  }

  /** The state in which the shift itself is emitted: operand at `i`, amount at `s`, nothing else locked. */
  predicate ShiftReady(c: Cache, n: nat, op: Alu, rt: nat, i: nat, s: nat, a: Guest, b: Guest, h0: Host, g: File) {
    && rt < 32 && Rep(c, h0, g) && |c.entries| == n && At(c.entries, i, rt) && At(c.entries, s, SCRATCH_REGISTER0)
    && (forall k :: 0 <= k < n ==> c.entries[k].locks == One(k == i) + One(k == s))
    && Loaded(WantOf(op), Reg(HostAt(c, h0), i), a) && Reg(HostAt(c, h0), s) == b % 32
  }

  /** Dropping the lock on the amount's own register, once the masked amount is in the scratch register. */
  lemma ReleaseAmount(c: Cache, d: Cache, op: Alu, rt: nat, rs: nat, i: nat, j: nat, s: nat, h0: Host, g: File)
    requires |c.entries| >= 3 && rt < 32 && rs < 32
    requires BothLoaded(c, |c.entries|, i, rt, WantOf(op), j, rs, Any, h0, g)
    requires Rep(d, h0, g) && Locked(c, d, h0, s, SCRATCH_REGISTER0) && Reg(HostAt(d, h0), s) == g[rs] % 32
    ensures ShiftReady(Unlock(d, rs), |c.entries|, op, rt, i, s, g[rt], g[rs], h0, g)
  {
    UnlockStep(d, rs, j, h0, g);
  }

  /** Masking the amount, once both operands are loaded. */
  lemma MaskAmount(c: Cache, op: Alu, rt: nat, rs: nat, i: nat, j: nat, h0: Host, g: File)
    requires |c.entries| >= 3 && rt < 32 && rs < 32
    requires BothLoaded(c, |c.entries|, i, rt, WantOf(op), j, rs, Any, h0, g)
    ensures var s := Index(c, SCRATCH_REGISTER0);
            var d := Unlock(Emit(Modify(c, SCRATCH_REGISTER0), Compute(Bits(BitAnd), s, j, Immediate(31))), rs);
            ShiftReady(d, |c.entries|, op, rt, i, s, g[rt], g[rs], h0, g)
  {
    var s := Index(c, SCRATCH_REGISTER0);
    ScratchStep(c, i, j, j, h0, g);
    MaskedAmount(Reg(HostAt(c, h0), j));
    ReleaseAmount(c, Emit(Modify(c, SCRATCH_REGISTER0), Compute(Bits(BitAnd), s, j, Immediate(31))), op, rt, rs, i, j, s,
                  h0, g);
  }

  lemma ShiftOperandsReady(c: Cache, op: Alu, rt: nat, rs: nat, h0: Host, g: File)
    requires Rep(c, h0, g) && Idle(c) && rt < 32 && rs < 32 && IsShift(op)
    ensures ShiftReady(ShiftOperands(c, op, rt, rs), |c.entries|, op, rt, Index(c, rt), ScratchIndex(c, op, rt, rs),
                       g[rt], g[rs], h0, g)
  {
    LoadTwo(c, WantOf(op), Any, rt, rs, h0, g);
    var c1 := Load(c, rt, WantOf(op));
    MaskAmount(Load(c1, rs, Any), op, rt, rs, Index(c, rt), Index(c1, rs), h0, g);
  }

  /** The shift itself, from the state its operands leave. */
  lemma ShiftComputed(c: Cache, n: nat, op: Alu, rd: nat, rt: nat, i: nat, s: nat, a: Guest, b: Guest, h0: Host, g: File)
    requires ShiftReady(c, n, op, rt, i, s, a, b, h0, g) && n >= 3 && 0 < rd < 32 && IsShift(op)
    ensures var k := Index(c, rd);
            ThreeLocked(Emit(Modify(c, rd), Compute(op, k, i, InReg(s))), n, i, rt, k, rd, s, SCRATCH_REGISTER0,
                        h0, WithReg(g, rd, Mips(op, a, b)))
  {
    var h, k := HostAt(c, h0), Index(c, rd);
    var x := Result(op, Reg(h, i), Reg(h, s));
    ResultExact(op, WantOf(op), Reg(h, i), Reg(h, s), a, b);
    ComputeStep(c, rd, i, s, op, i, InReg(s), h0, g);
    HeldAfterTwo(c, Emit(Modify(c, rd), Compute(op, k, i, InReg(s))), n, i, rt, s, SCRATCH_REGISTER0, k, rd, x, h0, g);
  }

  lemma ShiftFinish(c: Cache, n: nat, op: Alu, rd: nat, rt: nat, i: nat, s: nat, a: Guest, b: Guest, h0: Host, g: File)
    requires ShiftReady(c, n, op, rt, i, s, a, b, h0, g) && n >= 3 && 0 < rd < 32 && IsShift(op)
    ensures var d := Emit(Modify(c, rd), Compute(op, Index(c, rd), i, InReg(s)));
            Leaves(Unlock(Unlock(Unlock(d, rt), rd), SCRATCH_REGISTER0), h0, WithReg(g, rd, Mips(op, a, b)))
  {
    ShiftComputed(c, n, op, rd, rt, i, s, a, b, h0, g);
    ReleasePair(Emit(Modify(c, rd), Compute(op, Index(c, rd), i, InReg(s))), n, i, rt, Index(c, rd), rd, s, SCRATCH_REGISTER0,
                h0, WithReg(g, rd, Mips(op, a, b)));
  }

  lemma ShiftVariableCorrect(c: Cache, op: Alu, rd: nat, rt: nat, rs: nat, h0: Host, g: File)
    requires Rep(c, h0, g) && Idle(c) && 0 < rd < 32 && rt < 32 && rs < 32 && IsShift(op)
    ensures var d := EmitShiftVariable(c, op, rd, rt, rs);
            Leaves(d, h0, WithReg(g, rd, Mips(op, g[rt], g[rs])))
  {
    ShiftOperandsReady(c, op, rt, rs, h0, g);
    ShiftFinish(ShiftOperands(c, op, rt, rs), |c.entries|, op, rd, rt, Index(c, rt), ScratchIndex(c, op, rt, rs),
                g[rt], g[rs], h0, g);
  }

  // ---------------------------------------------------------------- constants

  /** `immediate_mips_register` followed by its unlock; the constant is tagged as sign-extended. */
  function EmitConstant(c: Cache, rt: nat, v: Guest): Cache {
    var i := Index(c, rt);
    var c1 := Emit(Modify(c, rt), Movi(i, SignExtend(v)));
    var c2 := if i < |c1.entries| then c1.(entries := c1.entries[i := c1.entries[i].(sign := SExt)]) else c1;
    Unlock(c2, rt)
  }

  /** Moving a constant into a claimed register, and tagging it. */
  lemma ConstantInto(c: Cache, i: nat, rt: nat, v: Guest, h0: Host, g: File)
    requires Rep(c, h0, g) && At(c.entries, i, rt) && 0 < rt <= 32 && c.entries[i].locks > 0
    requires c.entries[i].modified && c.entries[i].sign == Unknown
    ensures HostAt(Emit(c, Movi(i, SignExtend(v))), h0) == Put(HostAt(c, h0), i, SignExtend(v))
    ensures var d := Emit(c, Movi(i, SignExtend(v)));
            Rep(d.(entries := d.entries[i := d.entries[i].(sign := SExt)]), h0, WithReg(g, rt, v))
  {
    LowOfExtension(v);
    WriteStep(c, i, Movi(i, SignExtend(v)), SignExtend(v), h0, g);
    var d := Emit(c, Movi(i, SignExtend(v)));
    var h := HostAt(d, h0);
    Retag(d.entries, h, WithReg(g, rt, v), i, d.entries[i].(sign := SExt), SignExtend(v));
    assert Put(h, i, SignExtend(v)) == h;
  }

  /** Dropping the only lock. */
  lemma ReleaseOne(c: Cache, d: Cache, i: nat, rt: nat, h0: Host, g: File)
    requires Idle(c) && |d.entries| == |c.entries| && At(d.entries, i, rt) && d.entries[i].locks == 1 && Rep(d, h0, g) && Exact(d, i, h0)
    requires forall k :: 0 <= k < |c.entries| && k != i ==> d.entries[k] == c.entries[k]
    ensures Leaves(Unlock(d, rt), h0, g)
  {
    UnlockStep(d, rt, i, h0, g);
  }

  lemma ConstantCorrect(c: Cache, rt: nat, v: Guest, h0: Host, g: File)
    requires Rep(c, h0, g) && Idle(c) && 0 < rt <= 32 && (rt == COND_BRANCH_TAKEN ==> v < TWO_31)
    ensures Leaves(EmitConstant(c, rt, v), h0, WithReg(g, rt, v))
  {
    var i, c0 := Index(c, rt), Modify(c, rt);
    ModifyStep(c, rt, h0, g, 0, 0);
    var g0 := WithReg(g, rt, Low(HostAt(c, h0).regs[i]));
    ConstantInto(c0, i, rt, v, h0, g0);
    assert WithReg(g0, rt, v) == WithReg(g, rt, v);
    var c1 := Emit(c0, Movi(i, SignExtend(v)));
    ReleaseOne(c, c1.(entries := c1.entries[i := c1.entries[i].(sign := SExt)]), i, rt, h0, WithReg(g, rt, v));
  }

  // ---------------------------------------------------------------- instructions and programs

  /** The scalar instructions with a register result, and the branch conditions. */
  datatype Instr =
    | Three(op: Alu, rd: nat, rs: nat, rt: nat)            // ADDU, SUBU, AND, OR, XOR, SLT, SLTU
    | Nor(rd: nat, rs: nat, rt: nat)
    | ShiftBy(op: Alu, rd: nat, rt: nat, amount: nat)      // SLL, SRL, SRA
    | ShiftVar(op: Alu, rd: nat, rt: nat, rs: nat)         // SLLV, SRLV, SRAV
    | WithImm(op: Alu, rt: nat, rs: nat, imm: Guest)       // ADDIU, SLTI, SLTIU, ANDI, ORI, XORI
    | Constant(rt: nat, v: Guest)                          // LUI, and ADDIU or ORI from $0
    | TestPair(op: Alu, rs: nat, rt: nat)                  // BEQ, BNE
    | TestZero(op: Alu, rs: nat)                           // BLTZ, BGEZ, BLEZ, BGTZ

  predicate Legal(i: Instr) {
    match i
    case Three(op, rd, rs, rt) => rd < 32 && rs < 32 && rt < 32 && !IsShift(op)
    case Nor(rd, rs, rt) => rd < 32 && rs < 32 && rt < 32
    case ShiftBy(op, rd, rt, amount) => rd < 32 && rt < 32 && amount < 32 && IsShift(op)
    case ShiftVar(op, rd, rt, rs) => rd < 32 && rt < 32 && rs < 32 && IsShift(op)
    case WithImm(op, rt, rs, _) => rt < 32 && rs < 32 && !IsShift(op)
    case Constant(rt, _) => rt < 32
    case TestPair(op, rs, rt) => rs < 32 && rt < 32 && (op.EqualTo? || op.NotEqualTo?)
    case TestZero(op, rs) =>
      rs < 32 && (op.LessSigned? || op.GreaterEqualSigned? || op.LessEqualSigned? || op.GreaterSigned?)
  }

  /** Reference semantics on the register file. */
  function Step(i: Instr, g: File): File
    requires Legal(i)
  {
    match i
    case Three(op, rd, rs, rt) => WithReg(g, rd, Mips(op, g[rs], g[rt]))
    case Nor(rd, rs, rt) => WithReg(g, rd, Mips(Bits(BitNor), g[rt], g[rs]))
    case ShiftBy(op, rd, rt, amount) => WithReg(g, rd, Mips(op, g[rt], amount))
    case ShiftVar(op, rd, rt, rs) => WithReg(g, rd, Mips(op, g[rt], g[rs]))
    case WithImm(op, rt, rs, imm) => WithReg(g, rt, Mips(op, g[rs], imm))
    case Constant(rt, v) => WithReg(g, rt, v)
    case TestPair(op, rs, rt) => WithReg(g, COND_BRANCH_TAKEN, Mips(op, g[rs], g[rt]))
    case TestZero(op, rs) => WithReg(g, COND_BRANCH_TAKEN, Mips(op, g[rs], 0))
  }

  /** SLTIU compares sign-extended values without sign. */
  function ImmediateWant(op: Alu): Want { if op.LessUnsigned? then Signed else WantOf(op) }

  /** The part of `jit_instruction` for these instructions; writes to $0 emit nothing. */
  function Compile(i: Instr, c: Cache): Cache {
    match i
    case Three(op, rd, rs, rt) => if rd == 0 then c else EmitPair(c, op, WantOf(op), rd, rs, rt)
    case Nor(rd, rs, rt) => if rd == 0 then c else EmitNor(c, rd, rs, rt)
    case ShiftBy(op, rd, rt, amount) =>
      if rd == 0 then c else EmitImmediate(c, op, WantOf(op), rd, rt, amount % TWO_64)
    case ShiftVar(op, rd, rt, rs) => if rd == 0 then c else EmitShiftVariable(c, op, rd, rt, rs)
    case WithImm(op, rt, rs, imm) =>
      if rt == 0 then c else EmitImmediate(c, op, ImmediateWant(op), rt, rs, SignExtend(imm))
    case Constant(rt, v) => if rt == 0 then c else EmitConstant(c, rt, v)
    case TestPair(op, rs, rt) => EmitPair(c, op, Signed, COND_BRANCH_TAKEN, rs, rt)
    case TestZero(op, rs) => EmitImmediate(c, op, Signed, COND_BRANCH_TAKEN, rs, 0)
  }

  lemma ImmediateOperand(op: Alu, imm: Guest)
    requires !IsShift(op)
    ensures SecondOperand(op, ImmediateWant(op), SignExtend(imm), imm)
  {
    LowOfExtension(imm);
  }

  lemma CompileRegistersCorrect(i: Instr, c: Cache, h0: Host, g: File)
    requires Legal(i) && Leaves(c, h0, g) && (i.Three? || i.Nor? || i.ShiftVar? || i.TestPair?)
    ensures Leaves(Compile(i, c), h0, Step(i, g))
  {
    match i
    case Three(op, rd, rs, rt) => if rd != 0 { PairCorrect(c, op, WantOf(op), rd, rs, rt, h0, g); }
    case Nor(rd, rs, rt) => if rd != 0 { NorCorrect(c, rd, rs, rt, h0, g); }
    case ShiftVar(op, rd, rt, rs) => if rd != 0 { ShiftVariableCorrect(c, op, rd, rt, rs, h0, g); }
    case TestPair(op, rs, rt) => PairCorrect(c, op, Signed, COND_BRANCH_TAKEN, rs, rt, h0, g);
  }

  lemma CompileImmediateCorrect(i: Instr, c: Cache, h0: Host, g: File)
    requires Legal(i) && Leaves(c, h0, g) && (i.ShiftBy? || i.WithImm? || i.Constant? || i.TestZero?)
    ensures Leaves(Compile(i, c), h0, Step(i, g))
  {
    match i
    case ShiftBy(op, rd, rt, amount) =>
      if rd != 0 {
        Amount(amount);
        ImmediateCorrect(c, op, WantOf(op), rd, rt, amount % TWO_64, amount, h0, g);
      }
    case WithImm(op, rt, rs, imm) =>
      if rt != 0 {
        ImmediateOperand(op, imm);
        ImmediateCorrect(c, op, ImmediateWant(op), rt, rs, SignExtend(imm), imm, h0, g);
      }
    case Constant(rt, v) => if rt != 0 { ConstantCorrect(c, rt, v, h0, g); }
    case TestZero(op, rs) =>
      ImmediateOperand(op, 0);
      ImmediateCorrect(c, op, Signed, COND_BRANCH_TAKEN, rs, 0, 0, h0, g);
  }

  /** One instruction: the code emitted for it computes exactly its MIPS result, and no lock is left. */
  lemma CompileCorrect(i: Instr, c: Cache, h0: Host, g: File)
    requires Legal(i) && Leaves(c, h0, g)
    ensures Leaves(Compile(i, c), h0, Step(i, g))
  {
    if i.Three? || i.Nor? || i.ShiftVar? || i.TestPair? {
      CompileRegistersCorrect(i, c, h0, g);
    } else {
      CompileImmediateCorrect(i, c, h0, g);
    }
  }
}
