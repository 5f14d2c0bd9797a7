/**
  The register-cache calls inside the delay-slot code (rsp_jit.cpp): each path
  takes the branch condition and scratch registers into host registers, drops its
  locks and flushes the window, and goes on using those host registers after the
  flush.  What they hold then is what the control-flow code in `BlockCompiler`
  reads by name.
 */
module BranchRegisters {
  import opened HostWords
  import opened RegisterCache
  import opened ScalarCode
  import opened MemoryCode

  /** Nothing is cached or locked, and memory holds the register file. */
  predicate Flushed(d: Cache, h0: Host, g: File) {
    && Leaves(d, h0, g) && (forall k :: 0 <= k < |d.entries| ==> !d.entries[k].live)
    && |HostAt(d, h0).sr| == 33 && HostAt(d, h0).sr[1..] == g[1..]
  }

  /** The branch condition, which is zero or one, is a value a host register can hold without its upper half. */
  predicate CondSmall(g: File) { g[COND_BRANCH_TAKEN] < TWO_31 }

  /** What an exact register holds is the value itself. */
  lemma ExactValue(c: Cache, i: nat, h0: Host, g: File)
    requires Rep(c, h0, g) && At(c.entries, i, COND_BRANCH_TAKEN) && Exact(c, i, h0)
    ensures Reg(HostAt(c, h0), i) == g[COND_BRANCH_TAKEN]
  {
  }

  /** Flushing keeps the host registers themselves. */
  lemma FlushWindowStep(c: Cache, h0: Host, g: File)
    requires Leaves(c, h0, g)
    ensures var d := FlushRegisterWindow(c); Flushed(d, h0, g) && SameRegs(HostAt(c, h0), HostAt(d, h0))
  {
    FlushWindowWritesAll(c, h0, g);
    RunAppend(c.code, FlushOps(c.entries, _ => true, |c.entries|), h0);
    FlushKeepsRegs(c.entries, _ => true, |c.entries|, HostAt(c, h0));
  }

  // ---------------------------------------------------------------- two branches in a row

  /** The condition and both scratch registers, all locked. */
  function ConditionAndScratch(c: Cache): Cache {
    Modify(Modify(Load(c, COND_BRANCH_TAKEN, Any), SCRATCH_REGISTER0), SCRATCH_REGISTER1)
  }

  /** The start of `jit_handle_impossible_delay_slot`. */
  function HoldBranchState(c: Cache): Cache {
    FlushRegisterWindow(UnlockThree(ConditionAndScratch(c), COND_BRANCH_TAKEN, SCRATCH_REGISTER0, SCRATCH_REGISTER1))
  }

  function ConditionIndex(c: Cache): nat { Index(c, COND_BRANCH_TAKEN) }
  function Scratch0Index(c: Cache): nat { Index(Load(c, COND_BRANCH_TAKEN, Any), SCRATCH_REGISTER0) }
  function Scratch1Index(c: Cache): nat {
    Index(Modify(Load(c, COND_BRANCH_TAKEN, Any), SCRATCH_REGISTER0), SCRATCH_REGISTER1)
  }

  lemma ScratchAfterOne(c: Cache, d: Cache, n: nat, i: nat, s: nat, h0: Host, g: File)
    requires OneLoaded(c, n, i, COND_BRANCH_TAKEN, Any, h0, g) && ClaimedIn(c, d, s, SCRATCH_REGISTER0, h0, g)
    ensures TwoHeld(d, n, i, COND_BRANCH_TAKEN, s, SCRATCH_REGISTER0, h0, g) && s != i
  {
  }

  lemma ScratchAfterTwo(c: Cache, d: Cache, n: nat, i: nat, s: nat, r: nat, h0: Host, g: File)
    requires TwoHeld(c, n, i, COND_BRANCH_TAKEN, s, SCRATCH_REGISTER0, h0, g) && ClaimedIn(c, d, r, SCRATCH_REGISTER1, h0, g)
    ensures ThreeLocked(d, n, i, COND_BRANCH_TAKEN, s, SCRATCH_REGISTER0, r, SCRATCH_REGISTER1, h0, g) && r != i && r != s
  {
  }

  lemma OneHeldOnly(c: Cache, n: nat, i: nat, h0: Host, g: File)
    requires OneLoaded(c, n, i, COND_BRANCH_TAKEN, Any, h0, g)
    ensures Rep(c, h0, g) && |c.entries| == n && LockedOnly(c.entries, i, i) && Reg(HostAt(c, h0), i) == g[COND_BRANCH_TAKEN]
  {
    ExactValue(c, i, h0, g);
  }

  lemma TwoHeldOnly(c: Cache, n: nat, i: nat, m1: nat, s: nat, m2: nat, h0: Host, g: File)
    requires TwoHeld(c, n, i, m1, s, m2, h0, g)
    ensures Rep(c, h0, g) && |c.entries| == n && LockedOnly(c.entries, i, s)
  {
  }

  lemma BranchStateLocked(c: Cache, h0: Host, g: File)
    requires Leaves(c, h0, g) && CondSmall(g)
    ensures var d, i, s, r := ConditionAndScratch(c), ConditionIndex(c), Scratch0Index(c), Scratch1Index(c);
            && ThreeLocked(d, |c.entries|, i, COND_BRANCH_TAKEN, s, SCRATCH_REGISTER0, r, SCRATCH_REGISTER1, h0, g)
            && i != s && i != r && s != r && Reg(HostAt(d, h0), i) == g[COND_BRANCH_TAKEN]
            && Undisturbed(HostAt(c, h0), HostAt(d, h0))
  {
    var c1, n, i, s := Load(c, COND_BRANCH_TAKEN, Any), |c.entries|, ConditionIndex(c), Scratch0Index(c);
    LoadOne(c, Any, COND_BRANCH_TAKEN, h0, g);
    LoadMemory(c, COND_BRANCH_TAKEN, Any, h0);
    BranchStateClaimed(c1, Modify(c1, SCRATCH_REGISTER0), ConditionAndScratch(c), n, i, s, Scratch1Index(c), h0, g);
  }

  lemma BranchStateClaimed(c: Cache, d: Cache, e: Cache, n: nat, i: nat, s: nat, r: nat, h0: Host, g: File)
    requires OneLoaded(c, n, i, COND_BRANCH_TAKEN, Any, h0, g) && n >= 3
    requires d == Modify(c, SCRATCH_REGISTER0) && s == Index(c, SCRATCH_REGISTER0)
    requires e == Modify(d, SCRATCH_REGISTER1) && r == Index(d, SCRATCH_REGISTER1)
    ensures ThreeLocked(e, n, i, COND_BRANCH_TAKEN, s, SCRATCH_REGISTER0, r, SCRATCH_REGISTER1, h0, g)
    ensures i != s && i != r && s != r && Reg(HostAt(e, h0), i) == g[COND_BRANCH_TAKEN] && SameRegs(HostAt(c, h0), HostAt(e, h0))
  {
    OneHeldOnly(c, n, i, h0, g);
    ClaimStep(c, d, s, SCRATCH_REGISTER0, h0, g, i, i);
    ScratchAfterOne(c, d, n, i, s, h0, g);
    TwoHeldOnly(d, n, i, COND_BRANCH_TAKEN, s, SCRATCH_REGISTER0, h0, g);
    ClaimStep(d, e, r, SCRATCH_REGISTER1, h0, g, i, s);
    ScratchAfterTwo(d, e, n, i, s, r, h0, g);
  }

  /** After the flush three distinct host registers are at hand, one of them with the condition, and nothing is lost. */
  lemma HoldBranchStateCorrect(c: Cache, h0: Host, g: File)
    requires Leaves(c, h0, g) && CondSmall(g)
    ensures var d, i, s, r := HoldBranchState(c), ConditionIndex(c), Scratch0Index(c), Scratch1Index(c);
            && Flushed(d, h0, g) && |d.entries| == |c.entries| && i < |d.entries| && s < |d.entries| && r < |d.entries|
            && Undisturbed(HostAt(c, h0), HostAt(d, h0))
            && i != s && i != r && s != r && Reg(HostAt(d, h0), i) == g[COND_BRANCH_TAKEN]
  {
    BranchStateLocked(c, h0, g);
    var d, n := ConditionAndScratch(c), |c.entries|;
    UnlockThreeStep(d, n, ConditionIndex(c), COND_BRANCH_TAKEN, Scratch0Index(c), SCRATCH_REGISTER0,
                    Scratch1Index(c), SCRATCH_REGISTER1, h0, g);
    FlushWindowStep(UnlockThree(d, COND_BRANCH_TAKEN, SCRATCH_REGISTER0, SCRATCH_REGISTER1), h0, g);
  }

  // ---------------------------------------------------------------- a delay slot

  /** The condition claimed for reading and for writing, then a scratch register for its copy. */
  function ConditionTwice(c: Cache): Cache {
    Modify(Modify(Load(c, COND_BRANCH_TAKEN, Any), COND_BRANCH_TAKEN), SCRATCH_REGISTER0)
  }

  function CopyIndex(c: Cache): nat {
    Index(Modify(Load(c, COND_BRANCH_TAKEN, Any), COND_BRANCH_TAKEN), SCRATCH_REGISTER0)
  }

  /** The start of `jit_handle_delay_slot` for a conditional branch: copy the condition and clear it. */
  function TakeCondition(c: Cache): Cache {
    var i, s := ConditionIndex(c), CopyIndex(c);
    var d := Emit(Emit(ConditionTwice(c), Move(s, i)), Movi(i, 0));
    FlushRegisterWindow(UnlockThree(d, COND_BRANCH_TAKEN, COND_BRANCH_TAKEN, SCRATCH_REGISTER0))
  }

  /** The condition's entry is claimed for writing while it is locked for reading. */
  lemma ClaimAgain(c: Cache, d: Cache, n: nat, i: nat, k: nat, h0: Host, g: File)
    requires OneLoaded(c, n, i, COND_BRANCH_TAKEN, Any, h0, g) && ClaimedIn(c, d, k, COND_BRANCH_TAKEN, h0, g)
    ensures k == i && TwoHeld(d, n, i, COND_BRANCH_TAKEN, i, COND_BRANCH_TAKEN, h0, g)
  {
    ExactValue(c, i, h0, g);
    assert g[COND_BRANCH_TAKEN := g[COND_BRANCH_TAKEN]] == g;
  }

  /** The state in which the copy and the clearing are emitted. */
  predicate Claimed(d: Cache, n: nat, i: nat, s: nat, h0: Host, g: File) {
    && ThreeLocked(d, n, i, COND_BRANCH_TAKEN, i, COND_BRANCH_TAKEN, s, SCRATCH_REGISTER0, h0, g) && i != s
    && d.entries[i].modified && d.entries[i].sign == Unknown && d.entries[s].modified && d.entries[s].sign == Unknown
  }

  lemma ClaimCopy(c: Cache, d: Cache, n: nat, i: nat, s: nat, h0: Host, g: File)
    requires TwoHeld(c, n, i, COND_BRANCH_TAKEN, i, COND_BRANCH_TAKEN, h0, g) && ClaimedIn(c, d, s, SCRATCH_REGISTER0, h0, g)
    requires c.entries[i].modified && c.entries[i].sign == Unknown
    ensures Claimed(d, n, i, s, h0, g)
  {
  }

  lemma CopyCondition(c: Cache, n: nat, i: nat, s: nat, v: Guest, h0: Host, g: File)
    requires Claimed(c, n, i, s, h0, g) && Reg(HostAt(c, h0), i) == v
    ensures Claimed(Emit(c, Move(s, i)), n, i, s, h0, g) && Reg(HostAt(Emit(c, Move(s, i)), h0), s) == v
    ensures Undisturbed(HostAt(c, h0), HostAt(Emit(c, Move(s, i)), h0))
  {
    WriteStep(c, s, Move(s, i), Reg(HostAt(c, h0), i), h0, g);
  }

  lemma ClearCondition(c: Cache, n: nat, i: nat, s: nat, v: Guest, h0: Host, g: File)
    requires Claimed(c, n, i, s, h0, g) && Reg(HostAt(c, h0), s) == v
    ensures var d := Emit(c, Movi(i, 0));
            && Claimed(d, n, i, s, h0, WithReg(g, COND_BRANCH_TAKEN, 0)) && Reg(HostAt(d, h0), s) == v
            && Undisturbed(HostAt(c, h0), HostAt(d, h0))
  {
    WriteStep(c, i, Movi(i, 0), 0, h0, g);
  }

  lemma ConditionTwiceCorrect(c: Cache, h0: Host, g: File)
    requires Leaves(c, h0, g) && CondSmall(g)
    ensures Claimed(ConditionTwice(c), |c.entries|, ConditionIndex(c), CopyIndex(c), h0, g)
    ensures Reg(HostAt(ConditionTwice(c), h0), ConditionIndex(c)) == g[COND_BRANCH_TAKEN]
    ensures Undisturbed(HostAt(c, h0), HostAt(ConditionTwice(c), h0))
  {
    var c1 := Load(c, COND_BRANCH_TAKEN, Any);
    LoadOne(c, Any, COND_BRANCH_TAKEN, h0, g);
    LoadMemory(c, COND_BRANCH_TAKEN, Any, h0);
    ConditionClaimed(c1, Modify(c1, COND_BRANCH_TAKEN), ConditionTwice(c), |c.entries|, ConditionIndex(c),
                     Index(c1, COND_BRANCH_TAKEN), CopyIndex(c), h0, g);
  }

  lemma ConditionClaimed(c: Cache, d: Cache, e: Cache, n: nat, i: nat, k: nat, s: nat, h0: Host, g: File)
    requires OneLoaded(c, n, i, COND_BRANCH_TAKEN, Any, h0, g) && n >= 3
    requires d == Modify(c, COND_BRANCH_TAKEN) && k == Index(c, COND_BRANCH_TAKEN)
    requires e == Modify(d, SCRATCH_REGISTER0) && s == Index(d, SCRATCH_REGISTER0)
    ensures k == i && Claimed(e, n, i, s, h0, g) && Reg(HostAt(e, h0), i) == g[COND_BRANCH_TAKEN]
    ensures SameRegs(HostAt(c, h0), HostAt(e, h0))
  {
    OneHeldOnly(c, n, i, h0, g);
    ClaimStep(c, d, k, COND_BRANCH_TAKEN, h0, g, i, i);
    ClaimAgain(c, d, n, i, k, h0, g);
    TwoHeldOnly(d, n, i, COND_BRANCH_TAKEN, i, COND_BRANCH_TAKEN, h0, g);
    ClaimStep(d, e, s, SCRATCH_REGISTER0, h0, g, i, i);
    ClaimCopy(d, e, n, i, s, h0, g);
  }

  /** After the flush the copy holds the old condition, and the condition in memory is zero. */
  lemma TakeConditionCorrect(c: Cache, h0: Host, g: File)
    requires Leaves(c, h0, g) && CondSmall(g)
    ensures var d, s := TakeCondition(c), CopyIndex(c);
            && Flushed(d, h0, WithReg(g, COND_BRANCH_TAKEN, 0)) && |d.entries| == |c.entries| && s < |d.entries|
            && Undisturbed(HostAt(c, h0), HostAt(d, h0))
            && Reg(HostAt(d, h0), s) == g[COND_BRANCH_TAKEN]
  {
    var c3, n, i, s, v := ConditionTwice(c), |c.entries|, ConditionIndex(c), CopyIndex(c), g[COND_BRANCH_TAKEN];
    ConditionTwiceCorrect(c, h0, g);
    CopyCondition(c3, n, i, s, v, h0, g);
    var c4 := Emit(c3, Move(s, i));
    ClearCondition(c4, n, i, s, v, h0, g);
    FlushCleared(Emit(c4, Movi(i, 0)), n, i, s, h0, WithReg(g, COND_BRANCH_TAKEN, 0));
  }

  lemma FlushCleared(c: Cache, n: nat, i: nat, s: nat, h0: Host, g: File)
    requires Claimed(c, n, i, s, h0, g) && n >= 3
    ensures var d := FlushRegisterWindow(UnlockThree(c, COND_BRANCH_TAKEN, COND_BRANCH_TAKEN, SCRATCH_REGISTER0));
            Flushed(d, h0, g) && s < |d.entries| == n && SameRegs(HostAt(c, h0), HostAt(d, h0))
  {
    UnlockThreeStep(c, n, i, COND_BRANCH_TAKEN, i, COND_BRANCH_TAKEN, s, SCRATCH_REGISTER0, h0, g);
    FlushWindowStep(UnlockThree(c, COND_BRANCH_TAKEN, COND_BRANCH_TAKEN, SCRATCH_REGISTER0), h0, g);
  }

  /** The same for an unconditional branch: the condition is cleared and nothing copied. */
  function DropCondition(c: Cache): Cache {
    FlushRegisterWindow(Unlock(Emit(Modify(c, COND_BRANCH_TAKEN), Movi(ConditionIndex(c), 0)), COND_BRANCH_TAKEN))
  }

  lemma DropConditionCorrect(c: Cache, h0: Host, g: File)
    requires Leaves(c, h0, g) && CondSmall(g)
    ensures Flushed(DropCondition(c), h0, WithReg(g, COND_BRANCH_TAKEN, 0)) && |DropCondition(c).entries| == |c.entries|
    ensures Undisturbed(HostAt(c, h0), HostAt(DropCondition(c), h0))
  {
    var i, c1 := ConditionIndex(c), Modify(c, COND_BRANCH_TAKEN);
    ClaimStep(c, c1, i, COND_BRANCH_TAKEN, h0, g, 0, 0);
    ClearClaimed(c, c1, i, h0, g);
    FlushWindowStep(Unlock(Emit(c1, Movi(i, 0)), COND_BRANCH_TAKEN), h0, WithReg(g, COND_BRANCH_TAKEN, 0));
  }

  lemma ClearClaimed(c: Cache, d: Cache, i: nat, h0: Host, g: File)
    requires Leaves(c, h0, g) && ClaimedIn(c, d, i, COND_BRANCH_TAKEN, h0, g)
    ensures var e := Unlock(Emit(d, Movi(i, 0)), COND_BRANCH_TAKEN);
            && Leaves(e, h0, WithReg(g, COND_BRANCH_TAKEN, 0)) && |e.entries| == |c.entries|
            && Undisturbed(HostAt(d, h0), HostAt(e, h0))
  {
    var g1 := WithReg(g, COND_BRANCH_TAKEN, Low(Reg(HostAt(c, h0), i)));
    var g2 := WithReg(g, COND_BRANCH_TAKEN, 0);
    WriteStep(d, i, Movi(i, 0), 0, h0, g1);
    assert WithReg(g1, COND_BRANCH_TAKEN, 0) == g2;
    ReleaseOne(c, Emit(d, Movi(i, 0)), i, COND_BRANCH_TAKEN, h0, g2);
  }

  // ---------------------------------------------------------------- latent delay slots and block ends

  /** The start of `jit_handle_latent_delay_slot`: the condition in a host register, and the window flushed. */
  function HoldCondition(c: Cache): Cache {
    FlushRegisterWindow(Unlock(Load(c, COND_BRANCH_TAKEN, Any), COND_BRANCH_TAKEN))
  }

  lemma ReleaseLoaded(d: Cache, n: nat, i: nat, h0: Host, g: File)
    requires OneLoaded(d, n, i, COND_BRANCH_TAKEN, Any, h0, g) && n >= 3
    ensures var u := Unlock(d, COND_BRANCH_TAKEN);
            Leaves(u, h0, g) && SameHolders(d, u) && Reg(HostAt(u, h0), i) == g[COND_BRANCH_TAKEN]
  {
    UnlockStep(d, COND_BRANCH_TAKEN, i, h0, g);
    UnlockHolders(d, COND_BRANCH_TAKEN);
  }

  lemma HoldConditionCorrect(c: Cache, h0: Host, g: File)
    requires Leaves(c, h0, g) && CondSmall(g)
    ensures var d := HoldCondition(c);
            && Flushed(d, h0, g) && |d.entries| == |c.entries| && Reg(HostAt(d, h0), ConditionIndex(c)) == g[COND_BRANCH_TAKEN]
            && Undisturbed(HostAt(c, h0), HostAt(d, h0))
  {
    var c1 := Load(c, COND_BRANCH_TAKEN, Any);
    LoadOne(c, Any, COND_BRANCH_TAKEN, h0, g);
    LoadMemory(c, COND_BRANCH_TAKEN, Any, h0);
    ReleaseLoaded(c1, |c.entries|, ConditionIndex(c), h0, g);
    FlushWindowStep(Unlock(c1, COND_BRANCH_TAKEN), h0, g);
  }

  /** `jit_end_of_block`, which starts from a flushed window: the condition and, after its unlock, a scratch register. */
  function HoldForEnd(c: Cache): Cache {
    var c1 := Unlock(Load(c, COND_BRANCH_TAKEN, Any), COND_BRANCH_TAKEN);
    FlushRegisterWindow(Unlock(Modify(c1, SCRATCH_REGISTER0), SCRATCH_REGISTER0))
  }

  function EndScratchIndex(c: Cache): nat {
    Index(Unlock(Load(c, COND_BRANCH_TAKEN, Any), COND_BRANCH_TAKEN), SCRATCH_REGISTER0)
  }

  /** With a free entry left, the scratch register is not the one the condition is in, although that is unlocked. */
  lemma FreeApart(es: seq<Entry>, i: nat, k: nat)
    requires At(es, i, COND_BRANCH_TAKEN) && k < |es| && !es[k].live
    ensures FindRegister(es, SCRATCH_REGISTER0) != i
  {
  }

  lemma OthersStayFree(c: Cache, i: nat, h0: Host, g: File)
    requires Leaves(c, h0, g) && CondSmall(g) && (forall k :: 0 <= k < |c.entries| ==> !c.entries[k].live) && i == ConditionIndex(c)
    ensures var d := Load(c, COND_BRANCH_TAKEN, Any);
            |d.entries| == |c.entries| && forall k :: 0 <= k < |c.entries| && k != i ==> !d.entries[k].live
  {
    LoadStep(c, COND_BRANCH_TAKEN, Any, h0, g, 0, 0);
  }

  lemma ScratchBeside(u: Cache, i: nat, k: nat, h0: Host, g: File)
    requires Leaves(u, h0, g) && At(u.entries, i, COND_BRANCH_TAKEN) && k < |u.entries| && !u.entries[k].live
    requires Reg(HostAt(u, h0), i) == g[COND_BRANCH_TAKEN]
    ensures var d, s := FlushRegisterWindow(Unlock(Modify(u, SCRATCH_REGISTER0), SCRATCH_REGISTER0)), Index(u, SCRATCH_REGISTER0);
            && Flushed(d, h0, g) && s < |d.entries| == |u.entries| && s != i && Reg(HostAt(d, h0), i) == g[COND_BRANCH_TAKEN]
            && Undisturbed(HostAt(u, h0), HostAt(d, h0))
  {
    FreeApart(u.entries, i, k);
    ScratchOnly(u, h0, g);
  }

  lemma UnlockedCondition(c: Cache, i: nat, h0: Host, g: File)
    requires Leaves(c, h0, g) && CondSmall(g) && (forall k :: 0 <= k < |c.entries| ==> !c.entries[k].live) && i == ConditionIndex(c)
    ensures var u := Unlock(Load(c, COND_BRANCH_TAKEN, Any), COND_BRANCH_TAKEN);
            && Leaves(u, h0, g) && At(u.entries, i, COND_BRANCH_TAKEN) && Reg(HostAt(u, h0), i) == g[COND_BRANCH_TAKEN]
            && |u.entries| == |c.entries| && !u.entries[if i == 0 then 1 else 0].live && Undisturbed(HostAt(c, h0), HostAt(u, h0))
  {
    LoadOne(c, Any, COND_BRANCH_TAKEN, h0, g);
    LoadMemory(c, COND_BRANCH_TAKEN, Any, h0);
    OthersStayFree(c, i, h0, g);
    ReleaseLoaded(Load(c, COND_BRANCH_TAKEN, Any), |c.entries|, i, h0, g);
  }

  lemma HoldForEndCorrect(c: Cache, h0: Host, g: File)
    requires Leaves(c, h0, g) && CondSmall(g) && forall k :: 0 <= k < |c.entries| ==> !c.entries[k].live
    ensures var d, i, s := HoldForEnd(c), ConditionIndex(c), EndScratchIndex(c);
            && Flushed(d, h0, g) && s < |d.entries| == |c.entries| && s != i && Reg(HostAt(d, h0), i) == g[COND_BRANCH_TAKEN]
            && Undisturbed(HostAt(c, h0), HostAt(d, h0))
  {
    var i := ConditionIndex(c);
    UnlockedCondition(c, i, h0, g);
    ScratchBeside(Unlock(Load(c, COND_BRANCH_TAKEN, Any), COND_BRANCH_TAKEN), i, if i == 0 then 1 else 0, h0, g);
  }

  lemma ScratchOnly(c: Cache, h0: Host, g: File)
    requires Leaves(c, h0, g)
    ensures var d := FlushRegisterWindow(Unlock(Modify(c, SCRATCH_REGISTER0), SCRATCH_REGISTER0));
            && Flushed(d, h0, g) && |d.entries| == |c.entries| && Index(c, SCRATCH_REGISTER0) < |c.entries|
            && SameRegs(HostAt(c, h0), HostAt(d, h0))
  {
    var s, c1 := Index(c, SCRATCH_REGISTER0), Modify(c, SCRATCH_REGISTER0);
    ClaimStep(c, c1, s, SCRATCH_REGISTER0, h0, g, 0, 0);
    ReleaseScratch(c, c1, s, h0, g);
    FlushWindowStep(Unlock(c1, SCRATCH_REGISTER0), h0, g);
  }

  lemma ReleaseScratch(c: Cache, d: Cache, s: nat, h0: Host, g: File)
    requires Leaves(c, h0, g) && ClaimedIn(c, d, s, SCRATCH_REGISTER0, h0, g)
    ensures Leaves(Unlock(d, SCRATCH_REGISTER0), h0, g) && HostAt(Unlock(d, SCRATCH_REGISTER0), h0) == HostAt(d, h0)
    ensures |Unlock(d, SCRATCH_REGISTER0).entries| == |c.entries|
  {
    ReleaseOne(c, d, s, SCRATCH_REGISTER0, h0, g);
  }
}
