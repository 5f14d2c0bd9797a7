/**
  The register-cache calls of branches and jumps (rsp_jit.cpp): saving what an
  earlier branch has left, the register target, the link register and the
  condition, and the check for a latent delay slot.  `BlockCompiler` treats each
  as one named operation; here is what the cache makes of it.
 */
module BranchCode {
  import opened Arithmetic
  import opened HostWords
  import opened RegisterCache
  import opened ScalarCode
  import opened MemoryCode
  import opened BranchRegisters

  /** The state after the code emitted so far differs from that before in the branch state only by `control`. */
  predicate Changes(h: Host, k: Host, control: Control) { k.dmem == h.dmem && k.junk == h.junk && k.control == control }

  lemma SpillStep(c: Cache, slot: Slot, r: nat, h0: Host, g: File)
    requires Rep(c, h0, g) && !slot.CondMemory?
    ensures Rep(Emit(c, Spill(slot, r)), h0, g)
    ensures HostAt(Emit(c, Spill(slot, r)), h0) == SaveSlot(HostAt(c, h0), slot, Reg(HostAt(c, h0), r))
  {
    EmitRep(c, Spill(slot, r), h0);
  }

  // ---------------------------------------------------------------- before a branch that follows a branch

  /** `jit_save_illegal_cond_branch_taken`. */
  function SpillCondition(c: Cache): Cache {
    Unlock(Emit(Load(c, COND_BRANCH_TAKEN, Any), Spill(SpilledCond, ConditionIndex(c))), COND_BRANCH_TAKEN)
  }

  lemma SpillLoaded(d: Cache, n: nat, i: nat, m: nat, slot: Slot, h0: Host, g: File)
    requires m <= 32 && OneLoaded(d, n, i, m, Any, h0, g) && n >= 3 && !slot.CondMemory?
    ensures var e := Unlock(Emit(d, Spill(slot, i)), m);
            Leaves(e, h0, g) && |e.entries| == n && HostAt(e, h0) == SaveSlot(HostAt(d, h0), slot, Reg(HostAt(d, h0), i))
  {
    SpillStep(d, slot, i, h0, g);
    UnlockStep(Emit(d, Spill(slot, i)), m, i, h0, g);
  }

  lemma SpillConditionCorrect(c: Cache, h0: Host, g: File)
    requires Leaves(c, h0, g) && CondSmall(g)
    ensures var d, h := SpillCondition(c), HostAt(c, h0);
            && Leaves(d, h0, g) && |d.entries| == |c.entries|
            && Changes(h, HostAt(d, h0), h.control.(spilledCond := g[COND_BRANCH_TAKEN]))
  {
    var c1, i := Load(c, COND_BRANCH_TAKEN, Any), ConditionIndex(c);
    LoadOne(c, Any, COND_BRANCH_TAKEN, h0, g);
    LoadMemory(c, COND_BRANCH_TAKEN, Any, h0);
    ExactValue(c1, i, h0, g);
    SpillLoaded(c1, |c.entries|, i, COND_BRANCH_TAKEN, SpilledCond, h0, g);
  }

  // ---------------------------------------------------------------- register targets

  /** `jit_save_indirect_register`. */
  function SaveIndirect(c: Cache, rs: nat): Cache {
    Unlock(Emit(Load(c, rs, Any), Spill(IndirectPc, Index(c, rs))), rs)
  }

  lemma SaveIndirectCorrect(c: Cache, rs: nat, h0: Host, g: File)
    requires Leaves(c, h0, g) && rs < 32
    ensures var d, h := SaveIndirect(c, rs), HostAt(c, h0);
            && Leaves(d, h0, g) && |d.entries| == |c.entries| && Low(HostAt(d, h0).control.indirect) == g[rs]
            && Changes(h, HostAt(d, h0), h.control.(indirect := HostAt(d, h0).control.indirect))
  {
    var c1, i := Load(c, rs, Any), Index(c, rs);
    LoadOne(c, Any, rs, h0, g);
    LoadMemory(c, rs, Any, h0);
    SpillLoaded(c1, |c.entries|, i, rs, IndirectPc, h0, g);
  }

  // ---------------------------------------------------------------- link register and condition together

  /** `immediate_mips_register`: the constant is tagged as sign-extended, and the register stays locked. */
  function ClaimConstant(c: Cache, m: nat, v: Guest): Cache {
    var i := Index(c, m);
    var d := Emit(Modify(c, m), Movi(i, SignExtend(v)));
    if i < |d.entries| then d.(entries := d.entries[i := d.entries[i].(sign := SExt)]) else d
  }

  /** JAL: both constants are emitted before either register is unlocked. */
  function LinkAndCondition(c: Cache, link: nat, v: Guest, cond: Guest): Cache {
    Unlock(Unlock(ClaimConstant(ClaimConstant(c, link, v), COND_BRANCH_TAKEN, cond), link), COND_BRANCH_TAKEN)
  }

  lemma ClaimConstantStep(c: Cache, m: nat, v: Guest, a: nat, b: nat, h0: Host, g: File)
    requires Rep(c, h0, g) && 0 < m <= 32 && |c.entries| >= 3 && LockedOnly(c.entries, a, b)
    ensures var d, i := ClaimConstant(c, m, v), Index(c, m);
            && Locked(c, d, h0, i, m) && Rep(d, h0, WithReg(g, m, v)) && Reg(HostAt(d, h0), i) == SignExtend(v)
            && Undisturbed(HostAt(c, h0), HostAt(d, h0))
  {
    var i, c0 := Index(c, m), Modify(c, m);
    ClaimStep(c, c0, i, m, h0, g, a, b);
    var g0 := WithReg(g, m, Low(Reg(HostAt(c, h0), i)));
    ConstantInto(c0, i, m, v, h0, g0);
    assert WithReg(g0, m, v) == WithReg(g, m, v);
  }

  lemma LinkAndConditionCorrect(c: Cache, link: nat, v: Guest, cond: Guest, h0: Host, g: File)
    requires Leaves(c, h0, g) && 0 < link < 32 && cond < TWO_31
    ensures var d := LinkAndCondition(c, link, v, cond);
            && Leaves(d, h0, WithReg(WithReg(g, link, v), COND_BRANCH_TAKEN, cond)) && |d.entries| == |c.entries|
            && Undisturbed(HostAt(c, h0), HostAt(d, h0))
  {
    var c1, i, g1 := ClaimConstant(c, link, v), Index(c, link), WithReg(g, link, v);
    ClaimConstantStep(c, link, v, 0, 0, h0, g);
    LinkLocked(c, c1, i, link, h0);
    var c2, k := ClaimConstant(c1, COND_BRANCH_TAKEN, cond), Index(c1, COND_BRANCH_TAKEN);
    ClaimConstantStep(c1, COND_BRANCH_TAKEN, cond, i, i, h0, g1);
    var g2 := WithReg(g1, COND_BRANCH_TAKEN, cond);
    LinkHeld(c1, c2, |c.entries|, i, link, k, h0, g2);
    ReleaseHeld(c2, |c.entries|, i, link, k, COND_BRANCH_TAKEN, h0, g2);
    UnlockQuiet(c2, link, h0);
    UnlockQuiet(Unlock(c2, link), COND_BRANCH_TAKEN, h0);
  }

  lemma LinkLocked(c: Cache, d: Cache, i: nat, m: nat, h0: Host)
    requires Idle(c) && Locked(c, d, h0, i, m)
    ensures |d.entries| == |c.entries| && At(d.entries, i, m) && LockedOnly(d.entries, i, i)
    ensures forall l :: 0 <= l < |d.entries| ==> d.entries[l].locks == One(l == i)
  {
  }

  lemma LinkHeld(c: Cache, d: Cache, n: nat, i: nat, m: nat, k: nat, h0: Host, g: File)
    requires |c.entries| == n && At(c.entries, i, m) && m < 32 && Locked(c, d, h0, k, COND_BRANCH_TAKEN) && Rep(d, h0, g)
    requires forall l :: 0 <= l < n ==> c.entries[l].locks == One(l == i)
    requires Reg(HostAt(d, h0), k) < TWO_32
    ensures TwoHeld(d, n, i, m, k, COND_BRANCH_TAKEN, h0, g)
  {
  }

  // ---------------------------------------------------------------- the check after the first instruction

  /** `has_delay_slot` into a scratch register, and the window flushed. */
  function LatentCheck(c: Cache): Cache {
    var s := Index(c, SCRATCH_REGISTER0);
    FlushRegisterWindow(Unlock(Emit(Modify(c, SCRATCH_REGISTER0), Fill(s, HasDelay)), SCRATCH_REGISTER0))
  }

  lemma FillScratch(c: Cache, d: Cache, s: nat, slot: Slot, h0: Host, g: File)
    requires Leaves(c, h0, g) && ClaimedIn(c, d, s, SCRATCH_REGISTER0, h0, g)
    ensures var e, h := Unlock(Emit(d, Fill(s, slot)), SCRATCH_REGISTER0), HostAt(d, h0);
            && Leaves(e, h0, g) && |e.entries| == |c.entries| && HostAt(e, h0) == Put(h, s, SlotValue(h, slot))
  {
    WriteStep(d, s, Fill(s, slot), SlotValue(HostAt(d, h0), slot), h0, g);
    ReleaseOne(c, Emit(d, Fill(s, slot)), s, SCRATCH_REGISTER0, h0, g);
  }

  lemma LatentCheckCorrect(c: Cache, h0: Host, g: File)
    requires Leaves(c, h0, g)
    ensures var d, s := LatentCheck(c), Index(c, SCRATCH_REGISTER0);
            && Flushed(d, h0, g) && |d.entries| == |c.entries| && s < |d.entries|
            && Reg(HostAt(d, h0), s) == SignExtend(HostAt(c, h0).control.hasDelay)
            && Undisturbed(HostAt(c, h0), HostAt(d, h0))
  {
    var s, c1 := Index(c, SCRATCH_REGISTER0), Modify(c, SCRATCH_REGISTER0);
    ClaimStep(c, c1, s, SCRATCH_REGISTER0, h0, g, 0, 0);
    CheckFilled(c, c1, Unlock(Emit(c1, Fill(s, HasDelay)), SCRATCH_REGISTER0), s, h0, g);
  }

  lemma CheckFilled(c: Cache, c1: Cache, e: Cache, s: nat, h0: Host, g: File)
    requires Leaves(c, h0, g) && ClaimedIn(c, c1, s, SCRATCH_REGISTER0, h0, g)
    requires e == Unlock(Emit(c1, Fill(s, HasDelay)), SCRATCH_REGISTER0)
    ensures var d := FlushRegisterWindow(e);
            && Flushed(d, h0, g) && |d.entries| == |c.entries| && s < |d.entries|
            && Reg(HostAt(d, h0), s) == SignExtend(HostAt(c, h0).control.hasDelay)
            && Undisturbed(HostAt(c, h0), HostAt(d, h0))
  {
    FillScratch(c, c1, s, HasDelay, h0, g);
    FlushWindowStep(e, h0, g);
  }
}
