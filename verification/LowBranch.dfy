/**
  Branches and jumps as they are emitted (rsp_jit.cpp, `jit_instruction`): the
  cache calls of each leave exactly the state that the control-flow code of
  `BlockCompiler` describes.
 */
module LowBranch {
  import opened Arithmetic
  import opened Wrappers
  import opened Isa
  import opened HostWords
  import opened RegisterCache
  import opened ScalarCode
  import opened MemoryCode
  import opened BranchRegisters
  import opened BranchCode
  import opened Decoder
  import opened LowCode
  import opened LowRelation
  import HostBytes
  import B = BlockCompiler
  import D = DelaySlots

  /** The code emitted so far leaves the abstract state `h`. */
  ghost predicate Done<V>(c: Cache, low: Native<V>, h: Abstract<V>) {
    && h.cond <= 1 && Leaves(c, low.core, FileIn(h))
    && HostBytes.MemView(HostAt(c, low.core).dmem) == h.m.rest.dmem && low.other == h.m.rest.other
    && ControlRel(HostAt(c, low.core).control, h)
  }

  lemma StartDone<V>(c: Cache, low: Native<V>, h: Abstract<V>)
    requires Starting(c) && Rel(c.entries, low, h)
    ensures Done(c, low, h)
  {
    ToLeaves(c, low, h);
  }

  lemma DoneRel<V>(d: Cache, low: Native<V>, h: Abstract<V>)
    requires Done(d, low, h)
    ensures Rel(d.entries, AfterRun(d, low), h)
  {
    FromLeaves(d, low, h);
  }

  /** An emission that changes the register file only. */
  lemma QuietDone<V>(c: Cache, d: Cache, low: Native<V>, h: Abstract<V>, h': Abstract<V>)
    requires Done(c, low, h) && h'.cond <= 1 && Leaves(d, low.core, FileIn(h'))
    requires Undisturbed(HostAt(c, low.core), HostAt(d, low.core)) && h' == h.(m := h.m.(sr := h'.m.sr), cond := h'.cond)
    ensures Done(d, low, h')
  {
  }

  // ---------------------------------------------------------------- before a branch that follows a branch

  function SpillBefore(last: B.Info, c: Cache): Cache {
    var d := if last.branch && last.conditional then SpillCondition(c) else c;
    if last.branch && last.indirect then Emit(d, Transfer(SpilledPc, IndirectPc)) else d
  }

  lemma SpillConditionDone<V>(c: Cache, low: Native<V>, h: Abstract<V>)
    requires Done(c, low, h)
    ensures Done(SpillCondition(c), low, h.(spilledCond := h.cond))
  {
    SpillConditionCorrect(c, low.core, FileIn(h));
  }

  lemma TransferDone<V>(c: Cache, low: Native<V>, h: Abstract<V>)
    requires Done(c, low, h)
    ensures Done(Emit(c, Transfer(SpilledPc, IndirectPc)), low, h.(spilledIndirect := h.indirect))
  {
    EmitRep(c, Transfer(SpilledPc, IndirectPc), low.core);
  }

  lemma SpillBeforeDone<V>(last: B.Info, c: Cache, low: Native<V>, h: Abstract<V>)
    requires Done(c, low, h)
    ensures Done(SpillBefore(last, c), low, D.Flushed(last, h))
  {
    var d := if last.branch && last.conditional then SpillCondition(c) else c;
    var h1 := if last.branch && last.conditional then h.(spilledCond := h.cond) else h;
    if last.branch && last.conditional { SpillConditionDone(c, low, h); }
    if last.branch && last.indirect { TransferDone(d, low, h1); }
  }

  // ---------------------------------------------------------------- the parts of a branch

  lemma SaveIndirectDone<V>(c: Cache, rs: nat, low: Native<V>, h: Abstract<V>)
    requires Done(c, low, h) && rs < 32
    ensures Done(SaveIndirect(c, rs), low, h.(indirect := h.m.sr[rs]))
  {
    SaveIndirectCorrect(c, rs, low.core, FileIn(h));
  }

  lemma ConstantMemory(c: Cache, m: nat, v: Guest, h0: Host)
    ensures Undisturbed(HostAt(c, h0), HostAt(EmitConstant(c, m, v), h0))
  {
    var i := Index(c, m);
    var c1 := Emit(Modify(c, m), Movi(i, SignExtend(v)));
    WriteMemory(c, m, Movi(i, SignExtend(v)), h0);
    UnlockQuiet(if i < |c1.entries| then c1.(entries := c1.entries[i := c1.entries[i].(sign := SExt)]) else c1, m, h0);
  }

  lemma LinkedFile<V>(h: Abstract<V>, link: nat, p: nat)
    requires h.cond <= 1 && 0 < link < 32
    ensures FileIn(h.(m := WithLink(h.m, link, p))) == WithReg(FileIn(h), link, LinkValue(p))
  {
  }

  lemma ConditionFile<V>(h: Abstract<V>, v: Guest)
    requires h.cond <= 1 && v <= 1
    ensures FileIn(h.(cond := v)) == WithReg(FileIn(h), COND_BRANCH_TAKEN, v)
  {
  }

  lemma LinkDone<V>(c: Cache, link: nat, p: nat, low: Native<V>, h: Abstract<V>)
    requires Done(c, low, h) && 0 < link < 32
    ensures Done(EmitConstant(c, link, LinkValue(p)), low, h.(m := WithLink(h.m, link, p)))
  {
    ConstantCorrect(c, link, LinkValue(p), low.core, FileIn(h));
    ConstantMemory(c, link, LinkValue(p), low.core);
    var h' := h.(m := WithLink(h.m, link, p));
    LinkedFile(h, link, p);
    QuietDone(c, EmitConstant(c, link, LinkValue(p)), low, h, h');
  }

  lemma ConditionDone<V>(c: Cache, v: Guest, low: Native<V>, h: Abstract<V>)
    requires Done(c, low, h) && v <= 1
    ensures Done(EmitConstant(c, COND_BRANCH_TAKEN, v), low, h.(cond := v))
  {
    ConstantCorrect(c, COND_BRANCH_TAKEN, v, low.core, FileIn(h));
    ConstantMemory(c, COND_BRANCH_TAKEN, v, low.core);
    var h' := h.(cond := v);
    ConditionFile(h, v);
    QuietDone(c, EmitConstant(c, COND_BRANCH_TAKEN, v), low, h, h');
  }

  lemma LinkAndConditionDone<V>(c: Cache, link: nat, p: nat, v: Guest, low: Native<V>, h: Abstract<V>)
    requires Done(c, low, h) && 0 < link < 32 && v <= 1
    ensures Done(LinkAndCondition(c, link, LinkValue(p), v), low, h.(m := WithLink(h.m, link, p), cond := v))
  {
    LinkAndConditionCorrect(c, link, LinkValue(p), v, low.core, FileIn(h));
    var h1 := h.(m := WithLink(h.m, link, p));
    LinkedFile(h, link, p);
    ConditionFile(h1, v);
    QuietDone(c, LinkAndCondition(c, link, LinkValue(p), v), low, h, h1.(cond := v));
  }

  /** The comparison of a conditional branch. */
  function EmitTest(c: Cache, cond: Cond, rs: nat, rt: nat): Cache {
    if ComparesPair(cond) then EmitPair(c, TestOf(cond), Signed, COND_BRANCH_TAKEN, rs, rt)
    else EmitImmediate(c, TestOf(cond), Signed, COND_BRANCH_TAKEN, rs, 0)
  }

  lemma TestCorrect(c: Cache, cond: Cond, rs: nat, rt: nat, h0: Host, g: RegisterCache.File)
    requires Leaves(c, h0, g) && rs < 32 && rt < 32
    ensures Leaves(EmitTest(c, cond, rs, rt), h0, WithReg(g, COND_BRANCH_TAKEN, if Isa.Holds(cond, g[rs], g[rt]) then 1 else 0))
    ensures Undisturbed(HostAt(c, h0), HostAt(EmitTest(c, cond, rs, rt), h0))
  {
    ConditionAgrees(cond, g[rs], g[rt]);
    if ComparesPair(cond) {
      PairCorrect(c, TestOf(cond), Signed, COND_BRANCH_TAKEN, rs, rt, h0, g);
      PairQuiet(c, TestOf(cond), Signed, COND_BRANCH_TAKEN, rs, rt, h0);
    } else {
      ImmediateOperand(TestOf(cond), 0);
      ImmediateCorrect(c, TestOf(cond), Signed, COND_BRANCH_TAKEN, rs, 0, 0, h0, g);
      ImmediateMemory(c, TestOf(cond), Signed, COND_BRANCH_TAKEN, rs, 0, h0);
    }
  }

  lemma TestDone<V>(c: Cache, cond: Cond, rs: nat, rt: nat, low: Native<V>, h: Abstract<V>)
    requires Done(c, low, h) && rs < 32 && rt < 32
    ensures Done(EmitTest(c, cond, rs, rt), low, h.(cond := if Isa.Holds(cond, h.m.sr[rs], h.m.sr[rt]) then 1 else 0))
  {
    var v := if Isa.Holds(cond, h.m.sr[rs], h.m.sr[rt]) then 1 else 0;
    var h' := h.(cond := v);
    TestCorrect(c, cond, rs, rt, low.core, FileIn(h));
    ConditionFile(h, v);
    QuietDone(c, EmitTest(c, cond, rs, rt), low, h, h');
  }

  // ---------------------------------------------------------------- whole branches

  function LinkCache(c: Cache, link: nat, p: nat): Cache { if link == 0 then c else EmitConstant(c, link, LinkValue(p)) }

  function CondValue(next: bool): Guest { if next then 1 else 0 }

  /** The cache calls of JR, JALR, J, JAL and the branches. */
  function BranchCache(w: Word, p: nat, next: bool, c: Cache): Cache {
    match Classify(w)
    case JumpRegister(link) => EmitConstant(LinkCache(SaveIndirect(c, Rs(w)), link, p), COND_BRANCH_TAKEN, CondValue(next))
    case Jump(link) =>
      if link == 0 then EmitConstant(c, COND_BRANCH_TAKEN, CondValue(next))
      else LinkAndCondition(c, link, LinkValue(p), CondValue(next))
    case Branch(cond, link) =>
      if Rs(w) == 0 && (cond.LessEqualZero? || cond.GreaterZero?) then c
      else LinkCache(EmitTest(c, cond, Rs(w), Rt(w)), link, p)
    case _ => c
  }

  lemma LinkCacheDone<V>(c: Cache, link: nat, p: nat, low: Native<V>, h: Abstract<V>)
    requires Done(c, low, h) && link < 32
    ensures Done(LinkCache(c, link, p), low, h.(m := WithLink(h.m, link, p)))
  {
    if link > 0 { LinkDone(c, link, p, low, h); }
  }

  lemma IndirectDone<V>(rs: nat, link: nat, p: nat, v: Guest, c: Cache, low: Native<V>, h: Abstract<V>)
    requires Done(c, low, h) && rs < 32 && link < 32 && v <= 1
    ensures Done(EmitConstant(LinkCache(SaveIndirect(c, rs), link, p), COND_BRANCH_TAKEN, v), low,
                 h.(indirect := h.m.sr[rs], m := WithLink(h.m, link, p), cond := v))
  {
    var h1 := h.(indirect := h.m.sr[rs]);
    SaveIndirectDone(c, rs, low, h);
    LinkCacheDone(SaveIndirect(c, rs), link, p, low, h1);
    ConditionDone(LinkCache(SaveIndirect(c, rs), link, p), v, low, h1.(m := WithLink(h1.m, link, p)));
  }

  lemma JumpRegisterDone<V>(w: Word, p: nat, next: bool, c: Cache, low: Native<V>, h: Abstract<V>)
    requires Done(c, low, h) && Classify(w).JumpRegister?
    ensures Done(BranchCache(w, p, next, c), low, D.BranchEffect(w, p, next, h))
  {
    IndirectDone(Rs(w), Classify(w).link, p, CondValue(next), c, low, h);
  }

  lemma TestedDone<V>(cond: Cond, rs: nat, rt: nat, link: nat, p: nat, c: Cache, low: Native<V>, h: Abstract<V>)
    requires Done(c, low, h) && rs < 32 && rt < 32 && link < 32
    ensures Done(LinkCache(EmitTest(c, cond, rs, rt), link, p), low,
                 h.(m := WithLink(h.m, link, p), cond := if Isa.Holds(cond, h.m.sr[rs], h.m.sr[rt]) then 1 else 0))
  {
    TestDone(c, cond, rs, rt, low, h);
    LinkCacheDone(EmitTest(c, cond, rs, rt), link, p, low, h.(cond := if Isa.Holds(cond, h.m.sr[rs], h.m.sr[rt]) then 1 else 0));
  }

  lemma ConditionalEffect<V>(w: Word, p: nat, next: bool, h: Abstract<V>)
    requires Classify(w).Branch?
    ensures var Branch(cond, link) := Classify(w);
            && link < 32 && D.BranchEffect(w, p, next, h)
               == if Rs(w) == 0 && (cond.LessEqualZero? || cond.GreaterZero?) then h
                  else h.(m := WithLink(h.m, link, p), cond := if Isa.Holds(cond, h.m.sr[Rs(w)], h.m.sr[Rt(w)]) then 1 else 0)
  {
    D.ConditionEffect(w, p, next, h);
  }

  lemma ConditionalCache(w: Word, p: nat, next: bool, c: Cache)
    requires Classify(w).Branch?
    ensures var Branch(cond, link) := Classify(w);
            BranchCache(w, p, next, c)
            == if Rs(w) == 0 && (cond.LessEqualZero? || cond.GreaterZero?) then c
               else LinkCache(EmitTest(c, cond, Rs(w), Rt(w)), link, p)
  {
  }

  lemma ConditionalDone<V>(w: Word, p: nat, next: bool, c: Cache, low: Native<V>, h: Abstract<V>)
    requires Done(c, low, h) && Classify(w).Branch?
    ensures Done(BranchCache(w, p, next, c), low, D.BranchEffect(w, p, next, h))
  {
    var Branch(cond, link) := Classify(w);
    ConditionalEffect(w, p, next, h);
    ConditionalCache(w, p, next, c);
    if !(Rs(w) == 0 && (cond.LessEqualZero? || cond.GreaterZero?)) {
      TestedDone(cond, Rs(w), Rt(w), link, p, c, low, h);
    }
  }

  lemma BranchCacheDone<V>(w: Word, p: nat, next: bool, c: Cache, low: Native<V>, h: Abstract<V>)
    requires Done(c, low, h) && ChangesFlow(Classify(w))
    ensures Done(BranchCache(w, p, next, c), low, D.BranchEffect(w, p, next, h))
  {
    match Classify(w)
    case JumpRegister(_) => JumpRegisterDone(w, p, next, c, low, h);
    case Jump(link) =>
      if link == 0 { ConditionDone(c, CondValue(next), low, h); }
      else { LinkAndConditionDone(c, link, p, CondValue(next), low, h); }
    case Branch(_, _) => ConditionalDone(w, p, next, c, low, h);
  }

  /** A branch or jump with what goes before it. */
  function FlowCache(w: Word, p: nat, last: B.Info, next: bool, c: Cache): Cache { BranchCache(w, p, next, SpillBefore(last, c)) }

  lemma FlowDone<V>(w: Word, p: nat, last: B.Info, next: bool, c: Cache, low: Native<V>, h: Abstract<V>)
    requires Done(c, low, h) && ChangesFlow(Classify(w))
    ensures Done(FlowCache(w, p, last, next, c), low, D.AfterBranch(w, p, last, next, h))
  {
    SpillBeforeDone(last, c, low, h);
    BranchCacheDone(w, p, next, SpillBefore(last, c), low, D.Flushed(last, h));
  }
}
