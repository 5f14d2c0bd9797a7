/**
  The block compiler's treatment of branch delay slots (rsp_jit.cpp): the code
  `jit_region` emits for a run of instructions, as a datatype of host operations
  with its own execution, and the compiling loop itself.

  Emitted code only ever branches forward inside the code of one instruction,
  so that code is a tree: a conditional host branch has two continuations.  A
  leaf either runs into the next instruction's code, jumps to a local label, to
  the shared latent-delay-slot code, or to one of the two thunks.  Values held
  by the register cache are addressed by name here; that the cache implements
  those names is the subject of RegisterCache.
 */
module BlockCompiler {
  import opened Wrappers
  import opened Isa

  // ---------------------------------------------------------------- host code

  /** Host registers the control-flow code uses directly. */
  datatype Reg = CondReg | Scratch0 | Scratch1 | NextPcReg | ModeReg

  datatype Op =
    | Guest(w: Word)                         // the code of a straight instruction
    | CallCop0(w: Word)                      // MFC0 or MTC0, status in ModeReg
    | Compare(cond: Cond, rs: nat, rt: nat)  // into COND_BRANCH_TAKEN
    | SetCond(v: nat)                        // COND_BRANCH_TAKEN := v
    | LoadCond(r: Reg)                       // r := COND_BRANCH_TAKEN
    | Link(rd: nat, p: nat)                  // the return address of the instruction at p
    | SaveIndirect(rs: nat)                  // INDIRECT_PC := rs
    | LoadIndirect(r: Reg)
    | SpillCond                              // frame slot := COND_BRANCH_TAKEN
    | StoreSpilledCond(r: Reg)
    | LoadSpilledCond(r: Reg)
    | SpillIndirect                          // frame slot := INDIRECT_PC
    | LoadSpilledIndirect(r: Reg)
    | Movi(r: Reg, v: nat)
    | LoadHasDelay(r: Reg)
    | StoreHasDelay(r: Reg)
    | LoadBranchTarget(r: Reg)
    | StoreBranchTarget(r: Reg)

  datatype Code =
    | Fall
    | Do(op: Op, next: Code)
    | IfEq(r: Reg, v: nat, equal: Code, other: Code)
    | Goto(index: nat)
    | GotoLatent
    | Enter
    | Return

  /** Guest state plus the host state the emitted code keeps. */
  datatype Host<M> = Host(
    m: Machine<M>,
    cond: nat, indirect: nat,
    hasDelay: nat, branchTarget: nat,
    spilledCond: nat, spilledIndirect: nat,
    condReg: nat, scratch0: nat, scratch1: nat, nextPc: nat, mode: nat)

  function Get<M>(h: Host<M>, r: Reg): nat {
    match r
    case CondReg => h.condReg
    case Scratch0 => h.scratch0
    case Scratch1 => h.scratch1
    case NextPcReg => h.nextPc
    case ModeReg => h.mode
  }

  function Put<M>(h: Host<M>, r: Reg, v: nat): Host<M> {
    match r
    case CondReg => h.(condReg := v)
    case Scratch0 => h.(scratch0 := v)
    case Scratch1 => h.(scratch1 := v)
    case NextPcReg => h.(nextPc := v)
    case ModeReg => h.(mode := v)
  }

  function Apply<M>(sem: Sem<M>, op: Op, h: Host<M>): Host<M> {
    match op
    case Guest(w) => h.(m := sem.exec(w, h.m))
    case CallCop0(w) => h.(m := sem.cop0(w, h.m), mode := sem.cop0Mode(w, h.m))
    case Compare(c, rs, rt) =>
      if rs < 32 && rt < 32 then h.(cond := if Holds(c, h.m.sr[rs], h.m.sr[rt]) then 1 else 0) else h
    case SetCond(v) => h.(cond := v)
    case LoadCond(r) => Put(h, r, h.cond)
    case Link(rd, p) => h.(m := WithLink(h.m, rd, p))
    case SaveIndirect(rs) => if rs < 32 then h.(indirect := h.m.sr[rs]) else h
    case LoadIndirect(r) => Put(h, r, h.indirect)
    case SpillCond => h.(spilledCond := h.cond)
    case StoreSpilledCond(r) => h.(spilledCond := Get(h, r))
    case LoadSpilledCond(r) => Put(h, r, h.spilledCond)
    case SpillIndirect => h.(spilledIndirect := h.indirect)
    case LoadSpilledIndirect(r) => Put(h, r, h.spilledIndirect)
    case Movi(r, v) => Put(h, r, v)
    case LoadHasDelay(r) => Put(h, r, h.hasDelay)
    case StoreHasDelay(r) => h.(hasDelay := Get(h, r))
    case LoadBranchTarget(r) => Put(h, r, h.branchTarget)
    case StoreBranchTarget(r) => h.(branchTarget := Get(h, r))
  }

  /** How control leaves a piece of emitted code. */
  datatype Exit<M> =
    | Falls(h: Host<M>)
    | ToLabel(index: nat, h: Host<M>)
    | ToLatent(h: Host<M>)
    | Enters(h: Host<M>)
    | Returns(h: Host<M>)

  function Exec<M>(sem: Sem<M>, c: Code, h: Host<M>): Exit<M>
    decreases c
  {
    match c
    case Fall => Falls(h)
    case Do(op, next) => Exec(sem, next, Apply(sem, op, h))
    case IfEq(r, v, equal, other) => if Get(h, r) == v then Exec(sem, equal, h) else Exec(sem, other, h)
    case Goto(index) => ToLabel(index, h)
    case GotoLatent => ToLatent(h)
    case Enter => Enters(h)
    case Return => Returns(h)
  }

  // ---------------------------------------------------------------- emission

  /** `InstructionInfo`; the target is a byte address. */
  datatype Info = Info(branchTarget: nat, indirect: bool, branch: bool, conditional: bool, handlesDelaySlot: bool)

  const NO_INFO := Info(0, false, false, false, false)

  /** (pc + 4 + (instr << 2)) & 0xffc */
  function BranchTargetBytes(pc: nat, w: Word): nat { (pc + 4 + w * 4 % 0x1_0000_0000) % 4096 / 4 * 4 }

  /** (instr & 0x3ff) << 2 */
  function JumpTargetBytes(w: Word): nat { w % 1024 * 4 }

  /** What `jit_instruction` reports about the word at byte address `pc`. */
  function InfoOf(w: Word, pc: nat, nextIsTarget: bool): Info {
    match Classify(w)
    case Straight => NO_INFO
    case Cop0 => NO_INFO
    case Break => NO_INFO.(handlesDelaySlot := true)
    case JumpRegister(_) => Info(0, true, true, nextIsTarget, false)
    case Jump(_) => Info(JumpTargetBytes(w), false, true, nextIsTarget, false)
    case Branch(LessEqualZero, _) => Info(BranchTargetBytes(pc, w), false, true, Rs(w) != 0, false)
    case Branch(GreaterZero, _) =>
      if Rs(w) == 0 then NO_INFO else Info(BranchTargetBytes(pc, w), false, true, true, false)
    case Branch(_, _) => Info(BranchTargetBytes(pc, w), false, true, true, false)
  }

  /** Saves the condition and register target of a branch whose delay slot holds another branch. */
  function FlushImpossibleDelaySlot(last: Info, k: Code): Code {
    var k1 := if last.branch && last.indirect then Do(SpillIndirect, k) else k;
    if last.branch && last.conditional then Do(SpillCond, k1) else k1
  }

  function LoadTarget(info: Info, r: Reg): Op {
    if info.indirect then LoadIndirect(r) else Movi(r, info.branchTarget)
  }

  /** (pc + 4) & 0xffc */
  function FollowingBytes(pc: nat): nat { (pc + 4) % 4096 / 4 * 4 }

  /** Leaving from the first instruction: a delay slot left by the previous block decides the pc. */
  function ExitFirst(pc: nat): Code {
    Do(LoadHasDelay(NextPcReg),
    IfEq(NextPcReg, 0,
      Do(Movi(NextPcReg, FollowingBytes(pc)), Return),
      Do(Movi(NextPcReg, 0), Do(StoreHasDelay(NextPcReg), Do(LoadBranchTarget(NextPcReg), Return)))))
  }

  /** Leaving later: the previous instruction may be a branch of this block. */
  function ExitLater(pc: nat, last: Info): Code {
    if !last.branch then Do(Movi(NextPcReg, FollowingBytes(pc)), Return)
    else if !last.conditional then Do(LoadTarget(last, NextPcReg), Return)
    else
      Do(LoadCond(NextPcReg),
      IfEq(NextPcReg, 0,
        Do(Movi(NextPcReg, FollowingBytes(pc)), Return),
        Do(LoadTarget(last, NextPcReg), Return)))
  }

  function ExitDynamic(pc: nat, last: Info, first: bool): Code {
    if first then ExitFirst(pc) else ExitLater(pc, last)
  }

  /** `immediate_mips_register` of the return address, when there is a link register. */
  function WriteLink(link: nat, p: nat, k: Code): Code {
    if link == 0 then k else Do(Link(link, p), k)
  }

  /** Branches and jumps; a jump whose delay slot is a label becomes a conditional branch. */
  function BranchBody(w: Word, p: nat, nextIsTarget: bool, k: Code): Code {
    var always := Do(SetCond(if nextIsTarget then 1 else 0), k);
    match Classify(w)
    case JumpRegister(link) => Do(SaveIndirect(Rs(w)), WriteLink(link, p, always))
    case Jump(link) => WriteLink(link, p, always)
    case Branch(cond, link) =>
      if Rs(w) == 0 && (cond.LessEqualZero? || cond.GreaterZero?) then k
      else Do(Compare(cond, Rs(w), Rt(w)), WriteLink(link, p, k))
    case _ => k
  }

  /** The code of one instruction, up to the handling of delay slots. */
  function Instruction(w: Word, pc: nat, last: Info, first: bool, nextIsTarget: bool, k: Code): Code {
    match Classify(w)
    case Straight => Do(Guest(w), k)
    case Cop0 => Do(CallCop0(w), IfEq(ModeReg, MODE_CONTINUE, k, ExitDynamic(pc, last, first)))
    case Break => Do(Movi(ModeReg, MODE_BREAK), ExitDynamic(pc, last, first))
    case _ => FlushImpossibleDelaySlot(last, BranchBody(w, pc / 4, nextIsTarget, k))
  }

  /** The transfer after a delay slot: a local jump when the target is in the region. */
  function TakeBranch(last: Info, base: nat, end: nat): Code {
    if !last.indirect && base <= last.branchTarget < end then Goto((last.branchTarget - base) / 4)
    else Do(LoadTarget(last, NextPcReg), Enter)
  }

  /** Normal handling: the instruction just emitted sits in the delay slot of `last`. */
  function HandleDelaySlot(last: Info, base: nat, end: nat, k: Code): Code {
    if last.conditional then
      Do(LoadCond(Scratch0), Do(SetCond(0), IfEq(Scratch0, 0, k, TakeBranch(last, base, end))))
    else
      Do(SetCond(0), TakeBranch(last, base, end))
  }

  /** Takes the first of two branches and leaves the second, whose condition is in CondReg, to the next block. */
  function TakeFirstBranch(info: Info, last: Info): Code {
    Do(StoreHasDelay(CondReg),
    Do(LoadTarget(info, CondReg),
    Do(StoreBranchTarget(CondReg),
    Do(if last.indirect then LoadSpilledIndirect(NextPcReg) else Movi(NextPcReg, last.branchTarget),
    Enter))))
  }

  /** Two branches in a row. */
  function HandleImpossibleDelaySlot(info: Info, last: Info, k: Code): Code {
    var taken := if info.conditional then TakeFirstBranch(info, last)
                 else Do(Movi(CondReg, 1), TakeFirstBranch(info, last));
    Do(LoadCond(CondReg),
    if last.conditional then
      Do(LoadSpilledCond(Scratch1), Do(Movi(Scratch0, 0), Do(StoreSpilledCond(Scratch0),
      IfEq(Scratch1, 0, k, taken))))
    else
      Do(Movi(CondReg, 0), Do(StoreSpilledCond(CondReg), taken)))
  }

  /** After the first instruction of a block: was it in a delay slot left by the previous block? */
  function CheckLatentDelaySlot(k: Code): Code {
    Do(LoadHasDelay(Scratch0), IfEq(Scratch0, 0, k, GotoLatent))
  }

  function HandleLatentDelaySlot(info: Info): Code {
    if info.branch then
      var r := if info.conditional then CondReg else NextPcReg;
      Do(if info.conditional then LoadCond(r) else Movi(r, 1),
      Do(StoreHasDelay(r),
      Do(LoadBranchTarget(NextPcReg),
      Do(LoadTarget(info, ModeReg),
      Do(StoreBranchTarget(ModeReg), Enter)))))
    else
      Do(Movi(NextPcReg, 0), Do(StoreHasDelay(NextPcReg), Do(LoadBranchTarget(NextPcReg), Enter)))
  }

  function EndOfBlock(pc: nat, last: Info): Code {
    var next := Do(Movi(NextPcReg, pc), Enter);
    var defer :=
      Do(LoadTarget(last, Scratch0), Do(StoreBranchTarget(Scratch0),
      Do(Movi(Scratch0, 1), Do(StoreHasDelay(Scratch0), next))));
    if !last.branch then next
    else if last.conditional then Do(LoadCond(CondReg), IfEq(CondReg, 0, next, defer))
    else defer
  }

  // ---------------------------------------------------------------- regions

  /** A position some static branch or jump of the region goes to. */
  predicate Labelled(imem: Imem, lo: nat, hi: nat, t: nat)
    requires hi <= 1024
  {
    lo <= t < hi && exists p :: lo <= p < hi && StaticTarget(imem[p], p) == Some(t)
  }

  predicate Region(lo: nat, hi: nat) { lo < hi <= 1024 && hi - lo <= 128 }

  function RegionInfo(imem: Imem, lo: nat, hi: nat, p: nat): Info
    requires Region(lo, hi) && lo <= p < hi
  {
    InfoOf(imem[p], 4 * p, Labelled(imem, lo, hi, p + 1))
  }

  /** The information about the instruction before `p`, none at the start of the region. */
  function LastInfo(imem: Imem, lo: nat, hi: nat, p: nat): Info
    requires Region(lo, hi) && lo <= p <= hi
  {
    if p == lo then NO_INFO else RegionInfo(imem, lo, hi, p - 1)
  }

  function Tail(info: Info, last: Info, first: bool, base: nat, end: nat): Code {
    if first && !info.handlesDelaySlot then CheckLatentDelaySlot(Fall)
    else if info.branch && last.branch then HandleImpossibleDelaySlot(info, last, Fall)
    else if !info.handlesDelaySlot && last.branch then HandleDelaySlot(last, base, end, Fall)
    else Fall
  }

  datatype Segment = Segment(labelled: bool, code: Code)

  function SegmentOf(imem: Imem, lo: nat, hi: nat, p: nat): Segment
    requires Region(lo, hi) && lo <= p < hi
  {
    var info, last := RegionInfo(imem, lo, hi, p), LastInfo(imem, lo, hi, p);
    Segment(Labelled(imem, lo, hi, p),
            Instruction(imem[p], 4 * p, last, p == lo, Labelled(imem, lo, hi, p + 1),
                        Tail(info, last, p == lo, 4 * lo, 4 * hi)))
  }

  datatype Block = Block(base: nat, segments: seq<Segment>, end: Code, latent: Option<Code>)

  /** The code of the region [lo, hi), instruction by instruction. */
  function RegionCode(imem: Imem, lo: nat, hi: nat): Block
    requires Region(lo, hi)
  {
    var first := RegionInfo(imem, lo, hi, lo);
    Block(lo,
          seq(hi - lo, i requires 0 <= i < hi - lo => SegmentOf(imem, lo, hi, lo + i)),
          EndOfBlock(4 * hi, LastInfo(imem, lo, hi, hi)),
          if first.handlesDelaySlot then None else Some(HandleLatentDelaySlot(first)))
  }
}
