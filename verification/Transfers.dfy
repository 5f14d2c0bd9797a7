/**
  What the jumps, branches and stops of the instruction set do, from the bit
  fields of their words and on integers (rsp_jit.cpp, `jit_instruction`), and
  the law that a call comes back behind its delay slot.
 */
module Transfers {
  import opened Arithmetic
  import opened Wrappers
  import opened Isa
  import opened Assembly
  import DelaySlots

  // ---------------------------------------------------------------- the effect of a transfer

  /** Where the instruction after this one is: a branch still pending goes first. */
  function Following<M>(s: State<M>): Addr {
    match s.pending case Some(t) => t case None => if s.pc == 1023 then 0 else s.pc + 1
  }

  /** The register a call writes holds the byte address two words on, and no other register changes; 0 stands for none. */
  ghost predicate Linked<M>(m: Machine<M>, n: Machine<M>, link: Field, p: Addr) {
    && n.rest == m.rest
    && (forall i :: 0 <= i < 32 && i != link ==> n.sr[i] == m.sr[i])
    && (link > 0 ==> n.sr[link] == 4 * ((p + 2) % 1024))
  }

  /** One instruction: control goes on to the next one, with a transfer to `target` behind it if there is one. */
  ghost predicate Transfers<M>(s: State<M>, o: Outcome<M>, target: Option<Addr>, link: Field) {
    o.Running? && o.s.pc == Following(s) && o.s.pending == target && Linked(s.m, o.s.m, link, s.pc)
  }

  lemma FollowingIs<M>(s: State<M>)
    ensures NextPc(s.pc, s.pending) == Following(s)
  {
  }

  lemma LinkIs(p: Addr)
    ensures LinkValue(p) == 4 * ((p + 2) % 1024)
  {
    if p < 1022 { ModUnique(4 * p + 8, 4096, 0, 4 * p + 8); } else { ModUnique(4 * p + 8, 4096, 1, 4 * p + 8 - 4096); }
  }

  lemma RedirectMeans<M>(w: Word, s: State<M>, link: Field)
    ensures Transfers(s, Running(Redirect(w, s, NextPc(s.pc, s.pending), link)),
                      if Taken(w, s.m) then Some(Target(w, s.pc, s.m)) else None, link)
  {
    LinkIs(s.pc);
  }

  // ---------------------------------------------------------------- branches

  datatype BranchKind = BLTZ | BGEZ | BLTZAL | BGEZAL | BEQ | BNE | BLEZ | BGTZ

  /** The word of a branch; the REGIMM branches use their rt field as a code. */
  function BranchWord(kind: BranchKind, rs: Field, rt: Field, imm: Half): Word {
    match kind
    case BLTZ => ImmediateWord(1, rs, 0, imm)
    case BGEZ => ImmediateWord(1, rs, 1, imm)
    case BLTZAL => ImmediateWord(1, rs, 16, imm)
    case BGEZAL => ImmediateWord(1, rs, 17, imm)
    case BEQ => ImmediateWord(4, rs, rt, imm)
    case BNE => ImmediateWord(5, rs, rt, imm)
    case BLEZ => ImmediateWord(6, rs, rt, imm)
    case BGTZ => ImmediateWord(7, rs, rt, imm)
  }

  /** When the branch is taken, on the values of rs and rt. */
  predicate Branches(kind: BranchKind, x: Word, y: Word) {
    match kind
    case BLTZ => Int(x) < 0
    case BGEZ => Int(x) >= 0
    case BLTZAL => Int(x) < 0
    case BGEZAL => Int(x) >= 0
    case BEQ => x == y
    case BNE => x != y
    case BLEZ => Int(x) <= 0
    case BGTZ => Int(x) > 0
  }

  function BranchLink(kind: BranchKind): Field { if kind.BLTZAL? || kind.BGEZAL? then 31 else 0 }

  /**
    A branch compares before it links, links whether it is taken or not, and goes
    to the word that its signed immediate counts from its delay slot.
   */
  lemma BranchMeans<M>(sem: Sem<M>, imem: Imem, s: State<M>, kind: BranchKind, rs: Field, rt: Field, imm: Half)
    requires imem[s.pc] == BranchWord(kind, rs, rt, imm)
    ensures Transfers(s, Step(sem, imem, s),
                      if Branches(kind, s.m.sr[rs], s.m.sr[rt]) then Some((s.pc + 1 + SignedHalf(imm)) % 1024) else None,
                      BranchLink(kind))
  {
    BranchDecodes(kind, rs, rt, imm);
    BranchStep(sem, imem, s, imem[s.pc], kind, rs, rt, imm);
  }

  lemma BranchStep<M>(sem: Sem<M>, imem: Imem, s: State<M>, w: Word, kind: BranchKind, rs: Field, rt: Field, imm: Half)
    requires imem[s.pc] == w && Classify(w) == Branch(CondOf(kind), BranchLink(kind)) && Rs(w) == rs && w % 0x1_0000 == imm
    requires kind.BEQ? || kind.BNE? ==> Rt(w) == rt
    ensures Transfers(s, Step(sem, imem, s),
                      if Branches(kind, s.m.sr[rs], s.m.sr[rt]) then Some((s.pc + 1 + SignedHalf(imm)) % 1024) else None,
                      BranchLink(kind))
  {
    BranchTarget(w, s.pc, imm);
    RedirectMeans(w, s, BranchLink(kind));
    Comparison(kind, s.m.sr[rs], s.m.sr[rt], s.m.sr[Rt(w)]);
  }

  lemma Comparison(kind: BranchKind, x: Word, y: Word, z: Word)
    requires kind.BEQ? || kind.BNE? ==> y == z
    ensures Isa.Holds(CondOf(kind), x, z) <==> Branches(kind, x, y)
  {
  }

  function CondOf(kind: BranchKind): Cond {
    match kind
    case BLTZ => LessZero case BGEZ => GreaterEqualZero case BLTZAL => LessZero case BGEZAL => GreaterEqualZero
    case BEQ => Equal case BNE => NotEqual case BLEZ => LessEqualZero case BGTZ => GreaterZero
  }

  lemma BranchDecodes(kind: BranchKind, rs: Field, rt: Field, imm: Half)
    ensures var w := BranchWord(kind, rs, rt, imm);
            && Classify(w) == Branch(CondOf(kind), BranchLink(kind)) && Rs(w) == rs && w % 0x1_0000 == imm
            && (kind.BEQ? || kind.BNE? ==> Rt(w) == rt)
  {
    var op := match kind case BEQ => 4 case BNE => 5 case BLEZ => 6 case BGTZ => 7 case _ => 1;
    var code: Field := match kind case BLTZ => 0 case BGEZ => 1 case BLTZAL => 16 case BGEZAL => 17 case _ => rt;
    ImmediateFields(op, rs, code, imm);
  }

  /** The whole word added to the program counter moves it by the signed immediate. */
  lemma BranchTarget(w: Word, p: nat, imm: Half)
    requires w % 0x1_0000 == imm
    ensures (p + 1 + w) % 1024 == (p + 1 + SignedHalf(imm)) % 1024
  {
    DivMod(w, 0x1_0000);
    ModShift(p + 1 + imm, 1024, w / 0x1_0000 * 64);
    ModShift(p + 1 + imm - 0x1_0000, 1024, 64);
  }

  // ---------------------------------------------------------------- jumps and stops

  function JumpWord(op: nat, index: nat): Word
    requires op < 64 && index < 0x400_0000
  {
    op * 0x400_0000 + index
  }

  /** J and JAL go to the low ten bits of their index. */
  lemma JumpMeans<M>(sem: Sem<M>, imem: Imem, s: State<M>, op: nat, index: nat)
    requires (op == 2 || op == 3) && index < 0x400_0000 && imem[s.pc] == JumpWord(op, index)
    ensures Transfers(s, Step(sem, imem, s), Some(index % 1024), if op == 3 then 31 else 0)
  {
    var w := imem[s.pc];
    JumpFields(w, op, index);
    RedirectMeans(w, s, if op == 3 then 31 else 0);
  }

  lemma JumpFields(w: Word, op: nat, index: nat)
    requires (op == 2 || op == 3) && index < 0x400_0000 && w == JumpWord(op, index)
    ensures Opcode(w) == op && !IsVector(w) && w % 1024 == index % 1024
  {
    ModUnique(w, 0x400_0000, op, index);
    ModShift(index, 1024, op * 0x1_0000);
  }

  /** JR and JALR go to the address in rs as it was before the link is written. */
  lemma JumpRegisterMeans<M>(sem: Sem<M>, imem: Imem, s: State<M>, rs: Field, rt: Field, rd: Field, sa: Field, funct: nat)
    requires (funct == 8 || funct == 9) && imem[s.pc] == RegisterWord(0, rs, rt, rd, sa, funct)
    ensures Transfers(s, Step(sem, imem, s), Some(s.m.sr[rs] / 4 % 1024), if funct == 9 then rd else 0)
  {
    var w := imem[s.pc];
    RegisterFields(0, rs, rt, rd, sa, funct);
    RedirectMeans(w, s, if funct == 9 then rd else 0);
    FetchAddress(s.m.sr[rs]);
  }

  lemma FetchAddress(a: nat)
    ensures a % 4096 / 4 == a / 4 % 1024
  {
    DivMod(a, 4096);
    var q, r := a / 4096, a % 4096;
    ModUnique(a, 4, q * 1024 + r / 4, r % 4);
    ModUnique(q * 1024 + r / 4, 1024, q, r / 4);
  }

  /** BREAK stops with the break status, behind itself or at the branch target, and changes nothing. */
  lemma BreakMeans<M>(sem: Sem<M>, imem: Imem, s: State<M>, rs: Field, rt: Field, rd: Field, sa: Field)
    requires imem[s.pc] == RegisterWord(0, rs, rt, rd, sa, 13)
    ensures Step(sem, imem, s) == Stopped(2, Following(s), s.m)
  {
    RegisterFields(0, rs, rt, rd, sa, 13);
    assert Classify(imem[s.pc]) == Break;
    FollowingIs(s);
  }

  /** MFC0 and MTC0 are calls whose status other than 1 stops the program. */
  lemma Cop0Means<M>(sem: Sem<M>, imem: Imem, s: State<M>, rs: Field, rt: Field, rd: Field, sa: Field, funct: nat)
    requires (rs == 0 || rs == 4) && funct < 64 && imem[s.pc] == RegisterWord(16, rs, rt, rd, sa, funct)
    ensures var mode, m := sem.cop0Mode(imem[s.pc], s.m), sem.cop0(imem[s.pc], s.m);
            Step(sem, imem, s) == if mode == 1 then Running(State(Following(s), None, m)) else Stopped(mode, Following(s), m)
  {
    RegisterFields(16, rs, rt, rd, sa, funct);
    assert Classify(imem[s.pc]) == Cop0;
    FollowingIs(s);
  }

  /** The words that steer control or call coprocessor 0, by their fields. */
  predicate Steers(op: nat, rs: Field, rt: Field, funct: nat) {
    || (op == 0 && funct in {8, 9, 13})
    || (op == 1 && rt in {0, 1, 16, 17})
    || 2 <= op < 8
    || (op == 16 && (rs == 0 || rs == 4))
  }

  /** Every other word is straight: control goes on, whatever the word does. */
  lemma OthersGoOn<M>(sem: Sem<M>, imem: Imem, s: State<M>, op: nat, rs: Field, rt: Field, rd: Field, sa: Field, funct: nat)
    requires op < 64 && funct < 64 && !Steers(op, rs, rt, funct) && imem[s.pc] == RegisterWord(op, rs, rt, rd, sa, funct)
    ensures Classify(imem[s.pc]) == Straight
    ensures Step(sem, imem, s) == Running(State(Following(s), None, sem.exec(imem[s.pc], s.m)))
  {
    RegisterFields(op, rs, rt, rd, sa, funct);
    StraightWord(imem[s.pc]);
    FollowingIs(s);
  }

  lemma StraightWord(w: Word)
    requires IsVector(w) || !Steers(Opcode(w), Rs(w), Rt(w), Funct(w))
    ensures Classify(w) == Straight
  {
  }

  // ---------------------------------------------------------------- calls return

  datatype CallSite = JAL(index: nat) | JALR(rs: Field, rt: Field, rd: Field, sa: Field) | OnNegative(rs: Field, imm: Half) | OnPositive(rs: Field, imm: Half)

  predicate IsCall(c: CallSite) { (c.JAL? ==> c.index < 0x400_0000) && (c.JALR? ==> c.rd > 0) }

  function CallWord(c: CallSite): Word
    requires IsCall(c)
  {
    match c
    case JAL(index) => JumpWord(3, index)
    case JALR(rs, rt, rd, sa) => RegisterWord(0, rs, rt, rd, sa, 9)
    case OnNegative(rs, imm) => BranchWord(BLTZAL, rs, 0, imm)
    case OnPositive(rs, imm) => BranchWord(BGEZAL, rs, 0, imm)
  }

  function CallLink(c: CallSite): (r: Field)
    requires IsCall(c)
    ensures r > 0
  {
    match c case JALR(_, _, rd, _) => rd case _ => 31
  }

  /** The call is made, and goes to word `t`. */
  predicate Enters(c: CallSite, p: Addr, sr: Regs, t: Addr) {
    match c
    case JAL(index) => t == index % 1024
    case JALR(rs, _, _, _) => t == sr[rs] / 4 % 1024
    case OnNegative(rs, imm) => Int(sr[rs]) < 0 && t == (p + 1 + SignedHalf(imm)) % 1024
    case OnPositive(rs, imm) => Int(sr[rs]) >= 0 && t == (p + 1 + SignedHalf(imm)) % 1024
  }

  lemma CallStep<M>(sem: Sem<M>, imem: Imem, s: State<M>, c: CallSite, t: Addr)
    requires IsCall(c) && imem[s.pc] == CallWord(c) && Enters(c, s.pc, s.m.sr, t)
    ensures Transfers(s, Step(sem, imem, s), Some(t), CallLink(c))
  {
    match c
    case JAL(index) => JumpMeans(sem, imem, s, 3, index);
    case JALR(rs, rt, rd, sa) => JumpRegisterMeans(sem, imem, s, rs, rt, rd, sa, 9);
    case OnNegative(rs, imm) => BranchMeans(sem, imem, s, BLTZAL, rs, 0, imm);
    case OnPositive(rs, imm) => BranchMeans(sem, imem, s, BGEZAL, rs, 0, imm);
  }

  /** The instruction at `p` is straight and leaves register `r` of `m` alone. */
  predicate Keeps<M>(sem: Sem<M>, imem: Imem, p: Addr, m: Machine<M>, r: Field) {
    Classify(imem[p]).Straight? && sem.exec(imem[p], m).sr[r] == m.sr[r]
  }

  function Behind(p: Addr): Addr { (p + 1) % 1024 }

  /**
    A call of any kind comes back: after the call, its delay slot, a JR through
    the link register at the target and its delay slot, control is at the
    instruction behind the call's delay slot, with nothing pending.
   */
  lemma CallReturns<M>(sem: Sem<M>, imem: Imem, p: Addr, c: CallSite, t: Addr, m: Machine<M>, called: Machine<M>,
                       rt: Field, rd: Field, sa: Field, n: nat)
    requires n == 4 && IsCall(c) && imem[p] == CallWord(c) && Enters(c, p, m.sr, t)
    requires Linked(m, called, CallLink(c), p) && Keeps(sem, imem, Behind(p), called, CallLink(c))
    requires imem[t] == RegisterWord(0, CallLink(c), rt, rd, sa, 8) && Classify(imem[Behind(t)]).Straight?
    ensures var entered := sem.exec(imem[Behind(p)], called);
            && entered.sr[CallLink(c)] % 4 == 0
            && DelaySlots.InterpreterRun(sem, imem, State(p, None, m), n)
               == Running(State((p + 2) % 1024, None, sem.exec(imem[Behind(t)], entered)))
  {
    var s0, link := State(p, None, m), CallLink(c);
    assert DelaySlots.InterpreterRun(sem, imem, s0, n - 4) == Running(s0);
    CallStep(sem, imem, s0, c, t);
    SameLinked(m, called, Step(sem, imem, s0).s.m, link, p);
    assert DelaySlots.InterpreterRun(sem, imem, s0, n - 3) == Running(State(Behind(p), Some(t), called));
    var s2 := State(t, None, sem.exec(imem[Behind(p)], called));
    assert DelaySlots.InterpreterRun(sem, imem, s0, n - 2) == Running(s2);
    JumpRegisterMeans(sem, imem, s2, link, rt, rd, sa, 8);
    SameLinked(s2.m, s2.m, Step(sem, imem, s2).s.m, 0, t);
    ReturnAddress((p + 2) % 1024);
    assert DelaySlots.InterpreterRun(sem, imem, s0, n - 1) == Running(State(Behind(t), Some((p + 2) % 1024), s2.m));
  }

  lemma SameLinked<M>(m: Machine<M>, a: Machine<M>, b: Machine<M>, link: Field, p: Addr)
    requires Linked(m, a, link, p) && Linked(m, b, link, p)
    ensures a == b
  {
    assert a.sr == b.sr;
  }

  lemma ReturnAddress(q: Addr)
    ensures 4 * q / 4 % 1024 == q && 4 * q % 4 == 0
  {
  }
}
