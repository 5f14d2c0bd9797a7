/**
  The scalar instruction set as the recompiler sees it: instruction words, the
  control-flow class of each word, and the reference meaning of a program as a
  delay-slot interpreter.
 */
module Isa {
  import opened Wrappers

  type Word = w: nat | w < 0x1_0000_0000
  /** A word address in IMEM. */
  type Addr = p: nat | p < 1024

  type Imem = s: seq<Word> | |s| == 1024 witness seq(1024, _ => 0)

  /** The 32 scalar registers; register 0 always reads as zero. */
  type Regs = s: seq<Word> | |s| == 32 && s[0] == 0 witness seq(32, _ => 0)

  const MODE_CONTINUE := 1
  const MODE_BREAK := 2

  // ---------------------------------------------------------------- instruction words

  function Opcode(w: Word): nat { w / 0x400_0000 }
  function Funct(w: Word): nat { w % 64 }
  function Rs(w: Word): (r: nat) ensures r < 32 { w / 0x20_0000 % 32 }
  function Rt(w: Word): (r: nat) ensures r < 32 { w / 0x1_0000 % 32 }
  function Rd(w: Word): (r: nat) ensures r < 32 { w / 0x800 % 32 }

  /** A COP2 word with its high opcode bit set. */
  predicate IsVector(w: Word) { w / 0x200_0000 == 0x25 }

  datatype Cond = LessZero | GreaterEqualZero | Equal | NotEqual | LessEqualZero | GreaterZero

  /** What an instruction does to the flow of control. */
  datatype Control =
    | Straight
    | Cop0
    | Break
    | JumpRegister(link: nat)
    | Jump(link: nat)
    | Branch(cond: Cond, link: nat)

  function Classify(w: Word): Control {
    if IsVector(w) then Straight
    else
      match Opcode(w)
      case 0 =>
        if Funct(w) == 8 then JumpRegister(0)
        else if Funct(w) == 9 then JumpRegister(Rd(w))
        else if Funct(w) == 13 then Break
        else Straight
      case 1 =>
        if Rt(w) == 0 then Branch(LessZero, 0)
        else if Rt(w) == 1 then Branch(GreaterEqualZero, 0)
        else if Rt(w) == 16 then Branch(LessZero, 31)
        else if Rt(w) == 17 then Branch(GreaterEqualZero, 31)
        else Straight
      case 2 => Jump(0)
      case 3 => Jump(31)
      case 4 => Branch(Equal, 0)
      case 5 => Branch(NotEqual, 0)
      case 6 => Branch(LessEqualZero, 0)
      case 7 => Branch(GreaterZero, 0)
      case 16 => if Rs(w) == 0 || Rs(w) == 4 then Cop0 else Straight
      case _ => Straight
  }

  predicate ChangesFlow(c: Control) { c.JumpRegister? || c.Jump? || c.Branch? }

  /** The target of a branch or jump at word address `p`, when the word alone determines it. */
  function StaticTarget(w: Word, p: nat): Option<Addr> {
    match Classify(w)
    case Branch(_, _) => Some((p + 1 + w) % 1024)
    case Jump(_) => Some(w % 1024)
    case _ => None
  }

  // ---------------------------------------------------------------- reference semantics

  /** Scalar registers and everything else an instruction can touch. */
  datatype Machine<M> = Machine(sr: Regs, rest: M)

  /** The meaning of the instructions that do not change the flow of control. */
  datatype Sem<!M> = Sem(
    exec: (Word, Machine<M>) -> Machine<M>,
    cop0: (Word, Machine<M>) -> Machine<M>,
    cop0Mode: (Word, Machine<M>) -> nat)

  datatype State<M> = State(pc: Addr, pending: Option<Addr>, m: Machine<M>)

  datatype Outcome<M> = Running(s: State<M>) | Stopped(mode: nat, pc: Addr, m: Machine<M>)

  predicate Negative(v: Word) { v >= 0x8000_0000 }

  predicate Holds(c: Cond, a: Word, b: Word) {
    match c
    case LessZero => Negative(a)
    case GreaterEqualZero => !Negative(a)
    case Equal => a == b
    case NotEqual => a != b
    case LessEqualZero => Negative(a) || a == 0
    case GreaterZero => !Negative(a) && a != 0
  }

  /** The word address an instruction fetch at byte address `a` uses. */
  function WordOf(a: nat): Addr { a % 4096 / 4 }

  /** (pc + 8) & 0xffc for the instruction at word address `p`. */
  function LinkValue(p: nat): Word { (4 * p + 8) % 4096 / 4 * 4 }

  function WithLink<M>(m: Machine<M>, link: nat, p: nat): Machine<M> {
    if 0 < link < 32 then m.(sr := m.sr[link := LinkValue(p)]) else m
  }

  predicate Taken<M>(w: Word, m: Machine<M>) {
    match Classify(w)
    case Branch(c, _) => Holds(c, m.sr[Rs(w)], m.sr[Rt(w)])
    case JumpRegister(_) => true
    case Jump(_) => true
    case _ => false
  }

  /** The target of a branch or jump, read before the link register is written. */
  function Target<M>(w: Word, p: nat, m: Machine<M>): Addr {
    match StaticTarget(w, p)
    case Some(t) => t
    case None => WordOf(m.sr[Rs(w)])
  }

  /** Where control goes after the instruction at `pc`, given the branch still pending. */
  function NextPc(pc: nat, pending: Option<Addr>): Addr {
    match pending case Some(t) => t case None => (pc + 1) % 1024
  }

  /** One instruction of the delay-slot machine. */
  function Step<M>(sem: Sem<M>, imem: Imem, s: State<M>): Outcome<M> {
    var w, next := imem[s.pc], NextPc(s.pc, s.pending);
    match Classify(w)
    case Straight => Running(State(next, None, sem.exec(w, s.m)))
    case Cop0 =>
      var mode := sem.cop0Mode(w, s.m);
      if mode == MODE_CONTINUE then Running(State(next, None, sem.cop0(w, s.m)))
      else Stopped(mode, next, sem.cop0(w, s.m))
    case Break => Stopped(MODE_BREAK, next, s.m)
    case JumpRegister(link) => Running(Redirect(w, s, next, link))
    case Jump(link) => Running(Redirect(w, s, next, link))
    case Branch(_, link) => Running(Redirect(w, s, next, link))
  }

  function Redirect<M>(w: Word, s: State<M>, next: Addr, link: nat): State<M> {
    State(next, if Taken(w, s.m) then Some(Target(w, s.pc, s.m)) else None, WithLink(s.m, link, s.pc))
  }
}
