/**
  What the straight instructions of a program are (rsp_jit.cpp, the switch of
  `jit_instruction`), and the semantics they give the interpreter: scalar
  instructions are exact, calls into the vector unit and coprocessor 0 are
  parameters.
 */
module Decoder {
  import opened Arithmetic
  import opened Wrappers
  import opened Isa
  import opened HostWords
  import RegisterCache
  import ScalarCode
  import MemoryCode
  import HostBytes

  /** A straight word: a scalar instruction, a call that uses at most one scalar register, or nothing at all. */
  datatype Plain = Exact(i: MemoryCode.Scalar) | Call(touched: Option<nat>) | Nothing

  function ShiftAmount(w: Word): (a: nat) ensures a < 32 { w / 64 % 32 }

  function ZeroImmediate(w: Word): Guest { w % 0x1_0000 }

  function SignImmediate(w: Word): Guest {
    if w % 0x1_0000 < 0x8000 then w % 0x1_0000 else w % 0x1_0000 + 0xffff_0000
  }

  function Three(op: RegisterCache.Alu, w: Word): Plain {
    Exact(MemoryCode.Arithmetic(ScalarCode.Three(op, Rd(w), Rs(w), Rt(w))))
  }

  function ShiftBy(op: RegisterCache.Alu, w: Word): Plain {
    Exact(MemoryCode.Arithmetic(ScalarCode.ShiftBy(op, Rd(w), Rt(w), ShiftAmount(w))))
  }

  function ShiftVar(op: RegisterCache.Alu, w: Word): Plain {
    Exact(MemoryCode.Arithmetic(ScalarCode.ShiftVar(op, Rd(w), Rt(w), Rs(w))))
  }

  function DecodeSpecial(w: Word): Plain {
    match Funct(w)
    case 0x00 => ShiftBy(RegisterCache.ShiftLeft, w)
    case 0x02 => ShiftBy(RegisterCache.ShiftRightLogical, w)
    case 0x03 => ShiftBy(RegisterCache.ShiftRightArithmetic, w)
    case 0x04 => ShiftVar(RegisterCache.ShiftLeft, w)
    case 0x06 => ShiftVar(RegisterCache.ShiftRightLogical, w)
    case 0x07 => ShiftVar(RegisterCache.ShiftRightArithmetic, w)
    case 0x20 => Three(RegisterCache.Add, w)
    case 0x21 => Three(RegisterCache.Add, w)
    case 0x22 => Three(RegisterCache.Sub, w)
    case 0x23 => Three(RegisterCache.Sub, w)
    case 0x24 => Three(RegisterCache.Bits(BitAnd), w)
    case 0x25 => Three(RegisterCache.Bits(BitOr), w)
    case 0x26 => Three(RegisterCache.Bits(BitXor), w)
    case 0x27 => Exact(MemoryCode.Arithmetic(ScalarCode.Nor(Rd(w), Rs(w), Rt(w))))
    case 0x2a => Three(RegisterCache.LessSigned, w)
    case 0x2b => Three(RegisterCache.LessUnsigned, w)
    case _ => Nothing
  }

  function WithImmediate(op: RegisterCache.Alu, w: Word, imm: Guest): Plain {
    Exact(MemoryCode.Arithmetic(ScalarCode.WithImm(op, Rt(w), Rs(w), imm)))
  }

  function ConstantOf(w: Word, v: Guest): Plain { Exact(MemoryCode.Arithmetic(ScalarCode.Constant(Rt(w), v))) }

  function LoadOf(w: Word, n: nat, signed: bool): Plain { Exact(MemoryCode.LoadFrom(Rt(w), Rs(w), SignImmediate(w), n, signed)) }

  function StoreOf(w: Word, n: nat): Plain { Exact(MemoryCode.StoreTo(Rt(w), Rs(w), SignImmediate(w), n)) }

  /** Whether the vector load or store in `w` is one of the twelve that exist; entry 10 of the loads is missing. */
  predicate VectorAccess(w: Word) {
    Rd(w) < 12 && !(Opcode(w) == 0x32 && Rd(w) == 10)
  }

  function Decode(w: Word): Plain {
    if IsVector(w) then Call(None)
    else
      match Opcode(w)
      case 0x00 => DecodeSpecial(w)
      case 0x08 => if Rs(w) == 0 then ConstantOf(w, SignImmediate(w)) else WithImmediate(RegisterCache.Add, w, SignImmediate(w))
      case 0x09 => if Rs(w) == 0 then ConstantOf(w, SignImmediate(w)) else WithImmediate(RegisterCache.Add, w, SignImmediate(w))
      case 0x0a => WithImmediate(RegisterCache.LessSigned, w, SignImmediate(w))
      case 0x0b => WithImmediate(RegisterCache.LessUnsigned, w, SignImmediate(w))
      case 0x0c => WithImmediate(RegisterCache.Bits(BitAnd), w, ZeroImmediate(w))
      case 0x0d => if Rs(w) == 0 then ConstantOf(w, ZeroImmediate(w)) else WithImmediate(RegisterCache.Bits(BitOr), w, ZeroImmediate(w))
      case 0x0e => WithImmediate(RegisterCache.Bits(BitXor), w, ZeroImmediate(w))
      case 0x0f => ConstantOf(w, ZeroImmediate(w) * 0x1_0000)
      case 0x12 => if Rs(w) == 0 || Rs(w) == 2 || Rs(w) == 4 || Rs(w) == 6 then Call(Some(Rt(w))) else Nothing
      case 0x20 => LoadOf(w, 1, true)
      case 0x21 => LoadOf(w, 2, true)
      case 0x23 => LoadOf(w, 4, true)
      case 0x24 => LoadOf(w, 1, false)
      case 0x25 => LoadOf(w, 2, false)
      case 0x27 => LoadOf(w, 4, true)
      case 0x28 => StoreOf(w, 1)
      case 0x29 => StoreOf(w, 2)
      case 0x2b => StoreOf(w, 4)
      case 0x32 => if VectorAccess(w) then Call(Some(Rs(w))) else Nothing
      case 0x3a => if VectorAccess(w) then Call(Some(Rs(w))) else Nothing
      case _ => Nothing
  }

  /** Decoding yields instructions the compiler accepts, with registers below 32. */
  lemma DecodeLegal(w: Word)
    ensures match Decode(w)
            case Exact(i) => MemoryCode.LegalScalar(i) && !TestsCondition(i)
            case Call(Some(t)) => t < 32
            case _ => true
  {
  }

  /** The branch conditions are not straight instructions. */
  predicate TestsCondition(i: MemoryCode.Scalar) { i.Arithmetic? && (i.i.TestPair? || i.i.TestZero?) }

  // ---------------------------------------------------------------- the semantics of straight instructions

  /** DMEM, in program order, and whatever else the machine has: vector registers, coprocessor 0, DRAM. */
  datatype Rest<V> = Rest(dmem: HostBytes.Dmem, other: V)

  /**
    What the called functions do.  A vector instruction sees at most one scalar
    register, and changes at most that one; a move to or from coprocessor 0 sees
    everything and returns a status.
   */
  datatype Calls<!V> = Calls(
    value: (Word, Guest, Rest<V>) -> Guest,
    rest: (Word, Guest, Rest<V>) -> Rest<V>,
    cop0: (Word, Machine<Rest<V>>) -> Machine<Rest<V>>,
    mode: (Word, Machine<Rest<V>>) -> Guest)

  /** The register file with the branch condition as register 32. */
  function FileOf(sr: Regs, cond: Guest): (g: RegisterCache.File)
    ensures forall i :: 0 <= i < 32 ==> g[i] == sr[i]
    ensures g[32] == cond
  {
    sr + [cond]
  }

  function RegsOf(g: RegisterCache.File): (sr: Regs)
    ensures forall i :: 0 <= i < 32 ==> sr[i] == g[i]
  {
    g[..32]
  }

  function Touched(sr: Regs, touched: Option<nat>): Guest {
    match touched case Some(t) => if t < 32 then sr[t] else 0 case None => 0
  }

  function WithTouched(sr: Regs, touched: Option<nat>, v: Guest): Regs {
    match touched case Some(t) => (if 0 < t < 32 then sr[t := v] else sr) case None => sr
  }

  /** The reference meaning of a straight word. */
  function PlainStep<V>(calls: Calls<V>, w: Word, m: Machine<Rest<V>>): Machine<Rest<V>> {
    match Decode(w)
    case Exact(i) =>
      DecodeLegal(w);
      var s := MemoryCode.StepScalar(i, MemoryCode.ScalarState(FileOf(m.sr, 0), m.rest.dmem));
      Machine(RegsOf(s.g), m.rest.(dmem := s.m))
    case Call(touched) =>
      var v := Touched(m.sr, touched);
      Machine(WithTouched(m.sr, touched, calls.value(w, v, m.rest)), calls.rest(w, v, m.rest))
    case Nothing => m
  }

  /** The semantics of straight instructions that the interpreter and the compiler share. */
  function SemOf<V>(calls: Calls<V>): Sem<Rest<V>> {
    Sem((w: Word, m: Machine<Rest<V>>) => PlainStep(calls, w, m),
        (w: Word, m: Machine<Rest<V>>) => calls.cop0(w, m),
        (w: Word, m: Machine<Rest<V>>) => calls.mode(w, m))
  }

  lemma SemIs<V>(calls: Calls<V>, w: Word, m: Machine<Rest<V>>)
    ensures SemOf(calls).exec(w, m) == PlainStep(calls, w, m)
    ensures SemOf(calls).cop0(w, m) == calls.cop0(w, m) && SemOf(calls).cop0Mode(w, m) == calls.mode(w, m)
  {
  }

  // ---------------------------------------------------------------- branch conditions

  /** The comparison a branch makes, as the host operation its code uses. */
  function TestOf(c: Cond): RegisterCache.Alu {
    match c
    case LessZero => RegisterCache.LessSigned
    case GreaterEqualZero => RegisterCache.GreaterEqualSigned
    case Equal => RegisterCache.EqualTo
    case NotEqual => RegisterCache.NotEqualTo
    case LessEqualZero => RegisterCache.LessEqualSigned
    case GreaterZero => RegisterCache.GreaterSigned
  }

  predicate ComparesPair(c: Cond) { c.Equal? || c.NotEqual? }

  /** The interpreter's branch condition is the 32-bit comparison the compiler emits. */
  lemma ConditionAgrees(c: Cond, a: Word, b: Word)
    ensures ScalarCode.Mips(TestOf(c), a, if ComparesPair(c) then b else 0) == if Holds(c, a, b) then 1 else 0
  {
  }
}
