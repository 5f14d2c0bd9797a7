/**
  Instruction words put together from their bit fields, and what each straight
  one does to the machine, said on integers, bits and big-endian bytes
  (rsp_jit.cpp, `jit_instruction`).  `Decoder.PlainStep` is proved to do that for
  every choice of fields, and nothing at all for any other word.
 */
module Assembly {
  import opened Arithmetic
  import opened Wrappers
  import opened Isa
  import opened HostWords
  import opened Decoder
  import HostBytes
  import RegisterCache
  import ScalarCode
  import ScalarMemory
  import MemoryCode

  type Field = x: nat | x < 32
  type Half = x: nat | x < 0x1_0000

  // ---------------------------------------------------------------- words

  /** The register form of a word. */
  function RegisterWord(op: nat, rs: Field, rt: Field, rd: Field, sa: Field, funct: nat): Word
    requires op < 64 && funct < 64
  {
    op * 0x400_0000 + rs * 0x20_0000 + rt * 0x1_0000 + rd * 0x800 + sa * 0x40 + funct
  }

  /** The immediate form of a word. */
  function ImmediateWord(op: nat, rs: Field, rt: Field, imm: Half): Word
    requires op < 64
  {
    op * 0x400_0000 + rs * 0x20_0000 + rt * 0x1_0000 + imm
  }

  lemma ImmediateFields(op: nat, rs: Field, rt: Field, imm: Half)
    requires op < 64
    ensures var w := ImmediateWord(op, rs, rt, imm);
            Opcode(w) == op && Rs(w) == rs && Rt(w) == rt && w % 0x1_0000 == imm
            && (IsVector(w) <==> op == 18 && rs >= 16)
  {
    var w := ImmediateWord(op, rs, rt, imm);
    ModUnique(w, 0x1_0000, op * 1024 + rs * 32 + rt, imm);
    ModUnique(op * 1024 + rs * 32 + rt, 32, op * 32 + rs, rt);
    ModUnique(w, 0x20_0000, op * 32 + rs, rt * 0x1_0000 + imm);
    ModUnique(op * 32 + rs, 32, op, rs);
    ModUnique(w, 0x400_0000, op, rs * 0x20_0000 + rt * 0x1_0000 + imm);
  }

  lemma RegisterFields(op: nat, rs: Field, rt: Field, rd: Field, sa: Field, funct: nat)
    requires op < 64 && funct < 64
    ensures var w := RegisterWord(op, rs, rt, rd, sa, funct);
            && Opcode(w) == op && Rs(w) == rs && Rt(w) == rt && Rd(w) == rd && ShiftAmount(w) == sa && Funct(w) == funct
            && (IsVector(w) <==> op == 18 && rs >= 16)
  {
    var imm := rd * 0x800 + sa * 0x40 + funct;
    ImmediateFields(op, rs, rt, imm);
    var w := RegisterWord(op, rs, rt, rd, sa, funct);
    var high := op * 1024 + rs * 32 + rt;
    ModUnique(w, 0x40, high * 0x400 + rd * 0x20 + sa, funct);
    ModUnique(high * 0x400 + rd * 0x20 + sa, 32, high * 0x20 + rd, sa);
    ModUnique(w, 0x800, high * 0x20 + rd, sa * 0x40 + funct);
    ModUnique(high * 0x20 + rd, 32, high, rd);
  }

  /** Every word has both forms. */
  lemma EveryWord(w: Word)
    ensures Opcode(w) < 64 && w == RegisterWord(Opcode(w), Rs(w), Rt(w), Rd(w), ShiftAmount(w), Funct(w))
    ensures w == ImmediateWord(Opcode(w), Rs(w), Rt(w), w % 0x1_0000)
  {
    var a, b, c, d := w / 0x40, w / 0x800, w / 0x1_0000, w / 0x20_0000;
    assert a / 32 == b && b / 32 == c && c / 32 == d && d / 32 == Opcode(w);
  }

  // ---------------------------------------------------------------- integers and bits

  /** The value of a register as a two's complement number. */
  function Int(v: Word): int { if v < 0x8000_0000 then v else v - 0x1_0000_0000 }

  /** A 16-bit immediate as a two's complement number. */
  function SignedHalf(imm: Half): int { if imm < 0x8000 then imm else imm - 0x1_0000 }

  predicate Bit(x: nat, i: nat) { if i == 0 then x % 2 == 1 else Bit(x / 2, i - 1) }

  lemma {:induction false} BitwiseBit(f: (bool, bool) -> bool, a: nat, b: nat, n: nat, i: nat)
    requires i < n
    ensures Bit(Bitwise(f, a, b, n), i) == f(Bit(a, i), Bit(b, i))
  {
    var r := Bitwise(f, a / 2, b / 2, n - 1);
    var low := if f(a % 2 == 1, b % 2 == 1) then 1 else 0;
    assert (low + 2 * r) / 2 == r && (low + 2 * r) % 2 == low;
    if i > 0 { BitwiseBit(f, a / 2, b / 2, n - 1, i - 1); }
  }

  lemma WordBits(op: BitOp, a: Word, b: Word)
    ensures forall i: nat :: i < 32 ==> Bit(Bits32(op, a, b), i) == Truth(op)(Bit(a, i), Bit(b, i))
  {
    forall i: nat | i < 32 ensures Bit(Bits32(op, a, b), i) == Truth(op)(Bit(a, i), Bit(b, i)) {
      var n := 32;
      BitwiseBit(Truth(op), a, b, n, i);
    }
  }

  // ---------------------------------------------------------------- what the instructions mean

  datatype Special =
    | SLL | SRL | SRA | SLLV | SRLV | SRAV
    | ADD | ADDU | SUB | SUBU | AND | OR | XOR | NOR | SLT | SLTU

  datatype Immediate = ADDI | ADDIU | SLTI | SLTIU | ANDI | ORI | XORI | LUI

  datatype Access = LB | LH | LW | LBU | LHU | LWU | SB | SH | SW

  function SpecialFunct(op: Special): (f: nat)
    ensures f < 64
  {
    match op
    case SLL => 0 case SRL => 2 case SRA => 3 case SLLV => 4 case SRLV => 6 case SRAV => 7
    case ADD => 32 case ADDU => 33 case SUB => 34 case SUBU => 35
    case AND => 36 case OR => 37 case XOR => 38 case NOR => 39 case SLT => 42 case SLTU => 43
  }

  function ImmediateOpcode(op: Immediate): (c: nat)
    ensures c < 64
  {
    match op
    case ADDI => 8 case ADDIU => 9 case SLTI => 10 case SLTIU => 11 case ANDI => 12 case ORI => 13 case XORI => 14 case LUI => 15
  }

  function AccessOpcode(op: Access): (c: nat)
    ensures c < 64
  {
    match op
    case LB => 32 case LH => 33 case LW => 35 case LBU => 36 case LHU => 37 case LWU => 39 case SB => 40 case SH => 41 case SW => 43
  }

  /** `r` is the result on register values `x` (of rs) and `y` (of rt) and the shift amount `sa`. */
  ghost predicate SpecialResult(op: Special, x: Word, y: Word, sa: Field, r: Word) {
    match op
    case SLL => r == y * Pow2(sa) % TWO_32
    case SRL => r == y / Pow2(sa)
    case SRA => Int(r) == Int(y) / Pow2(sa)
    case SLLV => r == y * Pow2(x % 32) % TWO_32
    case SRLV => r == y / Pow2(x % 32)
    case SRAV => Int(r) == Int(y) / Pow2(x % 32)
    case ADD => r == (x + y) % TWO_32
    case ADDU => r == (x + y) % TWO_32
    case SUB => r == (x - y) % TWO_32
    case SUBU => r == (x - y) % TWO_32
    case AND => forall i: nat :: i < 32 ==> (Bit(r, i) <==> Bit(x, i) && Bit(y, i))
    case OR => forall i: nat :: i < 32 ==> (Bit(r, i) <==> Bit(x, i) || Bit(y, i))
    case XOR => forall i: nat :: i < 32 ==> (Bit(r, i) <==> Bit(x, i) != Bit(y, i))
    case NOR => forall i: nat :: i < 32 ==> (Bit(r, i) <==> !Bit(x, i) && !Bit(y, i))
    case SLT => r == if Int(x) < Int(y) then 1 else 0
    case SLTU => r == if x < y then 1 else 0
  }

  /** The same for a register value `x` (of rs) and an immediate. */
  ghost predicate ImmediateResult(op: Immediate, x: Word, imm: Half, r: Word) {
    match op
    case ADDI => r == (x + SignedHalf(imm)) % TWO_32
    case ADDIU => r == (x + SignedHalf(imm)) % TWO_32
    case SLTI => r == if Int(x) < SignedHalf(imm) then 1 else 0
    case SLTIU => r == if x < SignedHalf(imm) % TWO_32 then 1 else 0
    case ANDI => forall i: nat :: i < 32 ==> (Bit(r, i) <==> Bit(x, i) && Bit(imm, i))
    case ORI => forall i: nat :: i < 32 ==> (Bit(r, i) <==> Bit(x, i) || Bit(imm, i))
    case XORI => forall i: nat :: i < 32 ==> (Bit(r, i) <==> Bit(x, i) != Bit(imm, i))
    case LUI => r == imm * 0x1_0000
  }

  /** The value a load leaves, from the bytes at `a`, `a + 1`, ... round the end of DMEM. */
  predicate LoadResult(op: Access, dmem: HostBytes.Dmem, a: nat, r: Word)
    requires a < 4096
  {
    var b0: int, b1: int, b2: int, b3: int := dmem[a], dmem[(a + 1) % 4096], dmem[(a + 2) % 4096], dmem[(a + 3) % 4096];
    match op
    case LB => Int(r) == if b0 < 128 then b0 else b0 - 256
    case LBU => r == b0
    case LH => Int(r) == if b0 < 128 then 256 * b0 + b1 else 256 * b0 + b1 - 0x1_0000
    case LHU => r == 256 * b0 + b1
    case LW => r == 0x100_0000 * b0 + 0x1_0000 * b1 + 256 * b2 + b3
    case LWU => r == 0x100_0000 * b0 + 0x1_0000 * b1 + 256 * b2 + b3
    case _ => true
  }

  predicate IsStore(op: Access) { op.SB? || op.SH? || op.SW? }

  /** What a store of `v` at `a` leaves in DMEM. */
  ghost predicate StoreResult(op: Access, was: HostBytes.Dmem, a: nat, v: Word, now: HostBytes.Dmem)
    requires a < 4096
  {
    match op
    case SB => now[a] == v % 256 && Elsewhere(was, now, a, 1)
    case SH => now[a] == v / 256 % 256 && now[(a + 1) % 4096] == v % 256 && Elsewhere(was, now, a, 2)
    case SW => now[a] == v / 0x100_0000 && now[(a + 1) % 4096] == v / 0x1_0000 % 256
               && now[(a + 2) % 4096] == v / 256 % 256 && now[(a + 3) % 4096] == v % 256 && Elsewhere(was, now, a, 4)
    case _ => now == was
  }

  /** Only the `n` bytes from `a` on may differ. */
  ghost predicate Elsewhere(was: HostBytes.Dmem, now: HostBytes.Dmem, a: nat, n: nat) {
    forall x: nat :: x < 4096 && (x - a) % 4096 >= n ==> now[x] == was[x]
  }

  /** At most register `d` has changed. */
  ghost predicate OnlyWrites<M>(m: Machine<M>, n: Machine<M>, d: Field) {
    n.rest == m.rest && forall i :: 0 <= i < 32 && i != d ==> n.sr[i] == m.sr[i]
  }

  // ---------------------------------------------------------------- the theorem, for every choice of fields

  /** An arithmetic word writes one register. */
  lemma ArithmeticStep<V>(calls: Calls<V>, w: Word, i: ScalarCode.Instr, m: Machine<Rest<V>>, d: Field, v: Word)
    requires Decode(w) == Exact(MemoryCode.Arithmetic(i)) && ScalarCode.Legal(i)
    requires ScalarCode.Step(i, FileOf(m.sr, 0)) == ScalarCode.WithReg(FileOf(m.sr, 0), d, v)
    ensures var n := PlainStep(calls, w, m); OnlyWrites(m, n, d) && (d > 0 ==> n.sr[d] == v)
  {
  }

  /** Register arithmetic: register `rd` gets the result, whatever the other fields say, and nothing else changes. */
  lemma SpecialMeans<V>(calls: Calls<V>, op: Special, rs: Field, rt: Field, rd: Field, sa: Field, m: Machine<Rest<V>>)
    ensures var n := PlainStep(calls, RegisterWord(0, rs, rt, rd, sa, SpecialFunct(op)), m);
            OnlyWrites(m, n, rd) && (rd > 0 ==> SpecialResult(op, m.sr[rs], m.sr[rt], sa, n.sr[rd]))
  {
    var w := RegisterWord(0, rs, rt, rd, sa, SpecialFunct(op));
    RegisterFields(0, rs, rt, rd, sa, SpecialFunct(op));
    SpecialStep(calls, op, w, m);
    SpecialValue(op, m.sr[rs], m.sr[rt], sa);
  }

  function SpecialAlu(op: Special): RegisterCache.Alu {
    match op
    case SLL => RegisterCache.ShiftLeft case SRL => RegisterCache.ShiftRightLogical case SRA => RegisterCache.ShiftRightArithmetic
    case SLLV => RegisterCache.ShiftLeft case SRLV => RegisterCache.ShiftRightLogical case SRAV => RegisterCache.ShiftRightArithmetic
    case ADD => RegisterCache.Add case ADDU => RegisterCache.Add case SUB => RegisterCache.Sub case SUBU => RegisterCache.Sub
    case AND => RegisterCache.Bits(BitAnd) case OR => RegisterCache.Bits(BitOr)
    case XOR => RegisterCache.Bits(BitXor) case NOR => RegisterCache.Bits(BitNor)
    case SLT => RegisterCache.LessSigned case SLTU => RegisterCache.LessUnsigned
  }

  /** The 32-bit operation on the operands in the order the compiler uses them. */
  function SpecialMips(op: Special, x: Word, y: Word, sa: Field): Word {
    match op
    case SLL => ScalarCode.Mips(SpecialAlu(op), y, sa)
    case SRL => ScalarCode.Mips(SpecialAlu(op), y, sa)
    case SRA => ScalarCode.Mips(SpecialAlu(op), y, sa)
    case SLLV => ScalarCode.Mips(SpecialAlu(op), y, x)
    case SRLV => ScalarCode.Mips(SpecialAlu(op), y, x)
    case SRAV => ScalarCode.Mips(SpecialAlu(op), y, x)
    case NOR => ScalarCode.Mips(SpecialAlu(op), y, x)
    case _ => ScalarCode.Mips(SpecialAlu(op), x, y)
  }

  lemma SpecialStep<V>(calls: Calls<V>, op: Special, w: Word, m: Machine<Rest<V>>)
    requires Opcode(w) == 0 && Funct(w) == SpecialFunct(op) && !IsVector(w)
    ensures var n := PlainStep(calls, w, m);
            OnlyWrites(m, n, Rd(w)) && (Rd(w) > 0 ==> n.sr[Rd(w)] == SpecialMips(op, m.sr[Rs(w)], m.sr[Rt(w)], ShiftAmount(w)))
  {
    SpecialDecodes(op, w);
    ArithmeticStep(calls, w, SpecialInstr(op, w), m, Rd(w), SpecialMips(op, m.sr[Rs(w)], m.sr[Rt(w)], ShiftAmount(w)));
  }

  function SpecialInstr(op: Special, w: Word): ScalarCode.Instr {
    if op.NOR? then ScalarCode.Nor(Rd(w), Rs(w), Rt(w))
    else if op.SLL? || op.SRL? || op.SRA? then ScalarCode.ShiftBy(SpecialAlu(op), Rd(w), Rt(w), ShiftAmount(w))
    else if op.SLLV? || op.SRLV? || op.SRAV? then ScalarCode.ShiftVar(SpecialAlu(op), Rd(w), Rt(w), Rs(w))
    else ScalarCode.Three(SpecialAlu(op), Rd(w), Rs(w), Rt(w))
  }

  lemma SpecialDecodes(op: Special, w: Word)
    requires Opcode(w) == 0 && Funct(w) == SpecialFunct(op) && !IsVector(w)
    ensures Decode(w) == Exact(MemoryCode.Arithmetic(SpecialInstr(op, w))) && ScalarCode.Legal(SpecialInstr(op, w))
  {
  }

  lemma SpecialValue(op: Special, x: Word, y: Word, sa: Field)
    ensures SpecialResult(op, x, y, sa, SpecialMips(op, x, y, sa))
  {
    match op
    case SRL => RightShift(y, sa);
    case SRA => ArithmeticShift(y, sa);
    case SRLV => RightShift(y, x);
    case SRAV => ArithmeticShift(y, x);
    case AND => WordBits(BitAnd, x, y);
    case OR => WordBits(BitOr, x, y);
    case XOR => WordBits(BitXor, x, y);
    case NOR => WordBits(BitNor, y, x);
    case _ =>
  }

  lemma RightShift(y: Word, b: Word)
    ensures ScalarCode.Mips(RegisterCache.ShiftRightLogical, y, b) == y / Pow2(b % 32)
  {
    QuotientBelow(y, Pow2(b % 32));
  }

  lemma ArithmeticShift(y: Word, b: Word)
    ensures Int(ScalarCode.Mips(RegisterCache.ShiftRightArithmetic, y, b)) == Int(y) / Pow2(b % 32)
  {
    SignedQuotient(Int(y), Pow2(b % 32));
  }

  lemma QuotientBelow(y: nat, p: nat)
    requires p > 0
    ensures 0 <= y / p <= y
  {
    DivMod(y, p);
    var q: nat := y / p;
    MulNonNegative(q, p - 1);
    assert q * p == q * (p - 1) + q;
  }

  lemma SignedQuotient(s: int, p: nat)
    requires p > 0 && -0x8000_0000 <= s < 0x8000_0000
    ensures Int(s / p % TWO_32) == s / p
  {
    DivMod(s, p);
    var q := s / p;
    if s >= 0 {
      QuotientBelow(s, p);
    } else {
      if q >= 0 { MulNonNegative(q, p); }
      MulNonNegative(-s, p - 1);
      assert -s * (p - 1) == -(s * p) + s;
      if q < s { MulGap(s, q, p); }
    }
    if q < 0 { ModUnique(q, TWO_32, -1, q + TWO_32); }
  }

  /** Arithmetic with an immediate. */
  lemma ImmediateMeans<V>(calls: Calls<V>, op: Immediate, rs: Field, rt: Field, imm: Half, m: Machine<Rest<V>>)
    ensures var n := PlainStep(calls, ImmediateWord(ImmediateOpcode(op), rs, rt, imm), m);
            OnlyWrites(m, n, rt) && (rt > 0 ==> ImmediateResult(op, m.sr[rs], imm, n.sr[rt]))
  {
    var w := ImmediateWord(ImmediateOpcode(op), rs, rt, imm);
    ImmediateFields(ImmediateOpcode(op), rs, rt, imm);
    ImmediateStep(calls, op, w, m);
    ImmediateValue(op, w, m.sr[rs], imm);
    FromZero(op, w, imm);
  }

  function ImmediateMips(op: Immediate, w: Word, x: Word): Word {
    match op
    case ADDI => ScalarCode.Mips(RegisterCache.Add, x, SignImmediate(w))
    case ADDIU => ScalarCode.Mips(RegisterCache.Add, x, SignImmediate(w))
    case SLTI => ScalarCode.Mips(RegisterCache.LessSigned, x, SignImmediate(w))
    case SLTIU => ScalarCode.Mips(RegisterCache.LessUnsigned, x, SignImmediate(w))
    case ANDI => ScalarCode.Mips(RegisterCache.Bits(BitAnd), x, ZeroImmediate(w))
    case ORI => ScalarCode.Mips(RegisterCache.Bits(BitOr), x, ZeroImmediate(w))
    case XORI => ScalarCode.Mips(RegisterCache.Bits(BitXor), x, ZeroImmediate(w))
    case LUI => ZeroImmediate(w) * 0x1_0000
  }

  /** The instructions that become a constant when rs is $0. */
  predicate FoldsZero(op: Immediate) { op.ADDI? || op.ADDIU? || op.ORI? }

  function FoldedConstant(op: Immediate, w: Word): Word { if op.ORI? then ZeroImmediate(w) else SignImmediate(w) }

  lemma ImmediateStep<V>(calls: Calls<V>, op: Immediate, w: Word, m: Machine<Rest<V>>)
    requires Opcode(w) == ImmediateOpcode(op) && !IsVector(w)
    ensures var n := PlainStep(calls, w, m);
            && OnlyWrites(m, n, Rt(w))
            && (Rt(w) > 0 ==> n.sr[Rt(w)] == if FoldsZero(op) && Rs(w) == 0 then FoldedConstant(op, w) else ImmediateMips(op, w, m.sr[Rs(w)]))
  {
    ImmediateDecodes(op, w);
    var v := if FoldsZero(op) && Rs(w) == 0 then FoldedConstant(op, w) else ImmediateMips(op, w, m.sr[Rs(w)]);
    ArithmeticStep(calls, w, ImmediateInstr(op, w), m, Rt(w), v);
  }

  function ImmediateInstr(op: Immediate, w: Word): ScalarCode.Instr {
    if FoldsZero(op) && Rs(w) == 0 then ScalarCode.Constant(Rt(w), FoldedConstant(op, w))
    else
      match op
      case SLTI => ScalarCode.WithImm(RegisterCache.LessSigned, Rt(w), Rs(w), SignImmediate(w))
      case SLTIU => ScalarCode.WithImm(RegisterCache.LessUnsigned, Rt(w), Rs(w), SignImmediate(w))
      case ANDI => ScalarCode.WithImm(RegisterCache.Bits(BitAnd), Rt(w), Rs(w), ZeroImmediate(w))
      case ORI => ScalarCode.WithImm(RegisterCache.Bits(BitOr), Rt(w), Rs(w), ZeroImmediate(w))
      case XORI => ScalarCode.WithImm(RegisterCache.Bits(BitXor), Rt(w), Rs(w), ZeroImmediate(w))
      case LUI => ScalarCode.Constant(Rt(w), ZeroImmediate(w) * 0x1_0000)
      case _ => ScalarCode.WithImm(RegisterCache.Add, Rt(w), Rs(w), SignImmediate(w))
  }

  lemma ImmediateDecodes(op: Immediate, w: Word)
    requires Opcode(w) == ImmediateOpcode(op) && !IsVector(w)
    ensures Decode(w) == Exact(MemoryCode.Arithmetic(ImmediateInstr(op, w))) && ScalarCode.Legal(ImmediateInstr(op, w))
  {
  }

  lemma SignedImmediate(w: Word, x: Word, imm: Half)
    requires w % 0x1_0000 == imm
    ensures (x + SignImmediate(w)) % TWO_32 == (x + SignedHalf(imm)) % TWO_32
    ensures SignedHalf(imm) % TWO_32 == SignImmediate(w) && Int(SignImmediate(w)) == SignedHalf(imm)
    ensures (x + SignImmediate(w)) % 4096 == (x + SignedHalf(imm)) % 4096
  {
    if imm >= 0x8000 {
      ModShift(x + SignedHalf(imm), TWO_32, 1);
      ModShift(SignedHalf(imm), TWO_32, 1);
      ModShift(x + SignedHalf(imm), 4096, 0x10_0000);
    }
  }

  lemma ImmediateValue(op: Immediate, w: Word, x: Word, imm: Half)
    requires w % 0x1_0000 == imm
    ensures ImmediateResult(op, x, imm, ImmediateMips(op, w, x))
  {
    SignedImmediate(w, x, imm);
    match op
    case ANDI => WordBits(BitAnd, x, imm);
    case ORI => WordBits(BitOr, x, imm);
    case XORI => WordBits(BitXor, x, imm);
    case _ =>
  }

  lemma {:induction false} ZeroBit(i: nat)
    ensures !Bit(0, i)
  {
    if i > 0 { ZeroBit(i - 1); }
  }

  lemma FromZero(op: Immediate, w: Word, imm: Half)
    requires w % 0x1_0000 == imm
    ensures FoldsZero(op) ==> ImmediateResult(op, 0, imm, FoldedConstant(op, w))
  {
    SignedImmediate(w, 0, imm);
    forall i: nat | i < 32 ensures !Bit(0, i) { ZeroBit(i); }
  }

  /** Loads and stores: the bytes at rs plus the signed immediate, in big-endian order, at any alignment. */
  lemma AccessMeans<V>(calls: Calls<V>, op: Access, rs: Field, rt: Field, imm: Half, m: Machine<Rest<V>>)
    ensures var n := PlainStep(calls, ImmediateWord(AccessOpcode(op), rs, rt, imm), m);
            var a := (m.sr[rs] + SignedHalf(imm)) % 4096;
            if IsStore(op) then
              n.sr == m.sr && n.rest.other == m.rest.other && StoreResult(op, m.rest.dmem, a, m.sr[rt], n.rest.dmem)
            else
              OnlyWrites(m, n, rt) && (rt > 0 ==> LoadResult(op, m.rest.dmem, a, n.sr[rt]))
  {
    var w := ImmediateWord(AccessOpcode(op), rs, rt, imm);
    ImmediateFields(AccessOpcode(op), rs, rt, imm);
    SignedImmediate(w, m.sr[rs], imm);
    var a := (m.sr[rs] + SignedHalf(imm)) % 4096;
    if IsStore(op) {
      StoreStep(calls, op, w, m, a);
      StoreValue(op, m.rest.dmem, a, m.sr[rt]);
    } else {
      LoadStep(calls, op, w, m, a);
      LoadValue(op, m.rest.dmem, a);
    }
  }

  function AccessWidth(op: Access): (n: nat)
    ensures ScalarMemory.Width(n)
  {
    if op.LB? || op.LBU? || op.SB? then 1 else if op.LH? || op.LHU? || op.SH? then 2 else 4
  }

  lemma StoreStep<V>(calls: Calls<V>, op: Access, w: Word, m: Machine<Rest<V>>, a: nat)
    requires IsStore(op) && Opcode(w) == AccessOpcode(op) && !IsVector(w) && a == (m.sr[Rs(w)] + SignImmediate(w)) % 4096
    ensures PlainStep(calls, w, m)
            == m.(rest := m.rest.(dmem := ScalarMemory.WriteBig(m.rest.dmem, a, AccessWidth(op), m.sr[Rt(w)])))
  {
    assert Decode(w) == Exact(MemoryCode.StoreTo(Rt(w), Rs(w), SignImmediate(w), AccessWidth(op)));
  }

  lemma LoadStep<V>(calls: Calls<V>, op: Access, w: Word, m: Machine<Rest<V>>, a: nat)
    requires !IsStore(op) && Opcode(w) == AccessOpcode(op) && !IsVector(w) && a == (m.sr[Rs(w)] + SignImmediate(w)) % 4096
    ensures var n := PlainStep(calls, w, m);
            && OnlyWrites(m, n, Rt(w))
            && (Rt(w) > 0 ==> n.sr[Rt(w)] == MemoryCode.LoadedValue(m.rest.dmem, a, AccessWidth(op), !(op.LBU? || op.LHU?)))
  {
    var i := MemoryCode.LoadFrom(Rt(w), Rs(w), SignImmediate(w), AccessWidth(op), !(op.LBU? || op.LHU?));
    assert Decode(w) == Exact(i);
  }

  lemma LoadValue(op: Access, dmem: HostBytes.Dmem, a: nat)
    requires !IsStore(op) && a < 4096
    ensures LoadResult(op, dmem, a, MemoryCode.LoadedValue(dmem, a, AccessWidth(op), !(op.LBU? || op.LHU?)))
  {
    ReadOut(dmem, a);
  }

  /** The number in one, two and four bytes. */
  lemma ReadOut(dmem: HostBytes.Dmem, a: nat)
    requires a < 4096
    ensures var b0: int, b1: int, b2: int, b3: int := dmem[a], dmem[(a + 1) % 4096], dmem[(a + 2) % 4096], dmem[(a + 3) % 4096];
            && ScalarMemory.ReadBig(dmem, a, 1) == b0 && ScalarMemory.ReadBig(dmem, a, 2) == 256 * b0 + b1
            && ScalarMemory.ReadBig(dmem, a, 4) == 0x100_0000 * b0 + 0x1_0000 * b1 + 256 * b2 + b3
    ensures ScalarMemory.Pow256(1) == 256 && ScalarMemory.Pow256(2) == 0x1_0000 && ScalarMemory.Pow256(4) == TWO_32
  {
    assert ScalarMemory.ReadBig(dmem, a, 0) == 0;
    assert ScalarMemory.ReadBig(dmem, a, 3) == 256 * ScalarMemory.ReadBig(dmem, a, 2) + dmem[HostBytes.At(a, 2)];
    assert ScalarMemory.Pow256(0) == 1 && ScalarMemory.Pow256(3) == 0x100_0000;
  }

  lemma StoreValue(op: Access, was: HostBytes.Dmem, a: nat, v: Word)
    requires IsStore(op) && a < 4096
    ensures StoreResult(op, was, a, v, ScalarMemory.WriteBig(was, a, AccessWidth(op), v))
  {
    var n := AccessWidth(op);
    var now := ScalarMemory.WriteBig(was, a, n, v);
    forall i: nat | i < n ensures now[HostBytes.At(a, i)] == ScalarMemory.ByteOf(v, n - 1 - i) {
      ScalarMemory.WriteAt(was, a, n, v, i);
    }
    BytesOut(v);
    forall x: nat | x < 4096 && (x - a) % 4096 >= n ensures now[x] == was[x] {
      Beyond(a, n, x);
      ScalarMemory.WriteElsewhere(was, a, n, v, x);
    }
    assert now[HostBytes.At(a, 0)] == ScalarMemory.ByteOf(v, n - 1);
    if n > 1 { assert now[HostBytes.At(a, 1)] == ScalarMemory.ByteOf(v, n - 2); }
    if n > 2 {
      assert now[HostBytes.At(a, 2)] == ScalarMemory.ByteOf(v, n - 3);
      assert now[HostBytes.At(a, 3)] == ScalarMemory.ByteOf(v, n - 4);
    }
  }

  lemma BytesOut(v: Word)
    ensures ScalarMemory.ByteOf(v, 0) == v % 256 && ScalarMemory.ByteOf(v, 1) == v / 256 % 256
    ensures ScalarMemory.ByteOf(v, 2) == v / 0x1_0000 % 256 && ScalarMemory.ByteOf(v, 3) == v / 0x100_0000
  {
    var a, b := v / 256, v / 0x1_0000;
    assert a / 256 == b && b / 256 == v / 0x100_0000;
    assert ScalarMemory.ByteOf(v, 3) == ScalarMemory.ByteOf(a, 2) == ScalarMemory.ByteOf(b, 1);
    assert ScalarMemory.ByteOf(v, 2) == ScalarMemory.ByteOf(a, 1) == ScalarMemory.ByteOf(b, 0);
  }

  lemma Beyond(a: nat, n: nat, x: nat)
    requires x < 4096 && a < 4096 && n <= 4096 && (x - a) % 4096 >= n
    ensures forall i: nat :: i < n ==> HostBytes.At(a, i) != x
  {
    forall i: nat | i < n ensures HostBytes.At(a, i) != x {
      if a + i >= 4096 { ModUnique(a + i - 4096 - a, 4096, -1, i); }
    }
  }

  // ---------------------------------------------------------------- calls and words that do nothing

  /** The words that are calls: what they may see, and what they may change. */
  lemma CallMeans<V>(calls: Calls<V>, op: nat, rs: Field, rt: Field, rd: Field, sa: Field, funct: nat, m: Machine<Rest<V>>)
    requires op < 64 && funct < 64
    ensures var w := RegisterWord(op, rs, rt, rd, sa, funct);
            var n := PlainStep(calls, w, m);
            && (op == 18 && rs >= 16 ==> n == Machine(m.sr, calls.rest(w, 0, m.rest)))
            && (op == 18 && rs in {0, 2, 4, 6} ==> SeesOnly(calls, w, m, n, rt))
            && (op == 50 && rd < 12 && rd != 10 ==> SeesOnly(calls, w, m, n, rs))
            && (op == 58 && rd < 12 ==> SeesOnly(calls, w, m, n, rs))
  {
    RegisterFields(op, rs, rt, rd, sa, funct);
  }

  /** The call sees register `r` and DMEM and the vector unit, and may change those. */
  ghost predicate SeesOnly<V>(calls: Calls<V>, w: Word, m: Machine<Rest<V>>, n: Machine<Rest<V>>, r: Field) {
    && n.rest == calls.rest(w, m.sr[r], m.rest)
    && (forall i :: 0 <= i < 32 && i != r ==> n.sr[i] == m.sr[i])
    && (r > 0 ==> n.sr[r] == calls.value(w, m.sr[r], m.rest))
  }

  /** The straight words that do something, by their fields. */
  predicate DoesSomething(op: nat, rs: Field, rd: Field, funct: nat) {
    || (op == 0 && (funct in {0, 2, 3, 4, 6, 7, 42, 43} || 32 <= funct < 40))
    || 8 <= op < 16 || op in {32, 33, 35, 36, 37, 39, 40, 41, 43}
    || (op == 18 && (rs >= 16 || rs in {0, 2, 4, 6}))
    || (op == 50 && rd < 12 && rd != 10) || (op == 58 && rd < 12)
  }

  lemma OthersDoNothing<V>(calls: Calls<V>, op: nat, rs: Field, rt: Field, rd: Field, sa: Field, funct: nat, m: Machine<Rest<V>>)
    requires op < 64 && funct < 64 && !DoesSomething(op, rs, rd, funct)
    ensures PlainStep(calls, RegisterWord(op, rs, rt, rd, sa, funct), m) == m
  {
    RegisterFields(op, rs, rt, rd, sa, funct);
  }
}
