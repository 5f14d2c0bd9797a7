/**
  The register cache of the block compiler (rsp_jit.cpp, rsp_jit.hpp): a
  write-back, least-recently-used, lock-counted allocator of host registers to
  MIPS registers that also tracks how each 64-bit host register extends its
  32-bit value.

  The cache is compile-time state.  What it emits is run-time code, so every
  statement is about both: for any host state that represents a register file
  under the cache before a call, the host state after the emitted code
  represents it under the cache after the call.
 */
module RegisterCache {
  import opened Arithmetic
  import opened HostWords
  import HostBytes
  import ScalarMemory

  const COND_BRANCH_TAKEN := 32
  const SCRATCH_REGISTER0 := 33
  const SCRATCH_REGISTER1 := 34

  datatype Sign = SExt | ZExt | Unknown

  datatype Entry = Entry(mips: nat, timestamp: nat, locks: nat, sign: Sign, live: bool, modified: bool)

  const EMPTY := Entry(0, 0, 0, SExt, false, false)

  // ---------------------------------------------------------------- emitted code

  datatype Alu =
    | Add | Sub | Bits(op: BitOp)
    | ShiftLeft | ShiftRightLogical | ShiftRightArithmetic
    | LessSigned | LessUnsigned | EqualTo | NotEqualTo | LessEqualSigned | GreaterSigned | GreaterEqualSigned

  datatype Operand = InReg(r: nat) | Immediate(v: Host64)

  datatype HostOp =
    | LoadSigned(r: nat, m: nat)      // jit_ldxi_i from sr[m]
    | LoadUnsigned(r: nat, m: nat)    // jit_ldxi_ui
    | Store(r: nat, m: nat)           // jit_stxi_i to sr[m]
    | Movi(r: nat, v: Host64)
    | ExtendSigned(r: nat)            // jit_extr_i
    | ExtendUnsigned(r: nat)          // jit_extr_ui
    | Compute(op: Alu, rd: nat, rs: nat, y: Operand)
    | Move(rd: nat, rs: nat)
    | LoadMem(rd: nat, address: nat, n: nat, signed: bool, callerSave: nat)
    | StoreMem(rs: nat, address: nat, n: nat, callerSave: nat)
    | Spill(slot: Slot, rs: nat)
    | Fill(rd: nat, slot: Slot)
    | Transfer(to: Slot, slot: Slot)

  /** The places outside `sr` in which branch state is kept. */
  datatype Slot =
    | IndirectPc                   // the register JIT_REGISTER_INDIRECT_PC
    | SpilledCond | SpilledPc      // frame slots, used when two branches follow each other
    | HasDelay | BranchTarget      // has_delay_slot and branch_target of the CPU state
    | CondMemory                   // sr[32] itself

  /** `HasDelay` and `BranchTarget` are 32-bit fields, the others host words. */
  datatype Control = Control(indirect: Host64, spilledCond: Host64, spilledPc: Host64, hasDelay: Guest, branchTarget: Guest)

  /**
    Host registers, the `sr` array of the CPU state, DMEM and the branch state;
    `junk` is what a call leaves in the registers it does not save.
   */
  datatype Host = Host(regs: seq<Host64>, sr: seq<Guest>, dmem: HostBytes.Dmem, junk: Host64, control: Control)

  function SlotValue(h: Host, slot: Slot): Host64 {
    match slot
    case IndirectPc => h.control.indirect
    case SpilledCond => h.control.spilledCond
    case SpilledPc => h.control.spilledPc
    case HasDelay => SignExtend(h.control.hasDelay)
    case BranchTarget => SignExtend(h.control.branchTarget)
    case CondMemory => if |h.sr| > COND_BRANCH_TAKEN then SignExtend(h.sr[COND_BRANCH_TAKEN]) else 0
  }

  function SaveSlot(h: Host, slot: Slot, x: Host64): Host {
    match slot
    case IndirectPc => h.(control := h.control.(indirect := x))
    case SpilledCond => h.(control := h.control.(spilledCond := x))
    case SpilledPc => h.(control := h.control.(spilledPc := x))
    case HasDelay => h.(control := h.control.(hasDelay := Low(x)))
    case BranchTarget => h.(control := h.control.(branchTarget := Low(x)))
    case CondMemory => if |h.sr| > COND_BRANCH_TAKEN then h.(sr := h.sr[COND_BRANCH_TAKEN := Low(x)]) else h
  }

  /** The value a 64-bit host operation leaves; shift amounts are below 64. */
  function Result(op: Alu, x: Host64, y: Host64): Host64 {
    match op
    case Add => (x + y) % TWO_64
    case Sub => (x - y) % TWO_64
    case Bits(b) => BitwiseExact(Truth(b), x, y); Bitwise(Truth(b), x, y, 64)
    case ShiftLeft => x * Pow2(y % 64) % TWO_64
    case ShiftRightLogical => x / Pow2(y % 64) % TWO_64
    case ShiftRightArithmetic => Signed64(x) / Pow2(y % 64) % TWO_64
    case LessSigned => if Signed64(x) < Signed64(y) then 1 else 0
    case LessUnsigned => if x < y then 1 else 0
    case EqualTo => if x == y then 1 else 0
    case NotEqualTo => if x != y then 1 else 0
    case LessEqualSigned => if Signed64(x) <= Signed64(y) then 1 else 0
    case GreaterSigned => if Signed64(x) > Signed64(y) then 1 else 0
    case GreaterEqualSigned => if Signed64(x) >= Signed64(y) then 1 else 0
  }

  function Put(h: Host, r: nat, x: Host64): Host {
    if r < |h.regs| then h.(regs := h.regs[r := x]) else h
  }

  function Reg(h: Host, r: nat): Host64 {
    if r < |h.regs| then h.regs[r] else 0
  }

  /** The registers after a call: the first `n` are lost. */
  function Clobbered(regs: seq<Host64>, junk: Host64, n: nat): (r: seq<Host64>)
    ensures |r| == |regs| && forall i :: 0 <= i < |r| ==> r[i] == if i < n then junk else regs[i]
  {
    seq(|regs|, i requires 0 <= i < |regs| => if i < n then junk else regs[i])
  }

  /** A memory access at an address that is not a multiple of its width is a call. */
  function AfterAccess(h: Host, a: nat, n: nat, callerSave: nat): Host
    requires n > 0
  {
    if a % n == 0 then h else h.(regs := Clobbered(h.regs, h.junk, callerSave))
  }

  /** The address of an access, which the code has masked. */
  function Address(h: Host, r: nat): (a: nat) ensures a < 4096 { Reg(h, r) % 4096 }

  /** The 64-bit extension of a value of `n` bytes. */
  function Extended(v: nat, n: nat, signed: bool): Host64
    requires ScalarMemory.Width(n) && v < ScalarMemory.Pow256(n)
  {
    WidthPowers(n);
    if signed && 2 * v >= ScalarMemory.Pow256(n) then v + (TWO_64 - ScalarMemory.Pow256(n)) else v
  }

  lemma WidthPowers(n: nat)
    requires ScalarMemory.Width(n)
    ensures ScalarMemory.Pow256(n) == if n == 1 then 256 else if n == 2 then 0x1_0000 else TWO_32
  {
    assert ScalarMemory.Pow256(1) == 256 && ScalarMemory.Pow256(2) == 0x1_0000;
    assert ScalarMemory.Pow256(3) == 0x100_0000 && ScalarMemory.Pow256(4) == TWO_32;
  }

  function LoadResult(h: Host, r: nat, n: nat, signed: bool): Host64
    requires ScalarMemory.Width(n)
  {
    ScalarMemory.LoadExact(h.dmem, Address(h, r), n);
    Extended(ScalarMemory.HostLoad(h.dmem, Address(h, r), n), n, signed)
  }

  function Exec(op: HostOp, h: Host): Host {
    match op
    case LoadSigned(r, m) => if m < |h.sr| then Put(h, r, SignExtend(h.sr[m])) else h
    case LoadUnsigned(r, m) => if m < |h.sr| then Put(h, r, ZeroExtend(h.sr[m])) else h
    case Store(r, m) => if m < |h.sr| then h.(sr := h.sr[m := Low(Reg(h, r))]) else h
    case Movi(r, v) => Put(h, r, v)
    case ExtendSigned(r) => Put(h, r, SignExtend(Low(Reg(h, r))))
    case ExtendUnsigned(r) => Put(h, r, ZeroExtend(Low(Reg(h, r))))
    case Compute(alu, rd, rs, y) =>
      Put(h, rd, Result(alu, Reg(h, rs), match y case InReg(r) => Reg(h, r) case Immediate(v) => v))
    case Move(rd, rs) => Put(h, rd, Reg(h, rs))
    case LoadMem(rd, address, n, signed, callerSave) =>
      if ScalarMemory.Width(n)
      then Put(AfterAccess(h, Address(h, address), n, callerSave), rd, LoadResult(h, address, n, signed)) else h
    case StoreMem(rs, address, n, callerSave) =>
      if ScalarMemory.Width(n)
      then AfterAccess(h, Address(h, address), n, callerSave)
           .(dmem := ScalarMemory.HostStore(h.dmem, Address(h, address), n, Reg(h, rs))) else h
    case Spill(slot, rs) => SaveSlot(h, slot, Reg(h, rs))
    case Fill(rd, slot) => Put(h, rd, SlotValue(h, slot))
    case Transfer(to, slot) => SaveSlot(h, to, SlotValue(h, slot))
  }

  function Run(code: seq<HostOp>, h: Host): Host
    decreases |code|
  {
    if |code| == 0 then h else Exec(code[|code| - 1], Run(code[..|code| - 1], h))
  }

  lemma {:induction false} RunAppend(a: seq<HostOp>, b: seq<HostOp>, h: Host)
    ensures Run(a + b, h) == Run(b, Run(a, h))
    decreases |b|
  {
    if |b| == 0 {
      assert a + b == a;
    } else {
      var c := b[..|b| - 1];
      assert (a + b)[..|a + b| - 1] == a + c;
      RunAppend(a, c, h);
    }
  }

  // ---------------------------------------------------------------- finding a register

  /** The first entry holding MIPS register `m`, or the number of entries. */
  function FindLive(es: seq<Entry>, m: nat): (i: nat)
    ensures i <= |es|
    ensures i < |es| ==> es[i].live && es[i].mips == m
    ensures forall j :: 0 <= j < i ==> !(es[j].live && es[j].mips == m)
  {
    if |es| == 0 || (es[0].live && es[0].mips == m) then 0 else 1 + FindLive(es[1..], m)
  }

  function FindFree(es: seq<Entry>): (i: nat)
    ensures i <= |es|
    ensures i < |es| ==> !es[i].live
    ensures forall j :: 0 <= j < i ==> es[j].live
  {
    if |es| == 0 || !es[0].live then 0 else 1 + FindFree(es[1..])
  }

  /** Among the first `n` entries, the live unlocked one with the smallest timestamp, or the number of entries. */
  function FindOldest(es: seq<Entry>, n: nat): (i: nat)
    requires n <= |es|
    ensures i < n || i == |es|
    ensures i < n ==> es[i].live && es[i].locks == 0
    ensures i < n ==> forall j :: 0 <= j < n && es[j].live && es[j].locks == 0 ==> es[i].timestamp <= es[j].timestamp
    ensures i == |es| ==> forall j :: 0 <= j < n ==> !(es[j].live && es[j].locks == 0)
  {
    if n == 0 then |es|
    else
      var best := FindOldest(es, n - 1);
      var e := es[n - 1];
      if e.live && e.locks == 0 && (best == |es| || e.timestamp < es[best].timestamp) then n - 1 else best
  }

  /** `find_register`: the number of entries stands for the failed assertion. */
  function FindRegister(es: seq<Entry>, m: nat): (i: nat)
    ensures i <= |es|
  {
    var live := FindLive(es, m);
    if live < |es| then live
    else
      var free := FindFree(es);
      if free < |es| then free else FindOldest(es, |es|)
  }

  /** With at least three host registers and at most two of them locked, a register is always found. */
  lemma NeverStuck(es: seq<Entry>, m: nat, a: nat, b: nat)
    requires |es| >= 3
    requires forall k :: 0 <= k < |es| && es[k].locks > 0 ==> k == a || k == b
    ensures FindRegister(es, m) < |es|
  {
    var k := if a != 0 && b != 0 then 0 else if a != 1 && b != 1 then 1 else 2;
    assert es[k].locks == 0;
  }

  // ---------------------------------------------------------------- the cache

  datatype Cache = Cache(entries: seq<Entry>, timestamp: nat, code: seq<HostOp>)

  /** `writeback_register`; scratch registers are never written to memory. */
  function Writeback(e: Entry, i: nat): seq<HostOp> {
    if e.live && e.modified && e.mips <= COND_BRANCH_TAKEN then [Store(i, e.mips)] else []
  }

  datatype Want = Any | Signed | Unsigned

  function Reload(i: nat, m: nat, want: Want): HostOp {
    if m == 0 then Movi(i, 0) else if want.Unsigned? then LoadUnsigned(i, m) else LoadSigned(i, m)
  }

  /** The extension a load still has to perform on a register that is already live. */
  function Extension(e: Entry, i: nat, want: Want): seq<HostOp> {
    if want.Signed? && e.sign != SExt && e.mips != 0 then [ExtendSigned(i)]
    else if want.Unsigned? && e.sign != ZExt && e.mips != 0 then [ExtendUnsigned(i)]
    else []
  }

  function SignAfter(want: Want, otherwise: Sign): Sign {
    match want case Any => otherwise case Signed => SExt case Unsigned => ZExt
  }

  /** The code emitted by a load. */
  function LoadOps(es: seq<Entry>, m: nat, want: Want): seq<HostOp>
    requires FindRegister(es, m) < |es|
  {
    var i := FindRegister(es, m);
    if es[i].live && es[i].mips == m then Extension(es[i], i, want)
    else Writeback(es[i], i) + [Reload(i, m, want)]
  }

  /** load_mips_register_noext, _sext and _zext; a cache with no register to give is left alone. */
  function Load(c: Cache, m: nat, want: Want): Cache {
    var i := FindRegister(c.entries, m);
    if i == |c.entries| then c
    else
      var e := c.entries[i];
      var stamp := c.timestamp + 1;
      var e' := if e.live && e.mips == m
                then e.(sign := SignAfter(want, e.sign), timestamp := stamp, locks := e.locks + 1)
                else Entry(m, stamp, e.locks + 1, SignAfter(want, SExt), true, false);
      Cache(c.entries[i := e'], stamp, c.code + LoadOps(c.entries, m, want))
  }

  /** The code emitted when a register is claimed for writing. */
  function ModifyOps(es: seq<Entry>, m: nat): seq<HostOp>
    requires FindRegister(es, m) < |es|
  {
    var i := FindRegister(es, m);
    if es[i].live && es[i].mips == m then [] else Writeback(es[i], i)
  }

  /** modify_mips_register. */
  function Modify(c: Cache, m: nat): Cache {
    var i := FindRegister(c.entries, m);
    if i == |c.entries| then c
    else
      var stamp := c.timestamp + 1;
      var e' := Entry(m, stamp, c.entries[i].locks + 1, Unknown, true, true);
      Cache(c.entries[i := e'], stamp, c.code + ModifyOps(c.entries, m))
  }

  function Unlock(c: Cache, m: nat): Cache {
    var i := FindLive(c.entries, m);
    if i < |c.entries| && c.entries[i].locks > 0 then
      c.(entries := c.entries[i := c.entries[i].(locks := c.entries[i].locks - 1)])
    else c
  }

  function Emit(c: Cache, op: HostOp): Cache { c.(code := c.code + [op]) }

  /** The entries after those below `n` selected by `which` have been freed. */
  function FreedEntries(es: seq<Entry>, which: nat -> bool, n: nat): (fs: seq<Entry>)
    requires n <= |es|
    ensures |fs| == |es|
    ensures forall k :: 0 <= k < |es| ==> fs[k] == if k < n && es[k].live && which(k) then EMPTY else es[k]
  {
    if n == 0 then es
    else
      var fs := FreedEntries(es, which, n - 1);
      if es[n - 1].live && which(n - 1) then fs[n - 1 := EMPTY] else fs
  }

  function FlushOps(es: seq<Entry>, which: nat -> bool, n: nat): seq<HostOp>
    requires n <= |es|
  {
    if n == 0 then []
    else FlushOps(es, which, n - 1) + if which(n - 1) then Writeback(es[n - 1], n - 1) else []
  }

  /** Writes back and frees every live entry selected by `which`. */
  function Flush(c: Cache, which: nat -> bool): Cache {
    c.(entries := FreedEntries(c.entries, which, |c.entries|), code := c.code + FlushOps(c.entries, which, |c.entries|))
  }

  function Between(low: nat, high: nat): nat -> bool { (k: nat) => low <= k < high }

  /** The entry that holds `m`, if there is one. */
  function Holding(es: seq<Entry>, m: nat): nat -> bool { (k: nat) => k == FindLive(es, m) }

  function FlushRegisterWindow(c: Cache): Cache {
    Flush(c, _ => true).(timestamp := 0)
  }

  // ---------------------------------------------------------------- representation

  /** The MIPS register file with the branch condition as register 32. */
  type File = g: seq<Guest> | |g| == 33 && g[0] == 0 witness seq(33, _ => 0)

  /**
    The register holds the value, extended as the tag says.  The branch condition
    is tested as a whole host register, so once it is unlocked its upper half is
    clear.
   */
  predicate Holds(e: Entry, x: Host64, g: File) {
    e.mips <= SCRATCH_REGISTER1 &&
    (e.mips <= COND_BRANCH_TAKEN ==>
       && Low(x) == g[e.mips]
       && (e.sign == SExt ==> x == SignExtend(g[e.mips]))
       && (e.sign == ZExt ==> x == ZeroExtend(g[e.mips])))
    && (e.mips == 0 ==> x == 0 && !e.modified)
    && (e.mips == COND_BRANCH_TAKEN && e.locks == 0 ==> x < TWO_32)
  }

  predicate Dirty(es: seq<Entry>, m: nat) {
    exists i :: 0 <= i < |es| && es[i].live && es[i].modified && es[i].mips == m
  }

  /** Overlaying the live entries on memory gives the register file `g`, and the extension tags are truthful. */
  predicate Represents(es: seq<Entry>, h: Host, g: File) {
    && |h.regs| == |es| && |h.sr| == 33
    && (forall i :: 0 <= i < |es| && es[i].live ==> Holds(es[i], h.regs[i], g))
    && (forall i, j :: 0 <= i < j < |es| && es[i].live && es[j].live ==> es[i].mips != es[j].mips)
    && (forall m :: 1 <= m <= 32 && !Dirty(es, m) ==> h.sr[m] == g[m])
    && (forall i :: 0 <= i < |es| && !es[i].live ==> es[i].locks == 0)
  }

  // ---------------------------------------------------------------- single steps keep the representation

  lemma RunOne(op: HostOp, h: Host)
    ensures Run([op], h) == Exec(op, h) && Run([], h) == h
  {
    assert [op][..0] == [];
  }

  /** Replacing entry `i` only affects whether its own register is dirty. */
  lemma DirtyElsewhere(es: seq<Entry>, i: nat, e: Entry, m: nat)
    requires i < |es|
    ensures Dirty(es, m) ==> Dirty(es[i := e], m) || (es[i].live && es[i].modified && es[i].mips == m)
    ensures Dirty(es[i := e], m) ==> Dirty(es, m) || (e.live && e.modified && e.mips == m)
    ensures e.live && e.modified && e.mips == m ==> Dirty(es[i := e], m)
  {
    var fs := es[i := e];
    if Dirty(es, m) {
      var k :| 0 <= k < |es| && es[k].live && es[k].modified && es[k].mips == m;
      assert k == i || fs[k] == es[k];
    }
    if e.live && e.modified && e.mips == m { assert fs[i] == e; }
  }

  /** Writing an entry back and dropping it moves its value to memory. */
  lemma Evict(es: seq<Entry>, h: Host, g: File, i: nat)
    requires Represents(es, h, g) && i < |es|
    ensures var h' := Run(Writeback(es[i], i), h);
            Represents(es[i := EMPTY], h', g) && h'.regs == h.regs
  {
    RunOne(Store(i, es[i].mips), h);
    forall m ensures Dirty(es, m) ==> Dirty(es[i := EMPTY], m) || (es[i].live && es[i].modified && es[i].mips == m) {
      DirtyElsewhere(es, i, EMPTY, m);
    }
  }

  /** Filling a free entry with a register that is live nowhere else. */
  lemma Install(es: seq<Entry>, h: Host, g: File, i: nat, e: Entry, x: Host64)
    requires Represents(es, h, g) && i < |es| && !es[i].live
    requires e.live && Holds(e, x, g) && forall j :: 0 <= j < |es| && es[j].live ==> es[j].mips != e.mips
    ensures Represents(es[i := e], Put(h, i, x), g)
  {
    forall m ensures Dirty(es, m) ==> Dirty(es[i := e], m) {
      DirtyElsewhere(es, i, e, m);
    }
  }

  /** Changing the tag, the timestamp or the locks of a live entry, and its register without changing its value. */
  lemma Retag(es: seq<Entry>, h: Host, g: File, i: nat, e: Entry, x: Host64)
    requires Represents(es, h, g) && i < |es| && es[i].live
    requires e.live && e.mips == es[i].mips && e.modified == es[i].modified && Holds(e, x, g)
    ensures Represents(es[i := e], Put(h, i, x), g)
  {
    forall m ensures Dirty(es, m) ==> Dirty(es[i := e], m) {
      DirtyElsewhere(es, i, e, m);
    }
  }

  /** Giving a modified entry a new value changes its register in the file. */
  lemma Overwrite(es: seq<Entry>, h: Host, g: File, i: nat, e: Entry, x: Host64)
    requires Represents(es, h, g) && i < |es| && es[i].live
    requires e.live && e.modified && e.mips == es[i].mips && e.mips != 0
    requires e.mips == COND_BRANCH_TAKEN && e.locks == 0 ==> x < TWO_32
    requires e.mips <= 32 && e.sign == SExt ==> x == SignExtend(Low(x))
    requires e.mips <= 32 ==> e.sign != ZExt
    ensures e.mips <= 32 ==> Represents(es[i := e], Put(h, i, x), g[e.mips := Low(x)])
    ensures e.mips > 32 ==> Represents(es[i := e], Put(h, i, x), g)
  {
    forall m ensures !Dirty(es[i := e], m) ==> m != e.mips && !Dirty(es, m) {
      DirtyElsewhere(es, i, e, m);
    }
  }

  // ---------------------------------------------------------------- the operations of the cache

  /** What a call leaves alone: other entries and the host registers they own. */
  predicate OnlyEntry(es: seq<Entry>, fs: seq<Entry>, h: Host, k: Host, i: nat) {
    && i < |es| == |fs| == |h.regs| == |k.regs|
    && (forall j :: 0 <= j < |es| && j != i ==> fs[j] == es[j] && k.regs[j] == h.regs[j])
  }

  predicate Loaded(want: Want, x: Host64, v: Guest) {
    Low(x) == v && (want.Signed? ==> x == SignExtend(v)) && (want.Unsigned? ==> x == ZeroExtend(v))
  }

  /** The entry `find_register` picks holds `m`, or is free, or is live, unlocked and holds something else. */
  lemma Found(es: seq<Entry>, m: nat)
    requires FindRegister(es, m) < |es|
    ensures var e := es[FindRegister(es, m)];
            if e.live && e.mips == m then true
            else (forall j :: 0 <= j < |es| && es[j].live ==> es[j].mips != m) && (e.live ==> e.locks == 0)
  {
  }

  lemma LoadHit(es: seq<Entry>, i: nat, e: Entry, want: Want, h: Host, g: File)
    requires Represents(es, h, g) && i < |es| && es[i].live && es[i].mips <= 32
    requires e == es[i].(sign := SignAfter(want, es[i].sign), timestamp := e.timestamp, locks := e.locks) && e.locks > 0
    ensures var k := Run(Extension(es[i], i, want), h);
            && Represents(es[i := e], k, g) && OnlyEntry(es, es[i := e], h, k, i) && Loaded(want, k.regs[i], g[e.mips])
            && (e.mips == COND_BRANCH_TAKEN && es[i].locks == 0 && g[e.mips] < TWO_31 ==> k.regs[i] < TWO_32)
  {
    LowOfExtension(g[e.mips]);
    RunOne(ExtendSigned(i), h);
    RunOne(ExtendUnsigned(i), h);
    var k := Run(Extension(es[i], i, want), h);
    assert k == Put(h, i, k.regs[i]);
    Retag(es, h, g, i, e, k.regs[i]);
  }

  lemma LoadMiss(es: seq<Entry>, i: nat, e: Entry, want: Want, h: Host, g: File)
    requires Represents(es, h, g) && i < |es| && e.mips <= 32
    requires e.live && !e.modified && e.sign == SignAfter(want, SExt) && e.locks > 0
    requires forall j :: 0 <= j < |es| && es[j].live ==> es[j].mips != e.mips
    ensures var k := Run(Writeback(es[i], i) + [Reload(i, e.mips, want)], h);
            && Represents(es[i := e], k, g) && OnlyEntry(es, es[i := e], h, k, i) && Loaded(want, k.regs[i], g[e.mips])
            && (g[e.mips] < TWO_31 ==> k.regs[i] < TWO_32)
  {
    var m, fs := e.mips, es[i := EMPTY];
    var h1 := Run(Writeback(es[i], i), h);
    Evict(es, h, g, i);
    RunAppend(Writeback(es[i], i), [Reload(i, m, want)], h);
    RunOne(Reload(i, m, want), h1);
    LowOfExtension(g[m]);
    assert !Dirty(fs, m);
    var x: Host64 := if want.Unsigned? then ZeroExtend(g[m]) else SignExtend(g[m]);
    assert Exec(Reload(i, m, want), h1) == Put(h1, i, x);
    Install(fs, h1, g, i, e, x);
    assert fs[i := e] == es[i := e];
  }

  /** Loading a register changes no value; the host register returned holds it, extended as asked. */
  lemma LoadKeeps(c: Cache, m: nat, want: Want, h: Host, g: File)
    requires Represents(c.entries, h, g) && m <= 32 && FindRegister(c.entries, m) < |c.entries|
    ensures var d, i, k := Load(c, m, want), FindRegister(c.entries, m), Run(LoadOps(c.entries, m, want), h);
            && Represents(d.entries, k, g) && OnlyEntry(c.entries, d.entries, h, k, i)
            && d.entries[i].live && d.entries[i].mips == m && d.entries[i].locks == c.entries[i].locks + 1
            && Loaded(want, k.regs[i], g[m])
            && (m == COND_BRANCH_TAKEN && c.entries[i].locks == 0 && g[m] < TWO_31 ==> k.regs[i] < TWO_32)
  {
    var d, i := Load(c, m, want), FindRegister(c.entries, m);
    Found(c.entries, m);
    if c.entries[i].live && c.entries[i].mips == m {
      LoadHit(c.entries, i, d.entries[i], want, h, g);
    } else {
      LoadMiss(c.entries, i, d.entries[i], want, h, g);
    }
  }

  /** Claiming a register for writing leaves every other register as it was. */
  lemma ModifyKeeps(c: Cache, m: nat, h: Host, g: File)
    requires Represents(c.entries, h, g) && 0 < m <= SCRATCH_REGISTER1 && FindRegister(c.entries, m) < |c.entries|
    ensures var d, i, k := Modify(c, m), FindRegister(c.entries, m), Run(ModifyOps(c.entries, m), h);
            && OnlyEntry(c.entries, d.entries, h, k, i) && k.regs == h.regs
            && d.entries[i].live && d.entries[i].mips == m && d.entries[i].locks == c.entries[i].locks + 1
            && d.entries[i].modified && d.entries[i].sign == Unknown
            && Represents(d.entries, k, if m <= 32 then g[m := Low(h.regs[i])] else g)
  {
    var d, i := Modify(c, m), FindRegister(c.entries, m);
    Found(c.entries, m);
    var e, es := d.entries[i], c.entries;
    if es[i].live && es[i].mips == m {
      Overwrite(es, h, g, i, e, h.regs[i]);
      assert Put(h, i, h.regs[i]) == h;
    } else {
      var k := Run(Writeback(es[i], i), h);
      Evict(es, h, g, i);
      var g' := if m <= 32 then g[m := Low(h.regs[i])] else g;
      InstallModified(es[i := EMPTY], k, g, i, e, k.regs[i]);
      assert es[i := EMPTY][i := e] == es[i := e] && Put(k, i, k.regs[i]) == k;
    }
  }

  /** Filling a free entry with a register about to be written. */
  lemma InstallModified(es: seq<Entry>, h: Host, g: File, i: nat, e: Entry, x: Host64)
    requires Represents(es, h, g) && i < |es| && !es[i].live
    requires e.live && e.modified && e.sign == Unknown && 0 < e.mips <= SCRATCH_REGISTER1
    requires e.mips == COND_BRANCH_TAKEN && e.locks == 0 ==> x < TWO_32
    requires forall j :: 0 <= j < |es| && es[j].live ==> es[j].mips != e.mips
    ensures Represents(es[i := e], Put(h, i, x), if e.mips <= 32 then g[e.mips := Low(x)] else g)
  {
    forall m ensures !Dirty(es[i := e], m) ==> m != e.mips && !Dirty(es, m) {
      DirtyElsewhere(es, i, e, m);
    }
  }

  lemma {:induction false} FlushKeeps(es: seq<Entry>, which: nat -> bool, n: nat, h: Host, g: File)
    requires Represents(es, h, g) && n <= |es|
    ensures Represents(FreedEntries(es, which, n), Run(FlushOps(es, which, n), h), g)
  {
    if n > 0 {
      FlushKeeps(es, which, n - 1, h, g);
      var fs, k := FreedEntries(es, which, n - 1), Run(FlushOps(es, which, n - 1), h);
      var ops := if which(n - 1) then Writeback(es[n - 1], n - 1) else [];
      RunAppend(FlushOps(es, which, n - 1), ops, h);
      if which(n - 1) {
        Evict(fs, k, g, n - 1);
        if !es[n - 1].live { SameUntilLive(fs, n - 1, k, g); }
      }
    }
  }

  lemma SameUntilLive(es: seq<Entry>, i: nat, h: Host, g: File)
    requires Represents(es, h, g) && i < |es| && !es[i].live
    ensures Run(Writeback(es[i], i), h) == h
  {
  }

  // ---------------------------------------------------------------- the cache and the code emitted so far

  /** Run from `h0`, the code emitted so far leaves a host state that represents `g` under the cache. */
  predicate Rep(c: Cache, h0: Host, g: File) {
    Represents(c.entries, Run(c.code, h0), g)
  }

  predicate NoLocks(es: seq<Entry>) {
    forall k :: 0 <= k < |es| ==> es[k].locks == 0
  }

  /** Between instructions: at least three host registers, none of them locked. */
  predicate Idle(c: Cache) { |c.entries| >= 3 && NoLocks(c.entries) }

  /** Register 0 is never waiting to be written back: the assertion in `writeback_register`. */
  predicate NoDirtyZero(es: seq<Entry>) {
    forall k :: 0 <= k < |es| && es[k].live && es[k].modified ==> es[k].mips != 0
  }

  lemma RepNoDirtyZero(c: Cache, h0: Host, g: File)
    requires Rep(c, h0, g)
    ensures NoDirtyZero(c.entries)
  {
  }

  lemma EmitRep(c: Cache, op: HostOp, h0: Host)
    ensures Run(Emit(c, op).code, h0) == Exec(op, Run(c.code, h0))
  {
    RunAppend(c.code, [op], h0);
    RunOne(op, Run(c.code, h0));
  }

  /** Writing back and freeing any selection of entries changes no register. */
  lemma FlushRep(c: Cache, which: nat -> bool, h0: Host, g: File)
    requires Rep(c, h0, g)
    ensures Rep(Flush(c, which), h0, g)
    ensures forall k :: 0 <= k < |c.entries| && which(k) ==> !Flush(c, which).entries[k].live
  {
    RunAppend(c.code, FlushOps(c.entries, which, |c.entries|), h0);
    FlushKeeps(c.entries, which, |c.entries|, Run(c.code, h0), g);
  }

  /** Flushing the window leaves memory equal to the register file on registers 1 to 32, and nothing cached. */
  lemma FlushWindowWritesAll(c: Cache, h0: Host, g: File)
    requires Rep(c, h0, g)
    ensures var d := FlushRegisterWindow(c);
            && Rep(d, h0, g) && (forall k :: 0 <= k < |d.entries| ==> !d.entries[k].live)
            && Run(d.code, h0).sr[1..] == g[1..]
  {
    var d := FlushRegisterWindow(c);
    FlushRep(c, _ => true, h0, g);
    forall m | 1 <= m <= 32 ensures Run(d.code, h0).sr[m] == g[m] {
      assert !Dirty(d.entries, m);
    }
  }

  /** Flushing one register leaves its value in memory and in no host register. */
  lemma FlushRegisterWrites(c: Cache, m: nat, h0: Host, g: File)
    requires Rep(c, h0, g) && 1 <= m <= 32
    ensures var d := Flush(c, Holding(c.entries, m));
            && Rep(d, h0, g) && Run(d.code, h0).sr[m] == g[m]
            && (forall k :: 0 <= k < |d.entries| && d.entries[k].live ==> d.entries[k].mips != m)
  {
    var d := Flush(c, Holding(c.entries, m));
    FlushRep(c, Holding(c.entries, m), h0, g);
    assert !Dirty(d.entries, m);
  }
}
