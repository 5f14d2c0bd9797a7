/**
  How the state of an emitted block relates to the state of the control-flow code
  in `BlockCompiler`: the register cache and memory hold the scalar registers and
  the branch condition, and the branch state is kept in the same places.
 */
module LowRelation {
  import opened Arithmetic
  import opened Wrappers
  import opened Isa
  import opened HostWords
  import opened RegisterCache
  import opened ScalarCode
  import opened MemoryCode
  import opened BranchRegisters
  import opened BranchCode
  import opened Decoder
  import opened LowCode
  import HostBytes
  import B = BlockCompiler
  import D = DelaySlots

  type Abstract<V> = B.Host<Rest<V>>

  /** The branch state outside the window; host words hold 32-bit values in their low half. */
  predicate ControlRel<V>(k: RegisterCache.Control, h: Abstract<V>) {
    && Low(k.indirect) == h.indirect && k.spilledCond == h.spilledCond && Low(k.spilledPc) == h.spilledIndirect
    && k.hasDelay == h.hasDelay && k.branchTarget == h.branchTarget
  }

  /** The register file of the abstract state; the condition is zero or one. */
  function FileIn<V>(h: Abstract<V>): (g: RegisterCache.File)
    requires h.cond <= 1
    ensures forall i :: 0 <= i < 32 ==> g[i] == h.m.sr[i]
    ensures g[32] == h.cond
  {
    FileOf(h.m.sr, h.cond)
  }

  ghost predicate Rel<V>(es: seq<Entry>, low: Native<V>, h: Abstract<V>) {
    && h.cond <= 1 && |es| >= 3 && NoLocks(es) && Represents(es, low.core, FileIn(h))
    && HostBytes.MemView(low.core.dmem) == h.m.rest.dmem && low.other == h.m.rest.other
    && ControlRel(low.core.control, h)
  }

  /** `n` empty entries, as after a reset. */
  function Fresh(n: nat): (es: seq<Entry>)
    ensures |es| == n && forall k :: 0 <= k < n ==> es[k] == EMPTY
  {
    if n == 0 then [] else Fresh(n - 1) + [EMPTY]
  }

  /** Where several paths meet nothing is cached: all `n` host registers are free, and memory holds the registers. */
  ghost predicate FlushedRel<V>(n: nat, low: Native<V>, h: Abstract<V>) {
    && h.cond <= 1 && |low.core.regs| == n >= 3 && |low.core.sr| == 33
    && (forall i :: 1 <= i <= 32 ==> low.core.sr[i] == FileIn(h)[i])
    && HostBytes.MemView(low.core.dmem) == h.m.rest.dmem && low.other == h.m.rest.other
    && ControlRel(low.core.control, h)
  }

  /** No entry is live or locked. */
  predicate Dead(es: seq<Entry>) { forall k :: 0 <= k < |es| ==> !es[k].live && es[k].locks == 0 }

  lemma DeadRel<V>(es: seq<Entry>, low: Native<V>, h: Abstract<V>)
    requires Dead(es)
    ensures Rel(es, low, h) <==> FlushedRel(|es|, low, h)
  {
    assert forall m :: !Dirty(es, m);
  }

  predicate SamePc(x: Host64, pc: nat) { WordOf(Low(x)) == WordOf(pc) }

  /** The exits of emitted code and of control-flow code correspond; `es` is the cache with which falling through goes on. */
  ghost predicate ExitRel<V>(es: seq<Entry>, n: nat, l: LowExit<V>, e: B.Exit<Rest<V>>) {
    match l
    case LFalls(low) => e.Falls? && Rel(es, low, e.h)
    case LToLabel(i, low) => e.ToLabel? && e.index == i && FlushedRel(n, low, e.h)
    case LToLatent(low) => e.ToLatent? && FlushedRel(n, low, e.h)
    case LEnters(low) => e.Enters? && FlushedRel(n, low, e.h) && SamePc(Reg(low.core, NEXT_PC), e.h.nextPc)
    case LReturns(low) =>
      e.Returns? && FlushedRel(n, low, e.h) && SamePc(Reg(low.core, NEXT_PC), e.h.nextPc) && Low(Reg(low.core, MODE)) == e.h.mode
  }

  /** A cache at the start of a piece of code. */
  predicate Starting(c: Cache) { c.code == [] }

  function Restarted(c: Cache): Cache { c.(code := []) }

  function AfterRun<V>(c: Cache, low: Native<V>): Native<V> { low.(core := Run(c.code, low.core)) }

  lemma ToLeaves<V>(c: Cache, low: Native<V>, h: Abstract<V>)
    requires Starting(c) && Rel(c.entries, low, h)
    ensures Leaves(c, low.core, FileIn(h)) && HostAt(c, low.core) == low.core && CondSmall(FileIn(h))
  {
  }

  lemma FromLeaves<V>(d: Cache, low: Native<V>, h: Abstract<V>)
    requires h.cond <= 1 && Leaves(d, low.core, FileIn(h))
    requires HostBytes.MemView(HostAt(d, low.core).dmem) == h.m.rest.dmem && low.other == h.m.rest.other
    requires ControlRel(HostAt(d, low.core).control, h)
    ensures Rel(d.entries, AfterRun(d, low), h)
  {
  }

  lemma FlushedToFresh<V>(d: Cache, low: Native<V>, h: Abstract<V>)
    requires h.cond <= 1 && Flushed(d, low.core, FileIn(h))
    requires HostBytes.MemView(HostAt(d, low.core).dmem) == h.m.rest.dmem && low.other == h.m.rest.other
    requires ControlRel(HostAt(d, low.core).control, h)
    ensures Dead(d.entries) && FlushedRel(|d.entries|, AfterRun(d, low), h)
  {
    FromLeaves(d, low, h);
    DeadRel(d.entries, AfterRun(d, low), h);
  }

  // ---------------------------------------------------------------- straight scalar instructions

  /** Scalar instructions neither read nor write the branch condition. */
  lemma ConditionUntouched(i: Scalar, sr: Regs, cond: Guest, m: HostBytes.Dmem)
    requires LegalScalar(i) && !TestsCondition(i)
    ensures var a, b := StepScalar(i, ScalarState(FileOf(sr, 0), m)), StepScalar(i, ScalarState(FileOf(sr, cond), m));
            a.m == b.m && b.g == FileOf(RegsOf(a.g), cond)
  {
    var a, b := StepScalar(i, ScalarState(FileOf(sr, 0), m)), StepScalar(i, ScalarState(FileOf(sr, cond), m));
    assert forall k :: 0 <= k < 32 ==> a.g[k] == b.g[k];
  }

  lemma ScalarLowered<V>(calls: Calls<V>, i: Scalar, w: Word, c: Cache, callerSave: nat, low: Native<V>, h: Abstract<V>)
    requires Starting(c) && Rel(c.entries, low, h) && Decode(w) == Exact(i)
    ensures var d := CompileScalar(i, c, callerSave);
            Rel(d.entries, AfterRun(d, low), h.(m := PlainStep(calls, w, h.m)))
  {
    ToLeaves(c, low, h);
    DecodeLegal(w);
    var s := ScalarState(FileIn(h), h.m.rest.dmem);
    CompileScalarCorrect(i, c, callerSave, low.core, s);
    ConditionUntouched(i, h.m.sr, h.cond, h.m.rest.dmem);
    FromLeaves(CompileScalar(i, c, callerSave), low, h.(m := PlainStep(calls, w, h.m)));
  }

  // ---------------------------------------------------------------- calls

  /** What is flushed before a call to a vector instruction. */
  function FlushForCall(c: Cache, touched: Option<nat>, callerSave: nat): Cache {
    var d := FlushCallerSave(c, callerSave);
    match touched case Some(t) => Flush(d, Holding(d.entries, t)) case None => d
  }

  /** The caller-saved registers are free, and the register the call uses is in memory only. */
  predicate ReadyForCall(d: Cache, touched: Option<nat>, callerSave: nat, h0: Host, g: RegisterCache.File) {
    && Leaves(d, h0, g) && (forall k :: 0 <= k < |d.entries| && k < callerSave ==> !d.entries[k].live)
    && (touched.Some? && 0 < touched.value < 32 ==>
          && (forall k :: 0 <= k < |d.entries| && d.entries[k].live ==> d.entries[k].mips != touched.value)
          && |HostAt(d, h0).sr| == 33 && HostAt(d, h0).sr[touched.value] == g[touched.value])
  }

  lemma FlushOne(c: Cache, t: nat, callerSave: nat, h0: Host, g: RegisterCache.File)
    requires Leaves(c, h0, g) && (forall k :: 0 <= k < |c.entries| && k < callerSave ==> !c.entries[k].live) && t < 32
    ensures var d := Flush(c, Holding(c.entries, t));
            ReadyForCall(d, Some(t), callerSave, h0, g) && SameRegs(HostAt(c, h0), HostAt(d, h0)) && |d.entries| == |c.entries|
  {
    var d := Flush(c, Holding(c.entries, t));
    FlushRep(c, Holding(c.entries, t), h0, g);
    RunAppend(c.code, FlushOps(c.entries, Holding(c.entries, t), |c.entries|), h0);
    FlushKeepsRegs(c.entries, Holding(c.entries, t), |c.entries|, HostAt(c, h0));
    if t > 0 { FlushRegisterWrites(c, t, h0, g); }
  }

  lemma CallReady(c: Cache, touched: Option<nat>, callerSave: nat, h0: Host, g: RegisterCache.File)
    requires Leaves(c, h0, g) && (touched.Some? ==> touched.value < 32)
    ensures var d := FlushForCall(c, touched, callerSave);
            ReadyForCall(d, touched, callerSave, h0, g) && SameRegs(HostAt(c, h0), HostAt(d, h0)) && |d.entries| == |c.entries|
  {
    FlushStep(c, callerSave, h0, g);
    if touched.Some? { FlushOne(FlushCallerSave(c, callerSave), touched.value, callerSave, h0, g); }
  }

  /** A call that uses one register in memory and loses the caller-saved ones keeps the representation. */
  lemma CallKeeps(es: seq<Entry>, h: Host, g: RegisterCache.File, t: nat, v: Guest, callerSave: nat)
    requires Represents(es, h, g) && 0 < t < 32
    requires (forall k :: 0 <= k < |es| && k < callerSave ==> !es[k].live)
    requires (forall k :: 0 <= k < |es| && es[k].live ==> es[k].mips != t)
    ensures Represents(es, Called(h.(sr := h.sr[t := v]), callerSave), g[t := v])
  {
    assert !Dirty(es, t);
  }

  lemma CallLowered<V>(calls: Calls<V>, w: Word, touched: Option<nat>, c: Cache, callerSave: nat, low: Native<V>, h: Abstract<V>)
    requires Starting(c) && Rel(c.entries, low, h) && Decode(w) == Call(touched)
    ensures var d := FlushForCall(c, touched, callerSave);
            Rel(d.entries, CallPlain(calls, w, touched, callerSave, AfterRun(d, low)), h.(m := PlainStep(calls, w, h.m)))
  {
    DecodeLegal(w);
    ToLeaves(c, low, h);
    CallReady(c, touched, callerSave, low.core, FileIn(h));
    CallMade(calls, w, touched, FlushForCall(c, touched, callerSave), callerSave, low, h);
  }

  lemma CallMade<V>(calls: Calls<V>, w: Word, touched: Option<nat>, d: Cache, callerSave: nat, low: Native<V>, h: Abstract<V>)
    requires h.cond <= 1 && ReadyForCall(d, touched, callerSave, low.core, FileIn(h)) && (touched.Some? ==> touched.value < 32)
    requires Decode(w) == Call(touched) && low.other == h.m.rest.other
    requires HostBytes.MemView(HostAt(d, low.core).dmem) == h.m.rest.dmem && ControlRel(HostAt(d, low.core).control, h)
    ensures Rel(d.entries, CallPlain(calls, w, touched, callerSave, AfterRun(d, low)), h.(m := PlainStep(calls, w, h.m)))
  {
    var v, k := Touched(h.m.sr, touched), HostAt(d, low.core);
    var x, r := calls.value(w, v, h.m.rest), calls.rest(w, v, h.m.rest);
    MemViewTwice(r.dmem);
    var h' := h.(m := PlainStep(calls, w, h.m));
    if touched.Some? && touched.value > 0 {
      CallKeeps(d.entries, k, FileIn(h), touched.value, x, callerSave);
      assert FileIn(h') == FileIn(h)[touched.value := x];
    } else {
      ClobberKeeps(d.entries, k, FileIn(h), callerSave);
      assert FileIn(h') == FileIn(h);
    }
  }

  /** A call to coprocessor 0, after the whole window has been flushed. */
  lemma Cop0Lowered<V>(calls: Calls<V>, w: Word, c: Cache, callerSave: nat, low: Native<V>, h: Abstract<V>)
    requires Starting(c) && Rel(c.entries, low, h)
    ensures var d := FlushRegisterWindow(c);
            var l := CallCop0(calls, w, callerSave, AfterRun(d, low));
            && |d.entries| == |c.entries| && Reg(l.core, MODE) == SignExtend(calls.mode(w, h.m))
            && FlushedRel(|c.entries|, l, h.(m := calls.cop0(w, h.m), mode := calls.mode(w, h.m)))
  {
    ToLeaves(c, low, h);
    FlushWindowStep(c, low.core, FileIn(h));
    Cop0Made(calls, w, FlushRegisterWindow(c), callerSave, low, h);
  }

  lemma Cop0Made<V>(calls: Calls<V>, w: Word, d: Cache, callerSave: nat, low: Native<V>, h: Abstract<V>)
    requires h.cond <= 1 && Flushed(d, low.core, FileIn(h)) && low.other == h.m.rest.other
    requires HostBytes.MemView(HostAt(d, low.core).dmem) == h.m.rest.dmem && ControlRel(HostAt(d, low.core).control, h)
    ensures var l := CallCop0(calls, w, callerSave, AfterRun(d, low));
            && Reg(l.core, MODE) == SignExtend(calls.mode(w, h.m))
            && FlushedRel(|d.entries|, l, h.(m := calls.cop0(w, h.m), mode := calls.mode(w, h.m)))
  {
    var k, m' := HostAt(d, low.core), calls.cop0(w, h.m);
    forall i | 1 <= i <= 32 ensures k.sr[i] == FileIn(h)[i] {
      assert k.sr[i] == k.sr[1..][i - 1] == FileIn(h)[1..][i - 1];
    }
    assert MemoryRegs(k) == h.m.sr;
    MemViewTwice(m'.rest.dmem);
    var l := CallCop0(calls, w, callerSave, AfterRun(d, low));
    var h' := h.(m := m', mode := calls.mode(w, h.m));
  }
}
