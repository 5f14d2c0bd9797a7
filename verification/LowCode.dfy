/**
  Blocks as they are really emitted (rsp_jit.cpp): host instructions chosen by the
  register cache, with forward branches between them.  The next pc and the exit
  status live in host registers that the cache also hands out, JIT_R0 and JIT_R1.
 */
module LowCode {
  import opened Arithmetic
  import opened Wrappers
  import opened Isa
  import opened HostWords
  import opened RegisterCache
  import opened Decoder
  import HostBytes

  const NEXT_PC := 0
  const MODE := 1

  /** The host state, and what the called functions keep to themselves. */
  datatype Native<V> = Native(core: Host, other: V)

  datatype LowCode =
    | LFall
    | LRun(ops: seq<HostOp>, next: LowCode)
    | LCall(w: Word, touched: Option<nat>, callerSave: nat, next: LowCode)
    | LCop0(w: Word, callerSave: nat, next: LowCode)
    | LIf(r: nat, v: Host64, equal: LowCode, other: LowCode)
    | LGoto(index: nat)
    | LLatent
    | LEnter
    | LReturn

  datatype LowExit<V> =
    | LFalls(low: Native<V>)
    | LToLabel(index: nat, low: Native<V>)
    | LToLatent(low: Native<V>)
    | LEnters(low: Native<V>)
    | LReturns(low: Native<V>)

  /** What a call leaves of the host registers. */
  function Called(h: Host, callerSave: nat): Host { h.(regs := Clobbered(h.regs, h.junk, callerSave)) }

  function LowRest<V>(low: Native<V>): Rest<V> { Rest(HostBytes.MemView(low.core.dmem), low.other) }

  /** A scalar register in memory; register 0 is never stored and reads as zero. */
  function InMemory(h: Host, t: nat): Guest { if 0 < t < |h.sr| then h.sr[t] else 0 }

  /** A call to a vector instruction. */
  function CallPlain<V>(calls: Calls<V>, w: Word, touched: Option<nat>, callerSave: nat, low: Native<V>): Native<V> {
    var v := match touched case Some(t) => InMemory(low.core, t) case None => 0;
    var r, x := calls.rest(w, v, LowRest(low)), calls.value(w, v, LowRest(low));
    var sr := match touched case Some(t) => (if 0 < t < |low.core.sr| then low.core.sr[t := x] else low.core.sr) case None => low.core.sr;
    Native(Called(low.core.(sr := sr, dmem := HostBytes.MemView(r.dmem)), callerSave), r.other)
  }

  /** The scalar registers in memory. */
  function MemoryRegs(h: Host): (sr: Regs)
    requires |h.sr| == 33
    ensures forall i :: 1 <= i < 32 ==> sr[i] == h.sr[i]
  {
    [0] + h.sr[1..32]
  }

  /** A call to RSP_MFC0 or RSP_MTC0, with its status in the status register. */
  function CallCop0<V>(calls: Calls<V>, w: Word, callerSave: nat, low: Native<V>): Native<V> {
    if |low.core.sr| != 33 then low
    else
      var m := Machine(MemoryRegs(low.core), LowRest(low));
      var m', status := calls.cop0(w, m), calls.mode(w, m);
      var core := low.core.(sr := [low.core.sr[0]] + m'.sr[1..] + [low.core.sr[32]], dmem := HostBytes.MemView(m'.rest.dmem));
      Native(Put(Called(core, callerSave), MODE, SignExtend(status)), m'.rest.other)
  }

  function LowExec<V>(calls: Calls<V>, code: LowCode, low: Native<V>): LowExit<V>
    decreases code
  {
    match code
    case LFall => LFalls(low)
    case LRun(ops, next) => LowExec(calls, next, low.(core := Run(ops, low.core)))
    case LCall(w, touched, callerSave, next) => LowExec(calls, next, CallPlain(calls, w, touched, callerSave, low))
    case LCop0(w, callerSave, next) => LowExec(calls, next, CallCop0(calls, w, callerSave, low))
    case LIf(r, v, equal, other) => if Reg(low.core, r) == v then LowExec(calls, equal, low) else LowExec(calls, other, low)
    case LGoto(index) => LToLabel(index, low)
    case LLatent => LToLatent(low)
    case LEnter => LEnters(low)
    case LReturn => LReturns(low)
  }

  /** Swapping the bytes of every word twice changes nothing. */
  lemma MemViewTwice(d: HostBytes.Dmem)
    ensures HostBytes.MemView(HostBytes.MemView(d)) == d
  {
    var v := HostBytes.MemView(HostBytes.MemView(d));
    forall a | 0 <= a < 4096 ensures v[a] == d[a] {
      HostBytes.BesFacts(a);
      HostBytes.MemViewAt(HostBytes.MemView(d), a);
      HostBytes.MemViewAt(d, HostBytes.Bes(a));
    }
  }
}
