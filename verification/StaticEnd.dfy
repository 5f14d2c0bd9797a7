/**
  Where a block ends: the scan of `analyze_static_end` and the window that
  `get_jit_block` gives it (rsp_jit.cpp).
 */
module StaticEnd {
  import opened Arithmetic
  import opened Wrappers
  import opened Isa
  import opened BlockCompiler
  import opened DelaySlots

  const CODE_BLOCK_WORDS := 64

  datatype Verdict = Stop(at: nat) | Continue(max: nat)

  /** What the scan concludes from the word at `p`, when code up to `max` is known to be reachable. */
  function Inspect(w: Word, p: nat, pc: nat, end: nat, max: nat): Verdict {
    var forward := p + 1 < max;
    var m := if forward then max else p + 1;
    var raised := match StaticTarget(w, p) case Some(t) => (if pc <= t < end then Max(m, t + 1) else m) case None => m;
    match Classify(w)
    case JumpRegister(_) => if forward then Continue(m) else Stop(Max(p + 2, m))
    case Break => if forward then Continue(m) else Stop(m)
    case Jump(_) => if forward then Continue(raised) else Stop(Max(p + 2, m))
    case Branch(_, _) => Continue(raised)
    case _ => Continue(m)
  }

  /** The scan from position `p` on. */
  function Scan(imem: Imem, pc: nat, end: nat, p: nat, max: nat): nat
    requires pc <= p <= end <= 1024
    decreases end - p
  {
    if p == end then Min(max, end)
    else
      match Inspect(imem[p], p, pc, end, max)
      case Stop(at) => Min(at, end)
      case Continue(m) => Scan(imem, pc, end, p + 1, m)
  }

  function StaticEnd(imem: Imem, pc: nat, end: nat): nat
    requires pc < end <= 1024
  {
    Scan(imem, pc, end, pc, pc)
  }

  /** `analyze_static_end` as written: a loop that raises `max_static_pc` and leaves early. */
  method AnalyzeStaticEnd(imem: Imem, pc: nat, end: nat) returns (r: nat)
    requires pc < end <= 1024
    ensures r == StaticEnd(imem, pc, end) && IsFirstEnd(imem, pc, end, r)
  {
    var maxStaticPc: nat := pc;
    var p := pc;
    while p < end
      invariant pc <= p <= end
      invariant Scan(imem, pc, end, p, maxStaticPc) == StaticEnd(imem, pc, end)
    {
      var instr := imem[p];
      ghost var verdict := Inspect(instr, p, pc, end, maxStaticPc);
      var forwardGoto := p + 1 < maxStaticPc;
      if !forwardGoto { maxStaticPc := p + 1; }
      match Classify(instr) {
        case JumpRegister(_) =>
          if !forwardGoto {
            maxStaticPc := Max(p + 2, maxStaticPc);
            assert verdict == Stop(maxStaticPc);
            break;
          }
        case Break =>
          if !forwardGoto { break; }
        case Jump(_) =>
          var target := instr % 1024;
          if !forwardGoto {
            maxStaticPc := Max(p + 2, maxStaticPc);
            assert verdict == Stop(maxStaticPc);
            break;
          } else if pc <= target < end {
            maxStaticPc := Max(maxStaticPc, target + 1);
          }
        case Branch(_, _) =>
          var target := (p + 1 + instr) % 1024;
          if pc <= target < end { maxStaticPc := Max(maxStaticPc, target + 1); }
        case _ =>
      }
      assert verdict == Continue(maxStaticPc);
      p := p + 1;
    }
    r := Min(maxStaticPc, end);
    StaticEndLeast(imem, pc, end);
  }

  // ---------------------------------------------------------------- what the scan guarantees

  /** Every static target that lies in [pc, end) and belongs to an instruction before `p` is below `bound`. */
  predicate TargetsBelow(imem: Imem, pc: nat, end: nat, p: nat, bound: nat)
    requires p <= 1024
  {
    forall q :: pc <= q < p ==>
      match StaticTarget(imem[q], q) case Some(t) => pc <= t < end ==> t < bound case None => true
  }

  /** A block that ends before its window ends at a BREAK, or after the delay slot of a jump no branch skips. */
  predicate Closed(imem: Imem, pc: nat, end: nat, r: nat)
    requires r <= 1024
  {
    || (pc < r && Classify(imem[r - 1]).Break? && TargetsBelow(imem, pc, end, r - 1, r))
    || (pc + 1 < r && (Classify(imem[r - 2]).Jump? || Classify(imem[r - 2]).JumpRegister?)
        && TargetsBelow(imem, pc, end, r - 2, r - 1))
  }

  lemma {:induction false} ScanClosed(imem: Imem, pc: nat, end: nat, p: nat, max: nat)
    requires pc <= p <= end <= 1024 && pc < end && p <= max && TargetsBelow(imem, pc, end, p, max)
    ensures var r := Scan(imem, pc, end, p, max);
            pc < r <= end && (r < end ==> Closed(imem, pc, end, r))
    decreases end - p
  {
    if p < end {
      match Inspect(imem[p], p, pc, end, max)
      case Stop(at) =>
        assert max <= p + 1;
      case Continue(m) =>
        assert max <= m && p + 1 <= m;
        ScanClosed(imem, pc, end, p + 1, m);
    }
  }

  /** Static-end closure. */
  lemma StaticEndClosed(imem: Imem, pc: nat, end: nat)
    requires pc < end <= 1024
    ensures var r := StaticEnd(imem, pc, end);
            pc < r <= end && (r < end ==> Closed(imem, pc, end, r))
  {
    ScanClosed(imem, pc, end, pc, pc);
  }

  /** `r` is the first place in the window where the code closes, or the end of the window. */
  predicate IsFirstEnd(imem: Imem, pc: nat, end: nat, r: nat)
    requires end <= 1024
  {
    pc < r <= end && (r < end ==> Closed(imem, pc, end, r)) && forall q :: pc < q < r ==> !Closed(imem, pc, end, q)
  }

  /** The instruction at `k` ends the code: nothing falls past it, and no earlier target lies beyond it. */
  predicate Closes(imem: Imem, pc: nat, end: nat, k: nat)
    requires k < 1024
  {
    && (Classify(imem[k]).Break? || Classify(imem[k]).Jump? || Classify(imem[k]).JumpRegister?)
    && TargetsBelow(imem, pc, end, k, k + 1)
  }

  /** Some target before `p` is the last one below `max`. */
  predicate Reaches(imem: Imem, pc: nat, end: nat, p: nat, max: nat)
    requires p <= 1024
  {
    exists q :: pc <= q < p && match StaticTarget(imem[q], q) case Some(t) => pc <= t < end && t + 1 == max case None => false
  }

  /** The scan goes on exactly while nothing closes the code, so it stops at the first end there is. */
  lemma {:induction false} ScanFirst(imem: Imem, pc: nat, end: nat, p: nat, max: nat, q: nat)
    requires pc <= p <= end <= 1024 && pc < q < end && TargetsBelow(imem, pc, end, p, max)
    requires p <= max && (max == p || Reaches(imem, pc, end, p, max))
    requires forall k :: pc <= k < p ==> !Closes(imem, pc, end, k)
    requires Closed(imem, pc, end, q)
    ensures Scan(imem, pc, end, p, max) <= q
    decreases end - p
  {
    var k := ClosingInstruction(imem, pc, end, q);
    assert p <= k;
    match Inspect(imem[p], p, pc, end, max)
    case Stop(at) => StopsBefore(imem, pc, end, p, max, at, k, q);
    case Continue(m) =>
      StillOpen(imem, pc, end, p, max);
      Raised(imem, pc, end, p, max, m);
      ScanFirst(imem, pc, end, p + 1, m, q);
  }

  lemma ClosingInstruction(imem: Imem, pc: nat, end: nat, q: nat) returns (k: nat)
    requires pc < q < end <= 1024 && Closed(imem, pc, end, q)
    ensures pc <= k < q && Closes(imem, pc, end, k) && (k == q - 1 || (k == q - 2 && !Classify(imem[k]).Break?))
    ensures k == q - 1 ==> Classify(imem[k]).Break?
  {
    k := if Classify(imem[q - 1]).Break? && TargetsBelow(imem, pc, end, q - 1, q) then q - 1 else q - 2;
  }

  lemma StopsBefore(imem: Imem, pc: nat, end: nat, p: nat, max: nat, at: nat, k: nat, q: nat)
    requires pc <= p <= k < q < end <= 1024 && Inspect(imem[p], p, pc, end, max) == Stop(at)
    requires k == q - 1 || (k == q - 2 && !Classify(imem[k]).Break?)
    requires k == q - 1 ==> Classify(imem[k]).Break?
    ensures at <= q
  {
  }

  lemma StillOpen(imem: Imem, pc: nat, end: nat, p: nat, max: nat)
    requires pc <= p < end <= 1024 && p <= max && (max == p || Reaches(imem, pc, end, p, max))
    requires Inspect(imem[p], p, pc, end, max).Continue?
    ensures !Closes(imem, pc, end, p)
  {
    if p + 1 < max {
      var q :| pc <= q < p && match StaticTarget(imem[q], q) case Some(t) => pc <= t < end && t + 1 == max case None => false;
      assert !TargetsBelow(imem, pc, end, p, p + 1);
    }
  }

  lemma Raised(imem: Imem, pc: nat, end: nat, p: nat, max: nat, m: nat)
    requires pc <= p < end <= 1024 && p <= max && (max == p || Reaches(imem, pc, end, p, max))
    requires TargetsBelow(imem, pc, end, p, max) && Inspect(imem[p], p, pc, end, max) == Continue(m)
    ensures p + 1 <= m && (m == p + 1 || Reaches(imem, pc, end, p + 1, m)) && TargetsBelow(imem, pc, end, p + 1, m)
  {
    assert max <= m;
  }

  /** The static end is the first place where the code closes, and the end of the window if there is none. */
  lemma StaticEndLeast(imem: Imem, pc: nat, end: nat)
    requires pc < end <= 1024
    ensures var r := StaticEnd(imem, pc, end);
            IsFirstEnd(imem, pc, end, r) && (r == end <==> forall q :: pc < q < end ==> !Closed(imem, pc, end, q))
  {
    StaticEndClosed(imem, pc, end);
    forall q | pc < q < end && Closed(imem, pc, end, q) ensures StaticEnd(imem, pc, end) <= q {
      ScanFirst(imem, pc, end, pc, pc, q);
    }
  }

  /** The scan only reads the window. */
  lemma {:induction false} ScanLocal(a: Imem, b: Imem, pc: nat, end: nat, p: nat, max: nat)
    requires pc <= p <= end <= 1024 && a[pc..end] == b[pc..end]
    ensures Scan(a, pc, end, p, max) == Scan(b, pc, end, p, max)
    decreases end - p
  {
    if p < end {
      assert a[p] == a[pc..end][p - pc] == b[pc..end][p - pc] == b[p];
      match Inspect(a[p], p, pc, end, max)
      case Stop(_) =>
      case Continue(m) => ScanLocal(a, b, pc, end, p + 1, m);
    }
  }

  /**
    Control never falls through the end of a block that ends before its window,
    whatever its last instruction is, unless the delay slot of the final jump is
    itself a label.  `DelaySlotLimits.FallThroughExact` shows that the exception
    is exact.
   */
  lemma NoFallThrough<M>(sem: Sem<M>, imem: Imem, pc: nat, end: nat, h: Host<M>)
    requires pc < end <= 1024 && end - pc <= 128
    requires var r := StaticEnd(imem, pc, end);
             r < end && pc < r && (Classify(imem[r - 1]).Break? || !Labelled(imem, pc, r, r - 1))
    ensures var r := StaticEnd(imem, pc, end);
            !Exec(sem, SegmentOf(imem, pc, r, r - 1).code, h).Falls?
  {
    StaticEndClosed(imem, pc, end);
    var r := StaticEnd(imem, pc, end);
    if Classify(imem[r - 1]).Break? {
      PlainExec(sem, imem[r - 1], 4 * (r - 1), LastInfo(imem, pc, r, r - 1), r - 1 == pc, Labelled(imem, pc, r, r),
                TailAt(imem, pc, r, r - 1), h);
      ExitNeverFalls(sem, 4 * (r - 1), LastInfo(imem, pc, r, r - 1), r - 1 == pc, h.(mode := MODE_BREAK));
    } else if ChangesFlow(Classify(imem[r - 1])) {
      BranchLeaves(sem, imem, pc, r, h);
    } else {
      SlotLeaves(sem, imem, pc, r, h);
    }
  }

  /** A straight instruction in the delay slot of an unconditional jump. */
  lemma SlotLeaves<M>(sem: Sem<M>, imem: Imem, pc: nat, r: nat, h: Host<M>)
    requires Region(pc, r) && pc + 1 < r && !ChangesFlow(Classify(imem[r - 1])) && !Classify(imem[r - 1]).Break?
    requires var last := LastInfo(imem, pc, r, r - 1); last.branch && !last.conditional
    ensures !Exec(sem, SegmentOf(imem, pc, r, r - 1).code, h).Falls?
  {
    var p, last := r - 1, LastInfo(imem, pc, r, r - 1);
    PlainExec(sem, imem[p], 4 * p, last, false, Labelled(imem, pc, r, r), TailAt(imem, pc, r, p), h);
    UnconditionalLeaves(sem, last, 4 * pc, 4 * r, h.(m := sem.exec(imem[p], h.m)));
    var called := h.(m := sem.cop0(imem[p], h.m), mode := sem.cop0Mode(imem[p], h.m));
    UnconditionalLeaves(sem, last, 4 * pc, 4 * r, called);
    ExitNeverFalls(sem, 4 * p, last, false, called);
  }

  /** A branch in the delay slot of an unconditional jump. */
  lemma BranchLeaves<M>(sem: Sem<M>, imem: Imem, pc: nat, r: nat, h: Host<M>)
    requires Region(pc, r) && pc + 1 < r && ChangesFlow(Classify(imem[r - 1]))
    requires var last := LastInfo(imem, pc, r, r - 1); last.branch && !last.conditional
    ensures !Exec(sem, SegmentOf(imem, pc, r, r - 1).code, h).Falls?
  {
    var p, last, info := r - 1, LastInfo(imem, pc, r, r - 1), RegionInfo(imem, pc, r, r - 1);
    var h1 := AfterBranch(imem[p], p, last, Labelled(imem, pc, r, r), h);
    FlowExit(sem, imem, pc, r, p, TailAt(imem, pc, r, p), h);
    ImpossibleExec(sem, info, last, h1);
    UnconditionalLeaves(sem, last, 4 * pc, 4 * r, h1);
  }

  lemma UnconditionalLeaves<M>(sem: Sem<M>, last: Info, base: nat, end: nat, h: Host<M>)
    requires last.branch && !last.conditional
    ensures !Exec(sem, HandleDelaySlot(last, base, end, Fall), h).Falls?
  {
    ExecLeaf(sem, LoadTarget(last, NextPcReg), h.(cond := 0));
  }

  lemma ExitNeverFalls<M>(sem: Sem<M>, pc: nat, last: Info, first: bool, h: Host<M>)
    ensures !Exec(sem, ExitDynamic(pc, last, first), h).Falls?
  {
    var h1 := Put(h, NextPcReg, if first then h.hasDelay else h.cond);
    ExecLeaf(sem, Movi(NextPcReg, FollowingBytes(pc)), h1);
    ExecLeaf(sem, LoadTarget(last, NextPcReg), h1);
    ExecThree(sem, Movi(NextPcReg, 0), StoreHasDelay(NextPcReg), LoadBranchTarget(NextPcReg), Return, h1);
  }

  // ---------------------------------------------------------------- the window of a block

  /** The end of the window of `get_jit_block` for a fetch at byte address `pc`: the rest of this code block and the next. */
  function WindowEnd(pc: nat): nat {
    Min((pc + 2 * 256) / 256 * 64, 1024)
  }

  lemma WindowFacts(w: Addr)
    ensures Region(w, WindowEnd(4 * w)) && WindowEnd(4 * w) == if w < 960 then (w / 64 + 2) * 64 else 1024
  {
  }

  /** Where the block entered at `w` ends. */
  function BlockEnd(imem: Imem, w: Addr): nat {
    WindowFacts(w);
    StaticEnd(imem, w, WindowEnd(4 * w))
  }

  lemma BlockEndFacts(imem: Imem, w: Addr)
    ensures Region(w, BlockEnd(imem, w)) && BlockEnd(imem, w) <= (w / 64 + 2) * 64
  {
    WindowFacts(w);
    StaticEndClosed(imem, w, WindowEnd(4 * w));
  }

  /** The block lengths the recompiler actually chooses. */
  function BlockLengths(imem: Imem): Addr -> nat { (w: Addr) => BlockEnd(imem, w) }

  /** No block of this IMEM has one of the unsafe shapes. */
  ghost predicate SafeImem(imem: Imem) {
    forall w: Addr :: Region(w, BlockEnd(imem, w)) && SafeRegion(imem, w, BlockEnd(imem, w))
  }

  lemma LengthsValid(imem: Imem)
    ensures ValidEnds(BlockLengths(imem))
  {
    forall w: Addr ensures Region(w, BlockLengths(imem)(w)) { BlockEndFacts(imem, w); }
  }

  /** The simulation theorem, over whole sessions, for the blocks the recompiler actually builds. */
  lemma BlocksSimulate<M(!new)>(sem: Sem<M>, outside: Outside<M>, imem: Imem, h: Host<M>, n: nat)
    requires SafeImem(imem)
    requires forall k: nat, mode: nat, pc: Addr, m: Machine<M> :: SafeImem(outside(k, mode, pc, m).imem)
    ensures (forall m: Imem :: ValidEnds(BlockLengths(m)))
    ensures var t := HostSessionRun(sem, BlockLengths, outside, HostSession(imem, EnterBlock(h)), n);
            var u := SessionRun(sem, outside, Session(imem, Running(State(WordOf(h.nextPc), LatentPending(h), h.m))), n);
            t.imem == u.imem && Matches(t.imem, BlockLengths(t.imem), t.c, u.o)
  {
    forall m: Imem ensures ValidEnds(BlockLengths(m)) { LengthsValid(m); }
    SessionSimulation(sem, BlockLengths, outside, imem, h, n);
  }
}
