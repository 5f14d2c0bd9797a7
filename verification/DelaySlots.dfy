/**
  Delay slots are compiled correctly: the emitted code of every block, entered
  through the thunk in any state, moves in lock step with the delay-slot
  interpreter over whole runs that cross any number of blocks.
 */
module DelaySlots {
  import opened Wrappers
  import opened Isa
  import opened BlockCompiler

  // ---------------------------------------------------------------- running blocks

  /** Block lengths: where the region entered at each word address ends. */
  ghost predicate ValidEnds(ends: Addr -> nat) {
    forall w: Addr :: Region(w, ends(w))
  }

  /** Inside the block entered at `base`, about to run the code of instruction `p`. */
  datatype Config<M> =
    | Inside(base: Addr, p: nat, h: Host<M>)
    | Halted(h: Host<M>)
    | Fault

  /** The enter thunk: look the block up and clear the branch state. */
  function EnterBlock<M>(h: Host<M>): Config<M> {
    var w := WordOf(h.nextPc);
    Inside(w, w, h.(cond := 0, spilledCond := 0))
  }

  /** Leaving a block that runs off its end or through its latent delay slot. */
  function LeaveBlock<M>(e: Exit<M>): Config<M> {
    match e
    case Enters(h) => EnterBlock(h)
    case Returns(h) => Halted(h)
    case _ => Fault
  }

  /** Where control goes after the code of instruction `i` of a block. */
  function Resume<M>(sem: Sem<M>, b: Block, i: nat, e: Exit<M>): Config<M>
    requires b.base + i < b.base + |b.segments| <= 1024
  {
    match e
    case Falls(h) =>
      if i + 1 < |b.segments| then Inside(b.base, b.base + i + 1, h) else LeaveBlock(Exec(sem, b.end, h))
    case ToLabel(j, h) =>
      if j < |b.segments| && b.segments[j].labelled then Inside(b.base, b.base + j, h) else Fault
    case ToLatent(h) =>
      if b.latent.Some? then LeaveBlock(Exec(sem, b.latent.value, h)) else Fault
    case _ => LeaveBlock(e)
  }

  /** One guest instruction of the recompiled program. */
  function HostStep<M>(sem: Sem<M>, imem: Imem, ends: Addr -> nat, c: Config<M>): Config<M>
    requires c.Inside? ==> Region(c.base, ends(c.base)) && c.base <= c.p < ends(c.base)
  {
    if c.Inside? then
      var b := RegionCode(imem, c.base, ends(c.base));
      Resume(sem, b, c.p - c.base, Exec(sem, b.segments[c.p - c.base].code, c.h))
    else c
  }

  // ---------------------------------------------------------------- the simulation relation

  function TargetWord<M>(info: Info, h: Host<M>): Addr {
    if info.indirect then WordOf(h.indirect) else WordOf(info.branchTarget)
  }

  /** The branch an instruction with information `last` has left pending. */
  function PendingOf<M>(last: Info, h: Host<M>): Option<Addr> {
    if !last.branch || (last.conditional && h.cond == 0) then None else Some(TargetWord(last, h))
  }

  /** The branch a previous block has left pending. */
  function LatentPending<M>(h: Host<M>): Option<Addr> {
    if h.hasDelay != 0 then Some(WordOf(h.branchTarget)) else None
  }

  function PendingAt<M>(imem: Imem, lo: nat, hi: nat, p: nat, h: Host<M>): Option<Addr>
    requires Region(lo, hi) && lo <= p < hi
  {
    if p == lo then LatentPending(h) else PendingOf(LastInfo(imem, lo, hi, p), h)
  }

  predicate Related<M(==)>(imem: Imem, lo: nat, hi: nat, p: nat, h: Host<M>, s: State<M>)
    requires Region(lo, hi) && lo <= p < hi
  {
    s.pc == p && s.m == h.m && s.pending == PendingAt(imem, lo, hi, p, h) && (p > lo ==> h.hasDelay == 0)
  }

  /**
    Inside a block the host is related to a running interpreter.  When it has
    returned, the interpreter has stopped with the same status, pc and machine,
    and no delay slot is left behind for the next entry.
   */
  ghost predicate Matches<M>(imem: Imem, ends: Addr -> nat, c: Config<M>, o: Outcome<M>) {
    match c
    case Inside(base, p, h) =>
      Region(base, ends(base)) && base <= p < ends(base) && o.Running?
      && Related(imem, base, ends(base), p, h, o.s)
    case Halted(h) => o == Stopped(h.mode, WordOf(h.nextPc), h.m) && h.hasDelay == 0
    case Fault => false
  }

  // ---------------------------------------------------------------- when delay slots are safe

  /** Whether some register contents make the branch taken. */
  predicate CanBeTaken(w: Word) {
    match Classify(w)
    case Branch(NotEqual, _) => Rs(w) != Rt(w)
    case Branch(LessZero, _) => Rs(w) != 0
    case Branch(GreaterZero, _) => Rs(w) != 0
    case c => ChangesFlow(c)
  }

  /** Whether the delay slot at `r` ends in a jump to the local label `t`. */
  predicate JumpsTo(imem: Imem, lo: nat, hi: nat, r: nat, t: nat)
    requires Region(lo, hi) && lo < r < hi
  {
    var last, info := LastInfo(imem, lo, hi, r), RegionInfo(imem, lo, hi, r);
    last.branch && !last.indirect && last.branchTarget == 4 * t && lo <= t < hi
    && !info.branch && !info.handlesDelaySlot
  }

  /**
    The two situations the emitted code gets wrong both start with an
    unconditional transfer at p - 1: a delay slot at p that some delay slot of
    the region jumps to (only BLEZ $0 is emitted without that check), and a
    delay slot at p holding a branch whose condition is tested at run time.
   */
  predicate SafeSlot(imem: Imem, lo: nat, hi: nat, p: nat)
    requires Region(lo, hi) && lo <= p < hi
  {
    var last, info := LastInfo(imem, lo, hi, p), RegionInfo(imem, lo, hi, p);
    last.branch && !last.conditional ==>
      && !(info.branch && info.conditional && CanBeTaken(imem[p]))
      && (forall r :: lo < r < hi ==> !JumpsTo(imem, lo, hi, r, p))
  }

  predicate SafeRegion(imem: Imem, lo: nat, hi: nat)
    requires Region(lo, hi)
  {
    forall p :: lo <= p < hi ==> SafeSlot(imem, lo, hi, p)
  }

  // ---------------------------------------------------------------- branch targets

  lemma BytesAgree(p: nat, w: nat)
    ensures (4 * p + 4 + w * 4 % 0x1_0000_0000) % 4096 / 4 * 4 == 4 * ((p + 1 + w) % 1024)
  {
    var q, r := (p + 1 + w) / 1024, (p + 1 + w) % 1024;
    var c := w * 4 / 0x1_0000_0000;
    assert 4 * p + 4 + w * 4 % 0x1_0000_0000 == 4096 * (q - 0x10_0000 * c) + 4 * r;
  }

  /** The byte-address formula of the code generator agrees with the word-address formula of the marking pass. */
  lemma TargetsAgree(w: Word, p: nat, next: bool)
    ensures var info := InfoOf(w, 4 * p, next);
            info.branch && !info.indirect ==>
              StaticTarget(w, p).Some? && info.branchTarget == 4 * StaticTarget(w, p).value
    ensures InfoOf(w, 4 * p, next).indirect <==> Classify(w).JumpRegister?
  {
    BytesAgree(p, w);
  }

  lemma WordOfTarget(t: Addr)
    ensures WordOf(4 * t) == t
  {
  }

  // ---------------------------------------------------------------- what each piece of code does

  /** Unfolding three operations at once. */
  lemma ExecThree<M>(sem: Sem<M>, a: Op, b: Op, c: Op, k: Code, h: Host<M>)
    ensures Exec(sem, Do(a, Do(b, Do(c, k))), h) == Exec(sem, k, Apply(sem, c, Apply(sem, b, Apply(sem, a, h))))
  {
    assert Exec(sem, Do(b, Do(c, k)), Apply(sem, a, h)) == Exec(sem, Do(c, k), Apply(sem, b, Apply(sem, a, h)));
  }

  lemma FlushExec<M>(sem: Sem<M>, last: Info, k: Code, h: Host<M>)
    ensures Exec(sem, FlushImpossibleDelaySlot(last, k), h) == Exec(sem, k, Flushed(last, h))
  {
  }

  function Flushed<M>(last: Info, h: Host<M>): Host<M> {
    h.(spilledCond := if last.branch && last.conditional then h.cond else h.spilledCond,
       spilledIndirect := if last.branch && last.indirect then h.indirect else h.spilledIndirect)
  }

  function LinkOf(w: Word): nat {
    match Classify(w)
    case JumpRegister(link) => link
    case Jump(link) => link
    case Branch(_, link) => link
    case _ => 0
  }

  /** The effect of the code of a branch or jump itself. */
  function BranchEffect<M>(w: Word, p: nat, next: bool, h: Host<M>): Host<M> {
    var f := h.(m := WithLink(h.m, LinkOf(w), p));
    match Classify(w)
    case JumpRegister(_) => f.(indirect := h.m.sr[Rs(w)], cond := if next then 1 else 0)
    case Jump(_) => f.(cond := if next then 1 else 0)
    case Branch(c, _) =>
      if Rs(w) == 0 && (c.LessEqualZero? || c.GreaterZero?) then f
      else f.(cond := if Taken(w, h.m) then 1 else 0)
    case _ => f
  }

  /** The state after a branch or jump, before its delay slot is dealt with. */
  function AfterBranch<M>(w: Word, p: nat, last: Info, next: bool, h: Host<M>): Host<M> {
    BranchEffect(w, p, next, Flushed(last, h))
  }

  lemma LinkExec<M>(sem: Sem<M>, link: nat, p: nat, k: Code, h: Host<M>)
    ensures Exec(sem, WriteLink(link, p, k), h) == Exec(sem, k, h.(m := WithLink(h.m, link, p)))
  {
  }

  lemma ConditionEffect<M>(w: Word, p: nat, next: bool, h: Host<M>)
    requires Classify(w).Branch?
    ensures var Branch(c, link) := Classify(w);
            BranchEffect(w, p, next, h)
            == if Rs(w) == 0 && (c.LessEqualZero? || c.GreaterZero?) then h
               else h.(m := WithLink(h.m, link, p), cond := if Taken(w, h.m) then 1 else 0)
  {
  }

  lemma ConditionBody(w: Word, p: nat, next: bool, k: Code)
    requires Classify(w).Branch?
    ensures var Branch(c, link) := Classify(w);
            BranchBody(w, p, next, k)
            == if Rs(w) == 0 && (c.LessEqualZero? || c.GreaterZero?) then k else Do(Compare(c, Rs(w), Rt(w)), WriteLink(link, p, k))
  {
  }

  lemma ConditionExec<M>(sem: Sem<M>, w: Word, p: nat, next: bool, k: Code, h: Host<M>)
    requires Classify(w).Branch?
    ensures Exec(sem, BranchBody(w, p, next, k), h) == Exec(sem, k, BranchEffect(w, p, next, h))
  {
    var link := Classify(w).link;
    ConditionEffect(w, p, next, h);
    ConditionBody(w, p, next, k);
    CompareExec(sem, w, link, p, k, h);
    LinkExec(sem, link, p, k, h.(cond := if Taken(w, h.m) then 1 else 0));
  }

  lemma CompareExec<M>(sem: Sem<M>, w: Word, link: nat, p: nat, k: Code, h: Host<M>)
    requires Classify(w).Branch?
    ensures Exec(sem, Do(Compare(Classify(w).cond, Rs(w), Rt(w)), WriteLink(link, p, k)), h)
            == Exec(sem, WriteLink(link, p, k), h.(cond := if Taken(w, h.m) then 1 else 0))
  {
    assert Apply(sem, Compare(Classify(w).cond, Rs(w), Rt(w)), h) == h.(cond := if Taken(w, h.m) then 1 else 0);
  }

  lemma BranchExec<M>(sem: Sem<M>, w: Word, p: nat, next: bool, k: Code, h: Host<M>)
    requires ChangesFlow(Classify(w))
    ensures Exec(sem, BranchBody(w, p, next, k), h) == Exec(sem, k, BranchEffect(w, p, next, h))
  {
    var always := Do(SetCond(if next then 1 else 0), k);
    match Classify(w)
    case JumpRegister(link) => LinkExec(sem, link, p, always, h.(indirect := h.m.sr[Rs(w)]));
    case Jump(link) => LinkExec(sem, link, p, always, h);
    case Branch(_, _) => ConditionExec(sem, w, p, next, k, h);
  }

  /** A branch leaves pending exactly what the interpreter would. */
  lemma BranchLeavesPending<M>(w: Word, p: nat, last: Info, next: bool, h: Host<M>)
    requires ChangesFlow(Classify(w))
    ensures PendingOf(InfoOf(w, 4 * p, next), AfterBranch(w, p, last, next, h))
            == if Taken(w, h.m) then Some(Target(w, p, h.m)) else None
  {
    TargetsAgree(w, p, next);
    var t := StaticTarget(w, p);
    if t.Some? { WordOfTarget(t.value); }
  }

  /** Two operations and the leaf after them. */
  lemma ExecLeaf<M>(sem: Sem<M>, op: Op, h: Host<M>)
    ensures Exec(sem, Do(op, Return), h) == Returns(Apply(sem, op, h))
    ensures Exec(sem, Do(op, Enter), h) == Enters(Apply(sem, op, h))
  {
  }

  lemma ExitFirstExec<M>(sem: Sem<M>, p: Addr, h: Host<M>)
    ensures var e := Exec(sem, ExitFirst(4 * p), h);
            e.Returns? && e.h.mode == h.mode && e.h.m == h.m && e.h.hasDelay == 0
            && WordOf(e.h.nextPc) == NextPc(p, LatentPending(h))
  {
    NextWord(p);
    var h1 := Put(h, NextPcReg, h.hasDelay);
    ExecLeaf(sem, Movi(NextPcReg, FollowingBytes(4 * p)), h1);
    ExecThree(sem, Movi(NextPcReg, 0), StoreHasDelay(NextPcReg), LoadBranchTarget(NextPcReg), Return, h1);
  }

  lemma ExitLaterExec<M>(sem: Sem<M>, p: Addr, last: Info, h: Host<M>)
    ensures var e := Exec(sem, ExitLater(4 * p, last), h);
            e.Returns? && e.h.mode == h.mode && e.h.m == h.m && e.h.hasDelay == h.hasDelay
            && WordOf(e.h.nextPc) == NextPc(p, PendingOf(last, h))
  {
    NextWord(p);
    var h1 := Put(h, NextPcReg, h.cond);
    ExecLeaf(sem, Movi(NextPcReg, FollowingBytes(4 * p)), h1);
    ExecLeaf(sem, LoadTarget(last, NextPcReg), h1);
    ExecLeaf(sem, LoadTarget(last, NextPcReg), h);
  }

  lemma NextWord(p: Addr)
    ensures WordOf(FollowingBytes(4 * p)) == (p + 1) % 1024 == WordOf(4 * p + 4)
  {
  }

  /** The state a transfer through the enter thunk hands over. */
  ghost predicate EntersWith<M>(e: Exit<M>, pc: Addr, pending: Option<Addr>, m: Machine<M>) {
    e.Enters? && WordOf(e.h.nextPc) == pc && LatentPending(e.h) == pending && e.h.m == m
  }

  lemma LatentBranchExec<M>(sem: Sem<M>, info: Info, h: Host<M>)
    requires info.branch
    ensures EntersWith(Exec(sem, HandleLatentDelaySlot(info), h), WordOf(h.branchTarget), PendingOf(info, h), h.m)
  {
    var r := if info.conditional then CondReg else NextPcReg;
    var a := if info.conditional then LoadCond(r) else Movi(r, 1);
    var k := Do(LoadTarget(info, ModeReg), Do(StoreBranchTarget(ModeReg), Enter));
    ExecThree(sem, a, StoreHasDelay(r), LoadBranchTarget(NextPcReg), k, h);
    var h3 := Apply(sem, LoadBranchTarget(NextPcReg), Apply(sem, StoreHasDelay(r), Apply(sem, a, h)));
    ExecLeaf(sem, StoreBranchTarget(ModeReg), Apply(sem, LoadTarget(info, ModeReg), h3));
  }

  lemma LatentExec<M>(sem: Sem<M>, info: Info, h: Host<M>)
    requires h.hasDelay != 0
    ensures EntersWith(Exec(sem, HandleLatentDelaySlot(info), h), WordOf(h.branchTarget), PendingOf(info, h), h.m)
  {
    if info.branch {
      LatentBranchExec(sem, info, h);
    } else {
      ExecThree(sem, Movi(NextPcReg, 0), StoreHasDelay(NextPcReg), LoadBranchTarget(NextPcReg), Enter, h);
    }
  }

  /** The code that makes the pending branch latent. */
  lemma DeferExec<M>(sem: Sem<M>, pc: nat, last: Info, h: Host<M>)
    ensures var defer := Do(LoadTarget(last, Scratch0), Do(StoreBranchTarget(Scratch0),
                         Do(Movi(Scratch0, 1), Do(StoreHasDelay(Scratch0), Do(Movi(NextPcReg, pc), Enter)))));
            EntersWith(Exec(sem, defer, h), WordOf(pc), Some(TargetWord(last, h)), h.m)
  {
    var next := Do(Movi(NextPcReg, pc), Enter);
    ExecThree(sem, LoadTarget(last, Scratch0), StoreBranchTarget(Scratch0), Movi(Scratch0, 1), Do(StoreHasDelay(Scratch0), next), h);
    var h3 := Apply(sem, Movi(Scratch0, 1), Apply(sem, StoreBranchTarget(Scratch0), Apply(sem, LoadTarget(last, Scratch0), h)));
    ExecLeaf(sem, Movi(NextPcReg, pc), Apply(sem, StoreHasDelay(Scratch0), h3));
  }

  lemma EndExec<M>(sem: Sem<M>, hi: nat, last: Info, h: Host<M>)
    requires h.hasDelay == 0 && 0 < hi <= 1024
    ensures EntersWith(Exec(sem, EndOfBlock(4 * hi, last), h), hi % 1024, PendingOf(last, h), h.m)
  {
    EndWord(hi);
    var h1 := if last.branch && last.conditional then Put(h, CondReg, h.cond) else h;
    ExecLeaf(sem, Movi(NextPcReg, 4 * hi), h1);
    DeferExec(sem, 4 * hi, last, h1);
  }

  lemma EndWord(hi: nat)
    requires hi <= 1024
    ensures WordOf(4 * hi) == hi % 1024
  {
  }

  lemma TakeFirstExec<M>(sem: Sem<M>, info: Info, last: Info, h: Host<M>)
    ensures EntersWith(Exec(sem, TakeFirstBranch(info, last), h),
              if last.indirect then WordOf(h.spilledIndirect) else WordOf(last.branchTarget),
              if h.condReg == 0 then None else Some(TargetWord(info, h)), h.m)
  {
    var load := if last.indirect then LoadSpilledIndirect(NextPcReg) else Movi(NextPcReg, last.branchTarget);
    ExecThree(sem, StoreHasDelay(CondReg), LoadTarget(info, CondReg), StoreBranchTarget(CondReg), Do(load, Enter), h);
    ExecLeaf(sem, load, Apply(sem, StoreBranchTarget(CondReg),
                          Apply(sem, LoadTarget(info, CondReg), Apply(sem, StoreHasDelay(CondReg), h))));
  }

  /** Two branches in a row: the condition register holds the second branch's condition, or a cleared copy. */
  lemma ImpossibleExec<M>(sem: Sem<M>, info: Info, last: Info, h: Host<M>)
    ensures var e := Exec(sem, HandleImpossibleDelaySlot(info, last, Fall), h);
            if last.conditional && h.spilledCond == 0 then
              e == Falls(h.(condReg := h.cond, scratch0 := 0, scratch1 := 0, spilledCond := 0))
            else
              EntersWith(e, if last.indirect then WordOf(h.spilledIndirect) else WordOf(last.branchTarget),
                if info.conditional && (h.cond == 0 || !last.conditional) then None else Some(TargetWord(info, h)), h.m)
  {
    var taken := if info.conditional then TakeFirstBranch(info, last)
                 else Do(Movi(CondReg, 1), TakeFirstBranch(info, last));
    var h0 := Put(h, CondReg, h.cond);
    var h1: Host<M>;
    if last.conditional {
      h1 := h0.(scratch1 := h.spilledCond, scratch0 := 0, spilledCond := 0);
      var k := IfEq(Scratch1, 0, Fall, taken);
      ExecThree(sem, LoadSpilledCond(Scratch1), Movi(Scratch0, 0), StoreSpilledCond(Scratch0), k, h0);
      assert Exec(sem, k, h1) == if h.spilledCond == 0 then Falls(h1) else Exec(sem, taken, h1);
    } else {
      h1 := h0.(condReg := 0, spilledCond := 0);
      ExecThree(sem, LoadCond(CondReg), Movi(CondReg, 0), StoreSpilledCond(CondReg), taken, h);
    }
    TakeFirstExec(sem, info, last, if info.conditional then h1 else Put(h1, CondReg, 1));
  }

  /** A delay slot of a branch of this block. */
  lemma DelaySlotExec<M>(sem: Sem<M>, last: Info, base: nat, end: nat, h: Host<M>)
    requires last.branch && h.hasDelay == 0
    ensures var e := Exec(sem, HandleDelaySlot(last, base, end, Fall), h);
            && e.h.cond == 0 && e.h.hasDelay == 0 && e.h.m == h.m
            && match PendingOf(last, h)
               case None => e.Falls?
               case Some(t) =>
                 if !last.indirect && base <= last.branchTarget < end then
                   e.ToLabel? && e.index == (last.branchTarget - base) / 4
                 else EntersWith(e, t, None, h.m)
  {
    var h1 := (if last.conditional then h.(scratch0 := h.cond) else h).(cond := 0);
    var leave := TakeBranch(last, base, end);
    ExecLeaf(sem, LoadTarget(last, NextPcReg), h1);
    if last.conditional {
      var k := IfEq(Scratch0, 0, Fall, leave);
      assert Exec(sem, Do(LoadCond(Scratch0), Do(SetCond(0), k)), h) == Exec(sem, k, h1);
      assert Exec(sem, k, h1) == if h.cond == 0 then Falls(h1) else Exec(sem, leave, h1);
    }
  }

  // ---------------------------------------------------------------- one instruction

  lemma EnterMatches<M>(imem: Imem, ends: Addr -> nat, e: Exit<M>, pc: Addr, pending: Option<Addr>, m: Machine<M>)
    requires ValidEnds(ends) && EntersWith(e, pc, pending, m)
    ensures Matches(imem, ends, LeaveBlock(e), Running(State(pc, pending, m)))
  {
    assert Region(pc, ends(pc));
  }

  lemma FallMatches<M>(sem: Sem<M>, imem: Imem, ends: Addr -> nat, lo: Addr, p: Addr, e: Exit<M>)
    requires ValidEnds(ends) && Region(lo, ends(lo)) && lo <= p < ends(lo)
    requires e.Falls? && e.h.hasDelay == 0
    ensures var hi := ends(lo);
            var pending := PendingOf(RegionInfo(imem, lo, hi, p), e.h);
            Matches(imem, ends, Resume(sem, RegionCode(imem, lo, hi), p - lo, e),
                    Running(State((p + 1) % 1024, pending, e.h.m)))
  {
    var hi := ends(lo);
    if p + 1 == hi {
      EndExec(sem, hi, RegionInfo(imem, lo, hi, p), e.h);
      EnterMatches(imem, ends, Exec(sem, RegionCode(imem, lo, hi).end, e.h), hi % 1024,
                   PendingOf(RegionInfo(imem, lo, hi, p), e.h), e.h.m);
    }
  }

  lemma LatentMatches<M>(sem: Sem<M>, imem: Imem, ends: Addr -> nat, lo: Addr, e: Exit<M>)
    requires ValidEnds(ends) && Region(lo, ends(lo))
    requires e.ToLatent? && e.h.hasDelay != 0 && !RegionInfo(imem, lo, ends(lo), lo).handlesDelaySlot
    ensures var hi := ends(lo);
            var pending := PendingOf(RegionInfo(imem, lo, hi, lo), e.h);
            Matches(imem, ends, Resume(sem, RegionCode(imem, lo, hi), 0, e),
                    Running(State(WordOf(e.h.branchTarget), pending, e.h.m)))
  {
    var info := RegionInfo(imem, lo, ends(lo), lo);
    LatentExec(sem, info, e.h);
    EnterMatches(imem, ends, Exec(sem, HandleLatentDelaySlot(info), e.h), WordOf(e.h.branchTarget),
                 PendingOf(info, e.h), e.h.m);
  }

  /** The first instruction of a block, once its own effect is done. */
  lemma FirstMatches<M>(sem: Sem<M>, imem: Imem, ends: Addr -> nat, lo: Addr, h: Host<M>)
    requires ValidEnds(ends) && Region(lo, ends(lo)) && !RegionInfo(imem, lo, ends(lo), lo).handlesDelaySlot
    ensures var hi := ends(lo);
            var pending := PendingOf(RegionInfo(imem, lo, hi, lo), h);
            Matches(imem, ends, Resume(sem, RegionCode(imem, lo, hi), 0, Exec(sem, CheckLatentDelaySlot(Fall), h)),
                    Running(State(NextPc(lo, LatentPending(h)), pending, h.m)))
  {
    var e := Exec(sem, CheckLatentDelaySlot(Fall), h);
    var h1 := h.(scratch0 := h.hasDelay);
    assert e == if h.hasDelay == 0 then Falls(h1) else ToLatent(h1);
    if h.hasDelay == 0 {
      FallMatches(sem, imem, ends, lo, lo, e);
    } else {
      LatentMatches(sem, imem, ends, lo, e);
    }
  }

  /** With its condition cleared, no branch is pending at a label some delay slot jumps to. */
  lemma NothingPendingAtLabel<M>(imem: Imem, lo: Addr, hi: nat, p: nat, t: nat, h: Host<M>)
    requires Region(lo, hi) && lo < p < hi && SafeRegion(imem, lo, hi) && JumpsTo(imem, lo, hi, p, t)
    requires h.cond == 0 && h.hasDelay == 0
    ensures PendingAt(imem, lo, hi, t, h) == None
  {
    assert SafeSlot(imem, lo, hi, t);
  }

  /** A local jump lands on an emitted label, with no branch pending there. */
  lemma LocalJumpMatches<M>(sem: Sem<M>, imem: Imem, ends: Addr -> nat, lo: Addr, p: Addr, e: Exit<M>, t: Addr)
    requires Region(lo, ends(lo)) && lo < p < ends(lo) && SafeRegion(imem, lo, ends(lo))
    requires JumpsTo(imem, lo, ends(lo), p, t) && Labelled(imem, lo, ends(lo), t)
    requires e.ToLabel? && lo + e.index == t && e.h.cond == 0 && e.h.hasDelay == 0
    ensures Matches(imem, ends, Resume(sem, RegionCode(imem, lo, ends(lo)), p - lo, e), Running(State(t, None, e.h.m)))
  {
    NothingPendingAtLabel(imem, lo, ends(lo), p, t, e.h);
    SegmentAt(imem, lo, ends(lo), t);
  }

  lemma SegmentAt(imem: Imem, lo: nat, hi: nat, t: nat)
    requires Region(lo, hi) && lo <= t < hi
    ensures var b := RegionCode(imem, lo, hi);
            |b.segments| == hi - lo && b.segments[t - lo] == SegmentOf(imem, lo, hi, t)
  {
  }

  /** Every local jump the region can take goes to a position the marking pass has labelled. */
  lemma LocalTarget(imem: Imem, lo: nat, hi: nat, p: nat)
    requires Region(lo, hi) && lo <= p < hi
    requires var info := RegionInfo(imem, lo, hi, p);
             info.branch && !info.indirect && 4 * lo <= info.branchTarget < 4 * hi
    ensures var info := RegionInfo(imem, lo, hi, p);
            var t := lo + (info.branchTarget - 4 * lo) / 4;
            lo <= t < hi && t == WordOf(info.branchTarget) && info.branchTarget == 4 * t && Labelled(imem, lo, hi, t)
  {
    TargetsAgree(imem[p], p, Labelled(imem, lo, hi, p + 1));
    var t := StaticTarget(imem[p], p).value;
    WordOfTarget(t);
    assert StaticTarget(imem[p], p) == Some(t);
  }

  /** A later instruction that is not a branch, once its own effect is done. */
  lemma SlotMatches<M>(sem: Sem<M>, imem: Imem, ends: Addr -> nat, lo: Addr, p: Addr, h: Host<M>)
    requires ValidEnds(ends) && Region(lo, ends(lo)) && lo < p < ends(lo) && SafeRegion(imem, lo, ends(lo))
    requires h.hasDelay == 0
    requires var info := RegionInfo(imem, lo, ends(lo), p); !info.branch && !info.handlesDelaySlot
    ensures var hi := ends(lo);
            var info, last := RegionInfo(imem, lo, hi, p), LastInfo(imem, lo, hi, p);
            Matches(imem, ends,
                    Resume(sem, RegionCode(imem, lo, hi), p - lo,
                           Exec(sem, Tail(info, last, false, 4 * lo, 4 * hi), h)),
                    Running(State(NextPc(p, PendingOf(last, h)), None, h.m)))
  {
    var hi := ends(lo);
    var info, last := RegionInfo(imem, lo, hi, p), LastInfo(imem, lo, hi, p);
    var e := Exec(sem, Tail(info, last, false, 4 * lo, 4 * hi), h);
    if !last.branch {
      FallMatches(sem, imem, ends, lo, p, e);
    } else {
      DelaySlotExec(sem, last, 4 * lo, 4 * hi, h);
      match PendingOf(last, h)
      case None => FallMatches(sem, imem, ends, lo, p, e);
      case Some(t) =>
        if !last.indirect && 4 * lo <= last.branchTarget < 4 * hi {
          LocalTarget(imem, lo, hi, p - 1);
          LocalJumpMatches(sem, imem, ends, lo, p, e, t);
        } else {
          EnterMatches(imem, ends, e, t, None, h.m);
        }
    }
  }

  /** A branch that follows another branch. */
  lemma DoubleBranchMatches<M>(sem: Sem<M>, imem: Imem, ends: Addr -> nat, lo: Addr, p: Addr, h0: Host<M>)
    requires ValidEnds(ends) && Region(lo, ends(lo)) && lo < p < ends(lo)
    requires SafeSlot(imem, lo, ends(lo), p) && h0.hasDelay == 0 && ChangesFlow(Classify(imem[p]))
    requires RegionInfo(imem, lo, ends(lo), p).branch && LastInfo(imem, lo, ends(lo), p).branch
    ensures var hi := ends(lo);
            var info, last := RegionInfo(imem, lo, hi, p), LastInfo(imem, lo, hi, p);
            var h := AfterBranch(imem[p], p, last, Labelled(imem, lo, hi, p + 1), h0);
            Matches(imem, ends,
                    Resume(sem, RegionCode(imem, lo, hi), p - lo,
                           Exec(sem, HandleImpossibleDelaySlot(info, last, Fall), h)),
                    Running(State(NextPc(p, PendingOf(last, h0)), PendingOf(info, h), h.m)))
  {
    var hi := ends(lo);
    var w, next := imem[p], Labelled(imem, lo, hi, p + 1);
    var info, last := RegionInfo(imem, lo, hi, p), LastInfo(imem, lo, hi, p);
    var h := AfterBranch(w, p, last, next, h0);
    var e := Exec(sem, HandleImpossibleDelaySlot(info, last, Fall), h);
    ImpossibleExec(sem, info, last, h);
    BranchLeavesPending(w, p, last, next, h0);
    if last.conditional && h.spilledCond == 0 {
      FallMatches(sem, imem, ends, lo, p, e);
    } else {
      if !last.conditional && info.conditional { NeverTaken(w, h0.m); }
      EnterMatches(imem, ends, e, PendingOf(last, h0).value, PendingOf(info, h), h.m);
    }
  }

  lemma NeverTaken<M>(w: Word, m: Machine<M>)
    ensures !CanBeTaken(w) ==> !Taken(w, m)
  {
  }

  /** The exit of the code of instruction `p`, with the delay-slot handling as a parameter. */
  function InstructionExit<M>(sem: Sem<M>, imem: Imem, lo: nat, hi: nat, p: nat, k: Code, h: Host<M>): Exit<M>
    requires Region(lo, hi) && lo <= p < hi
  {
    Exec(sem, Instruction(imem[p], 4 * p, LastInfo(imem, lo, hi, p), p == lo, Labelled(imem, lo, hi, p + 1), k), h)
  }

  function TailAt(imem: Imem, lo: nat, hi: nat, p: nat): Code
    requires Region(lo, hi) && lo <= p < hi
  {
    Tail(RegionInfo(imem, lo, hi, p), LastInfo(imem, lo, hi, p), p == lo, 4 * lo, 4 * hi)
  }

  /** The straight instructions, and the coprocessor calls and BREAK that may leave the block. */
  lemma PlainExec<M>(sem: Sem<M>, w: Word, pc: nat, last: Info, first: bool, next: bool, k: Code, h: Host<M>)
    ensures var e := Exec(sem, Instruction(w, pc, last, first, next, k), h);
            var called := h.(m := sem.cop0(w, h.m), mode := sem.cop0Mode(w, h.m));
            match Classify(w)
            case Straight => e == Exec(sem, k, h.(m := sem.exec(w, h.m)))
            case Cop0 =>
              if called.mode == MODE_CONTINUE then e == Exec(sem, k, called)
              else e == Exec(sem, ExitDynamic(pc, last, first), called)
            case Break => e == Exec(sem, ExitDynamic(pc, last, first), h.(mode := MODE_BREAK))
            case _ => true
  {
    if Classify(w).Cop0? {
      var called := h.(m := sem.cop0(w, h.m), mode := sem.cop0Mode(w, h.m));
      var exit := ExitDynamic(pc, last, first);
      assert Exec(sem, IfEq(ModeReg, MODE_CONTINUE, k, exit), called)
          == if called.mode == MODE_CONTINUE then Exec(sem, k, called) else Exec(sem, exit, called);
    }
  }

  lemma HostStepUnfold<M>(sem: Sem<M>, imem: Imem, ends: Addr -> nat, lo: Addr, p: Addr, h: Host<M>)
    requires Region(lo, ends(lo)) && lo <= p < ends(lo)
    ensures var hi := ends(lo);
            HostStep(sem, imem, ends, Inside(lo, p, h))
            == Resume(sem, RegionCode(imem, lo, hi), p - lo,
                      InstructionExit(sem, imem, lo, hi, p, TailAt(imem, lo, hi, p), h))
  {
    SegmentAt(imem, lo, ends(lo), p);
  }

  /** A branch or jump, once its own effect is done. */
  lemma AfterBranchMatches<M>(sem: Sem<M>, imem: Imem, ends: Addr -> nat, lo: Addr, p: Addr, h: Host<M>)
    requires ValidEnds(ends) && Region(lo, ends(lo)) && lo <= p < ends(lo) && SafeRegion(imem, lo, ends(lo))
    requires ChangesFlow(Classify(imem[p])) && (p > lo ==> h.hasDelay == 0)
    ensures var hi := ends(lo);
            var h1 := AfterBranch(imem[p], p, LastInfo(imem, lo, hi, p), Labelled(imem, lo, hi, p + 1), h);
            Matches(imem, ends,
                    Resume(sem, RegionCode(imem, lo, hi), p - lo, Exec(sem, TailAt(imem, lo, hi, p), h1)),
                    Running(State(NextPc(p, PendingAt(imem, lo, hi, p, h)),
                                  PendingOf(RegionInfo(imem, lo, hi, p), h1), h1.m)))
  {
    var hi := ends(lo);
    var info, last := RegionInfo(imem, lo, hi, p), LastInfo(imem, lo, hi, p);
    var h1 := AfterBranch(imem[p], p, last, Labelled(imem, lo, hi, p + 1), h);
    if p == lo {
      FirstMatches(sem, imem, ends, lo, h1);
    } else if !info.branch {
      BranchWithoutTarget(imem[p], p, last, Labelled(imem, lo, hi, p + 1), h);
      SlotMatches(sem, imem, ends, lo, p, h1);
    } else if last.branch {
      assert SafeSlot(imem, lo, hi, p);
      DoubleBranchMatches(sem, imem, ends, lo, p, h);
    } else {
      FallMatches(sem, imem, ends, lo, p, Falls(h1));
    }
  }

  /** BGTZ $0 is emitted as no branch at all. */
  lemma BranchWithoutTarget<M>(w: Word, p: nat, last: Info, next: bool, h: Host<M>)
    requires ChangesFlow(Classify(w)) && !InfoOf(w, 4 * p, next).branch
    ensures PendingOf(last, AfterBranch(w, p, last, next, h)) == PendingOf(last, h)
  {
  }

  /** The interpreter's step is what the emitted code leaves behind. */
  lemma FlowStepIs<M>(sem: Sem<M>, imem: Imem, lo: nat, hi: nat, p: Addr, h: Host<M>, s: State<M>)
    requires Region(lo, hi) && lo <= p < hi && Related(imem, lo, hi, p, h, s) && ChangesFlow(Classify(imem[p]))
    ensures var h1 := AfterBranch(imem[p], p, LastInfo(imem, lo, hi, p), Labelled(imem, lo, hi, p + 1), h);
            Step(sem, imem, s) == Running(State(NextPc(p, PendingAt(imem, lo, hi, p, h)),
                                                PendingOf(RegionInfo(imem, lo, hi, p), h1), h1.m))
  {
    BranchLeavesPending(imem[p], p, LastInfo(imem, lo, hi, p), Labelled(imem, lo, hi, p + 1), h);
    FlowStep(sem, imem, s);
  }

  lemma FlowMatches<M>(sem: Sem<M>, imem: Imem, ends: Addr -> nat, lo: Addr, p: Addr, h: Host<M>, s: State<M>)
    requires ValidEnds(ends) && Region(lo, ends(lo)) && lo <= p < ends(lo) && SafeRegion(imem, lo, ends(lo))
    requires Related(imem, lo, ends(lo), p, h, s) && ChangesFlow(Classify(imem[p]))
    ensures Matches(imem, ends, HostStep(sem, imem, ends, Inside(lo, p, h)), Step(sem, imem, s))
  {
    var hi := ends(lo);
    HostStepUnfold(sem, imem, ends, lo, p, h);
    FlowExit(sem, imem, lo, hi, p, TailAt(imem, lo, hi, p), h);
    FlowStepIs(sem, imem, lo, hi, p, h, s);
    AfterBranchMatches(sem, imem, ends, lo, p, h);
  }

  lemma FlowExit<M>(sem: Sem<M>, imem: Imem, lo: nat, hi: nat, p: nat, k: Code, h: Host<M>)
    requires Region(lo, hi) && lo <= p < hi && ChangesFlow(Classify(imem[p]))
    ensures InstructionExit(sem, imem, lo, hi, p, k, h)
            == Exec(sem, k, AfterBranch(imem[p], p, LastInfo(imem, lo, hi, p), Labelled(imem, lo, hi, p + 1), h))
  {
    var last, next := LastInfo(imem, lo, hi, p), Labelled(imem, lo, hi, p + 1);
    FlushExec(sem, last, BranchBody(imem[p], p, next, k), h);
    BranchExec(sem, imem[p], p, next, k, Flushed(last, h));
  }

  lemma FlowStep<M>(sem: Sem<M>, imem: Imem, s: State<M>)
    requires ChangesFlow(Classify(imem[s.pc]))
    ensures var w := imem[s.pc];
            Step(sem, imem, s) == Running(State(NextPc(s.pc, s.pending),
              if Taken(w, s.m) then Some(Target(w, s.pc, s.m)) else None, WithLink(s.m, LinkOf(w), s.pc)))
  {
  }

  lemma StopStep<M>(sem: Sem<M>, imem: Imem, s: State<M>)
    requires var w := imem[s.pc];
             Classify(w).Break? || (Classify(w).Cop0? && sem.cop0Mode(w, s.m) != MODE_CONTINUE)
    ensures var w := imem[s.pc];
            var next := NextPc(s.pc, s.pending);
            Step(sem, imem, s) == if Classify(w).Break? then Stopped(MODE_BREAK, next, s.m)
                                  else Stopped(sem.cop0Mode(w, s.m), next, sem.cop0(w, s.m))
  {
  }

  lemma ContinueMatches<M>(sem: Sem<M>, imem: Imem, ends: Addr -> nat, lo: Addr, p: Addr, h: Host<M>, s: State<M>)
    requires ValidEnds(ends) && Region(lo, ends(lo)) && lo <= p < ends(lo) && SafeRegion(imem, lo, ends(lo))
    requires Related(imem, lo, ends(lo), p, h, s)
    requires var w := imem[p];
             Classify(w).Straight? || (Classify(w).Cop0? && sem.cop0Mode(w, s.m) == MODE_CONTINUE)
    ensures Matches(imem, ends, HostStep(sem, imem, ends, Inside(lo, p, h)), Step(sem, imem, s))
  {
    var w := imem[p];
    var h1 := if Classify(w).Straight? then h.(m := sem.exec(w, h.m))
              else h.(m := sem.cop0(w, h.m), mode := MODE_CONTINUE);
    HostStepUnfold(sem, imem, ends, lo, p, h);
    PlainExec(sem, w, 4 * p, LastInfo(imem, lo, ends(lo), p), p == lo, Labelled(imem, lo, ends(lo), p + 1),
              TailAt(imem, lo, ends(lo), p), h);
    if p == lo { FirstMatches(sem, imem, ends, lo, h1); } else { SlotMatches(sem, imem, ends, lo, p, h1); }
  }

  lemma StopMatches<M>(sem: Sem<M>, imem: Imem, ends: Addr -> nat, lo: Addr, p: Addr, h: Host<M>, s: State<M>)
    requires Region(lo, ends(lo)) && lo <= p < ends(lo)
    requires Related(imem, lo, ends(lo), p, h, s)
    requires var w := imem[p];
             Classify(w).Break? || (Classify(w).Cop0? && sem.cop0Mode(w, s.m) != MODE_CONTINUE)
    ensures Matches(imem, ends, HostStep(sem, imem, ends, Inside(lo, p, h)), Step(sem, imem, s))
  {
    var w, last := imem[p], LastInfo(imem, lo, ends(lo), p);
    var h1 := if Classify(w).Break? then h.(mode := MODE_BREAK)
              else h.(m := sem.cop0(w, h.m), mode := sem.cop0Mode(w, h.m));
    HostStepUnfold(sem, imem, ends, lo, p, h);
    PlainExec(sem, w, 4 * p, last, p == lo, Labelled(imem, lo, ends(lo), p + 1), TailAt(imem, lo, ends(lo), p), h);
    StopStep(sem, imem, s);
    if p == lo { ExitFirstExec(sem, p, h1); } else { ExitLaterExec(sem, p, last, h1); }
  }

  /** One instruction of a safe region, from any state related to the interpreter's. */
  lemma StepMatches<M>(sem: Sem<M>, imem: Imem, ends: Addr -> nat, lo: Addr, p: Addr, h: Host<M>, s: State<M>)
    requires ValidEnds(ends) && Region(lo, ends(lo)) && lo <= p < ends(lo) && SafeRegion(imem, lo, ends(lo))
    requires Related(imem, lo, ends(lo), p, h, s)
    ensures Matches(imem, ends, HostStep(sem, imem, ends, Inside(lo, p, h)), Step(sem, imem, s))
  {
    var w := imem[p];
    if ChangesFlow(Classify(w)) {
      FlowMatches(sem, imem, ends, lo, p, h, s);
    } else if Classify(w).Straight? || (Classify(w).Cop0? && sem.cop0Mode(w, s.m) == MODE_CONTINUE) {
      ContinueMatches(sem, imem, ends, lo, p, h, s);
    } else {
      StopMatches(sem, imem, ends, lo, p, h, s);
    }
  }

  // ---------------------------------------------------------------- whole runs

  ghost predicate SafeProgram(imem: Imem, ends: Addr -> nat) {
    ValidEnds(ends) && forall w: Addr :: SafeRegion(imem, w, ends(w))
  }

  function InterpreterRun<M>(sem: Sem<M>, imem: Imem, s: State<M>, n: nat): Outcome<M> {
    if n == 0 then Running(s)
    else
      match InterpreterRun(sem, imem, s, n - 1)
      case Running(s') => Step(sem, imem, s')
      case stopped => stopped
  }

  ghost function HostRun<M>(sem: Sem<M>, imem: Imem, ends: Addr -> nat, c: Config<M>, n: nat): Config<M>
    requires ValidEnds(ends)
  {
    if n == 0 then c
    else
      var d := HostRun(sem, imem, ends, c, n - 1);
      if d.Inside? && !(d.base <= d.p < ends(d.base)) then Fault
      else HostStep(sem, imem, ends, d)
  }

  /**
    Delay-slot simulation.  Enter the recompiled program at any address, with
    any registers and possibly a delay slot left by an earlier block: after any
    number of guest instructions, through any number of blocks, it has stopped
    with the same mode, pc and machine as the interpreter and with no delay slot
    left over, or it is about to run the same instruction with the same machine
    and the same pending branch.  It never jumps to a label that was not emitted.
   */
  lemma {:induction false} Simulation<M>(sem: Sem<M>, imem: Imem, ends: Addr -> nat, h: Host<M>, n: nat)
    requires SafeProgram(imem, ends)
    ensures Matches(imem, ends, HostRun(sem, imem, ends, EnterBlock(h), n),
                    InterpreterRun(sem, imem, State(WordOf(h.nextPc), LatentPending(h), h.m), n))
  {
    var s := State(WordOf(h.nextPc), LatentPending(h), h.m);
    if n == 0 {
      EnterMatches(imem, ends, Enters(h), s.pc, s.pending, h.m);
    } else {
      Simulation(sem, imem, ends, h, n - 1);
      var d, o := HostRun(sem, imem, ends, EnterBlock(h), n - 1), InterpreterRun(sem, imem, s, n - 1);
      ActivationStep(sem, imem, ends, d, o);
    }
  }

  /** One step of an activation keeps the relation, and a stop stays a stop. */
  lemma ActivationStep<M>(sem: Sem<M>, imem: Imem, ends: Addr -> nat, c: Config<M>, o: Outcome<M>)
    requires SafeProgram(imem, ends) && Matches(imem, ends, c, o)
    ensures Matches(imem, ends, HostStep(sem, imem, ends, c), if o.Running? then Step(sem, imem, o.s) else o)
  {
    if c.Inside? {
      assert SafeRegion(imem, c.base, ends(c.base));
      StepMatches(sem, imem, ends, c.base, c.p, c.h, o.s);
    }
  }

  // ---------------------------------------------------------------- stopping and entering again

  /**
    What the rest of the system does between a stop and the next entry: it may
    change IMEM, the machine and the pc, depending on how long the session has
    lasted, the status, the pc and the machine.  Nothing else reaches the
    recompiled program.
   */
  datatype Reentry<M> = Reentry(imem: Imem, pc: nat, m: Machine<M>)
  type Outside<!M> = (nat, nat, Addr, Machine<M>) -> Reentry<M>

  /** Block lengths depend on the IMEM the blocks are compiled from. */
  type Lengths = Imem -> (Addr -> nat)

  datatype HostSession<M> = HostSession(imem: Imem, c: Config<M>)
  datatype Session<M> = Session(imem: Imem, o: Outcome<M>)

  /** The recompiled program, entered again whenever it has returned; only `nextPc` and the machine are new. */
  ghost function HostSessionRun<M>(sem: Sem<M>, lengths: Lengths, outside: Outside<M>, t: HostSession<M>, n: nat): HostSession<M>
    requires forall m: Imem :: ValidEnds(lengths(m))
  {
    if n == 0 then t
    else
      var u := HostSessionRun(sem, lengths, outside, t, n - 1);
      match u.c
      case Halted(h) =>
        var r := outside(n, h.mode, WordOf(h.nextPc), h.m);
        HostSession(r.imem, EnterBlock(h.(m := r.m, nextPc := r.pc)))
      case Inside(base, p, h) =>
        if base <= p < lengths(u.imem)(base) then u.(c := HostStep(sem, u.imem, lengths(u.imem), u.c)) else u.(c := Fault)
      case Fault => u
  }

  /** The interpreter, which resumes with nothing pending. */
  function SessionRun<M>(sem: Sem<M>, outside: Outside<M>, t: Session<M>, n: nat): Session<M> {
    if n == 0 then t
    else
      var u := SessionRun(sem, outside, t, n - 1);
      match u.o
      case Stopped(mode, pc, m) =>
        var r := outside(n, mode, pc, m);
        Session(r.imem, Running(State(WordOf(r.pc), None, r.m)))
      case Running(s) => u.(o := Step(sem, u.imem, s))
  }

  /** Every IMEM the rest of the system installs is free of the unsafe shapes. */
  ghost predicate InstallsSafe<M(!new)>(lengths: Lengths, outside: Outside<M>) {
    forall k: nat, mode: nat, pc: Addr, m: Machine<M> ::
      var imem := outside(k, mode, pc, m).imem; SafeProgram(imem, lengths(imem))
  }

  /** The two sessions run the same IMEM, which is free of the unsafe shapes, and agree. */
  ghost predicate SessionsMatch<M>(lengths: Lengths, t: HostSession<M>, u: Session<M>) {
    t.imem == u.imem && SafeProgram(t.imem, lengths(t.imem)) && Matches(t.imem, lengths(t.imem), t.c, u.o)
  }

  lemma EntersAgain<M(!new)>(lengths: Lengths, outside: Outside<M>, h: Host<M>, n: nat)
    requires InstallsSafe(lengths, outside) && h.hasDelay == 0
    ensures var r := outside(n, h.mode, WordOf(h.nextPc), h.m);
            SessionsMatch(lengths, HostSession(r.imem, EnterBlock(h.(m := r.m, nextPc := r.pc))),
                          Session(r.imem, Running(State(WordOf(r.pc), None, r.m))))
  {
    var r := outside(n, h.mode, WordOf(h.nextPc), h.m);
    assert SafeProgram(r.imem, lengths(r.imem));
    EnterMatches(r.imem, lengths(r.imem), Enters(h.(m := r.m, nextPc := r.pc)), WordOf(r.pc), None, r.m);
  }

  /** One more step of a session, or one more entry. */
  lemma SessionStep<M(!new)>(sem: Sem<M>, lengths: Lengths, outside: Outside<M>, t0: HostSession<M>, u0: Session<M>, n: nat)
    requires n > 0 && (forall m: Imem :: ValidEnds(lengths(m))) && InstallsSafe(lengths, outside)
    requires SessionsMatch(lengths, HostSessionRun(sem, lengths, outside, t0, n - 1), SessionRun(sem, outside, u0, n - 1))
    ensures SessionsMatch(lengths, HostSessionRun(sem, lengths, outside, t0, n), SessionRun(sem, outside, u0, n))
  {
    var t, u := HostSessionRun(sem, lengths, outside, t0, n - 1), SessionRun(sem, outside, u0, n - 1);
    match t.c
    case Halted(h) => EntersAgain(lengths, outside, h, n);
    case Inside(_, _, _) => ActivationStep(sem, t.imem, lengths(t.imem), t.c, u.o);
    case Fault =>
  }

  lemma SessionsAgree<M(!new)>(sem: Sem<M>, lengths: Lengths, outside: Outside<M>, t0: HostSession<M>, u0: Session<M>, n: nat)
    requires (forall m: Imem :: ValidEnds(lengths(m))) && InstallsSafe(lengths, outside) && SessionsMatch(lengths, t0, u0)
    ensures SessionsMatch(lengths, HostSessionRun(sem, lengths, outside, t0, n), SessionRun(sem, outside, u0, n))
  {
    var p := (i: nat) => SessionsMatch(lengths, HostSessionRun(sem, lengths, outside, t0, i), SessionRun(sem, outside, u0, i));
    forall i: nat ensures Carries(p, i) {
      if p(i) { SessionStep(sem, lengths, outside, t0, u0, i + 1); }
    }
    Always(p, n);
  }

  predicate Carries(p: nat -> bool, i: nat) { p(i) ==> p(i + 1) }

  /** Induction over the steps of a run. */
  lemma {:induction false} Always(p: nat -> bool, n: nat)
    requires p(0) && forall i: nat :: Carries(p, i)
    ensures p(n)
  {
    if n > 0 {
      Always(p, n - 1);
      assert Carries(p, n - 1);
    }
  }

  /**
    Simulation over whole sessions: the program runs, stops, is entered again
    with whatever IMEM, pc and machine the rest of the system has left, and so
    on.  At every point the host and the interpreter agree, so nothing of one
    activation leaks into the next.
   */
  lemma SessionSimulation<M(!new)>(sem: Sem<M>, lengths: Lengths, outside: Outside<M>, imem: Imem, h: Host<M>, n: nat)
    requires (forall m: Imem :: ValidEnds(lengths(m))) && SafeProgram(imem, lengths(imem)) && InstallsSafe(lengths, outside)
    ensures var s := State(WordOf(h.nextPc), LatentPending(h), h.m);
            SessionsMatch(lengths, HostSessionRun(sem, lengths, outside, HostSession(imem, EnterBlock(h)), n),
                          SessionRun(sem, outside, Session(imem, Running(s)), n))
  {
    var s := State(WordOf(h.nextPc), LatentPending(h), h.m);
    EnterMatches(imem, lengths(imem), Enters(h), s.pc, s.pending, h.m);
    SessionsAgree(sem, lengths, outside, HostSession(imem, EnterBlock(h)), Session(imem, Running(s)), n);
  }
}
