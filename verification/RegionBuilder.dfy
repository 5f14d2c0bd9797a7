/**
  The compiling loop of `jit_region` and the label-marking pass it starts with
  (rsp_jit.cpp), proved to build exactly the code whose meaning DelaySlots
  establishes, with every local jump aimed at an emitted label.
 */
module RegionBuilder {
  import opened Wrappers
  import opened Isa
  import opened BlockCompiler
  import opened DelaySlots

  const MAX_REGION := 128  // CODE_BLOCK_WORDS * 2

  /** A label required by one of the instructions in [lo, n). */
  predicate LabelledBy(imem: Imem, lo: nat, n: nat, t: nat)
    requires n <= 1024
  {
    exists p :: lo <= p < n && StaticTarget(imem[p], p) == Some(t)
  }

  /** Marks every position of [pc, end) that a static branch or jump of the range goes to. */
  method MarkBlockEntries(imem: Imem, pc: nat, end: nat, entries: array<bool>)
    requires pc <= end <= 1024 && end - pc <= entries.Length
    modifies entries
    ensures forall j :: 0 <= j < end - pc ==> entries[j] == (old(entries[j]) || Labelled(imem, pc, end, pc + j))
    ensures forall j :: end - pc <= j < entries.Length ==> entries[j] == old(entries[j])
  {
    var count := end - pc;
    var i := 0;
    while i < count
      invariant 0 <= i <= count
      invariant forall j :: 0 <= j < count ==> entries[j] == (old(entries[j]) || LabelledBy(imem, pc, pc + i, pc + j))
      invariant forall j :: count <= j < entries.Length ==> entries[j] == old(entries[j])
    {
      var instr := imem[pc + i];
      match Classify(instr) {
        case Branch(_, _) =>
          var target := (pc + i + 1 + instr) % 1024;
          if pc <= target < end { entries[target - pc] := true; }
        case Jump(_) =>
          var target := instr % 1024;
          if pc <= target < end { entries[target - pc] := true; }
        case _ =>
      }
      forall t: Addr
        ensures LabelledBy(imem, pc, pc + i + 1, t)
                <==> LabelledBy(imem, pc, pc + i, t) || StaticTarget(instr, pc + i) == Some(t)
      {
        OneMore(imem, pc, pc + i, t);
      }
      i := i + 1;
    }
  }

  lemma OneMore(imem: Imem, lo: nat, n: nat, t: Addr)
    requires lo <= n < 1024
    ensures LabelledBy(imem, lo, n + 1, t) <==> LabelledBy(imem, lo, n, t) || StaticTarget(imem[n], n) == Some(t)
  {
    if LabelledBy(imem, lo, n + 1, t) {
      var p :| lo <= p < n + 1 && StaticTarget(imem[p], p) == Some(t);
    }
    if StaticTarget(imem[n], n) == Some(t) {
      assert lo <= n < n + 1;
    }
  }

  /** Some delay slot before position `n` of the region jumps to the label at `t`. */
  predicate Linked(imem: Imem, lo: nat, hi: nat, n: nat, t: nat)
    requires Region(lo, hi) && n <= hi
  {
    exists r :: lo < r < n && JumpsTo(imem, lo, hi, r, t)
  }

  /** The label indices of the local jumps in a piece of code, from left to right. */
  function Gotos(c: Code): seq<nat>
    decreases c
  {
    match c
    case Do(_, next) => Gotos(next)
    case IfEq(_, _, equal, other) => Gotos(equal) + Gotos(other)
    case Goto(index) => [index]
    case _ => []
  }

  /** The local jumps of the segments before position `n` of a region. */
  function LinksUpTo(imem: Imem, lo: nat, hi: nat, n: nat): seq<nat>
    requires Region(lo, hi) && lo <= n <= hi
    decreases n
  {
    if n == lo then [] else LinksUpTo(imem, lo, hi, n - 1) + Gotos(SegmentOf(imem, lo, hi, n - 1).code)
  }

  lemma LeafGotos(op: Op)
    ensures Gotos(Do(op, Return)) == [] && Gotos(Do(op, Enter)) == []
  {
    assert Gotos(Return) == [] && Gotos(Enter) == [];
  }

  lemma ExitHasNoGotos(pc: nat, last: Info, first: bool)
    ensures Gotos(ExitDynamic(pc, last, first)) == []
  {
    var next, target := Do(Movi(NextPcReg, FollowingBytes(pc)), Return), Do(LoadTarget(last, NextPcReg), Return);
    LeafGotos(Movi(NextPcReg, FollowingBytes(pc)));
    LeafGotos(LoadTarget(last, NextPcReg));
    var latent := Do(StoreHasDelay(NextPcReg), Do(LoadBranchTarget(NextPcReg), Return));
    assert Gotos(Do(LoadBranchTarget(NextPcReg), Return)) == [];
    assert Gotos(Do(Movi(NextPcReg, 0), latent)) == Gotos(latent) == [];
    assert Gotos(IfEq(NextPcReg, 0, next, Do(Movi(NextPcReg, 0), latent))) == [] + [];
    assert Gotos(IfEq(NextPcReg, 0, next, target)) == [] + [];
  }

  /** The code of an instruction adds no local jump to what follows it, and BREAK drops what follows. */
  lemma InstructionGotos(w: Word, pc: nat, last: Info, first: bool, next: bool, k: Code)
    ensures Gotos(Instruction(w, pc, last, first, next, k)) == if Classify(w).Break? then [] else Gotos(k)
  {
    ExitHasNoGotos(pc, last, first);
    match Classify(w)
    case Straight =>
    case Cop0 => assert Gotos(IfEq(ModeReg, MODE_CONTINUE, k, ExitDynamic(pc, last, first))) == Gotos(k) + [];
    case Break =>
    case _ =>
      BranchGotos(w, pc / 4, next, k);
      FlushGotos(last, BranchBody(w, pc / 4, next, k));
  }

  lemma FlushGotos(last: Info, k: Code)
    ensures Gotos(FlushImpossibleDelaySlot(last, k)) == Gotos(k)
  {
    assert Gotos(Do(SpillIndirect, k)) == Gotos(k);
  }

  lemma BranchGotos(w: Word, p: nat, next: bool, k: Code)
    ensures Gotos(BranchBody(w, p, next, k)) == Gotos(k)
  {
    var always := Do(SetCond(if next then 1 else 0), k);
    assert Gotos(always) == Gotos(k);
    match Classify(w)
    case JumpRegister(link) => assert Gotos(WriteLink(link, p, always)) == Gotos(k);
    case Branch(_, link) => assert Gotos(WriteLink(link, p, k)) == Gotos(k);
    case _ =>
  }

  /** The local jump of the code after an instruction: none, or one. */
  lemma TailGotos(info: Info, last: Info, first: bool, base: nat, end: nat)
    requires first ==> !last.branch
    ensures Gotos(Tail(info, last, first, base, end))
            == if !info.branch && !info.handlesDelaySlot && last.branch && !last.indirect && base <= last.branchTarget < end
               then [(last.branchTarget - base) / 4] else []
  {
    if first && !info.handlesDelaySlot {
    } else if info.branch && last.branch {
      ImpossibleGotos(info, last);
    } else if !info.handlesDelaySlot && last.branch {
      var take := TakeBranch(last, base, end);
      assert Gotos(IfEq(Scratch0, 0, Fall, take)) == [] + Gotos(take);
      assert Gotos(Do(SetCond(0), IfEq(Scratch0, 0, Fall, take))) == Gotos(IfEq(Scratch0, 0, Fall, take));
    }
  }

  lemma ImpossibleGotos(info: Info, last: Info)
    ensures Gotos(HandleImpossibleDelaySlot(info, last, Fall)) == []
  {
    var load := if last.indirect then LoadSpilledIndirect(NextPcReg) else Movi(NextPcReg, last.branchTarget);
    LeafGotos(load);
    assert Gotos(Do(StoreBranchTarget(CondReg), Do(load, Enter))) == [];
    assert Gotos(TakeFirstBranch(info, last)) == [];
    var taken := if info.conditional then TakeFirstBranch(info, last)
                 else Do(Movi(CondReg, 1), TakeFirstBranch(info, last));
    assert Gotos(taken) == [] && Gotos(IfEq(Scratch1, 0, Fall, taken)) == [] + [];
    assert Gotos(Do(Movi(Scratch0, 0), Do(StoreSpilledCond(Scratch0), IfEq(Scratch1, 0, Fall, taken)))) == [];
    assert Gotos(Do(Movi(CondReg, 0), Do(StoreSpilledCond(CondReg), taken))) == [];
  }

  lemma SegmentGotos(imem: Imem, lo: nat, hi: nat, p: nat)
    requires Region(lo, hi) && lo <= p < hi
    ensures Gotos(SegmentOf(imem, lo, hi, p).code)
            == Gotos(Tail(RegionInfo(imem, lo, hi, p), LastInfo(imem, lo, hi, p), p == lo, 4 * lo, 4 * hi))
  {
    var info, last := RegionInfo(imem, lo, hi, p), LastInfo(imem, lo, hi, p);
    InstructionGotos(imem[p], 4 * p, last, p == lo, Labelled(imem, lo, hi, p + 1), Tail(info, last, p == lo, 4 * lo, 4 * hi));
    TailGotos(info, last, p == lo, 4 * lo, 4 * hi);
  }

  lemma LinkedOneMore(imem: Imem, lo: nat, hi: nat, n: nat, l: nat)
    requires Region(lo, hi) && lo <= n < hi
    ensures Linked(imem, lo, hi, n + 1, lo + l) <==>
            Linked(imem, lo, hi, n, lo + l) || l in Gotos(SegmentOf(imem, lo, hi, n).code)
  {
    var t, info, last := lo + l, RegionInfo(imem, lo, hi, n), LastInfo(imem, lo, hi, n);
    SegmentGotos(imem, lo, hi, n);
    TailGotos(info, last, n == lo, 4 * lo, 4 * hi);
    if lo < n {
      TargetsAgree(imem[n - 1], n - 1, Labelled(imem, lo, hi, n));
      if JumpsTo(imem, lo, hi, n, t) { assert lo < n < n + 1; }
      assert JumpsTo(imem, lo, hi, n, t) <==> l in Gotos(Tail(info, last, false, 4 * lo, 4 * hi));
    }
  }

  /** The case distinction after each instruction, recording a local jump when one is emitted. */
  method EmitTail(info: Info, last: Info, first: bool, base: nat, end: nat) returns (tail: Code, link: seq<nat>)
    requires first ==> !last.branch
    ensures tail == Tail(info, last, first, base, end)
    ensures link == Gotos(tail)
  {
    TailGotos(info, last, first, base, end);
    tail, link := Fall, [];
    if first && !info.handlesDelaySlot {
      tail := CheckLatentDelaySlot(Fall);
    } else if info.branch && last.branch {
      tail := HandleImpossibleDelaySlot(info, last, Fall);
    } else if !info.handlesDelaySlot && last.branch {
      tail := HandleDelaySlot(last, base, end, Fall);
      if !last.indirect && base <= last.branchTarget < end {
        link := [(last.branchTarget - base) / 4];
      }
    }
  }

  /** One iteration of the compiling loop. */
  method EmitSegment(imem: Imem, lo: nat, hi: nat, p: nat, last: Info, here: bool, next: bool)
    returns (segment: Segment, info: Info, link: seq<nat>)
    requires Region(lo, hi) && lo <= p < hi && last == LastInfo(imem, lo, hi, p)
    requires here == Labelled(imem, lo, hi, p) && next == Labelled(imem, lo, hi, p + 1)
    ensures segment == SegmentOf(imem, lo, hi, p) && info == RegionInfo(imem, lo, hi, p)
    ensures link == Gotos(segment.code)
  {
    SegmentGotos(imem, lo, hi, p);
    info := InfoOf(imem[p], 4 * p, next);
    var tail;
    tail, link := EmitTail(info, last, p == lo, 4 * lo, 4 * hi);
    segment := Segment(here, Instruction(imem[p], 4 * p, last, p == lo, next, tail));
  }

  /** The compiling loop: `last_info` carries each instruction's information to the next. */
  method EmitSegments(imem: Imem, pc: nat, end: nat, labelled: seq<bool>)
    returns (segments: seq<Segment>, links: seq<nat>, first: Info, last: Info)
    requires Region(pc, end) && end - pc <= |labelled|
    requires forall j :: 0 <= j < end - pc ==> labelled[j] == Labelled(imem, pc, end, pc + j)
    ensures segments == RegionCode(imem, pc, end).segments
    ensures links == LinksUpTo(imem, pc, end, end)
    ensures first == RegionInfo(imem, pc, end, pc) && last == LastInfo(imem, pc, end, end)
  {
    segments, links, first, last := [], [], NO_INFO, NO_INFO;
    var i := 0;
    while i < end - pc
      invariant 0 <= i <= end - pc
      invariant last == LastInfo(imem, pc, end, pc + i)
      invariant i > 0 ==> first == RegionInfo(imem, pc, end, pc)
      invariant segments == SegmentsUpTo(imem, pc, end, pc + i)
      invariant links == LinksUpTo(imem, pc, end, pc + i)
    {
      var next := i + 1 < end - pc && labelled[i + 1];
      NextFlag(imem, pc, end, labelled, i, next);
      var segment, info, link := EmitSegment(imem, pc, end, pc + i, last, labelled[i], next);
      links := links + link;
      segments := segments + [segment];
      if i == 0 { first := info; }
      last := info;
      i := i + 1;
    }
    SegmentsAreRegion(imem, pc, end);
  }

  /** The code of the positions before `n`. */
  function SegmentsUpTo(imem: Imem, lo: nat, hi: nat, n: nat): (r: seq<Segment>)
    requires Region(lo, hi) && lo <= n <= hi
    ensures |r| == n - lo
    decreases n
  {
    if n == lo then [] else SegmentsUpTo(imem, lo, hi, n - 1) + [SegmentOf(imem, lo, hi, n - 1)]
  }

  lemma {:induction false} SegmentsUpToAt(imem: Imem, lo: nat, hi: nat, n: nat, p: nat)
    requires Region(lo, hi) && lo <= p < n <= hi
    ensures SegmentsUpTo(imem, lo, hi, n)[p - lo] == SegmentOf(imem, lo, hi, p)
    decreases n
  {
    if p < n - 1 { SegmentsUpToAt(imem, lo, hi, n - 1, p); }
  }

  lemma SegmentsAreRegion(imem: Imem, lo: nat, hi: nat)
    requires Region(lo, hi)
    ensures SegmentsUpTo(imem, lo, hi, hi) == RegionCode(imem, lo, hi).segments
  {
    forall i | 0 <= i < hi - lo ensures SegmentsUpTo(imem, lo, hi, hi)[i] == RegionCode(imem, lo, hi).segments[i] {
      SegmentsUpToAt(imem, lo, hi, hi, lo + i);
      SegmentAt(imem, lo, hi, lo + i);
    }
  }

  lemma NextFlag(imem: Imem, pc: nat, end: nat, labelled: seq<bool>, i: nat, next: bool)
    requires Region(pc, end) && end - pc <= |labelled| && i < end - pc
    requires forall j :: 0 <= j < end - pc ==> labelled[j] == Labelled(imem, pc, end, pc + j)
    requires next == (i + 1 < end - pc && labelled[i + 1])
    ensures labelled[i] == Labelled(imem, pc, end, pc + i) && next == Labelled(imem, pc, end, pc + i + 1)
  {
  }

  /** Emits the code of a region, collecting the local jumps that are patched once all labels are known. */
  method JitRegion(imem: Imem, pc: nat, count: nat) returns (b: Block, links: seq<nat>)
    requires 0 < count <= MAX_REGION && pc + count <= 1024
    ensures b == RegionCode(imem, pc, pc + count)
    ensures links == LinksUpTo(imem, pc, pc + count, pc + count)
  {
    var end := pc + count;
    var blockEntry := new bool[MAX_REGION](_ => false);
    MarkBlockEntries(imem, pc, end, blockEntry);
    var segments, first, last;
    segments, links, first, last := EmitSegments(imem, pc, end, blockEntry[..]);
    var latent := if first.handlesDelaySlot then None else Some(HandleLatentDelaySlot(first));
    b := Block(pc, segments, EndOfBlock(4 * end, last), latent);
  }

  /** The local jumps of the emitted code go exactly where some delay slot's branch does. */
  lemma {:induction false} LinksAreJumps(imem: Imem, lo: nat, hi: nat, n: nat, l: nat)
    requires Region(lo, hi) && lo <= n <= hi
    ensures l in LinksUpTo(imem, lo, hi, n) <==> Linked(imem, lo, hi, n, lo + l)
    decreases n
  {
    if n > lo {
      LinksAreJumps(imem, lo, hi, n - 1, l);
      LinkedOneMore(imem, lo, hi, n - 1, l);
    }
  }

  /** No dangling local branch: every recorded link goes to a position whose label is emitted. */
  lemma NoDanglingLink(imem: Imem, lo: nat, hi: nat, l: nat)
    requires Region(lo, hi) && l in LinksUpTo(imem, lo, hi, hi)
    ensures lo + l < hi && RegionCode(imem, lo, hi).segments[l].labelled
  {
    LinksAreJumps(imem, lo, hi, hi, l);
    LinkedIsLabelled(imem, lo, hi, hi, lo + l);
    SegmentAt(imem, lo, hi, lo + l);
  }

  lemma LinkedIsLabelled(imem: Imem, lo: nat, hi: nat, n: nat, t: nat)
    requires Region(lo, hi) && n <= hi && Linked(imem, lo, hi, n, t)
    ensures t < hi && Labelled(imem, lo, hi, t)
  {
    var r :| lo < r < n && JumpsTo(imem, lo, hi, r, t);
    LocalTarget(imem, lo, hi, r - 1);
  }
}
