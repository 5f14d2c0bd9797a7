/**
  The register cache under any sequence of calls (rsp_jit.cpp): whatever the
  compiler asks of it, in whatever order, as long as its assertions are met, the
  live entries overlaid on memory are the register file, every register is live
  in at most one entry, and flushing writes the file to memory.
 */
module CacheCalls {
  import opened Arithmetic
  import opened HostWords
  import opened RegisterCache
  import opened ScalarCode

  datatype Call =
    | CallLoad(m: nat, want: Want)
    | CallModify(m: nat)
    | CallWrite(i: nat, op: Alu, rs: nat, y: Operand)   // an operation into a register claimed for writing
    | CallUnlock(m: nat)
    | CallFlush(entries: set<nat>)                      // any selection of entries: caller-saved, one register
    | CallFlushWindow                                   // all of them, and the clock starts again

  /** The assertions of the cache, and what a caller must respect: it writes only to registers it has claimed. */
  predicate Meets(c: Cache, h: Host, call: Call) {
    match call
    case CallLoad(m, _) => m <= COND_BRANCH_TAKEN && FindRegister(c.entries, m) < |c.entries|
    case CallModify(m) => 0 < m <= SCRATCH_REGISTER1 && FindRegister(c.entries, m) < |c.entries|
    case CallWrite(i, _, _, _) =>
      i < |c.entries| && c.entries[i].live && c.entries[i].modified && c.entries[i].sign == Unknown && c.entries[i].locks > 0
    case CallUnlock(m) =>
      var i := FindLive(c.entries, m);
      i < |c.entries| && c.entries[i].locks > 0 && (m == COND_BRANCH_TAKEN ==> Reg(h, i) < TWO_32)
    case CallFlush(ks) => forall k :: 0 <= k < |c.entries| && k in ks && c.entries[k].live ==> c.entries[k].locks == 0
    case CallFlushWindow => forall k :: 0 <= k < |c.entries| && c.entries[k].live ==> c.entries[k].locks == 0
  }

  function Selects(ks: set<nat>): nat -> bool { (k: nat) => k in ks }

  function After(c: Cache, call: Call): Cache {
    match call
    case CallLoad(m, want) => Load(c, m, want)
    case CallModify(m) => Modify(c, m)
    case CallWrite(i, op, rs, y) => Emit(c, Compute(op, i, rs, y))
    case CallUnlock(m) => Unlock(c, m)
    case CallFlush(ks) => Flush(c, Selects(ks))
    case CallFlushWindow => FlushRegisterWindow(c)
  }

  /** The register file afterwards: only claiming and writing change it, and only at their own register. */
  function FileAfter(c: Cache, h: Host, g: File, call: Call): File {
    match call
    case CallModify(m) => WithReg(g, m, Low(Reg(h, FindRegister(c.entries, m))))
    case CallWrite(i, op, rs, y) =>
      if i < |c.entries| then WithReg(g, c.entries[i].mips, Low(Result(op, Reg(h, rs), Second(h, y)))) else g
    case _ => g
  }

  lemma LoadCall(c: Cache, m: nat, want: Want, h0: Host, g: File)
    requires Rep(c, h0, g) && m <= COND_BRANCH_TAKEN && FindRegister(c.entries, m) < |c.entries|
    ensures Rep(Load(c, m, want), h0, g)
  {
    LoadKeeps(c, m, want, HostAt(c, h0), g);
    LoadRuns(c, m, want, h0);
  }

  lemma ModifyCall(c: Cache, m: nat, h0: Host, g: File)
    requires Rep(c, h0, g) && 0 < m <= SCRATCH_REGISTER1 && FindRegister(c.entries, m) < |c.entries|
    ensures Rep(Modify(c, m), h0, WithReg(g, m, Low(Reg(HostAt(c, h0), FindRegister(c.entries, m)))))
  {
    ModifyKeeps(c, m, HostAt(c, h0), g);
    RunAppend(c.code, ModifyOps(c.entries, m), h0);
  }

  lemma WriteCall(c: Cache, i: nat, op: Alu, rs: nat, y: Operand, h0: Host, g: File)
    requires Rep(c, h0, g) && i < |c.entries|
    requires c.entries[i].live && c.entries[i].modified && c.entries[i].sign == Unknown && c.entries[i].locks > 0
    ensures var h := HostAt(c, h0);
            Rep(Emit(c, Compute(op, i, rs, y)), h0, WithReg(g, c.entries[i].mips, Low(Result(op, Reg(h, rs), Second(h, y)))))
  {
    var h := HostAt(c, h0);
    WriteStep(c, i, Compute(op, i, rs, y), Result(op, Reg(h, rs), Second(h, y)), h0, g);
  }

  /** Every call that meets the assertions keeps the representation. */
  lemma CallKeeps(c: Cache, call: Call, h0: Host, g: File)
    requires Rep(c, h0, g) && Meets(c, HostAt(c, h0), call)
    ensures Rep(After(c, call), h0, FileAfter(c, HostAt(c, h0), g, call))
  {
    match call
    case CallLoad(m, want) => LoadCall(c, m, want, h0, g);
    case CallModify(m) => ModifyCall(c, m, h0, g);
    case CallWrite(i, op, rs, y) => WriteCall(c, i, op, rs, y, h0, g);
    case CallUnlock(m) => UnlockStep(c, m, FindLive(c.entries, m), h0, g);
    case CallFlush(ks) => FlushRep(c, Selects(ks), h0, g);
    case CallFlushWindow => FlushWindowWritesAll(c, h0, g);
  }

  /** The cache and the register file after a sequence of calls, or nothing if one of them fails an assertion. */
  datatype Progress = Stuck | Progress(c: Cache, g: File)

  function Then(p: Progress, h0: Host, call: Call): Progress {
    match p
    case Stuck => Stuck
    case Progress(d, f) =>
      var h := HostAt(d, h0);
      if Meets(d, h, call) then Progress(After(d, call), FileAfter(d, h, f, call)) else Stuck
  }

  function AfterAll(c: Cache, h0: Host, g: File, calls: seq<Call>): Progress {
    if |calls| == 0 then Progress(c, g) else Then(AfterAll(c, h0, g, calls[..|calls| - 1]), h0, calls[|calls| - 1])
  }

  lemma {:induction false} CallsKeep(c: Cache, h0: Host, g: File, calls: seq<Call>)
    requires Rep(c, h0, g) && AfterAll(c, h0, g, calls).Progress?
    ensures var p := AfterAll(c, h0, g, calls); Rep(p.c, h0, p.g)
  {
    if |calls| > 0 {
      CallsKeep(c, h0, g, calls[..|calls| - 1]);
      var p := AfterAll(c, h0, g, calls[..|calls| - 1]);
      CallKeeps(p.c, calls[|calls| - 1], h0, p.g);
    }
  }

  /** The value the cache and memory together give for register `m`. */
  function Overlay(es: seq<Entry>, h: Host, m: nat): Guest
    requires |h.regs| == |es| && 1 <= m < |h.sr|
  {
    var i := FindLive(es, m);
    if i < |es| then Low(h.regs[i]) else h.sr[m]
  }

  /**
    After any sequence of calls: overlaying the live entries on memory gives
    exactly the register file the calls amount to, no register is live twice, and
    a flush of the whole window leaves memory equal to it.
   */
  lemma OverlayIsFile(c: Cache, h0: Host, g: File, calls: seq<Call>, m: nat)
    requires Rep(c, h0, g) && AfterAll(c, h0, g, calls).Progress? && 1 <= m <= COND_BRANCH_TAKEN
    ensures var p := AfterAll(c, h0, g, calls);
            var h, k := HostAt(p.c, h0), HostAt(FlushRegisterWindow(p.c), h0);
            && |h.regs| == |p.c.entries| && |h.sr| == 33 && Overlay(p.c.entries, h, m) == p.g[m]
            && LiveOnce(p.c.entries) && |k.sr| == 33 && k.sr[1..] == p.g[1..]
  {
    CallsKeep(c, h0, g, calls);
    var p := AfterAll(c, h0, g, calls);
    OverlayOf(p.c.entries, HostAt(p.c, h0), p.g, m);
    FlushWindowWritesAll(p.c, h0, p.g);
  }

  predicate LiveOnce(es: seq<Entry>) {
    forall i, j :: 0 <= i < j < |es| && es[i].live && es[j].live ==> es[i].mips != es[j].mips
  }

  lemma OverlayOf(es: seq<Entry>, h: Host, g: File, m: nat)
    requires Represents(es, h, g) && 1 <= m <= COND_BRANCH_TAKEN
    ensures Overlay(es, h, m) == g[m] && LiveOnce(es)
  {
    if FindLive(es, m) == |es| { assert !Dirty(es, m); }
  }

  // ---------------------------------------------------------------- which register is given up

  predicate Uses(call: Call, m: nat) { (call.CallLoad? || call.CallModify?) && call.m == m }

  /** The number of the last call that loads or claims register `m`, counted from one; zero if there is none. */
  function LastUse(calls: seq<Call>, m: nat): (n: nat)
    ensures n <= |calls|
  {
    if |calls| == 0 then 0
    else if Uses(calls[|calls| - 1], m) then |calls|
    else LastUse(calls[..|calls| - 1], m)
  }

  /** Timestamps order the live entries by the last use of their registers. */
  predicate InOrder(calls: seq<Call>, es: seq<Entry>, stamp: nat) {
    && (forall i :: 0 <= i < |es| && es[i].live ==> es[i].timestamp <= stamp)
    && (forall i, j :: 0 <= i < |es| && 0 <= j < |es| && i != j && es[i].live && es[j].live ==>
          (es[i].timestamp < es[j].timestamp <==> LastUse(calls, es[i].mips) < LastUse(calls, es[j].mips)))
  }

  /** A load or claim puts its entry in front of all others. */
  lemma UseKeepsOrder(before: seq<Call>, calls: seq<Call>, es: seq<Entry>, stamp: nat, i: nat, e: Entry)
    requires InOrder(before, es, stamp) && i < |es| && |calls| > 0 && calls[..|calls| - 1] == before
    requires Uses(calls[|calls| - 1], e.mips) && e.live && e.timestamp == stamp + 1
    requires forall k :: 0 <= k < |es| && es[k].live && es[k].mips == e.mips ==> k == i
    ensures InOrder(calls, es[i := e], stamp + 1)
  {
    forall k | 0 <= k < |es| && k != i && es[k].live ensures LastUse(calls, es[k].mips) == LastUse(before, es[k].mips) <= |before| {
      assert es[k].mips != e.mips;
    }
    assert LastUse(calls, e.mips) == |calls|;
  }

  /** Calls that use no register only unlock or free entries. */
  lemma OtherKeepsOrder(before: seq<Call>, calls: seq<Call>, es: seq<Entry>, fs: seq<Entry>, stamp: nat, now: nat)
    requires InOrder(before, es, stamp) && |calls| > 0 && calls[..|calls| - 1] == before
    requires !calls[|calls| - 1].CallLoad? && !calls[|calls| - 1].CallModify? && |fs| == |es|
    requires forall k :: 0 <= k < |es| && fs[k].live ==>
               es[k].live && fs[k].mips == es[k].mips && fs[k].timestamp == es[k].timestamp && stamp <= now
    ensures InOrder(calls, fs, now)
  {
    forall m: nat ensures LastUse(calls, m) == LastUse(before, m) {}
  }

  lemma CallKeepsOrder(before: seq<Call>, calls: seq<Call>, c: Cache, h: Host, call: Call)
    requires InOrder(before, c.entries, c.timestamp) && calls == before + [call] && Meets(c, h, call) && LiveOnce(c.entries)
    ensures InOrder(calls, After(c, call).entries, After(c, call).timestamp)
  {
    assert calls[..|calls| - 1] == before;
    if call.CallLoad? || call.CallModify? {
      var i := FindRegister(c.entries, call.m);
      UseKeepsOrder(before, calls, c.entries, c.timestamp, i, After(c, call).entries[i]);
    } else {
      OtherKeepsOrder(before, calls, c.entries, After(c, call).entries, c.timestamp, After(c, call).timestamp);
    }
  }

  lemma {:induction false} CallsKeepOrder(c: Cache, h0: Host, g: File, calls: seq<Call>)
    requires Rep(c, h0, g) && AfterAll(c, h0, g, calls).Progress? && forall k :: 0 <= k < |c.entries| ==> !c.entries[k].live
    ensures var p := AfterAll(c, h0, g, calls); InOrder(calls, p.c.entries, p.c.timestamp)
  {
    if |calls| > 0 {
      var p := LastCall(c, h0, g, calls);
      CallsKeepOrder(c, h0, g, calls[..|calls| - 1]);
      NoRegisterTwice(c, h0, g, calls[..|calls| - 1]);
      CallKeepsOrder(calls[..|calls| - 1], calls, p, HostAt(p, h0), calls[|calls| - 1]);
    }
  }

  /** The cache in front of the last call of a sequence. */
  lemma LastCall(c: Cache, h0: Host, g: File, calls: seq<Call>) returns (p: Cache)
    requires |calls| > 0 && AfterAll(c, h0, g, calls).Progress?
    ensures AfterAll(c, h0, g, calls[..|calls| - 1]).Progress? && p == AfterAll(c, h0, g, calls[..|calls| - 1]).c
    ensures Meets(p, HostAt(p, h0), calls[|calls| - 1]) && AfterAll(c, h0, g, calls).c == After(p, calls[|calls| - 1])
    ensures calls == calls[..|calls| - 1] + [calls[|calls| - 1]]
  {
    assert AfterAll(c, h0, g, calls) == Then(AfterAll(c, h0, g, calls[..|calls| - 1]), h0, calls[|calls| - 1]);
    ThenMeets(AfterAll(c, h0, g, calls[..|calls| - 1]), h0, calls[|calls| - 1]);
    p := AfterAll(c, h0, g, calls[..|calls| - 1]).c;
  }

  lemma ThenMeets(p: Progress, h0: Host, call: Call)
    requires Then(p, h0, call).Progress?
    ensures p.Progress? && Meets(p.c, HostAt(p.c, h0), call) && Then(p, h0, call).c == After(p.c, call)
  {
  }

  lemma NoRegisterTwice(c: Cache, h0: Host, g: File, calls: seq<Call>)
    requires Rep(c, h0, g) && AfterAll(c, h0, g, calls).Progress?
    ensures LiveOnce(AfterAll(c, h0, g, calls).c.entries)
  {
    CallsKeep(c, h0, g, calls);
    var p := AfterAll(c, h0, g, calls);
    OverlayOf(p.c.entries, HostAt(p.c, h0), p.g, 1);
  }

  /**
    The register given up is the least recently used one: after any sequence of
    calls on an empty cache, when a register that is not live is asked for and no
    entry is free, the entry chosen is unlocked, and no other unlocked entry was
    last loaded or claimed earlier.
   */
  lemma EvictsLeastRecent(c: Cache, h0: Host, g: File, calls: seq<Call>, m: nat)
    requires Rep(c, h0, g) && AfterAll(c, h0, g, calls).Progress? && forall k :: 0 <= k < |c.entries| ==> !c.entries[k].live
    requires var es := AfterAll(c, h0, g, calls).c.entries;
             (forall k :: 0 <= k < |es| ==> es[k].live && es[k].mips != m) && FindRegister(es, m) < |es|
    ensures var es := AfterAll(c, h0, g, calls).c.entries;
            var i := FindRegister(es, m);
            && es[i].locks == 0
            && forall k :: 0 <= k < |es| && es[k].locks == 0 && k != i ==> LastUse(calls, es[i].mips) < LastUse(calls, es[k].mips)
  {
    CallsKeepOrder(c, h0, g, calls);
    CallsKeep(c, h0, g, calls);
    UsesDiffer(c, h0, g, calls);
  }

  /** Every live register has been used, and no two of them by the same call. */
  lemma {:induction false} UsesDiffer(c: Cache, h0: Host, g: File, calls: seq<Call>)
    requires Rep(c, h0, g) && AfterAll(c, h0, g, calls).Progress? && forall k :: 0 <= k < |c.entries| ==> !c.entries[k].live
    ensures var es := AfterAll(c, h0, g, calls).c.entries;
            && LiveOnce(es)
            && (forall i :: 0 <= i < |es| && es[i].live ==> LastUse(calls, es[i].mips) > 0)
            && (forall i, j :: 0 <= i < j < |es| && es[i].live && es[j].live ==> LastUse(calls, es[i].mips) != LastUse(calls, es[j].mips))
  {
    CallsKeep(c, h0, g, calls);
    EveryLiveUsed(c, h0, g, calls);
    var es := AfterAll(c, h0, g, calls).c.entries;
    forall i, j | 0 <= i < j < |es| && es[i].live && es[j].live ensures LastUse(calls, es[i].mips) != LastUse(calls, es[j].mips) {
      LastUseIs(calls, es[i].mips);
      LastUseIs(calls, es[j].mips);
    }
  }

  lemma {:induction false} LastUseIs(calls: seq<Call>, m: nat)
    ensures LastUse(calls, m) > 0 ==> Uses(calls[LastUse(calls, m) - 1], m)
  {
    if |calls| > 0 { LastUseIs(calls[..|calls| - 1], m); }
  }

  lemma {:induction false} EveryLiveUsed(c: Cache, h0: Host, g: File, calls: seq<Call>)
    requires Rep(c, h0, g) && AfterAll(c, h0, g, calls).Progress? && forall k :: 0 <= k < |c.entries| ==> !c.entries[k].live
    ensures var es := AfterAll(c, h0, g, calls).c.entries;
            forall i :: 0 <= i < |es| && es[i].live ==> LastUse(calls, es[i].mips) > 0
  {
    if |calls| > 0 {
      var p := LastCall(c, h0, g, calls);
      EveryLiveUsed(c, h0, g, calls[..|calls| - 1]);
      CallKeepsUsed(calls, p, HostAt(p, h0), calls[|calls| - 1]);
    }
  }

  lemma CallKeepsUsed(calls: seq<Call>, c: Cache, h: Host, call: Call)
    requires |calls| > 0 && calls[|calls| - 1] == call && Meets(c, h, call)
    requires forall i :: 0 <= i < |c.entries| && c.entries[i].live ==> LastUse(calls[..|calls| - 1], c.entries[i].mips) > 0
    ensures var d := After(c, call); forall i :: 0 <= i < |d.entries| && d.entries[i].live ==> LastUse(calls, d.entries[i].mips) > 0
  {
  }

  // ---------------------------------------------------------------- which registers are written to memory

  /** Some call of the sequence claims `m` for writing. */
  predicate Claimed(calls: seq<Call>, m: nat) { exists k :: 0 <= k < |calls| && calls[k].CallModify? && calls[k].m == m }

  /** Every store to `sr` is of a claimed register. */
  predicate StoresClaimed(calls: seq<Call>, code: seq<HostOp>) {
    forall k :: 0 <= k < |code| && code[k].Store? ==> Claimed(calls, code[k].m)
  }

  predicate ModifiedClaimed(calls: seq<Call>, es: seq<Entry>) {
    forall i :: 0 <= i < |es| && es[i].live && es[i].modified ==> Claimed(calls, es[i].mips)
  }

  lemma StillClaimed(before: seq<Call>, call: Call, m: nat)
    requires Claimed(before, m)
    ensures Claimed(before + [call], m)
  {
    var k :| 0 <= k < |before| && before[k].CallModify? && before[k].m == m;
    assert (before + [call])[k] == before[k];
  }

  lemma {:induction false} FlushStoresClaimed(calls: seq<Call>, es: seq<Entry>, which: nat -> bool, n: nat)
    requires n <= |es| && ModifiedClaimed(calls, es)
    ensures StoresClaimed(calls, FlushOps(es, which, n))
  {
    if n > 0 { FlushStoresClaimed(calls, es, which, n - 1); }
  }

  lemma CallStoresClaimed(before: seq<Call>, c: Cache, h: Host, call: Call)
    requires StoresClaimed(before, c.code) && ModifiedClaimed(before, c.entries) && Meets(c, h, call)
    ensures var calls, d := before + [call], After(c, call); StoresClaimed(calls, d.code) && ModifiedClaimed(calls, d.entries)
  {
    var calls := before + [call];
    forall m | Claimed(before, m) ensures Claimed(calls, m) { StillClaimed(before, call, m); }
    if call.CallModify? { assert calls[|before|] == call; }
    match call
    case CallFlush(ks) => FlushStoresClaimed(before, c.entries, Selects(ks), |c.entries|);
    case CallFlushWindow => FlushStoresClaimed(before, c.entries, _ => true, |c.entries|);
    case _ =>
  }

  /** A register that is only read is never written back: the code of any sequence of calls stores claimed registers only. */
  lemma {:induction false} StoresOnlyClaimed(c: Cache, h0: Host, g: File, calls: seq<Call>)
    requires AfterAll(c, h0, g, calls).Progress? && c.code == [] && forall k :: 0 <= k < |c.entries| ==> !c.entries[k].live
    ensures var p := AfterAll(c, h0, g, calls); StoresClaimed(calls, p.c.code) && ModifiedClaimed(calls, p.c.entries)
  {
    if |calls| > 0 {
      var p := LastCall(c, h0, g, calls);
      StoresOnlyClaimed(c, h0, g, calls[..|calls| - 1]);
      CallStoresClaimed(calls[..|calls| - 1], p, HostAt(p, h0), calls[|calls| - 1]);
    }
  }
}
