/**
  The register cache as the compiler runs it: an array of entries updated in
  place, a running timestamp and the code emitted so far.  Every method is tied
  to the function of the same operation in `RegisterCache`, where what the
  emitted code computes is proved.
 */
module RegisterWindow {
  import opened HostWords
  import opened RegisterCache

  class Window {
    const entries: array<Entry>
    var timestamp: nat
    var code: seq<HostOp>

    ghost function Value(): (c: Cache)
      reads this, entries
    {
      Cache(entries[..], timestamp, code)
    }

    constructor (registers: nat)
      ensures fresh(entries) && entries.Length == registers && timestamp == 0 && code == []
      ensures forall k :: 0 <= k < registers ==> entries[k] == EMPTY
    {
      entries := new Entry[registers](_ => EMPTY);
      timestamp, code := 0, [];
    }

    method FindLiveMipsRegister(m: nat) returns (i: nat)
      ensures i == FindLive(entries[..], m)
    {
      i := 0;
      while i < entries.Length
        invariant i <= entries.Length
        invariant forall j :: 0 <= j < i ==> !(entries[j].live && entries[j].mips == m)
      {
        if entries[i].live && entries[i].mips == m { return; }
        i := i + 1;
      }
    }

    method FindFreeRegister() returns (i: nat)
      ensures i == FindFree(entries[..])
    {
      i := 0;
      while i < entries.Length
        invariant i <= entries.Length
        invariant forall j :: 0 <= j < i ==> entries[j].live
      {
        if !entries[i].live { return; }
        i := i + 1;
      }
    }

    method FindOldestUnlockedRegister() returns (best: nat)
      ensures best == FindOldest(entries[..], entries.Length)
    {
      best := entries.Length;
      var i := 0;
      while i < entries.Length
        invariant i <= entries.Length
        invariant best == FindOldest(entries[..], i)
      {
        if entries[i].live && entries[i].locks == 0 {
          if best == entries.Length || entries[i].timestamp < entries[best].timestamp { best := i; }
        }
        i := i + 1;
      }
    }

    /** `find_register`; its assertion is the precondition. */
    method Find(m: nat) returns (i: nat)
      requires FindRegister(entries[..], m) < entries.Length
      ensures i == FindRegister(entries[..], m)
    {
      i := FindLiveMipsRegister(m);
      if i == entries.Length { i := FindFreeRegister(); }
      if i == entries.Length { i := FindOldestUnlockedRegister(); }
    }

    /** The source asserts that register 0 never gets here. */
    method WritebackRegister(i: nat)
      requires i < entries.Length && entries[i].live && entries[i].modified && entries[i].mips != 0
      modifies this`code, entries
      ensures code == old(code) + Writeback(old(entries[i]), i)
      ensures entries[..] == old(entries[..])[i := old(entries[i]).(modified := false)]
    {
      if entries[i].mips <= COND_BRANCH_TAKEN { code := code + [Store(i, entries[i].mips)]; }
      entries[i] := entries[i].(modified := false);
    }

    /** load_mips_register_noext, _sext and _zext. */
    method LoadMipsRegister(m: nat, want: Want) returns (i: nat)
      requires m <= COND_BRANCH_TAKEN && FindRegister(entries[..], m) < entries.Length && NoDirtyZero(entries[..])
      modifies this, entries
      ensures Value() == Load(old(Value()), m, want) && i == FindRegister(old(entries[..]), m)
    {
      ghost var es := entries[..];
      i := Find(m);
      if entries[i].live && entries[i].mips != m {
        if entries[i].modified { WritebackRegister(i); }
        code := code + [Reload(i, m, want)];
        entries[i] := entries[i].(mips := m, modified := false, sign := SignAfter(want, SExt));
      } else if !entries[i].live {
        code := code + [Reload(i, m, want)];
        entries[i] := entries[i].(mips := m, live := true, modified := false, sign := SignAfter(want, SExt));
      } else {
        code := code + Extension(entries[i], i, want);
        entries[i] := entries[i].(sign := SignAfter(want, entries[i].sign));
      }
      timestamp := timestamp + 1;
      entries[i] := entries[i].(timestamp := timestamp, locks := entries[i].locks + 1);
      assert code == old(code) + LoadOps(es, m, want);
      assert entries[..] == es[i := entries[i]];
    }

    method ModifyMipsRegister(m: nat) returns (i: nat)
      requires m != 0 && FindRegister(entries[..], m) < entries.Length && NoDirtyZero(entries[..])
      modifies this, entries
      ensures Value() == Modify(old(Value()), m) && i == FindRegister(old(entries[..]), m)
    {
      ghost var es := entries[..];
      i := Find(m);
      if entries[i].live && entries[i].mips != m {
        if entries[i].modified { WritebackRegister(i); }
        entries[i] := entries[i].(mips := m);
      } else if !entries[i].live {
        entries[i] := entries[i].(mips := m, live := true);
      }
      timestamp := timestamp + 1;
      entries[i] := entries[i].(sign := Unknown, timestamp := timestamp, locks := entries[i].locks + 1, modified := true);
      assert code == old(code) + ModifyOps(es, m);
      assert entries[..] == es[i := entries[i]];
    }

    method ImmediateMipsRegister(m: nat, value: Host64) returns (i: nat)
      requires m != 0 && FindRegister(entries[..], m) < entries.Length && NoDirtyZero(entries[..])
      modifies this, entries
      ensures i == FindRegister(old(entries[..]), m)
      ensures var c := Emit(Modify(old(Value()), m), Movi(i, value));
              Value() == c.(entries := c.entries[i := c.entries[i].(sign := SExt)])
    {
      i := ModifyMipsRegister(m);
      ghost var es := entries[..];
      code := code + [Movi(i, value)];
      entries[i] := entries[i].(sign := SExt);
      assert entries[..] == es[i := entries[i]];
    }

    method UnlockMipsRegister(m: nat)
      requires var i := FindLive(entries[..], m); i < entries.Length && entries[i].locks > 0
      modifies entries
      ensures Value() == Unlock(old(Value()), m)
    {
      var i := FindLiveMipsRegister(m);
      entries[i] := entries[i].(locks := entries[i].locks - 1);
      assert entries[..] == old(entries[..])[i := entries[i]];
    }

    /** Writes an entry back and frees it, if it is live. */
    method FlushEntry(i: nat)
      requires i < entries.Length && (entries[i].live ==> entries[i].locks == 0)
      requires entries[i].live && entries[i].modified ==> entries[i].mips != 0
      modifies this`code, entries
      ensures code == old(code) + Writeback(old(entries[i]), i)
      ensures forall k :: 0 <= k < entries.Length ==>
                entries[k] == if k == i && old(entries[k]).live then EMPTY else old(entries[k])
    {
      if entries[i].live {
        if entries[i].modified { WritebackRegister(i); }
        entries[i] := EMPTY;
      }
    }

    /** One round of a flush that started at `low` with the entries `es`. */
    method FlushNext(i: nat, ghost low: nat, ghost es: seq<Entry>)
      requires low <= i < entries.Length && NoDirtyZero(es) && Flushing(es, entries[..], low, i)
      requires es[i].live ==> es[i].locks == 0
      modifies this`code, entries
      ensures Flushing(es, entries[..], low, i + 1) && code == old(code) + Writeback(es[i], i)
    {
      assert entries[i] == entries[..][i] == es[i];
      FlushEntry(i);
    }

    method FlushLoop(low: nat, high: nat, ghost es: seq<Entry>, ghost which: nat -> bool)
      requires low <= high <= entries.Length && es == entries[..] && UnlockedBetween(es, low, high) && NoDirtyZero(es)
      requires forall k: nat :: low <= k < high ==> which(k)
      requires FlushOps(es, which, low) == []
      modifies this`code, entries
      ensures Flushing(es, entries[..], low, high) && code == old(code) + FlushOps(es, which, high)
    {
      for i := low to high
        invariant Flushing(es, entries[..], low, i) && code == old(code) + FlushOps(es, which, i)
      {
        FlushNext(i, low, es);
        NextFlushed(es, which, i, old(code));
      }
    }

    /** The entries from `low` to `high`: all of them for the window, the first JIT_R_NUM for the caller-save ones. */
    method FlushRange(low: nat, high: nat)
      requires low <= high <= entries.Length && UnlockedBetween(entries[..], low, high) && NoDirtyZero(entries[..])
      modifies this`code, entries
      ensures Value() == Flush(old(Value()), Between(low, high))
    {
      FlushNothing(entries[..], Between(low, high), low);
      FlushLoop(low, high, entries[..], Between(low, high));
      FlushedAll(old(Value()), low, high, entries[..]);
    }

    method FlushWindow()
      requires UnlockedBetween(entries[..], 0, entries.Length) && NoDirtyZero(entries[..])
      modifies this, entries
      ensures Value() == FlushRegisterWindow(old(Value()))
    {
      FlushRange(0, entries.Length);
      ghost var c := old(Value());
      SameSelection(c.entries, Between(0, entries.Length), _ => true, entries.Length);
      timestamp := 0;
    }

    method FlushMipsRegister(m: nat)
      requires var i := FindLive(entries[..], m); i < entries.Length ==> entries[i].locks == 0
      requires NoDirtyZero(entries[..])
      modifies this`code, entries
      ensures Value() == Flush(old(Value()), Holding(old(entries[..]), m))
    {
      ghost var es := entries[..];
      var i := FindLiveMipsRegister(m);
      HoldingFlushed(es, m, i);
      if i < entries.Length {
        FlushEntry(i);
        assert entries[..] == es[i := EMPTY];
      }
    }

    method Reset()
      modifies entries
      ensures forall k :: 0 <= k < entries.Length ==> entries[k] == EMPTY
    {
      for i := 0 to entries.Length
        invariant forall k :: 0 <= k < i ==> entries[k] == EMPTY
      {
        entries[i] := EMPTY;
      }
    }
  }

  lemma {:induction false} FlushNothing(es: seq<Entry>, which: nat -> bool, n: nat)
    requires n <= |es| && forall k: nat :: k < n ==> !which(k)
    ensures FreedEntries(es, which, n) == es && FlushOps(es, which, n) == []
  {
    if n > 0 { FlushNothing(es, which, n - 1); }
  }

  lemma NextFlushed(es: seq<Entry>, which: nat -> bool, n: nat, code: seq<HostOp>)
    requires n < |es| && which(n)
    ensures code + FlushOps(es, which, n + 1) == code + FlushOps(es, which, n) + Writeback(es[n], n)
  {
  }

  /** Flushing one register changes the entry it is in, if there is one. */
  lemma HoldingFlushed(es: seq<Entry>, m: nat, i: nat)
    requires i == FindLive(es, m)
    ensures var which := Holding(es, m);
            && FreedEntries(es, which, |es|) == (if i < |es| then es[i := EMPTY] else es)
            && FlushOps(es, which, |es|) == if i < |es| then Writeback(es[i], i) else []
  {
    var which := Holding(es, m);
    FlushNothing(es, which, i);
    if i < |es| {
      FlushRest(es, which, i + 1);
      assert FlushOps(es, which, i + 1) == FlushOps(es, which, i) + Writeback(es[i], i);
    }
  }

  /** The assertion in the flush loops: what is flushed is not locked. */
  predicate UnlockedBetween(es: seq<Entry>, low: nat, high: nat) {
    forall k :: low <= k < high && k < |es| && es[k].live ==> es[k].locks == 0
  }

  /** The live entries from `low` to `i` have been freed. */
  predicate Flushing(es: seq<Entry>, fs: seq<Entry>, low: nat, i: nat) {
    |es| == |fs| && forall k :: 0 <= k < |fs| ==> fs[k] == if low <= k < i && es[k].live then EMPTY else es[k]
  }

  lemma FlushedAll(c: Cache, low: nat, high: nat, fs: seq<Entry>)
    requires low <= high <= |c.entries| && Flushing(c.entries, fs, low, high)
    ensures Flush(c, Between(low, high))
            == c.(entries := fs, code := c.code + FlushOps(c.entries, Between(low, high), high))
  {
    FlushRest(c.entries, Between(low, high), high);
  }

  lemma {:induction false} FlushRest(es: seq<Entry>, which: nat -> bool, n: nat)
    requires n <= |es| && forall k: nat :: n <= k < |es| ==> !which(k)
    ensures FreedEntries(es, which, |es|) == FreedEntries(es, which, n)
    ensures FlushOps(es, which, |es|) == FlushOps(es, which, n)
    decreases |es| - n
  {
    if n < |es| { FlushRest(es, which, n + 1); }
  }

  lemma {:induction false} SameSelection(es: seq<Entry>, p: nat -> bool, q: nat -> bool, n: nat)
    requires n <= |es| && forall k: nat :: k < n ==> p(k) == q(k)
    ensures FreedEntries(es, p, n) == FreedEntries(es, q, n) && FlushOps(es, p, n) == FlushOps(es, q, n)
  {
    if n > 0 { SameSelection(es, p, q, n - 1); }
  }
}
