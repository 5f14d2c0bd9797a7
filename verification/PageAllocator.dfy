/**
  The allocator of executable and data pages (jit_allocator.cpp): two vectors of
  reserved address ranges, each carved up by a bump pointer.  Reserving a range
  and committing pages are the operating system's; their outcomes are inputs.
 */
module PageAllocator {
  import opened Arithmetic
  import opened Wrappers

  /** Page size, the number of addresses, and whether the address space is 64-bit. */
  datatype Host = Host(page: nat, limit: nat, huge: bool)

  function BlockSize(h: Host): nat { if h.huge then 0x4000_0000 else 0x20_0000 }

  /** A power-of-two page, so that masking with page - 1 is division, in an address space of 2^32 or 2^64. */
  predicate Sane(h: Host) {
    && PowerOfTwo(h.page) && h.page <= 0x20_0000
    && h.limit == if h.huge then 0x1_0000_0000_0000_0000 else 0x1_0000_0000
  }

  /** A null `code` is address 0. */
  datatype Block = Block(code: nat, size: nat, offset: nat)

  datatype Outcome = Aborted | Failed(blocks: seq<Block>) | Granted(blocks: seq<Block>, at: nat)

  /** The bits below a power of two cleared: the greatest multiple of `page` that is not above `x`. */
  function RoundDown(x: nat, page: nat): nat
    requires page > 0
  {
    if x < page then 0 else page + RoundDown(x - page, page)
  }

  lemma {:induction false} RoundDownExact(x: nat, page: nat)
    requires page > 0
    ensures RoundDown(x, page) % page == 0 && RoundDown(x, page) <= x < RoundDown(x, page) + page
  {
    if x >= page {
      RoundDownExact(x - page, page);
      ModShift(RoundDown(x - page, page), page, 1);
    } else {
      ModUnique(0, page, 0, 0);
    }
  }

  /** `align_page`, with the wrap of an unsigned sum. */
  function AlignPage(h: Host, x: nat): nat
    requires Sane(h)
  {
    RoundDown((x + h.page - 1) % h.limit, h.page)
  }

  function Reserved(h: Host, reservation: nat, n: nat): Block {
    Block(reservation, Max(n, BlockSize(h)), 0)
  }

  /** Bumps the last block; a failed commit still leaves it bumped. */
  function Bump(h: Host, blocks: seq<Block>, n: nat, commit: bool): Outcome
    requires Sane(h) && |blocks| > 0
  {
    var b := blocks[|blocks| - 1];
    var bumped := blocks[|blocks| - 1 := b.(offset := (b.offset + n) % h.limit)];
    if commit then Granted(bumped, (b.code + b.offset) % h.limit) else Failed(bumped)
  }

  /** `Allocator::allocate`, given what the system returns for a reservation and for the commit. */
  function Allocate(h: Host, blocks: seq<Block>, size: nat, reservation: nat, commit: bool): Outcome
    requires Sane(h)
  {
    var n := AlignPage(h, size);
    AllocateFrom(h, if blocks == [] then [Reserved(h, reservation, n)] else blocks, n, reservation, commit)
  }

  /** ... from the last block, or else from a new one. */
  function AllocateFrom(h: Host, blocks: seq<Block>, n: nat, reservation: nat, commit: bool): Outcome
    requires Sane(h) && |blocks| > 0
  {
    var b := blocks[|blocks| - 1];
    if b.code == 0 then Failed(blocks)
    else
      var aligned := blocks[|blocks| - 1 := b.(offset := AlignPage(h, b.offset))];
      if (AlignPage(h, b.offset) + n) % h.limit <= b.size then Bump(h, aligned, n, commit)
      else if h.huge then Aborted
      else if reservation == 0 then Failed(aligned + [Reserved(h, reservation, n)])
      else Bump(h, aligned + [Reserved(h, reservation, n)], n, commit)
  }

  // ---------------------------------------------------------------- runs

  /** A successful result: its pages, and the block they came from. */
  datatype Grant = Grant(at: nat, length: nat, code: bool, block: nat)

  datatype State = State(code: seq<Block>, data: seq<Block>, grants: seq<Grant>)

  function Vector(s: State, code: bool): seq<Block> { if code then s.code else s.data }

  function WithVector(s: State, code: bool, blocks: seq<Block>): State {
    if code then s.(code := blocks) else s.(data := blocks)
  }

  datatype Request = Request(code: bool, size: nat, reservation: nat, commit: bool)

  /** The state an outcome leads to; nothing follows an abort. */
  function Record(s: State, code: bool, n: nat, outcome: Outcome): Option<State> {
    match outcome
    case Aborted => None
    case Failed(blocks) => Some(WithVector(s, code, blocks))
    case Granted(blocks, at) =>
      Some(WithVector(s, code, blocks).(grants := s.grants + [Grant(at, n, code, Max(|blocks|, 1) - 1)]))
  }

  /** One `allocate_code` or `allocate_data`. */
  function Next(h: Host, s: State, q: Request): Option<State>
    requires Sane(h)
  {
    Record(s, q.code, AlignPage(h, q.size), Allocate(h, Vector(s, q.code), q.size, q.reservation, q.commit))
  }

  predicate Apart(a: nat, m: nat, b: nat, n: nat) { a + m <= b || b + n <= a }

  /** A reservation is refused or is a fresh, page-aligned range. */
  predicate Fresh(h: Host, s: State, at: nat, n: nat)
    requires Sane(h)
  {
    at == 0 ||
    (&& at % h.page == 0 && at + n < h.limit
     && forall w, i :: 0 <= i < |Vector(s, w)| && Vector(s, w)[i].code != 0 ==>
          Apart(at, n, Vector(s, w)[i].code, Vector(s, w)[i].size))
  }

  /** What a caller can check: neither rounding the size up nor adding it to the bump pointer wraps. */
  predicate NoWrap(h: Host, blocks: seq<Block>, size: nat)
    requires Sane(h)
  {
    && size + h.page <= h.limit
    && (|blocks| > 0 && blocks[|blocks| - 1].code != 0 ==>
          blocks[|blocks| - 1].offset + AlignPage(h, size) < h.limit)
  }

  predicate Admissible(h: Host, s: State, q: Request)
    requires Sane(h)
  {
    NoWrap(h, Vector(s, q.code), q.size) && Fresh(h, s, q.reservation, Max(AlignPage(h, q.size), BlockSize(h)))
  }

  function Run(h: Host, s: State, requests: seq<Request>): Option<State>
    requires Sane(h)
    decreases |requests|
  {
    if |requests| == 0 then Some(s)
    else if !Admissible(h, s, requests[0]) then None
    else
      match Next(h, s, requests[0])
      case None => None
      case Some(t) => Run(h, t, requests[1..])
  }

  const EMPTY := State([], [], [])

  // ---------------------------------------------------------------- invariant

  predicate BlockOk(h: Host, b: Block)
    requires Sane(h)
  {
    b.offset <= b.size && b.offset % h.page == 0
    && (b.code != 0 ==> b.code % h.page == 0 && b.code + b.size < h.limit)
  }

  predicate BlocksOk(h: Host, s: State)
    requires Sane(h)
  {
    && (forall w, i :: 0 <= i < |Vector(s, w)| ==> BlockOk(h, Vector(s, w)[i]))
    && (forall w, i, v, j :: 0 <= i < |Vector(s, w)| && 0 <= j < |Vector(s, v)| && (w != v || i != j) ==>
          BlocksApart(Vector(s, w)[i], Vector(s, v)[j]))
  }

  predicate BlocksApart(a: Block, b: Block) { a.code != 0 && b.code != 0 ==> Apart(a.code, a.size, b.code, b.size) }

  /** A grant is page-aligned and lies below the bump pointer of its block. */
  predicate GrantOk(h: Host, s: State, g: Grant)
    requires Sane(h)
  {
    && g.block < |Vector(s, g.code)|
    && var b := Vector(s, g.code)[g.block];
       g.at % h.page == 0 && b.code != 0 && b.code <= g.at && g.at + g.length <= b.code + b.offset
  }

  predicate Inv(h: Host, s: State)
    requires Sane(h)
  {
    BlocksOk(h, s) && GrantsOk(h, s) && GrantsApart(s)
  }

  predicate GrantsOk(h: Host, s: State)
    requires Sane(h)
  {
    forall k :: 0 <= k < |s.grants| ==> GrantOk(h, s, s.grants[k])
  }

  /** Successful results do not overlap. */
  predicate GrantsApart(s: State) {
    forall k, l :: 0 <= k < l < |s.grants| ==>
      Apart(s.grants[k].at, s.grants[k].length, s.grants[l].at, s.grants[l].length)
  }

  lemma AlignExact(h: Host, x: nat)
    requires Sane(h) && x + h.page <= h.limit
    ensures AlignPage(h, x) % h.page == 0 && x <= AlignPage(h, x) < x + h.page
    ensures x % h.page == 0 ==> AlignPage(h, x) == x
  {
    var y := x + h.page - 1;
    ModUnique(y, h.limit, 0, y);
    RoundDownExact(y, h.page);
    if x % h.page == 0 { SamePage(x, AlignPage(h, x), h.page); }
  }

  lemma SamePage(x: nat, y: nat, page: nat)
    requires page > 0 && x % page == 0 && y % page == 0 && x <= y < x + page
    ensures x == y
  {
    DivMod(x, page);
    DivMod(y, page);
    if y / page > x / page { MulGap(y / page, x / page, page); }
    if x / page > y / page { MulGap(x / page, y / page, page); }
  }

  function Pushed(s: State, code: bool, b: Block): State { WithVector(s, code, Vector(s, code) + [b]) }

  lemma PushedAt(s: State, code: bool, b: Block, w: bool, i: nat)
    requires i < |Vector(Pushed(s, code, b), w)|
    ensures i < |Vector(s, w)| ==> Vector(Pushed(s, code, b), w)[i] == Vector(s, w)[i]
    ensures i >= |Vector(s, w)| ==> w == code && i == |Vector(s, w)| && Vector(Pushed(s, code, b), w)[i] == b
  {
  }

  lemma PushKeepsBlocks(h: Host, s: State, code: bool, b: Block)
    requires Sane(h) && BlocksOk(h, s) && BlockOk(h, b) && Fresh(h, s, b.code, b.size)
    ensures BlocksOk(h, Pushed(s, code, b))
  {
    var t := Pushed(s, code, b);
    forall w, i | 0 <= i < |Vector(t, w)| ensures BlockOk(h, Vector(t, w)[i]) {
      PushedAt(s, code, b, w, i);
    }
    forall w, i, v, j | 0 <= i < |Vector(t, w)| && 0 <= j < |Vector(t, v)| && (w != v || i != j)
      ensures BlocksApart(Vector(t, w)[i], Vector(t, v)[j])
    {
      PushedAt(s, code, b, w, i);
      PushedAt(s, code, b, v, j);
    }
  }

  /** Reserving a fresh range keeps everything. */
  lemma PushKeeps(h: Host, s: State, code: bool, b: Block)
    requires Sane(h) && Inv(h, s) && BlockOk(h, b) && Fresh(h, s, b.code, b.size)
    ensures Inv(h, Pushed(s, code, b))
  {
    var t := Pushed(s, code, b);
    PushKeepsBlocks(h, s, code, b);
    forall k | 0 <= k < |t.grants| ensures GrantOk(h, t, t.grants[k]) {
      var g := s.grants[k];
      assert GrantOk(h, s, g);
      assert g.block < |Vector(t, g.code)|;
      PushedAt(s, code, b, g.code, g.block);
    }
  }

  function LastOf(s: State, code: bool): Block
    requires |Vector(s, code)| > 0
  {
    Vector(s, code)[|Vector(s, code)| - 1]
  }

  /** The state after the last block of a vector has been bumped by `n`. */
  function Bumped(s: State, code: bool, n: nat): State
    requires |Vector(s, code)| > 0
  {
    var v := Vector(s, code);
    WithVector(s, code, v[|v| - 1 := LastOf(s, code).(offset := LastOf(s, code).offset + n)])
  }

  lemma BumpedAt(s: State, code: bool, n: nat, w: bool, i: nat)
    requires |Vector(s, code)| > 0 && i < |Vector(s, w)|
    ensures |Vector(Bumped(s, code, n), w)| == |Vector(s, w)|
    ensures var b, c := Vector(s, w)[i], Vector(Bumped(s, code, n), w)[i];
            c == b.(offset := if w == code && i == |Vector(s, w)| - 1 then b.offset + n else b.offset)
  {
  }

  predicate Room(h: Host, s: State, code: bool, n: nat)
    requires Sane(h)
  {
    && |Vector(s, code)| > 0 && n % h.page == 0
    && LastOf(s, code).code != 0 && LastOf(s, code).offset + n <= LastOf(s, code).size
  }

  lemma BumpKeepsBlocks(h: Host, s: State, code: bool, n: nat)
    requires Sane(h) && BlocksOk(h, s) && Room(h, s, code, n)
    ensures BlocksOk(h, Bumped(s, code, n))
  {
    var t := Bumped(s, code, n);
    forall w, i | 0 <= i < |Vector(t, w)| ensures BlockOk(h, Vector(t, w)[i]) {
      BumpedAt(s, code, n, w, i);
      SumAligned(h, LastOf(s, code).offset, n);
    }
    forall w, i, v, j | 0 <= i < |Vector(t, w)| && 0 <= j < |Vector(t, v)| && (w != v || i != j)
      ensures BlocksApart(Vector(t, w)[i], Vector(t, v)[j])
    {
      BumpedAt(s, code, n, w, i);
      BumpedAt(s, code, n, v, j);
      assert BlocksApart(Vector(s, w)[i], Vector(s, v)[j]);
    }
  }

  lemma SumAligned(h: Host, x: nat, y: nat)
    requires Sane(h) && x % h.page == 0 && y % h.page == 0
    ensures (x + y) % h.page == 0
  {
    DivMod(x, h.page);
    DivMod(y, h.page);
    var a, b := x / h.page, y / h.page;
    assert x + y == (a + b) * h.page;
    ModUnique(x + y, h.page, a + b, 0);
  }

  lemma BumpKeepsGrants(h: Host, s: State, code: bool, n: nat)
    requires Sane(h) && GrantsOk(h, s) && |Vector(s, code)| > 0
    ensures GrantsOk(h, Bumped(s, code, n))
  {
    var t := Bumped(s, code, n);
    forall k | 0 <= k < |t.grants| ensures GrantOk(h, t, t.grants[k]) {
      var g := s.grants[k];
      assert GrantOk(h, s, g);
      BumpedAt(s, code, n, g.code, g.block);
    }
  }

  /** The pages about to be handed out. */
  function NewGrant(s: State, code: bool, n: nat): Grant
    requires |Vector(s, code)| > 0
  {
    Grant(LastOf(s, code).code + LastOf(s, code).offset, n, code, |Vector(s, code)| - 1)
  }

  lemma NewGrantOk(h: Host, s: State, code: bool, n: nat)
    requires Sane(h) && BlocksOk(h, s) && Room(h, s, code, n)
    ensures GrantOk(h, Bumped(s, code, n), NewGrant(s, code, n))
  {
    var last: nat := |Vector(s, code)| - 1;
    BumpedAt(s, code, n, code, last);
    assert BlockOk(h, Vector(s, code)[last]);
    SumAligned(h, LastOf(s, code).code, LastOf(s, code).offset);
  }

  /** They overlap nothing handed out before: below the pointer in the same block, or in a block elsewhere. */
  lemma NewGrantApart(h: Host, s: State, code: bool, n: nat, g: Grant)
    requires Sane(h) && BlocksOk(h, s) && Room(h, s, code, n) && GrantOk(h, s, g)
    ensures var e := NewGrant(s, code, n); Apart(g.at, g.length, e.at, e.length)
  {
    var last: nat := |Vector(s, code)| - 1;
    assert BlockOk(h, Vector(s, g.code)[g.block]);
    if g.code != code || g.block != last {
      assert BlocksApart(Vector(s, g.code)[g.block], Vector(s, code)[last]);
    }
  }

  /** Bumping, whether or not the commit succeeds. */
  lemma BumpKeeps(h: Host, s: State, code: bool, n: nat, commit: bool)
    requires Sane(h) && Inv(h, s) && Room(h, s, code, n)
    ensures var t := Bumped(s, code, n);
            Inv(h, if commit then t.(grants := s.grants + [NewGrant(s, code, n)]) else t)
  {
    var t, e := Bumped(s, code, n), NewGrant(s, code, n);
    BumpKeepsBlocks(h, s, code, n);
    BumpKeepsGrants(h, s, code, n);
    NewGrantOk(h, s, code, n);
    AddGrant(h, s, t, e, code, n);
  }

  lemma AddGrant(h: Host, s: State, t: State, e: Grant, code: bool, n: nat)
    requires Sane(h) && Inv(h, s) && Room(h, s, code, n) && e == NewGrant(s, code, n)
    requires BlocksOk(h, t) && GrantsOk(h, t) && GrantOk(h, t, e) && t.grants == s.grants
    ensures Inv(h, t.(grants := s.grants + [e]))
  {
    var u := t.(grants := s.grants + [e]);
    SameVectors(h, t, u);
    forall k | 0 <= k < |s.grants| ensures GrantOk(h, t, s.grants[k]) && Apart(s.grants[k].at, s.grants[k].length, e.at, e.length) {
      assert GrantOk(h, t, t.grants[k]);
      NewGrantApart(h, s, code, n, s.grants[k]);
    }
  }

  lemma SameVectors(h: Host, t: State, u: State)
    requires Sane(h) && t.code == u.code && t.data == u.data && BlocksOk(h, t)
    ensures BlocksOk(h, u) && forall g :: GrantOk(h, t, g) ==> GrantOk(h, u, g)
  {
    assert forall w :: Vector(t, w) == Vector(u, w);
  }

  // ---------------------------------------------------------------- every call keeps the invariant

  lemma ReservedOk(h: Host, s: State, q: Request)
    requires Sane(h) && Admissible(h, s, q)
    ensures var b := Reserved(h, q.reservation, AlignPage(h, q.size));
            BlockOk(h, b) && Fresh(h, s, b.code, b.size) && AlignPage(h, q.size) <= b.size
  {
    AlignExact(h, q.size);
    ModUnique(0, h.page, 0, 0);
  }

  /** The state the bump of the last block leads to. */
  function AfterBump(h: Host, s: State, code: bool, n: nat, commit: bool): State
    requires |Vector(s, code)| > 0
  {
    var t := Bumped(s, code, n);
    if commit then t.(grants := s.grants + [NewGrant(s, code, n)]) else t
  }

  lemma BumpExact(h: Host, s: State, code: bool, n: nat, commit: bool)
    requires Sane(h) && BlocksOk(h, s) && Room(h, s, code, n)
    ensures var t, b := AfterBump(h, s, code, n, commit), LastOf(s, code);
            Bump(h, Vector(s, code), n, commit)
            == if commit then Granted(Vector(t, code), b.code + b.offset) else Failed(Vector(t, code))
  {
    var b := LastOf(s, code);
    assert BlockOk(h, Vector(s, code)[|Vector(s, code)| - 1]);
    ModUnique(b.offset + n, h.limit, 0, b.offset + n);
    ModUnique(b.code + b.offset, h.limit, 0, b.code + b.offset);
  }

  /** With a usable last block: alignment is already there and the comparison does not wrap. */
  lemma LastBlockFacts(h: Host, s: State, code: bool, size: nat)
    requires Sane(h) && BlocksOk(h, s) && |Vector(s, code)| > 0 && NoWrap(h, Vector(s, code), size)
    ensures AlignPage(h, size) % h.page == 0
    ensures var b, n := LastOf(s, code), AlignPage(h, size);
            b.code != 0 ==> AlignPage(h, b.offset) == b.offset && (b.offset + n) % h.limit == b.offset + n
  {
    var b, n := LastOf(s, code), AlignPage(h, size);
    assert BlockOk(h, Vector(s, code)[|Vector(s, code)| - 1]);
    AlignExact(h, size);
    if b.code != 0 {
      AtLeastAPage(b.code, h.page);
      AlignExact(h, b.offset);
      ModUnique(b.offset + n, h.limit, 0, b.offset + n);
    }
  }

  lemma AtLeastAPage(at: nat, page: nat)
    requires page > 0 && at > 0 && at % page == 0
    ensures at >= page
  {
    if at < page { ModUnique(at, page, 0, at); }
  }

  /** `allocate` on a vector that has a block. */
  function Rest(h: Host, s: State, q: Request): Option<State>
    requires Sane(h) && |Vector(s, q.code)| > 0
  {
    var n, b := AlignPage(h, q.size), LastOf(s, q.code);
    if b.code == 0 then Some(s)
    else if b.offset + n <= b.size then Some(AfterBump(h, s, q.code, n, q.commit))
    else if h.huge then None
    else
      var t := Pushed(s, q.code, Reserved(h, q.reservation, n));
      Some(if q.reservation == 0 then t else AfterBump(h, t, q.code, n, q.commit))
  }

  /** `AllocateFrom` once alignment and comparison are known to be exact. */
  lemma FromExact(h: Host, v: seq<Block>, n: nat, reservation: nat, commit: bool)
    requires Sane(h) && |v| > 0
    requires var b := v[|v| - 1];
             b.code != 0 ==> AlignPage(h, b.offset) == b.offset && (b.offset + n) % h.limit == b.offset + n
    ensures var b, r := v[|v| - 1], Reserved(h, reservation, n);
            AllocateFrom(h, v, n, reservation, commit)
            == if b.code == 0 then Failed(v)
               else if b.offset + n <= b.size then Bump(h, v, n, commit)
               else if h.huge then Aborted
               else if reservation == 0 then Failed(v + [r])
               else Bump(h, v + [r], n, commit)
  {
    var b := v[|v| - 1];
    if b.code != 0 { assert v[|v| - 1 := b.(offset := AlignPage(h, b.offset))] == v; }
  }

  /** Recording a bump of the last block of `r`, which differs from `s` only in one vector. */
  lemma RecordBump(h: Host, s: State, r: State, code: bool, n: nat, commit: bool)
    requires Sane(h) && BlocksOk(h, r) && Room(h, r, code, n)
    requires r.grants == s.grants && Vector(r, !code) == Vector(s, !code)
    ensures Record(s, code, n, Bump(h, Vector(r, code), n, commit)) == Some(AfterBump(h, r, code, n, commit))
  {
    BumpExact(h, r, code, n, commit);
  }

  lemma RestExact(h: Host, s: State, q: Request)
    requires Sane(h) && Inv(h, s) && Admissible(h, s, q) && |Vector(s, q.code)| > 0
    ensures Next(h, s, q) == Rest(h, s, q)
  {
    var n, b, v := AlignPage(h, q.size), LastOf(s, q.code), Vector(s, q.code);
    LastBlockFacts(h, s, q.code, q.size);
    FromExact(h, v, n, q.reservation, q.commit);
    if b.code != 0 && b.offset + n <= b.size {
      RecordBump(h, s, s, q.code, n, q.commit);
    } else if b.code != 0 && !h.huge && q.reservation != 0 {
      PushThenBump(h, s, q);
    }
  }

  lemma PushThenBump(h: Host, s: State, q: Request)
    requires Sane(h) && BlocksOk(h, s) && Admissible(h, s, q) && q.reservation != 0
    ensures var n := AlignPage(h, q.size);
            var r := Pushed(s, q.code, Reserved(h, q.reservation, n));
            && Room(h, r, q.code, n)
            && Record(s, q.code, n, Bump(h, Vector(r, q.code), n, q.commit)) == Some(AfterBump(h, r, q.code, n, q.commit))
  {
    var n := AlignPage(h, q.size);
    var r := Pushed(s, q.code, Reserved(h, q.reservation, n));
    ReservedOk(h, s, q);
    AlignExact(h, q.size);
    PushKeepsBlocks(h, s, q.code, Reserved(h, q.reservation, n));
    RecordBump(h, s, r, q.code, n, q.commit);
  }

  lemma RestKeeps(h: Host, s: State, q: Request)
    requires Sane(h) && Inv(h, s) && Admissible(h, s, q) && |Vector(s, q.code)| > 0
    ensures Rest(h, s, q).Some? ==> Inv(h, Rest(h, s, q).value)
  {
    var n, b := AlignPage(h, q.size), LastOf(s, q.code);
    LastBlockFacts(h, s, q.code, q.size);
    if b.code != 0 {
      if b.offset + n <= b.size {
        BumpKeeps(h, s, q.code, n, q.commit);
      } else {
        ReservedOk(h, s, q);
        PushKeeps(h, s, q.code, Reserved(h, q.reservation, n));
        if q.reservation != 0 {
          BumpKeeps(h, Pushed(s, q.code, Reserved(h, q.reservation, n)), q.code, n, q.commit);
        }
      }
    }
  }

  /** `allocate` on an empty vector. */
  lemma FirstExact(h: Host, s: State, q: Request)
    requires Sane(h) && BlocksOk(h, s) && Admissible(h, s, q) && Vector(s, q.code) == []
    ensures var n := AlignPage(h, q.size);
            var r := Pushed(s, q.code, Reserved(h, q.reservation, n));
            Next(h, s, q) == Some(if q.reservation == 0 then r else AfterBump(h, r, q.code, n, q.commit))
  {
    var n := AlignPage(h, q.size);
    var b := Reserved(h, q.reservation, n);
    var r := Pushed(s, q.code, b);
    FirstFacts(h, s, q, n, b, r);
    FromExact(h, [b], n, q.reservation, q.commit);
    if q.reservation != 0 { PushThenBump(h, s, q); }
  }

  lemma FirstFacts(h: Host, s: State, q: Request, n: nat, b: Block, r: State)
    requires Sane(h) && BlocksOk(h, s) && Admissible(h, s, q) && Vector(s, q.code) == []
    requires n == AlignPage(h, q.size) && b == Reserved(h, q.reservation, n) && r == Pushed(s, q.code, b)
    ensures Vector(r, q.code) == [b]
    ensures b.code != 0 ==> AlignPage(h, b.offset) == b.offset && (b.offset + n) % h.limit == b.offset + n
  {
    ReservedOk(h, s, q);
    PushKeepsBlocks(h, s, q.code, b);
    LastBlockFacts(h, r, q.code, q.size);
  }

  lemma FirstKeeps(h: Host, s: State, q: Request)
    requires Sane(h) && Inv(h, s) && Admissible(h, s, q)
    ensures var n := AlignPage(h, q.size);
            var r := Pushed(s, q.code, Reserved(h, q.reservation, n));
            Inv(h, if q.reservation == 0 then r else AfterBump(h, r, q.code, n, q.commit))
  {
    var n := AlignPage(h, q.size);
    ReservedOk(h, s, q);
    PushKeeps(h, s, q.code, Reserved(h, q.reservation, n));
    if q.reservation != 0 {
      PushThenBump(h, s, q);
      BumpKeeps(h, Pushed(s, q.code, Reserved(h, q.reservation, n)), q.code, n, q.commit);
    }
  }

  lemma NextKeeps(h: Host, s: State, q: Request)
    requires Sane(h) && Inv(h, s) && Admissible(h, s, q)
    ensures Next(h, s, q).Some? ==> Inv(h, Next(h, s, q).value)
  {
    if Vector(s, q.code) == [] {
      FirstExact(h, s, q);
      FirstKeeps(h, s, q);
    } else {
      RestExact(h, s, q);
      RestKeeps(h, s, q);
    }
  }

  lemma {:induction false} RunKeeps(h: Host, s: State, requests: seq<Request>)
    requires Sane(h) && Inv(h, s) && Run(h, s, requests).Some?
    ensures Inv(h, Run(h, s, requests).value)
    decreases |requests|
  {
    if |requests| > 0 {
      NextKeeps(h, s, requests[0]);
      RunKeeps(h, Next(h, s, requests[0]).value, requests[1..]);
    }
  }

  /**
    Over any sequence of code and data allocations that starts empty: successful
    results are page-aligned, lie inside one reserved block and do not overlap.
   */
  lemma ResultsDisjoint(h: Host, requests: seq<Request>, k: nat, l: nat)
    requires Sane(h) && Run(h, EMPTY, requests).Some?
    requires k < |Run(h, EMPTY, requests).value.grants| && l < |Run(h, EMPTY, requests).value.grants|
    ensures var s := Run(h, EMPTY, requests).value;
            var g, e := s.grants[k], s.grants[l];
            && (k != l ==> Apart(g.at, g.length, e.at, e.length))
            && g.at % h.page == 0 && g.block < |Vector(s, g.code)|
            && var b := Vector(s, g.code)[g.block]; b.code <= g.at && g.at + g.length <= b.code + b.size
  {
    RunKeeps(h, EMPTY, requests);
    var s := Run(h, EMPTY, requests).value;
    assert GrantOk(h, s, s.grants[k]);
    assert BlockOk(h, Vector(s, s.grants[k].code)[s.grants[k].block]);
  }

  /** A result has room for what was asked, and exactly then: rounding up must not wrap. */
  lemma CoversExactly(h: Host, size: nat)
    requires Sane(h) && size < h.limit
    ensures AlignPage(h, size) >= size <==> size + h.page <= h.limit
  {
    if size + h.page <= h.limit {
      AlignExact(h, size);
    } else {
      ModUnique(size + h.page - 1, h.limit, 1, size + h.page - 1 - h.limit);
      RoundDownExact(size + h.page - 1 - h.limit, h.page);
    }
  }

  /** A piece cut from the last block lies inside it exactly when the bump does not wrap. */
  lemma InsideExactly(h: Host, b: Block, n: nat)
    requires Sane(h) && BlockOk(h, b) && b.code != 0 && (b.offset + n) % h.limit <= b.size
    ensures b.offset + n <= b.size <==> b.offset + n < h.limit
  {
    if b.offset + n < h.limit { ModUnique(b.offset + n, h.limit, 0, b.offset + n); }
  }

  /** The last reservation of this vector was refused. */
  predicate Refused(s: State, code: bool) { |Vector(s, code)| > 0 && LastOf(s, code).code == 0 }

  /** The vector is as it was, no earlier grant has changed, and no later one is from it. */
  predicate Untouched(s: State, t: State, code: bool) {
    && Vector(t, code) == Vector(s, code) && |s.grants| <= |t.grants| && t.grants[..|s.grants|] == s.grants
    && forall k :: |s.grants| <= k < |t.grants| ==> t.grants[k].code != code
  }

  lemma RefusedNext(h: Host, s: State, q: Request, code: bool)
    requires Sane(h) && Refused(s, code) && Next(h, s, q).Some?
    ensures Untouched(s, Next(h, s, q).value, code)
  {
  }

  lemma UntouchedTwice(s: State, mid: State, t: State, code: bool)
    requires Untouched(s, mid, code) && Untouched(mid, t, code)
    ensures Untouched(s, t, code)
  {
    assert t.grants[..|mid.grants|][..|s.grants|] == t.grants[..|s.grants|];
    forall k | |s.grants| <= k < |t.grants| ensures t.grants[k].code != code {
      if k < |mid.grants| { assert t.grants[k] == t.grants[..|mid.grants|][k]; }
    }
  }

  /** After a refused reservation a vector never changes and never yields anything again, whatever is asked of either. */
  lemma {:induction false} RefusalIsFinal(h: Host, s: State, requests: seq<Request>, code: bool)
    requires Sane(h) && Refused(s, code) && Run(h, s, requests).Some?
    ensures Untouched(s, Run(h, s, requests).value, code)
    decreases |requests|
  {
    if |requests| > 0 {
      var mid := Next(h, s, requests[0]).value;
      RefusedNext(h, s, requests[0], code);
      RefusalIsFinal(h, mid, requests[1..], code);
      UntouchedTwice(s, mid, Run(h, mid, requests[1..]).value, code);
    }
  }

  const HOST64 := Host(4096, 0x1_0000_0000_0000_0000, true)

  lemma Host64Sane()
    ensures Sane(HOST64)
  {
    assert PowerOfTwo(1) && PowerOfTwo(2) && PowerOfTwo(4) && PowerOfTwo(8) && PowerOfTwo(16) && PowerOfTwo(32);
    assert PowerOfTwo(64) && PowerOfTwo(128) && PowerOfTwo(256) && PowerOfTwo(512) && PowerOfTwo(1024);
    assert PowerOfTwo(2048) && PowerOfTwo(4096);
  }

  function Gigabyte(base: nat, offset: nat): seq<Block> { [Block(base, 0x4000_0000, offset)] }

  lemma FirstPage(base: nat, offset: nat)
    requires 0 < base < 0x1000_0000_0000 && offset == 0
    ensures Sane(HOST64)
    ensures Allocate(HOST64, [], 4096, base, true) == Granted(Gigabyte(base, 4096), base)
    ensures Allocate(HOST64, Gigabyte(base, offset), 4096, 0, true) == Granted(Gigabyte(base, 4096), base)
  {
    Host64Sane();
    AlignExact(HOST64, 4096);
    AlignExact(HOST64, 0);
  }

  lemma WrappedPages(base: nat)
    requires 0 < base < 0x1000_0000_0000
    ensures Sane(HOST64)
    ensures Allocate(HOST64, Gigabyte(base, 4096), 0xffff_ffff_ffff_f000, 0, true)
            == Granted(Gigabyte(base, 0), base + 4096)
  {
    Host64Sane();
    AlignExact(HOST64, 4096);
    AlignExact(HOST64, 0xffff_ffff_ffff_f000);
  }

  /** A request close to the whole address space wraps the bump pointer back, and the first page is handed out twice. */
  lemma WrappedRequestOverlaps(base: nat)
    requires 0 < base < 0x1000_0000_0000
    ensures Sane(HOST64)
    ensures var a := Allocate(HOST64, [], 4096, base, true);
            && a.Granted? && a.at == base
            && var b := Allocate(HOST64, a.blocks, 0xffff_ffff_ffff_f000, 0, true);
               && b.Granted?
               && var c := Allocate(HOST64, b.blocks, 4096, 0, true); c.Granted? && c.at == base
  {
    FirstPage(base, 0);
    WrappedPages(base);
  }

  // ---------------------------------------------------------------- how much a reservation serves

  /** The pages that requests of these sizes take together. */
  function Pages(h: Host, sizes: seq<nat>): nat
    requires Sane(h)
  {
    if |sizes| == 0 then 0 else Pages(h, sizes[..|sizes| - 1]) + AlignPage(h, sizes[|sizes| - 1])
  }

  /** Requests of these sizes on an empty vector, one after the other, when the system refuses nothing. */
  function Serve(h: Host, sizes: seq<nat>, base: nat): Outcome
    requires Sane(h) && |sizes| > 0
  {
    var size := sizes[|sizes| - 1];
    if |sizes| == 1 then Allocate(h, [], size, base, true)
    else
      match Serve(h, sizes[..|sizes| - 1], base)
      case Granted(blocks, _) => Allocate(h, blocks, size, base, true)
      case other => other
  }

  /** The bytes of one reservation: 1 GB where addresses have 64 bits, 2 MB elsewhere. */
  function Capacity(h: Host): nat { if h.huge then 1024 * 1024 * 1024 else 2 * 1024 * 1024 }

  /** A request on a block with some of its pages taken. */
  lemma ServesOne(h: Host, base: nat, used: nat, size: nat)
    requires Sane(h) && base > 0 && used <= Capacity(h) && used % h.page == 0
    requires base + Capacity(h) < h.limit && size + h.page + Capacity(h) < h.limit
    ensures var n, o := AlignPage(h, size), Allocate(h, [Block(base, Capacity(h), used)], size, base, true);
            && (used + n <= Capacity(h) ==> o == Granted([Block(base, Capacity(h), used + n)], base + used))
            && (used + n > Capacity(h) && h.huge ==> o.Aborted?)
            && (used + n > Capacity(h) && !h.huge ==> o.Granted? && |o.blocks| == 2 && o.at == base)
  {
    AlignExact(h, size);
    AlignExact(h, used);
    ServesPages(h, [Block(base, Capacity(h), used)], base, used, AlignPage(h, size));
  }

  lemma ServesPages(h: Host, v: seq<Block>, base: nat, used: nat, n: nat)
    requires Sane(h) && base > 0 && base + Capacity(h) < h.limit && used <= Capacity(h) && n + Capacity(h) < h.limit
    requires v == [Block(base, Capacity(h), used)] && AlignPage(h, used) == used
    ensures var o := AllocateFrom(h, v, n, base, true);
            && (used + n <= Capacity(h) ==> o == Granted([Block(base, Capacity(h), used + n)], base + used))
            && (used + n > Capacity(h) && h.huge ==> o.Aborted?)
            && (used + n > Capacity(h) && !h.huge ==> o.Granted? && |o.blocks| == 2 && o.at == base)
  {
    ModUnique(used + n, h.limit, 0, used + n);
    FromExact(h, v, n, base, true);
    if used + n <= Capacity(h) {
      ModUnique(base + used, h.limit, 0, base + used);
      assert v[0 := Block(base, Capacity(h), used + n)] == [Block(base, Capacity(h), used + n)];
    } else {
      ModUnique(base, h.limit, 0, base);
    }
  }

  /**
    Requests are served back to back from one reservation as long as their pages
    fit together; the first that does not fit aborts where addresses have 64 bits
    and opens a second block elsewhere.
   */
  lemma {:induction false} ServesExactly(h: Host, sizes: seq<nat>, base: nat)
    requires Sane(h) && |sizes| > 0 && base > 0 && base + Capacity(h) < h.limit
    requires forall i :: 0 <= i < |sizes| ==> sizes[i] + h.page + Capacity(h) < h.limit
    requires AlignPage(h, sizes[0]) <= Capacity(h) && Pages(h, sizes[..|sizes| - 1]) <= Capacity(h)
    ensures var o, taken := Serve(h, sizes, base), Pages(h, sizes[..|sizes| - 1]);
            && (Pages(h, sizes) <= Capacity(h) ==> o == Granted([Block(base, Capacity(h), Pages(h, sizes))], base + taken))
            && (Pages(h, sizes) > Capacity(h) && h.huge ==> o.Aborted?)
            && (Pages(h, sizes) > Capacity(h) && !h.huge ==> o.Granted? && |o.blocks| == 2)
    decreases |sizes|
  {
    var size, before := sizes[|sizes| - 1], sizes[..|sizes| - 1];
    if |sizes| == 1 {
      FirstServed(h, size, base);
      assert Pages(h, before) == 0;
    } else {
      PagesAligned(h, before);
      AlignExact(h, before[|before| - 1]);
      ServesExactly(h, before, base);
      ServesOne(h, base, Pages(h, before), size);
    }
  }

  lemma FirstServed(h: Host, size: nat, base: nat)
    requires Sane(h) && base > 0 && base + Capacity(h) < h.limit
    requires size + h.page + Capacity(h) < h.limit && AlignPage(h, size) <= Capacity(h)
    ensures Allocate(h, [], size, base, true) == Granted([Block(base, Capacity(h), AlignPage(h, size))], base)
  {
    ModUnique(0, h.page, 0, 0);
    ServesOne(h, base, 0, size);
  }

  lemma {:induction false} PagesAligned(h: Host, sizes: seq<nat>)
    requires Sane(h) && forall i :: 0 <= i < |sizes| ==> sizes[i] + h.page + Capacity(h) < h.limit
    ensures Pages(h, sizes) % h.page == 0
  {
    if |sizes| > 0 {
      PagesAligned(h, sizes[..|sizes| - 1]);
      AlignExact(h, sizes[|sizes| - 1]);
      SumAligned(h, Pages(h, sizes[..|sizes| - 1]), AlignPage(h, sizes[|sizes| - 1]));
    } else {
      ModUnique(0, h.page, 0, 0);
    }
  }

  // ---------------------------------------------------------------- the allocator as it is mutated

  class Allocator {
    var codeBlocks: seq<Block>
    var dataBlocks: seq<Block>

    constructor ()
      ensures codeBlocks == [] && dataBlocks == []
    {
      codeBlocks, dataBlocks := [], [];
    }

    ghost function Blocks(code: bool): seq<Block>
      reads this
    {
      if code then codeBlocks else dataBlocks
    }

    method SetBlocks(code: bool, blocks: seq<Block>)
      modifies this
      ensures Blocks(code) == blocks && Blocks(!code) == old(Blocks(!code))
    {
      if code { codeBlocks := blocks; } else { dataBlocks := blocks; }
    }

    /** `allocate_code` and `allocate_data`; `at` is 0 for a null result. */
    method AllocatePages(h: Host, code: bool, size: nat, reservation: nat, commit: bool) returns (at: nat, aborted: bool)
      requires Sane(h)
      modifies this
      ensures Blocks(!code) == old(Blocks(!code))
      ensures match Allocate(h, old(Blocks(code)), size, reservation, commit)
              case Aborted => aborted
              case Failed(blocks) => !aborted && at == 0 && Blocks(code) == blocks
              case Granted(blocks, result) => !aborted && at == result && Blocks(code) == blocks
    {
      var n := AlignPage(h, size);
      var blocks := if code then codeBlocks else dataBlocks;
      if blocks == [] { blocks := [Reserved(h, reservation, n)]; }
      at, aborted, blocks := CutPages(h, blocks, n, reservation, commit);
      if !aborted { SetBlocks(code, blocks); }
    }
  }

  /** The part of `allocate` that works on a vector with a block in it. */
  method CutPages(h: Host, before: seq<Block>, n: nat, reservation: nat, commit: bool)
    returns (at: nat, aborted: bool, blocks: seq<Block>)
    requires Sane(h) && |before| > 0
    ensures match AllocateFrom(h, before, n, reservation, commit)
            case Aborted => aborted
            case Failed(bs) => !aborted && at == 0 && blocks == bs
            case Granted(bs, result) => !aborted && at == result && blocks == bs
  {
    at, aborted, blocks := 0, false, before;
    var last := |blocks| - 1;
    if blocks[last].code == 0 { return; }
    blocks := blocks[last := blocks[last].(offset := AlignPage(h, blocks[last].offset))];
    if (blocks[last].offset + n) % h.limit > blocks[last].size {
      if h.huge {
        aborted := true;
        return;
      }
      blocks := blocks + [Reserved(h, reservation, n)];
      last := last + 1;
      if blocks[last].code == 0 { return; }
    }
    if commit { at := (blocks[last].code + blocks[last].offset) % h.limit; }
    blocks := blocks[last := blocks[last].(offset := (blocks[last].offset + n) % h.limit)];
  }
}
