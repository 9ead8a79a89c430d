// Whole runs of the allocator: any sequence of malloc, free, realloc and payload writes on live pointers.

module HeapRuns {
  import opened Bits
  import opened Memory
  import opened HeapModel
  import opened HeapLemmas
  import opened HeapSteps
  import opened HeapEncoding
  import opened KernelHeap

  /** A client's request; Write is a client storing byte v at offset k of the payload at p. */
  datatype Request =
    | Allocate(size: nat)
    | Release(p: nat)
    | Resize(p: nat, size: nat)
    | Write(p: nat, k: nat, v: byte)

  /**
   * What the state of the list must allow: live pointers, writes inside the payload, and memory up to limit.
   * A pointer that is freed is live or idle; HeapRefrees.Careful says what a client must heed for that.
   */
  predicate Allowed(s: HeapState, r: Request, limit: nat) {
    match r
    case Allocate(n) => n < 0x1_0000_0000 && Malloc(s, n).curr <= limit
    case Release(p) => Listed(s, p) || (Stale(s, p) && HEADER <= p <= limit)
    case Resize(p, n) => Live(s, p) && n < 0x1_0000_0000 && Malloc(s, n).curr <= limit && p + n <= limit
    case Write(p, k, _) => Live(s, p) && k < PayloadSize(s, p)
  }

  function Step(s: HeapState, r: Request): HeapState {
    match r
    case Allocate(n) => Malloc(s, n)
    case Release(p) => if Listed(s, p) then Free(s, p) else s
    case Resize(p, n) => Realloc(s, p, n)
    case Write(_, _, _) => s
  }

  function Run(s: HeapState, rs: seq<Request>): HeapState
    decreases |rs|
  {
    if rs == [] then s else Run(Step(s, rs[0]), rs[1..])
  }

  predicate AllAllowed(s: HeapState, rs: seq<Request>, limit: nat)
    decreases |rs|
  {
    rs == [] || (Allowed(s, rs[0], limit) && AllAllowed(Step(s, rs[0]), rs[1..], limit))
  }

  /** r frees, moves or writes the payload at p. */
  predicate Touches(r: Request, p: nat) {
    match r
    case Allocate(_) => false
    case Release(q) => q == p
    case Resize(q, _) => q == p
    case Write(q, _, _) => q == p
  }

  // ---- the list over a run ----

  lemma StepInvariant(s: HeapState, base: nat, r: Request, limit: nat)
    requires Invariant(s, base) && Allowed(s, r, limit)
    ensures Invariant(Step(s, r), base)
  {
    match r
    case Allocate(n) => MallocInvariant(s, base, n);
    case Release(p) => if Listed(s, p) { FreeInvariant(s, base, p); }
    case Resize(p, n) =>
      MallocInvariant(s, base, n);
      ReallocBlocks(s, base, n, p);
      FreeInvariant(Malloc(s, n), base, p);
    case Write(_, _, _) =>
  }

  /**
   * In every state a run can reach from an empty heap the list is ascending with each block ending at or
   * below the next header and the last at or below curr_addr, no two free blocks are consecutive, and
   * curr_addr is the start of the heap plus four times the bytes on the list.
   */
  lemma {:induction false} RunInvariant(s: HeapState, base: nat, rs: seq<Request>, limit: nat)
    requires Invariant(s, base) && AllAllowed(s, rs, limit)
    ensures Invariant(Run(s, rs), base)
    decreases |rs|
  {
    if rs != [] {
      StepInvariant(s, base, rs[0], limit);
      RunInvariant(Step(s, rs[0]), base, rs[1..], limit);
    }
  }

  lemma RunFromEmpty(base: nat, rs: seq<Request>, limit: nat)
    requires AllAllowed(HeapState([], base), rs, limit)
    ensures
      var s := Run(HeapState([], base), rs);
      && Invariant(s, base)
      && s.curr == base + 4 * Total(s.blocks)
      && forall p: nat, q: nat | Live(s, p) && Live(s, q) && p != q ::
           p + PayloadSize(s, p) + HEADER <= q || q + PayloadSize(s, q) + HEADER <= p
  {
    RunInvariant(HeapState([], base), base, rs, limit);
    var s := Run(HeapState([], base), rs);
    forall p: nat, q: nat | Live(s, p) && Live(s, q) && p != q
      ensures p + PayloadSize(s, p) + HEADER <= q || q + PayloadSize(s, q) + HEADER <= p
    {
      LiveIsUsed(s, base, p);
      LiveIsUsed(s, base, q);
      UsedDisjoint(s.blocks, base, s.curr, s.blocks[IndexOf(s.blocks, p)], s.blocks[IndexOf(s.blocks, q)]);
    }
  }

  /** A request leaves every block it does not touch in use, with its address and size. */
  lemma StepKeepsUsed(s: HeapState, base: nat, r: Request, limit: nat, b: Block)
    requires Invariant(s, base) && Allowed(s, r, limit)
    requires b in Used(s.blocks) && !Touches(r, b.Payload())
    ensures b in Used(Step(s, r).blocks)
  {
    match r
    case Allocate(n) => MallocUsed(s, n);
    case Release(p) => if Listed(s, p) { FreeUsed(s, base, p); }
    case Resize(p, n) => ReallocBlocks(s, base, n, p);
    case Write(_, _, _) =>
  }

  // ---- the bytes over a run ----

  /** The payloads of us that no request of rs touches are the same in m and m'. */
  ghost predicate KeptByRun(m: seq<byte>, m': seq<byte>, us: seq<Block>, rs: seq<Request>) {
    forall b | b in us && (forall r | r in rs :: !Touches(r, b.Payload())) ::
      SameInside(m, m', b.Payload(), b.End())
  }

  /** The bytes that r itself moves or stores. */
  ghost predicate Performed(s: HeapState, r: Request, m: seq<byte>, m': seq<byte>) {
    match r
    case Resize(p, n) => Listed(s, p) && Arrived(m, p, m', MallocResult(s, n), Min(n, PayloadSize(s, p)))
    case Write(p, k, v) => p + k < |m| && m' == m[p + k := v]
    case Allocate(_) => true
    case Release(_) => true
  }

  /** What is known of a payload: the byte at an offset of a pointer. */
  type Known = map<(nat, nat), byte>

  /** What a client knows to be in its payloads after a request, from what it has written and where it was moved. */
  function Knowing(s: HeapState, known: Known, r: Request): Known {
    match r
    case Allocate(_) => known
    case Release(p) => map t | t in known && t.0 != p :: known[t]
    case Resize(p, n) =>
      (map t | t in known && t.0 != p :: known[t]) + Moved(known, p, MallocResult(s, n), n)
    case Write(p, k, v) => known[(p, k) := v]
  }

  /** What is known of the first n bytes at p, now at q. */
  function Moved(known: Known, p: nat, q: nat, n: nat): (r: Known)
    ensures forall k: nat | (p, k) in known && k < n :: (q, k) in r && r[(q, k)] == known[(p, k)]
    ensures forall t | t in r :: t.0 == q && (p, t.1) in known && t.1 < n
  {
    var r := map t | t in known && t.0 == p && t.1 < n :: (q, t.1) := known[t];
    assert forall k: nat | (p, k) in known && k < n :: (p, k).0 == p && (p, k).1 == k && (q, k) in r;
    r
  }

  function KnowingAll(s: HeapState, known: Known, rs: seq<Request>): Known
    decreases |rs|
  {
    if rs == [] then known else KnowingAll(Step(s, rs[0]), Knowing(s, known, rs[0]), rs[1..])
  }

  /** Every byte known belongs to a live payload, and is there. */
  ghost predicate Reads(s: HeapState, known: Known, m: seq<byte>) {
    forall t | t in known :: ByteIs(s, t.0, t.1, known[t], m)
  }

  ghost predicate ByteIs(s: HeapState, p: nat, k: nat, v: byte, m: seq<byte>) {
    Live(s, p) && k < PayloadSize(s, p) && p + k < |m| && m[p + k] == v
  }

  /** A byte of a payload that the request does not touch. */
  lemma ByteKept(s: HeapState, base: nat, r: Request, limit: nat, m: seq<byte>, m': seq<byte>, p: nat, k: nat, v: byte)
    requires Invariant(s, base) && Allowed(s, r, limit) && |m'| == |m| && KeptByRun(m, m', Used(s.blocks), [r])
    requires ByteIs(s, p, k, v, m) && !Touches(r, p)
    ensures ByteIs(Step(s, r), p, k, v, m')
  {
    var b := LiveBlock(s, base, p);
    StepInvariant(s, base, r, limit);
    StepKeepsUsed(s, base, r, limit, b);
    UsedIsLive(Step(s, r), base, b);
    hide Invariant, Allowed, Step, Used, Touches, Live, Listed, KeptByRun, PayloadSize;
    KeptInside(m, m', Used(s.blocks), r, b);
  }

  lemma LiveBlock(s: HeapState, base: nat, p: nat) returns (b: Block)
    requires Invariant(s, base) && Live(s, p)
    ensures b in Used(s.blocks) && b.Payload() == p && b.size == PayloadSize(s, p)
  {
    LiveIsUsed(s, base, p);
    b := s.blocks[IndexOf(s.blocks, p)];
  }

  lemma KeptInside(m: seq<byte>, m': seq<byte>, us: seq<Block>, r: Request, b: Block)
    requires KeptByRun(m, m', us, [r]) && b in us && !Touches(r, b.Payload())
    ensures SameInside(m, m', b.Payload(), b.End())
  {
    hide Touches;
  }

  lemma UsedIsLive(s: HeapState, base: nat, b: Block)
    requires Invariant(s, base) && b in Used(s.blocks)
    ensures Live(s, b.Payload()) && PayloadSize(s, b.Payload()) == b.size
  {
    LiveIsUsed(s, base, b.Payload());
    var c := s.blocks[IndexOf(s.blocks, b.Payload())];
    UsedDisjoint(s.blocks, base, s.curr, b, c);
  }

  /** A byte that a realloc moves. */
  lemma ByteMoved(
    s: HeapState, base: nat, p: nat, n: nat, limit: nat, m: seq<byte>, m': seq<byte>, k: nat, v: byte)
    requires Invariant(s, base) && Allowed(s, Resize(p, n), limit) && Performed(s, Resize(p, n), m, m')
    requires ByteIs(s, p, k, v, m) && k < n
    ensures ByteIs(Step(s, Resize(p, n)), MallocResult(s, n), k, v, m')
  {
    NewByteLive(s, base, p, n, limit, k);
    MovedTo(s, p, n, m, m', k);
    hide *;
    ByteAt(Step(s, Resize(p, n)), MallocResult(s, n), k, v, m');
  }

  lemma ByteAt(s: HeapState, p: nat, k: nat, v: byte, m: seq<byte>)
    requires Live(s, p) && k < PayloadSize(s, p) && p + k < |m| && m[p + k] == v
    ensures ByteIs(s, p, k, v, m)
  {
    hide Live, Listed, IndexOf;
  }

  /** The new payload has room for what is moved. */
  lemma NewByteLive(s: HeapState, base: nat, p: nat, n: nat, limit: nat, k: nat)
    requires Invariant(s, base) && Allowed(s, Resize(p, n), limit) && k < n
    ensures Live(Step(s, Resize(p, n)), MallocResult(s, n))
    ensures k < PayloadSize(Step(s, Resize(p, n)), MallocResult(s, n))
  {
    NewBlockUsed(s, base, p, n);
    StepInvariant(s, base, Resize(p, n), limit);
    UsedIsLive(Step(s, Resize(p, n)), base, MallocBlock(s, n));
    hide Invariant, Step, Used, Live, Listed, MallocBlock, MallocResult, Allowed, PayloadSize;
  }

  lemma MovedTo(s: HeapState, p: nat, n: nat, m: seq<byte>, m': seq<byte>, k: nat)
    requires Listed(s, p) && Performed(s, Resize(p, n), m, m') && k < n && k < PayloadSize(s, p)
    ensures p + k < |m| && MallocResult(s, n) + k < |m'| && m'[MallocResult(s, n) + k] == m[p + k]
  {
    var q, c := MallocResult(s, n), Min(n, PayloadSize(s, p));
    hide MallocResult, PayloadSize, Listed;
    assert m'[q..q + c][k] == m[p..p + c][k];
  }

  lemma NewBlockUsed(s: HeapState, base: nat, p: nat, n: nat)
    requires Invariant(s, base) && Live(s, p)
    ensures
      var b := MallocBlock(s, n);
      b in Used(Step(s, Resize(p, n)).blocks) && b.Payload() == MallocResult(s, n) && b.size >= n
  {
    ReallocBlocks(s, base, n, p);
    hide MallocBlock, MallocResult, Realloc, Used;
  }

  /** A byte of the payload that the client writes into. */
  lemma ByteWritten(
    s: HeapState, p: nat, k: nat, v: byte, limit: nat, m: seq<byte>, m': seq<byte>, j: nat, w: byte)
    requires Allowed(s, Write(p, k, v), limit) && Performed(s, Write(p, k, v), m, m')
    requires j == k || ByteIs(s, p, j, w, m)
    ensures ByteIs(s, p, j, if j == k then v else w, m')
  {
  }

  /** Every request keeps what is known true. */
  lemma KnowingStep(
    s: HeapState, base: nat, known: Known, r: Request, limit: nat, m: seq<byte>, m': seq<byte>)
    requires Invariant(s, base) && Allowed(s, r, limit) && |m'| == |m| && Reads(s, known, m)
    requires KeptByRun(m, m', Used(s.blocks), [r]) && Performed(s, r, m, m')
    ensures Reads(Step(s, r), Knowing(s, known, r), m')
  {
    var after := Knowing(s, known, r);
    forall t | t in after
      ensures ByteIs(Step(s, r), t.0, t.1, after[t], m')
    {
      KnownByte(s, base, known, r, limit, m, m', t);
    }
    hide ByteIs, Knowing, Step;
  }

  lemma KnowingMoved(s: HeapState, known: Known, p: nat, n: nat, k: nat)
    requires (p, k) in known && k < n
    ensures
      var t, after := (MallocResult(s, n), k), Knowing(s, known, Resize(p, n));
      t in after && after[t] == known[(p, k)]
  {
    hide MallocResult, Moved;
  }

  lemma KnownByte(
    s: HeapState, base: nat, known: Known, r: Request, limit: nat, m: seq<byte>, m': seq<byte>, t: (nat, nat))
    requires Invariant(s, base) && Allowed(s, r, limit) && |m'| == |m| && Reads(s, known, m)
    requires KeptByRun(m, m', Used(s.blocks), [r]) && Performed(s, r, m, m') && t in Knowing(s, known, r)
    ensures ByteIs(Step(s, r), t.0, t.1, Knowing(s, known, r)[t], m')
  {
    hide Invariant, Allowed, KeptByRun, Performed, ByteIs, MallocResult;
    match r
    case Allocate(_) =>
      ByteKept(s, base, r, limit, m, m', t.0, t.1, known[t]);
    case Release(p) =>
      ByteKept(s, base, r, limit, m, m', t.0, t.1, known[t]);
    case Resize(p, n) =>
      if t.0 == MallocResult(s, n) && (p, t.1) in known && t.1 < n {
        KnowingMoved(s, known, p, n, t.1);
        ByteMoved(s, base, p, n, limit, m, m', t.1, known[(p, t.1)]);
      } else {
        ByteKept(s, base, r, limit, m, m', t.0, t.1, known[t]);
      }
    case Write(p, k, v) =>
      if t.0 == p {
        ByteWritten(s, p, k, v, limit, m, m', t.1, if t.1 == k then v else known[t]);
      } else {
        ByteKept(s, base, r, limit, m, m', t.0, t.1, known[t]);
      }
  }

  /** One request, carried out by the allocator in its memory. */
  method Serve(h: Heap, r: Request)
    requires h.Valid() && Invariant(h.State(), h.base) && Allowed(h.State(), r, h.mem.Length)
    modifies h, h.mem
    ensures h.Valid()
    ensures h.State() == Step(old(h.State()), r)
    ensures KeptByRun(old(h.mem[..]), h.mem[..], old(Used(h.blocks)), [r])
    ensures Performed(old(h.State()), r, old(h.mem[..]), h.mem[..])
  {
    hide Encodes, Ordered, Used, Kept, KeptExcept, KeptByRun, Word, FirstFit, IndexOf, Free, Realloc, Arrived;
    ghost var s, m0 := h.State(), h.mem[..];
    match r
    case Allocate(n) =>
      var p := h.Malloc(n);
      ServedAll(m0, h.mem[..], Used(s.blocks), r);
    case Release(p) =>
      if Listed(s, p) {
        ListedHeader(m0, s, h.base, p);
      }
      MergedAlready(s, h.base);
      h.Free(p);
      FreedOnly(m0, h.mem[..], s, h.base, p);
    case Resize(p, n) =>
      var q := h.Realloc(p, n);
      TouchedOnly(m0, h.mem[..], Used(s.blocks), r, p);
    case Write(p, k, v) =>
      WriteByte(h, p, k, v);
      TouchedOnly(m0, h.mem[..], Used(s.blocks), r, p);
  }

  /** A client's own store into its payload. */
  method WriteByte(h: Heap, p: nat, k: nat, v: byte)
    requires h.Valid() && Live(h.State(), p) && k < PayloadSize(h.State(), p)
    modifies h.mem
    ensures h.Valid() && h.State() == old(h.State())
    ensures KeptExcept(old(h.mem[..]), h.mem[..], Used(h.blocks), p)
    ensures p + k < h.mem.Length && h.mem[..] == old(h.mem[..])[p + k := v]
  {
    hide Encodes, Ordered, Used, KeptExcept, IndexOf, Word;
    ghost var m0 := h.mem[..];
    ListedHeader(m0, h.State(), h.base, p);
    LiveIsUsed(h.State(), h.base, p);
    h.mem[p + k] := v;
    PayloadWrite(m0, h.mem[..], h.blocks, h.blocks[IndexOf(h.blocks, p)], h.base, h.curr);
  }

  lemma ServedAll(m: seq<byte>, m': seq<byte>, us: seq<Block>, r: Request)
    requires Kept(m, m', us)
    ensures KeptByRun(m, m', us, [r])
  {
  }

  lemma FreedOnly(m: seq<byte>, m': seq<byte>, s: HeapState, base: nat, p: nat)
    requires Ordered(s.blocks, base, s.curr) && Kept(m, m', Used(Step(s, Release(p)).blocks))
    ensures KeptByRun(m, m', Used(s.blocks), [Release(p)])
  {
    if Listed(s, p) {
      FreeUsed(s, base, p);
    }
    assert Release(p) in [Release(p)];
  }

  lemma MergedAlready(s: HeapState, base: nat)
    requires Invariant(s, base)
    ensures Merge(s.blocks) == s.blocks
  {
    MergeFixed(s.blocks);
  }

  lemma ListedHeader(m: seq<byte>, s: HeapState, base: nat, p: nat)
    requires Ordered(s.blocks, base, s.curr) && 0 < base && s.curr <= |m| && Encodes(m, s.blocks) && Listed(s, p)
    ensures HEADER <= p && p + PayloadSize(s, p) <= |m|
    ensures Word(m, p - HEADER) == MAGIC
  {
    HeaderWords(m, s.blocks, IndexOf(s.blocks, p), base, s.curr);
  }

  lemma TouchedOnly(m: seq<byte>, m': seq<byte>, us: seq<Block>, r: Request, p: nat)
    requires KeptExcept(m, m', us, p) && Touches(r, p)
    ensures KeptByRun(m, m', us, [r])
  {
    assert r in [r];
  }

  /**
   * A whole run in memory.  The state is the one the block-list model predicts, no split, merge, link, bump or
   * copy of the run changes a byte of a payload that the run does not itself free, move or write, and whatever
   * a client has written it reads back, also where its payload has been moved.
   */
  method Replay(h: Heap, rs: seq<Request>)
    requires h.Valid() && Invariant(h.State(), h.base) && AllAllowed(h.State(), rs, h.mem.Length)
    modifies h, h.mem
    ensures h.Valid() && Invariant(h.State(), h.base)
    ensures h.State() == Run(old(h.State()), rs)
    ensures KeptByRun(old(h.mem[..]), h.mem[..], old(Used(h.blocks)), rs)
    ensures forall known: Known | Reads(old(h.State()), known, old(h.mem[..])) ::
      Reads(h.State(), KnowingAll(old(h.State()), known, rs), h.mem[..])
    decreases |rs|
  {
    hide Reads, Knowing, Performed, KeptByRun, Allowed, Step, Invariant, Encodes, Ordered, Used;
    ghost var s, m0 := h.State(), h.mem[..];
    if rs != [] {
      StepInvariant(s, h.base, rs[0], h.mem.Length);
      Serve(h, rs[0]);
      ghost var m1 := h.mem[..];
      Replay(h, rs[1..]);
      RunThen(m0, m1, h.mem[..], s, h.base, rs, h.mem.Length);
      forall known: Known | Reads(s, known, m0)
        ensures Reads(h.State(), KnowingAll(s, known, rs), h.mem[..])
      {
        KnowingStep(s, h.base, known, rs[0], h.mem.Length, m0, m1);
      }
    } else {
      NothingDone(m0, Used(h.blocks));
    }
  }

  lemma NothingDone(m: seq<byte>, us: seq<Block>)
    ensures KeptByRun(m, m, us, [])
  {
  }

  lemma RunThen(
    m0: seq<byte>, m1: seq<byte>, m2: seq<byte>, s: HeapState, base: nat, rs: seq<Request>, limit: nat)
    requires rs != [] && |m0| == |m1| == |m2|
    requires Invariant(s, base) && Allowed(s, rs[0], limit)
    requires KeptByRun(m0, m1, Used(s.blocks), [rs[0]])
    requires KeptByRun(m1, m2, Used(Step(s, rs[0]).blocks), rs[1..])
    ensures KeptByRun(m0, m2, Used(s.blocks), rs)
  {
    forall b | b in Used(s.blocks) && forall r | r in rs :: !Touches(r, b.Payload())
      ensures SameInside(m0, m2, b.Payload(), b.End())
    {
      assert rs[0] in rs;
      StepKeepsUsed(s, base, rs[0], limit, b);
      assert forall r | r in rs[1..] :: r in rs;
      assert SameInside(m0, m1, b.Payload(), b.End());
      assert SameInside(m1, m2, b.Payload(), b.End());
    }
  }
}
