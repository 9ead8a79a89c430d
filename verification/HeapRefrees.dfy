// Freeing a pointer more than once: free tests only the magic number, so whether a repeated free does harm
// depends on what has come to lie over the old header since.

module HeapRefrees {
  import opened Bits
  import opened Memory
  import opened HeapModel
  import opened HeapLemmas
  import opened HeapSteps
  import opened HeapEncoding
  import opened HeapRuns
  import opened KernelHeap

  // ---- idle pointers, seen in the list ----

  /** The freed word in front of p lies neither in b's header nor, if b is used, in its payload. */
  predicate Apart(b: Block, p: nat) {
    p <= b.addr + 4 || (if b.free then b.Payload() else b.End()) + 8 <= p
  }

  ghost predicate FreeAt(bs: seq<Block>, p: nat) {
    exists b :: b in bs && b.free && b.Payload() == p
  }

  ghost predicate AllApart(bs: seq<Block>, p: nat) {
    bs != [] && forall b | b in bs :: Apart(b, p)
  }

  lemma IdleIs(s: HeapState, lo: nat, p: nat)
    requires Ordered(s.blocks, lo, s.curr)
    ensures Idle(s, p) <==> FreeAt(s.blocks, p) || AllApart(s.blocks, p)
  {
    var bs, i := s.blocks, IndexOf(s.blocks, p);
    if i < |bs| {
      assert bs[i] in bs && !Apart(bs[i], p);
      forall b | b in bs && b.Payload() == p
        ensures b == bs[i]
      {
        var j :| 0 <= j < |bs| && bs[j] == b;
        IndexOfBlock(bs, j, lo, s.curr);
      }
    } else {
      assert forall b | b in bs :: b.Payload() != p;
      forall k: nat | k < |bs|
        ensures bs[k] in bs
      {
      }
      assert Stale(s, p) <==> bs != [] && forall k: nat | k < |bs| :: Apart(bs[k], p);
    }
  }

  /** Blocks of the list do not overlap. */
  lemma BlocksApart(bs: seq<Block>, lo: nat, hi: nat, b: Block, c: Block)
    requires Ordered(bs, lo, hi) && b in bs && c in bs
    ensures b == c || b.End() <= c.addr || c.End() <= b.addr
  {
    var i :| 0 <= i < |bs| && bs[i] == b;
    var j :| 0 <= j < |bs| && bs[j] == c;
  }

  /** A free block at p settles it: the others lie apart. */
  lemma FreeAtIsApart(bs: seq<Block>, lo: nat, hi: nat, b: Block, p: nat)
    requires Ordered(bs, lo, hi) && FreeAt(bs, p) && b in bs
    ensures (b.free && b.Payload() == p) || Apart(b, p)
  {
    var c :| c in bs && c.free && c.Payload() == p;
    BlocksApart(bs, lo, hi, b, c);
  }

  // ---- malloc ----

  /** The request is served by cutting a block in two. */
  predicate Splits(s: HeapState, size: nat) {
    var i := FirstFit(s.blocks, size);
    i < |s.blocks| && s.blocks[i].size > size + HEADER
  }

  /**
   * The block that a request for size bytes hands out, and the header of the remainder if there is one, lie
   * apart from the freed word in front of p; a remainder whose header is p's own does no harm either.
   */
  predicate Clear(s: HeapState, size: nat, p: nat) {
    var b := MallocBlock(s, size);
    p <= b.addr + 4 ||
    if Splits(s, size) then b.End() + HEADER + 8 <= p || p == b.End() + HEADER else b.End() + 8 <= p
  }

  /** The members of the list after malloc: the block found, if any, has been replaced by its pieces. */
  lemma MallocMembers(s: HeapState, lo: nat, size: nat, b: Block)
    requires Ordered(s.blocks, lo, s.curr)
    ensures
      var bs, i := s.blocks, FirstFit(s.blocks, size);
      b in Malloc(s, size).blocks <==>
        if i < |bs| then b in Pieces(bs[i], size) || (b in bs && b != bs[i]) else b in bs || b == MallocBlock(s, size)
  {
    var bs, i := s.blocks, FirstFit(s.blocks, size);
    if i < |bs| {
      TakeShape(bs, i, size);
      SplitAt(bs, i);
      assert forall j: nat | j < |bs| && j != i :: bs[j] != bs[i];
      hide Take, FirstFit, Pieces, Ordered;
    }
  }

  /** The block handed out, and the remainder behind it if the request splits a block. */
  lemma MallocPieces(s: HeapState, size: nat)
    ensures
      var bs, i, n := s.blocks, FirstFit(s.blocks, size), MallocBlock(s, size);
      && !n.free && n in Malloc(s, size).blocks && (i == |bs| ==> n.addr == s.curr)
      && (i < |bs| ==>
            && bs[i].free && n.addr == bs[i].addr && n.End() <= bs[i].End()
            && if Splits(s, size) then
                 n.End() + HEADER < bs[i].End() &&
                 Pieces(bs[i], size) == [n, Block(n.End(), bs[i].End() - n.End() - HEADER, true)]
               else
                 Pieces(bs[i], size) == [n])
  {
    var bs, i := s.blocks, FirstFit(s.blocks, size);
    if i < |bs| {
      TakeShape(bs, i, size);
      assert Pieces(bs[i], size)[0] in Pieces(bs[i], size);
    }
  }

  /** p's own block is listed as free: it stays so unless the request takes it. */
  lemma FreeAtMalloc(s: HeapState, base: nat, size: nat, p: nat)
    requires Ordered(s.blocks, base, s.curr) && FreeAt(s.blocks, p)
    ensures
      var t := Malloc(s, size);
      FreeAt(t.blocks, p) || AllApart(t.blocks, p) <==> Clear(s, size, p)
  {
    var bs, i, n, t := s.blocks, FirstFit(s.blocks, size), MallocBlock(s, size), Malloc(s, size);
    var c :| c in bs && c.free && c.Payload() == p;
    MallocPieces(s, size);
    MallocMembers(s, base, size, c);
    InList(bs, c, base, s.curr);
    hide Malloc, MallocBlock, FirstFit, Pieces, Splits, Ordered;
    if i < |bs| && c == bs[i] {
      forall b | b in t.blocks && b.free
        ensures b.Payload() != p
      {
        MallocMembers(s, base, size, b);
        if b in bs {
          BlocksApart(bs, base, s.curr, b, c);
        }
      }
      assert !Apart(n, p);
    } else if i < |bs| {
      BlocksApart(bs, base, s.curr, c, bs[i]);
    }
  }

  lemma InList(bs: seq<Block>, b: Block, lo: nat, hi: nat)
    requires Ordered(bs, lo, hi) && b in bs
    ensures lo <= b.addr && b.End() <= hi
  {
  }

  /** p is stale: it stays so, or becomes the payload of the remainder, if the pieces let it. */
  lemma ApartMalloc(s: HeapState, base: nat, size: nat, p: nat)
    requires Ordered(s.blocks, base, s.curr) && AllApart(s.blocks, p)
    ensures
      var t := Malloc(s, size);
      FreeAt(t.blocks, p) || AllApart(t.blocks, p) <==> Clear(s, size, p)
  {
    var bs, i, n, t := s.blocks, FirstFit(s.blocks, size), MallocBlock(s, size), Malloc(s, size);
    MallocPieces(s, size);
    forall b | b in t.blocks
      ensures b in bs || b == n || (Splits(s, size) && b.addr == n.End() && b.free)
    {
      MallocMembers(s, base, size, b);
    }
    if Splits(s, size) {
      var r := Pieces(bs[i], size)[1];
      assert r in Pieces(bs[i], size);
      MallocMembers(s, base, size, r);
    }
    hide Malloc, MallocBlock, FirstFit, Pieces, Splits, Ordered;
  }

  /** An idle pointer stays idle over a malloc exactly if the request is clear of it. */
  lemma MallocIdle(s: HeapState, base: nat, size: nat, p: nat)
    requires Invariant(s, base) && Idle(s, p)
    ensures Idle(Malloc(s, size), p) <==> Clear(s, size, p)
  {
    var t := Malloc(s, size);
    MallocInvariant(s, base, size);
    IdleIs(s, base, p);
    IdleIs(t, base, p);
    hide Idle, Malloc, Total, NoAdjacentFree, Ordered;
    if FreeAt(s.blocks, p) {
      FreeAtMalloc(s, base, size, p);
    } else {
      ApartMalloc(s, base, size, p);
    }
  }

  // ---- free ----

  /** Marking a block free leaves an idle pointer idle. */
  lemma MarkIdle(bs: seq<Block>, i: nat, p: nat)
    requires i < |bs| && (FreeAt(bs, p) || AllApart(bs, p))
    ensures
      var bs' := bs[i := bs[i].(free := true)];
      FreeAt(bs', p) || AllApart(bs', p)
  {
    var bs' := bs[i := bs[i].(free := true)];
    if FreeAt(bs, p) {
      var c :| c in bs && c.free && c.Payload() == p;
      var j :| 0 <= j < |bs| && bs[j] == c;
      assert bs'[j] in bs' && bs'[j].free;
    } else {
      forall b | b in bs'
        ensures Apart(b, p)
      {
        var j :| 0 <= j < |bs'| && bs'[j] == b;
        assert Apart(bs[j], p);
      }
    }
  }

  /** Merging leaves an idle pointer idle: its block stays a head, or is swallowed. */
  lemma MergeIdle(bs: seq<Block>, lo: nat, hi: nat, p: nat)
    requires Ordered(bs, lo, hi) && (FreeAt(bs, p) || AllApart(bs, p))
    ensures FreeAt(Merge(bs), p) || AllApart(Merge(bs), p)
  {
    var m := Merge(bs);
    assert bs != [] && m != [];
    hide Merge, Ordered;
    if !FreeAt(m, p) {
      forall b | b in m
        ensures Apart(b, p)
      {
        var j := MergedFrom(bs, b);
        assert bs[j] in bs;
        if FreeAt(bs, p) {
          FreeAtIsApart(bs, lo, hi, bs[j], p);
          assert bs[j].free && bs[j].Payload() == p ==> b.free;
        }
      }
    }
  }

  /** A free leaves idle what was idle, and the pointer freed is idle after it. */
  lemma FreeIdle(s: HeapState, base: nat, q: nat, p: nat)
    requires Invariant(s, base) && Listed(s, q) && (Idle(s, p) || p == q)
    ensures Idle(Free(s, q), p)
  {
    var bs, i, t := s.blocks, IndexOf(s.blocks, q), Free(s, q);
    var bs' := bs[i := bs[i].(free := true)];
    FreeInvariant(s, base, q);
    IdleIs(s, base, p);
    IdleIs(t, base, p);
    OrderedRewrite(bs, i, bs[i].(free := true), base, s.curr);
    hide Merge, Idle, Ordered, Total, NoAdjacentFree;
    if p == q {
      assert bs'[i] in bs';
    } else {
      MarkIdle(bs, i, p);
    }
    MergeIdle(bs', base, s.curr, p);
  }

  // ---- realloc ----

  /** A block behind a used one starts a block of the merged list. */
  lemma HeadStays(bs: seq<Block>, j: nat) returns (b: Block)
    requires 0 < j < |bs| && !bs[j - 1].free
    ensures b in Merge(bs) && b.addr == bs[j].addr
  {
    MergeConcat(bs[..j], bs[j..]);
    MergeEnds(bs[j..]);
    assert bs[..j] + bs[j..] == bs;
    b := Merge(bs[j..])[0];
    assert b in Merge(bs[..j]) + Merge(bs[j..]);
  }

  /** One block that is not apart from p, and is not p's own, is enough. */
  lemma Blocked(s: HeapState, lo: nat, b: Block, p: nat)
    requires Ordered(s.blocks, lo, s.curr) && b in s.blocks
    requires b.addr + 4 < p && p < (if b.free then b.Payload() else b.End()) + 8
    requires b.free ==> b.Payload() != p
    ensures !Idle(s, p)
  {
    IdleIs(s, lo, p);
    hide Idle, Ordered;
    if FreeAt(s.blocks, p) {
      FreeAtIsApart(s.blocks, lo, s.curr, b, p);
    }
  }

  /** The remainder of a split is still the start of a block once the old block has been freed. */
  lemma RemainderStays(s: HeapState, base: nat, q: nat, size: nat) returns (b: Block)
    requires Invariant(s, base) && Live(s, q) && Splits(s, size)
    ensures Listed(Malloc(s, size), q)
    ensures b in Free(Malloc(s, size), q).blocks && b.addr == MallocBlock(s, size).End()
  {
    OldIndex(s, base, q, size);
    SplitPlaces(s, size);
    hide *;
    FreedMerge(Malloc(s, size), q);
    var t, k := Malloc(s, size), IndexOf(Malloc(s, size).blocks, q);
    b := HeadStays(t.blocks[k := t.blocks[k].(free := true)], FirstFit(s.blocks, size) + 1);
  }

  lemma FreedMerge(t: HeapState, q: nat)
    requires Listed(t, q)
    ensures IndexOf(t.blocks, q) < |t.blocks|
    ensures
      var k := IndexOf(t.blocks, q);
      Free(t, q).blocks == Merge(t.blocks[k := t.blocks[k].(free := true)])
  {
    hide Merge;
  }

  lemma OldIndex(s: HeapState, base: nat, q: nat, size: nat)
    requires Invariant(s, base) && Live(s, q) && Splits(s, size)
    ensures Listed(Malloc(s, size), q) && IndexOf(Malloc(s, size).blocks, q) != FirstFit(s.blocks, size)
  {
    ReallocBlocks(s, base, size, q);
    SplitPlaces(s, size);
    hide Malloc, MallocBlock, FirstFit, Merge, Ordered, Splits, Used, Realloc;
  }

  lemma SplitPlaces(s: HeapState, size: nat)
    requires Splits(s, size)
    ensures
      var i, n, t := FirstFit(s.blocks, size), MallocBlock(s, size), Malloc(s, size);
      i + 1 < |t.blocks| && t.blocks[i] == n && !n.free && t.blocks[i + 1].addr == n.End()
  {
    hide FirstFit;
  }

  /** An idle pointer stays idle over a realloc of another exactly if the new block is clear of it. */
  lemma ReallocIdle(s: HeapState, base: nat, q: nat, size: nat, p: nat)
    requires Invariant(s, base) && Live(s, q) && Idle(s, p)
    ensures Idle(Realloc(s, q, size), p) <==> Clear(s, size, p)
  {
    var n, t := MallocBlock(s, size), Malloc(s, size);
    MallocInvariant(s, base, size);
    ReallocBlocks(s, base, size, q);
    FreeInvariant(t, base, q);
    var u := Free(t, q);
    assert u == Realloc(s, q, size) && Ordered(u.blocks, base, u.curr);
    UsedMember(u.blocks, n);
    hide Idle, Malloc, MallocBlock, Free, Realloc, Ordered, Splits, Used, Total, NoAdjacentFree;
    if Clear(s, size, p) {
      MallocIdle(s, base, size, p);
      FreeIdle(t, base, q, p);
    } else if p < n.End() + 8 {
      Blocked(u, base, n, p);
    } else {
      var r := RemainderStays(s, base, q, size);
      Blocked(u, base, r, p);
    }
  }

  // ---- runs ----

  /** The memory that r hands out is clear of p. */
  predicate Spares(s: HeapState, r: Request, p: nat) {
    match r
    case Allocate(n) => Clear(s, n, p)
    case Resize(_, n) => Clear(s, n, p)
    case Release(_) => true
    case Write(_, _, _) => true
  }

  /** An idle pointer stays idle over a request exactly if the request spares it. */
  lemma StepIdle(s: HeapState, base: nat, r: Request, limit: nat, p: nat)
    requires Invariant(s, base) && Allowed(s, r, limit) && Idle(s, p)
    ensures Idle(Step(s, r), p) <==> Spares(s, r, p)
  {
    hide Idle, Stale, Malloc, Free, Realloc, Clear, Invariant;
    match r
    case Allocate(n) => MallocIdle(s, base, n, p);
    case Release(q) => if Listed(s, q) { FreeIdle(s, base, q, p); }
    case Resize(q, n) => ReallocIdle(s, base, q, n, p);
    case Write(_, _, _) =>
  }

  /** The state after the first k requests. */
  function After(s: HeapState, rs: seq<Request>, k: nat): HeapState
    requires k <= |rs|
  {
    Run(s, rs[..k])
  }

  lemma AfterFirst(s: HeapState, rs: seq<Request>, k: nat)
    requires 0 < k <= |rs|
    ensures After(s, rs, k) == After(Step(s, rs[0]), rs[1..], k - 1)
    ensures After(s, rs, 0) == s
  {
    assert rs[..k][0] == rs[0] && rs[..k][1..] == rs[1..][..k - 1];
  }

  /**
   * Over a whole run, a pointer that is idle at first may be freed again after every request exactly if no
   * request hands out memory that is not clear of it.
   */
  lemma {:induction false} RunIdle(s: HeapState, base: nat, rs: seq<Request>, limit: nat, p: nat)
    requires Invariant(s, base) && AllAllowed(s, rs, limit) && Idle(s, p)
    ensures
      (forall k: nat | k <= |rs| :: Idle(After(s, rs, k), p)) <==>
      (forall k: nat | k < |rs| :: Spares(After(s, rs, k), rs[k], p))
    decreases |rs|
  {
    hide Idle, Spares, Invariant, Allowed, Step;
    assert After(s, rs, 0) == s by {
      assert rs[..0] == [];
    }
    if rs != [] {
      StepInvariant(s, base, rs[0], limit);
      StepIdle(s, base, rs[0], limit, p);
      var t, rest := Step(s, rs[0]), rs[1..];
      hide After;
      forall k: nat | 0 < k <= |rs|
        ensures After(s, rs, k) == After(t, rest, k - 1)
      {
        AfterFirst(s, rs, k);
      }
      assert After(s, rs, 1) == After(t, rest, 0) == t by {
        AfterNone(t, rest);
      }
      if Idle(t, p) {
        RunIdle(t, base, rest, limit, p);
        RunShift(s, t, rs, p);
      }
    }
  }

  lemma AfterNone(s: HeapState, rs: seq<Request>)
    ensures After(s, rs, 0) == s
  {
    assert rs[..0] == [];
  }

  lemma RunShift(s: HeapState, t: HeapState, rs: seq<Request>, p: nat)
    requires rs != [] && forall k: nat | 0 < k <= |rs| :: After(s, rs, k) == After(t, rs[1..], k - 1)
    requires After(s, rs, 0) == s && Idle(s, p) && Spares(s, rs[0], p)
    ensures
      (forall k: nat | k <= |rs| :: Idle(After(s, rs, k), p)) <==>
      (forall k: nat | k < |rs| :: Idle(After(t, rs[1..], k), p))
    ensures
      (forall k: nat | k < |rs| :: Spares(After(s, rs, k), rs[k], p)) <==>
      (forall k: nat | k < |rs| - 1 :: Spares(After(t, rs[1..], k), rs[1..][k], p))
  {
    hide Idle, Spares, After;
    if forall k: nat | k <= |rs| :: Idle(After(s, rs, k), p) {
      forall k: nat | k < |rs|
        ensures Idle(After(t, rs[1..], k), p)
      {
        assert After(s, rs, k + 1) == After(t, rs[1..], k);
      }
    }
    if forall k: nat | k < |rs| :: Spares(After(s, rs, k), rs[k], p) {
      forall k: nat | k < |rs| - 1
        ensures Spares(After(t, rs[1..], k), rs[1..][k], p)
      {
        assert After(s, rs, k + 1) == After(t, rs[1..], k) && rs[k + 1] == rs[1..][k];
      }
    }
  }

  // ---- what a client can keep track of ----

  /** The pointers that have been freed and spared since: the requests made so far determine them. */
  function Remembered(s: HeapState, freed: set<nat>, r: Request): set<nat> {
    match r
    case Allocate(n) => set p | p in freed && Clear(s, n, p)
    case Release(p) => freed + {p}
    case Resize(q, n) => (set p | p in freed && Clear(s, n, p)) + {q}
    case Write(_, _, _) => freed
  }

  /** Every pointer freed is live, or has been freed and spared since. */
  predicate Careful(s: HeapState, freed: set<nat>, rs: seq<Request>, limit: nat)
    decreases |rs|
  {
    rs == [] ||
    (&& (rs[0].Release? ==> Live(s, rs[0].p) || rs[0].p in freed)
     && (!rs[0].Release? ==> Allowed(s, rs[0], limit))
     && Careful(Step(s, rs[0]), Remembered(s, freed, rs[0]), rs[1..], limit))
  }

  ghost predicate AllIdle(s: HeapState, freed: set<nat>) {
    forall p | p in freed :: Idle(s, p) && HEADER <= p <= s.curr
  }

  lemma RememberedIdle(s: HeapState, base: nat, freed: set<nat>, r: Request, limit: nat)
    requires Invariant(s, base) && AllIdle(s, freed) && Allowed(s, r, limit) && s.curr <= limit
    requires r.Release? ==> Live(s, r.p) || r.p in freed
    ensures AllIdle(Step(s, r), Remembered(s, freed, r)) && Step(s, r).curr <= limit
  {
    CurrGrows(s, base, r, limit);
    hide Step, Invariant, Idle, Clear, Allowed, Remembered, Live;
    forall p | p in Remembered(s, freed, r)
      ensures Idle(Step(s, r), p) && HEADER <= p <= s.curr
    {
      RememberedPointer(s, freed, r, limit, p);
      if p in freed && Spares(s, r, p) {
        StepIdle(s, base, r, limit, p);
      } else {
        FreedIdle(s, base, r, limit, p);
      }
    }
  }

  lemma RememberedPointer(s: HeapState, freed: set<nat>, r: Request, limit: nat, p: nat)
    requires p in Remembered(s, freed, r) && Allowed(s, r, limit) && (r.Release? ==> Live(s, r.p) || r.p in freed)
    ensures (p in freed && Spares(s, r, p)) || (Live(s, p) && (r == Release(p) || (r.Resize? && r.p == p)))
  {
    hide Clear, Malloc, Live, Listed, Stale;
  }

  lemma CurrGrows(s: HeapState, base: nat, r: Request, limit: nat)
    requires Invariant(s, base) && Allowed(s, r, limit) && s.curr <= limit
    ensures s.curr <= Step(s, r).curr <= limit
  {
    hide Take, Merge, FirstFit, IndexOf;
  }

  /** The pointer that a request frees is idle after it. */
  lemma FreedIdle(s: HeapState, base: nat, r: Request, limit: nat, p: nat)
    requires Invariant(s, base) && Allowed(s, r, limit) && Live(s, p)
    requires r == Release(p) || (r.Resize? && r.p == p)
    ensures Idle(Step(s, r), p) && HEADER <= p <= s.curr
  {
    var i := IndexOf(s.blocks, p);
    OrderedAt(s.blocks, i, base, s.curr);
    if r.Resize? {
      MallocInvariant(s, base, r.size);
      ReallocBlocks(s, base, r.size, p);
    }
    hide Malloc, Free, Idle, Invariant;
    if r.Release? {
      FreeIdle(s, base, p, p);
    } else {
      FreeIdle(Malloc(s, r.size), base, p, p);
    }
  }

  /** A client that frees only what is live, or was freed and has been spared since, does what is allowed. */
  lemma {:induction false} CarefulIsAllowed(
    s: HeapState, base: nat, freed: set<nat>, rs: seq<Request>, limit: nat)
    requires Invariant(s, base) && AllIdle(s, freed) && s.curr <= limit && Careful(s, freed, rs, limit)
    ensures AllAllowed(s, rs, limit)
    decreases |rs|
  {
    if rs != [] {
      assert Allowed(s, rs[0], limit);
      hide Idle, Step, Allowed, Remembered;
      StepInvariant(s, base, rs[0], limit);
      RememberedIdle(s, base, freed, rs[0], limit);
      CarefulIsAllowed(Step(s, rs[0]), base, Remembered(s, freed, rs[0]), rs[1..], limit);
    }
  }

  /** A whole run of such a client in memory; freed is empty for an allocator that has just been set up. */
  method ReplayCareful(h: Heap, ghost freed: set<nat>, rs: seq<Request>)
    requires h.Valid() && Invariant(h.State(), h.base) && AllIdle(h.State(), freed)
    requires Careful(h.State(), freed, rs, h.mem.Length)
    modifies h, h.mem
    ensures h.Valid() && Invariant(h.State(), h.base)
    ensures h.State() == Run(old(h.State()), rs)
    ensures KeptByRun(old(h.mem[..]), h.mem[..], old(Used(h.blocks)), rs)
    ensures forall known: Known | Reads(old(h.State()), known, old(h.mem[..])) ::
      Reads(h.State(), KnowingAll(old(h.State()), known, rs), h.mem[..])
  {
    hide Run, Careful, AllAllowed, Reads;
    CarefulIsAllowed(h.State(), h.base, freed, rs, h.mem.Length);
    Replay(h, rs);
  }

  // ---- the harm that a repeated free can do ----

  /** Two blocks are freed, and 60 bytes of the merged block are handed out. */
  function Harmful(base: nat): seq<Request> {
    [Allocate(4), Allocate(69476), Release(base + 16), Release(base + 96), Allocate(60)]
  }

  const TOP: nat := 4 * 69512

  /** The lists of that run: two blocks, the first freed, both freed and merged, and the first 60 bytes taken. */
  function HarmfulList(base: nat, k: nat): seq<Block> {
    if k == 0 then [Block(base, 4, false), Block(base + 80, 69476, false)]
    else if k == 1 then [Block(base, 4, true), Block(base + 80, 69476, false)]
    else if k == 2 then [Block(base, 69496, true)]
    else [Block(base, 60, false), Block(base + 76, MAGIC, true)]
  }

  lemma HarmfulMallocs(base: nat, limit: nat)
    requires base + TOP <= limit
    ensures
      var s0, s1 := HeapState([], base), HeapState([Block(base, 4, false)], base + 80);
      && Allowed(s0, Allocate(4), limit) && Step(s0, Allocate(4)) == s1
      && Allowed(s1, Allocate(69476), limit)
      && Step(s1, Allocate(69476)) == HeapState(HarmfulList(base, 0), base + TOP)
  {
    assert FirstFit([], 4) == 0;
    assert FirstFit([Block(base, 4, false)], 69476) == 1 by { assert [Block(base, 4, false)][1..] == []; }
  }

  lemma HarmfulFrees(base: nat, curr: nat, limit: nat)
    ensures
      var s2, s3 := HeapState(HarmfulList(base, 0), curr), HeapState(HarmfulList(base, 1), curr);
      && Allowed(s2, Release(base + 16), limit) && Step(s2, Release(base + 16)) == s3
      && Allowed(s3, Release(base + 96), limit)
      && Step(s3, Release(base + 96)) == HeapState(HarmfulList(base, 2), curr)
  {
    var bs, cs := HarmfulList(base, 0), HarmfulList(base, 1);
    var a, b := cs[0], cs[1].(free := true);
    assert IndexOf(bs, base + 16) == 0 && bs[0 := a] == cs;
    assert cs[1..] == [cs[1]] && IndexOf(cs, base + 96) == 1 && cs[1 := b] == [a, b];
    MergeFixed(cs);
    MergePair([a, b]);
    hide Merge, IndexOf;
  }

  lemma HarmfulLast(base: nat, curr: nat, limit: nat)
    requires curr <= limit
    ensures
      var s4 := HeapState(HarmfulList(base, 2), curr);
      && Allowed(s4, Allocate(60), limit) && Step(s4, Allocate(60)) == HeapState(HarmfulList(base, 3), curr)
      && !Spares(s4, Allocate(60), base + 96)
  {
    var bs := HarmfulList(base, 2);
    assert FirstFit(bs, 60) == 0;
    assert Take(bs, 0, 60) == HarmfulList(base, 3);
  }

  lemma HarmfulRun(base: nat, limit: nat)
    requires base + TOP <= limit
    ensures AllAllowed(HeapState([], base), Harmful(base), limit)
    ensures Run(HeapState([], base), Harmful(base)) == HeapState(HarmfulList(base, 3), base + TOP)
  {
    HarmfulMallocs(base, limit);
    HarmfulFrees(base, base + TOP, limit);
    HarmfulLast(base, base + TOP, limit);
    hide Step, Allowed, HarmfulList, Run, AllAllowed;
    var rs, s0, s1 := Harmful(base), HeapState([], base), HeapState([Block(base, 4, false)], base + 80);
    var s2, s3 := HeapState(HarmfulList(base, 0), base + TOP), HeapState(HarmfulList(base, 1), base + TOP);
    RunFirst(s0, rs, limit);
    RunFirst(s1, rs[1..], limit);
    RunFirst(s2, rs[2..], limit);
    RunFirst(s3, rs[3..], limit);
    RunFirst(HeapState(HarmfulList(base, 2), base + TOP), rs[4..], limit);
    RunNone(HeapState(HarmfulList(base, 3), base + TOP), limit);
  }

  lemma RunFirst(s: HeapState, rs: seq<Request>, limit: nat)
    requires rs != []
    ensures Run(s, rs) == Run(Step(s, rs[0]), rs[1..])
    ensures AllAllowed(s, rs, limit) <==> Allowed(s, rs[0], limit) && AllAllowed(Step(s, rs[0]), rs[1..], limit)
  {
  }

  lemma RunNone(s: HeapState, limit: nat)
    ensures Run(s, []) == s && AllAllowed(s, [], limit)
  {
  }

  /**
   * Nothing of the second block, its header included, is handed out.  Yet the remainder's header comes to lie
   * four bytes below the old one, and its size is the magic number: free takes the pointer for a block of its
   * own, and the word it sets is the remainder's next pointer.
   */
  lemma RefreeBreaksList(base: nat, limit: nat, m: seq<byte>, m': seq<byte>)
    requires base + TOP <= limit == |m|
    ensures
      var s, p := Run(HeapState([], base), Harmful(base)), base + 96;
      && AllAllowed(HeapState([], base), Harmful(base), limit)
      && (forall b | b in Used(s.blocks) :: b.End() <= p - HEADER)
      && !Listed(s, p) && !Stale(s, p)
      && (Encodes(m, s.blocks) ==>
            && Word(m, p - HEADER) == MAGIC
            && (SameOutside(m, m', p - 8, p - 4) && Word(m', p - 8) == 1 ==> !Encodes(m', s.blocks)))
  {
    HarmfulRun(base, limit);
    var bs, p := HarmfulList(base, 3), base + 96;
    if Encodes(m, bs) {
      RemainderHeader(base, m, m');
    }
    hide Run, Harmful, AllAllowed, Word, Encodes;
    forall b | b in Used(bs)
      ensures b.End() <= p - HEADER
    {
      UsedMember(bs, b);
    }
    assert bs[1..] == [bs[1]] && IndexOf(bs, p) == 2;
  }

  lemma RemainderHeader(base: nat, m: seq<byte>, m': seq<byte>)
    requires Encodes(m, HarmfulList(base, 3)) && base + 96 <= |m|
    ensures Word(m, base + 80) == MAGIC
    ensures |m'| == |m| && Word(m', base + 88) == 1 ==> !Encodes(m', HarmfulList(base, 3))
  {
    var bs := HarmfulList(base, 3);
    assert Link(bs, 1) == 0 && bs[1] == Block(base + 76, MAGIC, true);
    hide Word, HarmfulList;
    assert HeaderAt(m, bs[1], Link(bs, 1));
    assert Encodes(m', bs) ==> HeaderAt(m', bs[1], Link(bs, 1));
  }

  lemma StartInvariant(base: nat)
    ensures Invariant(HeapState([], base), base)
  {
  }

  /** That run in memory, and the first store of the second free. */
  method RefreeHarms(h: Heap)
    requires h.Valid() && h.State() == HeapState([], h.base) && h.base + TOP <= h.mem.Length
    modifies h, h.mem
    ensures h.State() == HeapState(HarmfulList(h.base, 3), h.base + TOP)
    ensures !Encodes(h.mem[..], h.blocks)
  {
    var second := h.curr + 96;
    var rs := Harmful(h.curr);
    hide Encodes, HarmfulList, Harmful, Word, Run, AllAllowed, Used, Ordered, Reads, KnowingAll, KeptByRun, Invariant;
    hide Listed, Stale;
    HarmfulRun(h.base, h.mem.Length);
    StartInvariant(h.base);
    Replay(h, rs);
    ghost var m := h.mem[..];
    if h.Load(second - HEADER) == MAGIC {
      h.Store(second - 8, 1);
    }
    RefreeBreaksList(h.base, h.mem.Length, m, h.mem[..]);
  }
}
