// What malloc, free and realloc do to the block list, one call at a time.

module HeapSteps {
  import opened Bits
  import opened Memory
  import opened HeapModel
  import opened HeapLemmas

  /** What every reachable heap satisfies; base is the first address of the heap. */
  ghost predicate Invariant(s: HeapState, base: nat) {
    && Ordered(s.blocks, base, s.curr)
    && NoAdjacentFree(s.blocks)
    && s.curr == base + 4 * Total(s.blocks)
  }

  lemma IndexOfBlock(bs: seq<Block>, i: nat, lo: nat, hi: nat)
    requires Ordered(bs, lo, hi) && i < |bs|
    ensures IndexOf(bs, bs[i].Payload()) == i
  {
    var j := IndexOf(bs, bs[i].Payload());
    if j < i {
      OrderedPair(bs, j, i, lo, hi);
    }
  }

  /** Live pointers are the payload addresses of the used blocks. */
  lemma LiveIsUsed(s: HeapState, lo: nat, p: nat)
    requires Ordered(s.blocks, lo, s.curr)
    ensures Live(s, p) <==> exists b :: b in Used(s.blocks) && b.Payload() == p
    ensures Live(s, p) ==>
      var b := s.blocks[IndexOf(s.blocks, p)]; b in Used(s.blocks) && b.Payload() == p && b.size == PayloadSize(s, p)
  {
    var bs := s.blocks;
    if Live(s, p) {
      UsedMember(bs, bs[IndexOf(bs, p)]);
    }
    forall b | b in Used(bs) && b.Payload() == p
      ensures Live(s, p)
    {
      UsedMember(bs, b);
      var j :| 0 <= j < |bs| && bs[j] == b;
      IndexOfBlock(bs, j, lo, s.curr);
    }
  }

  /** Distinct used blocks have disjoint extents. */
  lemma UsedDisjoint(bs: seq<Block>, lo: nat, hi: nat, b: Block, c: Block)
    requires Ordered(bs, lo, hi) && b in Used(bs) && c in Used(bs)
    ensures b == c || b.End() <= c.addr || c.End() <= b.addr
  {
    UsedMember(bs, b);
    UsedMember(bs, c);
    var i :| 0 <= i < |bs| && bs[i] == b;
    var j :| 0 <= j < |bs| && bs[j] == c;
  }

  /** The block that malloc hands out. */
  function MallocBlock(s: HeapState, size: nat): Block {
    var i := FirstFit(s.blocks, size);
    if i < |s.blocks| then Pieces(s.blocks[i], size)[0] else Block(s.curr, size, false)
  }

  lemma MallocUsed(s: HeapState, size: nat)
    ensures forall b :: b in Used(Malloc(s, size).blocks) <==> b in Used(s.blocks) || b == MallocBlock(s, size)
    ensures MallocBlock(s, size).Payload() == MallocResult(s, size)
    ensures MallocBlock(s, size).size >= size && !MallocBlock(s, size).free
  {
    var bs, i := s.blocks, FirstFit(s.blocks, size);
    var n := MallocBlock(s, size);
    if i < |bs| {
      TakeUsed(bs, i, size);
      hide Used, Take, FirstFit, Pieces;
      InsertedMembers(Used(bs[..i]), n, Used(bs[i + 1..]));
    } else {
      UsedAppend(bs, n);
    }
  }

  lemma UsedAppend(bs: seq<Block>, n: Block)
    requires !n.free
    ensures Used(bs + [n]) == Used(bs) + [n]
  {
    assert (bs + [n])[..|bs|] == bs;
  }

  lemma InsertedMembers(a: seq<Block>, n: Block, c: seq<Block>)
    ensures forall b :: b in a + [n] + c <==> b in a + c || b == n
  {
  }

  /** The block that malloc hands out lies apart from every block in use before the call. */
  lemma MallocFresh(s: HeapState, base: nat, size: nat, b: Block)
    requires Ordered(s.blocks, base, s.curr) && b in Used(s.blocks)
    ensures
      var n := MallocBlock(s, size);
      b.End() <= n.addr || n.End() <= b.addr
  {
    var bs, i := s.blocks, FirstFit(s.blocks, size);
    UsedMember(bs, b);
    var j :| 0 <= j < |bs| && bs[j] == b;
    if i < |bs| {
      if i < j { OrderedPair(bs, i, j, base, s.curr); }
      if j < i { OrderedPair(bs, j, i, base, s.curr); }
    }
  }

  /** malloc's result differs from every live pointer, and the live ones stay live. */
  lemma UsedApart(s: HeapState, base: nat, size: nat)
    requires Ordered(s.blocks, base, s.curr)
    ensures forall c | c in Used(s.blocks) ::
      c in Used(Malloc(s, size).blocks) && c.Payload() != MallocBlock(s, size).Payload()
  {
    MallocUsed(s, size);
    forall c | c in Used(s.blocks)
      ensures c.Payload() != MallocBlock(s, size).Payload()
    {
      MallocFresh(s, base, size, c);
    }
  }

  lemma MallocOrdered(s: HeapState, base: nat, size: nat)
    requires Ordered(s.blocks, base, s.curr) && base <= s.curr
    ensures Ordered(Malloc(s, size).blocks, base, Malloc(s, size).curr)
    ensures base <= Malloc(s, size).curr
  {
    var i := FirstFit(s.blocks, size);
    if i < |s.blocks| {
      TakeOrdered(s.blocks, i, size, base, s.curr);
    }
  }

  lemma MallocInvariant(s: HeapState, base: nat, size: nat)
    requires Invariant(s, base)
    ensures Invariant(Malloc(s, size), base)
  {
    var bs, i := s.blocks, FirstFit(s.blocks, size);
    MallocOrdered(s, base, size);
    if i < |bs| {
      TakeTotal(bs, i, size);
      TakeNoAdjacentFree(bs, i, size);
    } else {
      var b := Block(s.curr, size, false);
      assert (bs + [b])[..|bs|] == bs;
    }
  }

  lemma FreedOrdered(bs: seq<Block>, i: nat, lo: nat, hi: nat)
    requires Ordered(bs, lo, hi) && i < |bs|
    ensures Ordered(Merge(bs[i := bs[i].(free := true)]), lo, hi)
  {
    var bs' := bs[i := bs[i].(free := true)];
    OrderedRewrite(bs, i, bs[i].(free := true), lo, hi);
    MergeOrdered(bs', |bs'|, lo, hi);
    assert bs'[..|bs'|] == bs' && Merge(bs') + bs'[|bs'|..] == Merge(bs');
  }

  lemma FreedTotal(bs: seq<Block>, i: nat)
    requires i < |bs|
    ensures Total(bs[i := bs[i].(free := true)]) == Total(bs)
  {
    var b := bs[i].(free := true);
    SplitAt(bs, i);
    assert bs[i := b] == bs[..i] + [b] + bs[i + 1..];
    TotalConcat(bs[..i] + [b], bs[i + 1..]);
    TotalConcat(bs[..i], [b]);
    TotalConcat(bs[..i] + [bs[i]], bs[i + 1..]);
    TotalConcat(bs[..i], [bs[i]]);
  }

  lemma FreeInvariant(s: HeapState, base: nat, p: nat)
    requires Invariant(s, base) && Listed(s, p)
    ensures Invariant(Free(s, p), base)
  {
    var i := IndexOf(s.blocks, p);
    var bs' := s.blocks[i := s.blocks[i].(free := true)];
    FreedOrdered(s.blocks, i, base, s.curr);
    FreedTotal(s.blocks, i);
    MergeTotal(bs');
    MergeNoAdjacentFree(bs');
  }

  /** free takes exactly the freed block out of the used blocks, if it was one. */
  lemma FreeUsed(s: HeapState, base: nat, p: nat)
    requires Ordered(s.blocks, base, s.curr) && Listed(s, p)
    ensures forall b :: b in Used(Free(s, p).blocks) <==> b in Used(s.blocks) && b.Payload() != p
  {
    var bs, i := s.blocks, IndexOf(s.blocks, p);
    var bs' := bs[i := bs[i].(free := true)];
    MergeUsed(bs');
    hide Used, Merge, Ordered;
    forall b
      ensures b in Used(bs') <==> b in Used(bs) && b.Payload() != p
    {
      MarkedUsed(bs, i, base, s.curr, b);
    }
  }

  lemma MarkedUsed(bs: seq<Block>, i: nat, lo: nat, hi: nat, b: Block)
    requires Ordered(bs, lo, hi) && i < |bs|
    ensures b in Used(bs[i := bs[i].(free := true)]) <==> b in Used(bs) && b.Payload() != bs[i].Payload()
  {
    var bs' := bs[i := bs[i].(free := true)];
    UsedMember(bs, b);
    UsedMember(bs', b);
    hide Used;
    if b in bs && !b.free && b.Payload() != bs[i].Payload() {
      var j :| 0 <= j < |bs| && bs[j] == b;
      assert bs'[j] == b;
    }
    if b in bs' && !b.free {
      var j :| 0 <= j < |bs'| && bs'[j] == b;
      assert bs[j] == b;
      if j < i { OrderedPair(bs, j, i, lo, hi); } else { OrderedPair(bs, i, j, lo, hi); }
    }
  }

  /**
   * malloc is first fit: if any free block is large enough, the pointer is that of the lowest such block and
   * curr_addr stays; otherwise curr_addr, and only it, gives the pointer and moves up.
   */
  lemma MallocFirstFit(s: HeapState, base: nat, size: nat)
    requires Ordered(s.blocks, base, s.curr)
    ensures
      var p := MallocResult(s, size);
      if exists b :: b in s.blocks && Fits(b, size) then
        && Malloc(s, size).curr == s.curr
        && (exists b :: b in s.blocks && Fits(b, size) && b.Payload() == p)
        && forall b | b in s.blocks && Fits(b, size) :: p <= b.Payload()
      else
        p == s.curr + HEADER && Malloc(s, size).curr == s.curr + 4 * (size + HEADER)
  {
    var bs, i := s.blocks, FirstFit(s.blocks, size);
    forall b | b in bs && Fits(b, size)
      ensures i < |bs| && MallocResult(s, size) <= b.Payload()
    {
      var j :| 0 <= j < |bs| && bs[j] == b;
      if i < j {
        OrderedPair(bs, i, j, base, s.curr);
      }
    }
    if i < |bs| {
      assert bs[i] in bs;
    }
  }

  /**
   * The whole state after a malloc.  The first free block of at least size bytes is handed out; it is cut in two
   * exactly if more than a header of 16 bytes would be left of it.  If there is none, a block of its own is put
   * at curr_addr, which moves up four times its length.
   */
  lemma MallocExactly(s: HeapState, size: nat, i: nat)
    requires i <= |s.blocks| && forall j | 0 <= j < i :: !(s.blocks[j].free && s.blocks[j].size >= size)
    requires i < |s.blocks| ==> s.blocks[i].free && s.blocks[i].size >= size
    ensures
      var bs, t := s.blocks, Malloc(s, size);
      if i == |bs| then
        && t == HeapState(bs + [Block(s.curr, size, false)], s.curr + 4 * (size + 16))
        && MallocResult(s, size) == s.curr + 16
      else
        var b := bs[i];
        && t.curr == s.curr && MallocResult(s, size) == b.addr + 16
        && t.blocks == bs[..i] + (if b.size > size + 16 then
                                    [Block(b.addr, size, false), Block(b.addr + 16 + size, b.size - size - 16, true)]
                                  else [Block(b.addr, b.size, false)]) + bs[i + 1..]
  {
    FirstFitIs(s.blocks, size, i);
    hide FirstFit;
  }

  /** A second free of a block that is still on the list changes nothing. */
  lemma FreeTwice(s: HeapState, base: nat, p: nat)
    requires Invariant(s, base) && Listed(s, p) && !Live(s, p)
    ensures Free(s, p) == s
  {
    var bs, i := s.blocks, IndexOf(s.blocks, p);
    assert bs[i := bs[i].(free := true)] == bs;
    MergeFixed(bs);
  }

  /** Every block of the merged list starts where one of the list did. */
  lemma {:induction false} MergeHeads(bs: seq<Block>, b: Block)
    requires b in Merge(bs)
    ensures exists j :: 0 <= j < |bs| && bs[j].addr == b.addr
  {
    var n := |bs| - 1;
    var acc := Merge(bs[..n]);
    if b in acc {
      MergeHeads(bs[..n], b);
    } else if b != bs[n] {
      assert b.addr == acc[|acc| - 1].addr;
      MergeHeads(bs[..n], acc[|acc| - 1]);
    }
  }

  /** A pointer just freed may be freed once more at once: it is still listed, or has been merged away. */
  lemma FreedMayBeFreed(s: HeapState, base: nat, p: nat)
    requires Invariant(s, base) && Listed(s, p)
    ensures Listed(Free(s, p), p) || Stale(Free(s, p), p)
  {
    var t, i := Free(s, p), IndexOf(s.blocks, p);
    hide Merge, Ordered, Total, NoAdjacentFree;
    if !Listed(t, p) {
      forall k | 0 <= k < |t.blocks|
        ensures p <= t.blocks[k].addr + 4 ||
                (if t.blocks[k].free then t.blocks[k].Payload() else t.blocks[k].End()) + 8 <= p
      {
        assert t.blocks[k].Payload() != p;
        MergedApart(s.blocks, i, base, s.curr, t.blocks[k]);
      }
    }
  }

  /** Where a block of the merged list lies, seen from the block freed. */
  lemma MergedApart(bs: seq<Block>, i: nat, lo: nat, hi: nat, b: Block)
    requires Ordered(bs, lo, hi) && i < |bs|
    requires b in Merge(bs[i := bs[i].(free := true)]) && b.addr != bs[i].addr
    ensures bs[i].Payload() <= b.addr || (if b.free then b.Payload() else b.End()) <= bs[i].addr
  {
    var bs' := bs[i := bs[i].(free := true)];
    var j := MergedFrom(bs', b);
    hide Merge, Ordered;
    if j < i { OrderedPair(bs, j, i, lo, hi); } else { OrderedPair(bs, i, j, lo, hi); }
  }

  lemma MergedFrom(bs: seq<Block>, b: Block) returns (j: nat)
    requires b in Merge(bs)
    ensures j < |bs| && bs[j].addr == b.addr && (b.free || bs[j] == b)
  {
    MergeHeads(bs, b);
    MergeUsed(bs);
    UsedMember(Merge(bs), b);
    UsedMember(bs, b);
    hide Merge, Used;
    if b.free {
      j :| j < |bs| && bs[j].addr == b.addr;
    } else {
      j :| j < |bs| && bs[j] == b;
    }
  }

  // ---- round trips ----

  /**
   * Freeing a block that was served from the list gives back the very list there was before, whether or
   * not the block had been split.
   */
  lemma FreeUndoesMalloc(s: HeapState, base: nat, size: nat)
    requires Invariant(s, base)
    requires FirstFit(s.blocks, size) < |s.blocks|
    ensures Listed(Malloc(s, size), MallocResult(s, size))
    ensures Free(Malloc(s, size), MallocResult(s, size)) == s
  {
    var bs, i := s.blocks, FirstFit(s.blocks, size);
    var t := Take(bs, i, size);
    hide Take, Ordered, Merge, FirstFit, NoAdjacentFree, Total;
    TakeFreed(bs, i, size);
    TakeOrdered(bs, i, size, base, s.curr);
    IndexOfBlock(t, i, base, s.curr);
    if bs[i].size > size + HEADER {
      MergeAround(bs, i, FreePieces(bs[i], size));
    } else {
      MergeFixed(bs);
    }
  }

  function FreePieces(b: Block, size: nat): seq<Block>
    requires b.size > size + HEADER
  {
    [Block(b.addr, size, true), Block(b.addr + HEADER + size, b.size - size - HEADER, true)]
  }

  lemma TakeFreed(bs: seq<Block>, i: nat, size: nat)
    requires i < |bs| && Fits(bs[i], size)
    ensures
      var t := Take(bs, i, size);
      && i < |t| && t[i].addr == bs[i].addr
      && t[i := t[i].(free := true)] ==
         if bs[i].size > size + HEADER then bs[..i] + FreePieces(bs[i], size) + bs[i + 1..] else bs
  {
  }

  /** Two free pieces that make up block i merge back into it. */
  lemma MergeAround(bs: seq<Block>, i: nat, p: seq<Block>)
    requires NoAdjacentFree(bs) && i < |bs| && bs[i].free
    requires |p| == 2 && p[0].free && p[1].free
    requires p[0].addr == bs[i].addr && p[0].size + HEADER + p[1].size == bs[i].size
    ensures Merge(bs[..i] + p + bs[i + 1..]) == bs
  {
    var a, c := bs[..i], bs[i + 1..];
    MergePair(p);
    MergeFixed(a);
    MergeFixed(c);
    MergeConcat(a, p);
    assert (a + p)[|a + p| - 1] == p[1];
    MergeConcat(a + p, c);
    SplitAt(bs, i);
  }

  lemma MergePair(p: seq<Block>)
    requires |p| == 2 && p[0].free && p[1].free
    ensures Merge(p) == [Block(p[0].addr, p[0].size + HEADER + p[1].size, true)]
  {
    assert p[..1] == [p[0]];
    assert [p[0]][..0] == [];
    assert Merge([p[0]]) == [p[0]];
  }

  /** A request served by the bump path leaves, once freed, one more free block and an advanced curr_addr. */
  lemma FreeAfterBump(s: HeapState, base: nat, size: nat)
    requires Invariant(s, base)
    requires FirstFit(s.blocks, size) == |s.blocks|
    ensures Listed(Malloc(s, size), MallocResult(s, size))
    ensures Free(Malloc(s, size), MallocResult(s, size))
         == HeapState(Merge(s.blocks + [Block(s.curr, size, true)]), s.curr + 4 * (size + HEADER))
    ensures Free(Malloc(s, size), MallocResult(s, size)) != s
  {
    MallocOrdered(s, base, size);
    var t := Malloc(s, size);
    assert t.blocks == s.blocks + [Block(s.curr, size, false)] && t.curr == s.curr + 4 * (size + HEADER);
    hide Malloc, Merge, Ordered, Total, NoAdjacentFree, FirstFit, IndexOf;
    IndexOfBlock(t.blocks, |s.blocks|, base, t.curr);
    assert t.blocks[|s.blocks| := t.blocks[|s.blocks|].(free := true)] == s.blocks + [Block(s.curr, size, true)];
  }

  /** After free, a free block of the freed size or more is on the list. */
  lemma {:induction false} MergeKeepsRoom(bs: seq<Block>, i: nat)
    requires i < |bs| && bs[i].free
    ensures exists j :: 0 <= j < |Merge(bs)| && Fits(Merge(bs)[j], bs[i].size)
  {
    var n := |bs| - 1;
    var acc, r := Merge(bs[..n]), Merge(bs);
    if i == n {
      assert Fits(r[|r| - 1], bs[i].size);
    } else {
      MergeKeepsRoom(bs[..n], i);
      var j :| 0 <= j < |acc| && Fits(acc[j], bs[i].size);
      assert Fits(r[j], bs[i].size);
    }
  }

  /** A request that is no larger than the block just freed never grows the heap. */
  lemma NoGrowthAfterFree(s: HeapState, base: nat, p: nat, size: nat)
    requires Invariant(s, base) && Listed(s, p) && size <= PayloadSize(s, p)
    ensures Malloc(Free(s, p), size).curr == s.curr
    ensures Total(Malloc(Free(s, p), size).blocks) == Total(s.blocks)
  {
    var i := IndexOf(s.blocks, p);
    var bs' := s.blocks[i := s.blocks[i].(free := true)];
    MergeKeepsRoom(bs', i);
    var j :| 0 <= j < |Merge(bs')| && Fits(Merge(bs')[j], bs'[i].size);
    assert Fits(Merge(bs')[j], size);
    assert FirstFit(Merge(bs'), size) <= j;
    FreeInvariant(s, base, p);
    MallocInvariant(Free(s, p), base, size);
  }
}
