// Properties of the block-list operations of HeapModel.

module HeapLemmas {
  import opened Bits
  import opened Memory
  import opened HeapModel

  // ---- sums and used blocks over concatenations ----

  lemma {:induction false} TotalConcat(a: seq<Block>, b: seq<Block>)
    ensures Total(a + b) == Total(a) + Total(b)
  {
    if b == [] {
      assert a + b == a;
    } else {
      assert (a + b)[..|a + b| - 1] == a + b[..|b| - 1];
      TotalConcat(a, b[..|b| - 1]);
    }
  }

  lemma {:induction false} UsedConcat(a: seq<Block>, b: seq<Block>)
    ensures Used(a + b) == Used(a) + Used(b)
  {
    if b == [] {
      assert a + b == a;
    } else {
      assert (a + b)[..|a + b| - 1] == a + b[..|b| - 1];
      UsedConcat(a, b[..|b| - 1]);
    }
  }

  lemma {:induction false} UsedMember(bs: seq<Block>, b: Block)
    ensures b in Used(bs) <==> b in bs && !b.free
  {
    if bs != [] {
      UsedMember(bs[..|bs| - 1], b);
      assert bs == bs[..|bs| - 1] + [bs[|bs| - 1]];
    }
  }

  lemma SplitAt(bs: seq<Block>, i: nat)
    requires i < |bs|
    ensures bs == bs[..i] + [bs[i]] + bs[i + 1..]
  {
  }

  // ---- Take ----

  /** The blocks that replace block b when size bytes of it are taken. */
  function Pieces(b: Block, size: nat): (r: seq<Block>)
    requires size <= b.size
  {
    if b.size > size + HEADER then
      [Block(b.addr, size, false), Block(b.addr + HEADER + size, b.size - size - HEADER, true)]
    else
      [b.(free := false)]
  }

  lemma TakeShape(bs: seq<Block>, i: nat, size: nat)
    requires i < |bs| && size <= bs[i].size
    ensures Take(bs, i, size) == bs[..i] + Pieces(bs[i], size) + bs[i + 1..]
  {
  }

  /** A used block that leaves no remainder stays as it is. */
  lemma TakeWhole(bs: seq<Block>, i: nat, size: nat)
    requires i < |bs| && size <= bs[i].size <= size + HEADER && !bs[i].free
    ensures Take(bs, i, size) == bs
  {
  }

  /** The ends of the list after a split; the new block is last exactly when block i was. */
  lemma TakeEnds(bs: seq<Block>, i: nat, size: nat)
    requires i < |bs| && size <= bs[i].size
    ensures
      var t := Take(bs, i, size);
      && t != []
      && t[0].addr == bs[0].addr
      && t[|t| - 1].addr ==
         if i + 1 == |bs| && bs[i].size > size + HEADER then bs[i].addr + HEADER + size else bs[|bs| - 1].addr
  {
  }

  /** Block j after a split of block i lies within a block of the list before it. */
  lemma TakeAt(bs: seq<Block>, i: nat, size: nat, j: nat)
    requires i < |bs| && bs[i].size > size + HEADER && j < |Take(bs, i, size)|
    ensures
      var t, from := Take(bs, i, size), if j <= i then j else j - 1;
      && |t| == |bs| + 1
      && bs[from].addr <= t[j].addr && t[j].End() <= bs[from].End()
      && (j == i + 1 ==> t[i].End() <= t[j].addr)
      && (j != i && j != i + 1 ==> t[j] == bs[from])
  {
  }

  lemma TakeOrdered(bs: seq<Block>, i: nat, size: nat, lo: nat, hi: nat)
    requires i < |bs| && size <= bs[i].size
    requires Ordered(bs, lo, hi)
    ensures Ordered(Take(bs, i, size), lo, hi)
  {
    var t := Take(bs, i, size);
    if bs[i].size > size + HEADER {
      hide Take;
      forall j | 0 <= j < |t|
        ensures lo <= t[j].addr && t[j].End() <= hi
      {
        TakeAt(bs, i, size, j);
      }
      forall j, k | 0 <= j < k < |t|
        ensures t[j].End() <= t[k].addr
      {
        TakeAt(bs, i, size, j);
        TakeAt(bs, i, size, k);
      }
    }
  }

  lemma OrderedAt(bs: seq<Block>, i: nat, lo: nat, hi: nat)
    requires Ordered(bs, lo, hi) && i < |bs|
    ensures lo <= bs[i].addr && bs[i].End() <= hi
  {
  }

  lemma FirstFitAddress(bs: seq<Block>, size: nat, lo: nat, hi: nat)
    requires Ordered(bs, lo, hi) && lo > 0
    ensures FirstFit(bs, size) <= |bs|
    ensures FirstFit(bs, size) < |bs| ==> bs[FirstFit(bs, size)].addr > 0 && Fits(bs[FirstFit(bs, size)], size)
    ensures bs != [] ==> bs[0].addr > 0
  {
  }

  lemma OrderedPair(bs: seq<Block>, i: nat, j: nat, lo: nat, hi: nat)
    requires Ordered(bs, lo, hi) && i < j < |bs|
    ensures bs[i].End() <= bs[j].addr && bs[j].End() <= hi
  {
  }

  lemma OrderedRewrite(bs: seq<Block>, i: nat, b: Block, lo: nat, hi: nat)
    requires Ordered(bs, lo, hi) && i < |bs|
    requires b.addr == bs[i].addr && b.size == bs[i].size
    ensures Ordered(bs[i := b], lo, hi)
  {
  }

  lemma TakeTotal(bs: seq<Block>, i: nat, size: nat)
    requires i < |bs| && size <= bs[i].size
    ensures Total(Take(bs, i, size)) == Total(bs)
  {
    TakeShape(bs, i, size);
    SplitAt(bs, i);
    var p := Pieces(bs[i], size);
    TotalConcat(bs[..i], p);
    TotalConcat(bs[..i] + p, bs[i + 1..]);
    TotalConcat(bs[..i], [bs[i]]);
    TotalConcat(bs[..i] + [bs[i]], bs[i + 1..]);
    if |p| == 2 {
      assert p[..1] == [p[0]];
    }
  }

  lemma TakeNoAdjacentFree(bs: seq<Block>, i: nat, size: nat)
    requires i < |bs| && Fits(bs[i], size)
    requires NoAdjacentFree(bs)
    ensures NoAdjacentFree(Take(bs, i, size))
  {
    var t := Take(bs, i, size);
    if bs[i].size > size + HEADER {
      assert forall j | 0 <= j < i :: t[j] == bs[j];
      assert forall j | i + 1 < j < |t| :: t[j] == bs[j - 1];
    }
  }

  lemma UsedPieces(b: Block, size: nat)
    requires Fits(b, size)
    ensures Used([b]) == []
    ensures Used(Pieces(b, size)) == [Pieces(b, size)[0]]
  {
    var p := Pieces(b, size);
    assert Used([b]) == Used([b][..0]) && [b][..0] == [];
    assert p[..0] == [];
    if |p| == 2 {
      assert p[..1] == [p[0]];
      assert [p[0]][..0] == [];
    }
  }

  lemma UsedThree(a: seq<Block>, b: seq<Block>, c: seq<Block>)
    ensures Used(a + b + c) == Used(a) + Used(b) + Used(c)
  {
    UsedConcat(a, b);
    UsedConcat(a + b, c);
  }

  /** Taking a free block adds exactly one used block, of at least the requested size. */
  lemma TakeUsed(bs: seq<Block>, i: nat, size: nat)
    requires i < |bs| && Fits(bs[i], size)
    ensures Used(bs) == Used(bs[..i]) + Used(bs[i + 1..])
    ensures Used(Take(bs, i, size)) == Used(bs[..i]) + [Pieces(bs[i], size)[0]] + Used(bs[i + 1..])
  {
    var a, b, c := bs[..i], bs[i], bs[i + 1..];
    UsedPieces(b, size);
    assert Used(bs) == Used(a) + Used(c) by {
      SplitAt(bs, i);
      UsedThree(a, [b], c);
      assert Used(a) + [] == Used(a);
    }
    assert Used(Take(bs, i, size)) == Used(a) + [Pieces(b, size)[0]] + Used(c) by {
      TakeShape(bs, i, size);
      UsedThree(a, Pieces(b, size), c);
    }
  }

  lemma FirstFitIs(bs: seq<Block>, size: nat, k: nat)
    requires k <= |bs| && (k < |bs| ==> Fits(bs[k], size))
    requires forall j | 0 <= j < k :: !Fits(bs[j], size)
    ensures FirstFit(bs, size) == k
  {
  }

  /** The freed flag may be cleared before the split. */
  lemma TakeOfUsed(bs: seq<Block>, i: nat, size: nat)
    requires i < |bs| && size <= bs[i].size
    ensures Take(bs[i := bs[i].(free := false)], i, size) == Take(bs, i, size)
  {
    var bs' := bs[i := bs[i].(free := false)];
    assert bs'[..i] == bs[..i] && bs'[i + 1..] == bs[i + 1..];
  }

  // ---- Absorb and Merge ----

  lemma MergePrefix(bs: seq<Block>, k: nat)
    requires k < |bs|
    ensures Merge(bs[..k + 1]) == Absorb(Merge(bs[..k]), bs[k])
  {
    assert bs[..k + 1][..k] == bs[..k];
  }

  lemma AbsorbOrdered(acc: seq<Block>, b: Block, rest: seq<Block>, lo: nat, hi: nat)
    requires Ordered(acc + [b] + rest, lo, hi)
    ensures Ordered(Absorb(acc, b) + rest, lo, hi)
  {
    var before := acc + [b] + rest;
    var after := Absorb(acc, b) + rest;
    var n := |acc|;
    if acc != [] && acc[n - 1].free && b.free {
      forall i: nat | i < |after|
        ensures after[i].addr == before[if i < n then i else i + 1].addr
        ensures after[i].End() <= before[if i < n - 1 then i else i + 1].End()
      {
        AbsorbedAt(acc, b, rest, lo, hi, i);
      }
      hide Absorb;
    } else {
      assert after == before;
    }
  }

  lemma AbsorbedAt(acc: seq<Block>, b: Block, rest: seq<Block>, lo: nat, hi: nat, i: nat)
    requires Ordered(acc + [b] + rest, lo, hi) && acc != [] && acc[|acc| - 1].free && b.free
    requires i < |Absorb(acc, b) + rest|
    ensures
      var before, after, n := acc + [b] + rest, Absorb(acc, b) + rest, |acc|;
      && |after| + 1 == |before|
      && after[i].addr == before[if i < n then i else i + 1].addr
      && after[i].End() <= before[if i < n - 1 then i else i + 1].End()
  {
    var before, n := acc + [b] + rest, |acc|;
    assert before[n - 1] == acc[n - 1] && before[n] == b;
    OrderedPair(before, n - 1, n, lo, hi);
    hide Ordered;
  }

  lemma SuffixStep(acc: seq<Block>, bs: seq<Block>, k: nat)
    requires k < |bs|
    ensures acc + bs[k..] == acc + [bs[k]] + bs[k + 1..]
  {
  }

  lemma {:induction false} MergeOrdered(bs: seq<Block>, k: nat, lo: nat, hi: nat)
    requires Ordered(bs, lo, hi) && k <= |bs|
    ensures Ordered(Merge(bs[..k]) + bs[k..], lo, hi)
  {
    if k == 0 {
      assert Merge(bs[..0]) + bs[0..] == bs;
    } else {
      hide Ordered, Absorb, Merge;
      MergeOrdered(bs, k - 1, lo, hi);
      MergePrefix(bs, k - 1);
      SuffixStep(Merge(bs[..k - 1]), bs, k - 1);
      AbsorbOrdered(Merge(bs[..k - 1]), bs[k - 1], bs[k..], lo, hi);
    }
  }

  /** The variable current of the merge loop before iteration k: the block that may still grow, or NULL. */
  function OpenBlock(bs: seq<Block>, k: nat): nat
    requires k <= |bs|
  {
    var acc := Merge(bs[..k]);
    if acc != [] && acc[|acc| - 1].free then acc[|acc| - 1].addr else 0
  }

  lemma MergeStart(bs: seq<Block>)
    ensures Merge(bs[..0]) + bs[0..] == bs && OpenBlock(bs, 0) == 0
  {
  }

  /** What iteration k of the merge loop does to current, and to the list when it does not absorb. */
  lemma OpenBlockStep(bs: seq<Block>, k: nat, lo: nat, hi: nat)
    requires k < |bs| && Ordered(Merge(bs[..k]) + bs[k..], lo, hi) && lo > 0
    ensures OpenBlock(bs, k + 1) ==
      if !bs[k].free then 0 else if OpenBlock(bs, k) == 0 then bs[k].addr else OpenBlock(bs, k)
    ensures !bs[k].free || OpenBlock(bs, k) == 0 ==> Merge(bs[..k + 1]) + bs[k + 1..] == Merge(bs[..k]) + bs[k..]
  {
    var acc := Merge(bs[..k]);
    if acc != [] {
      assert (acc + bs[k..])[|acc| - 1] == acc[|acc| - 1];
    }
    MergePrefix(bs, k);
    hide Merge;
    if !bs[k].free || OpenBlock(bs, k) == 0 {
      assert Merge(bs[..k + 1]) == acc + [bs[k]];
      assert bs[k..] == [bs[k]] + bs[k + 1..];
    }
  }

  lemma {:induction false} MergeAddrs(bs: seq<Block>)
    requires forall b | b in bs :: b.addr > 0
    ensures forall b | b in Merge(bs) :: b.addr > 0
  {
    if bs != [] {
      MergeAddrs(bs[..|bs| - 1]);
    }
  }

  lemma {:induction false} MergeTotal(bs: seq<Block>)
    ensures Total(Merge(bs)) == Total(bs)
  {
    if bs != [] {
      MergeTotal(bs[..|bs| - 1]);
      AbsorbTotal(Merge(bs[..|bs| - 1]), bs[|bs| - 1]);
      hide Absorb;
    }
  }

  lemma AbsorbTotal(acc: seq<Block>, b: Block)
    ensures Total(Absorb(acc, b)) == Total(acc) + b.size + HEADER
  {
    var r := Absorb(acc, b);
    hide Total;
    TotalLast(r);
    if |r| == |acc| {
      TotalLast(acc);
      assert r[..|r| - 1] == acc[..|acc| - 1];
    } else {
      assert r[..|r| - 1] == acc;
    }
  }

  lemma TotalLast(bs: seq<Block>)
    requires bs != []
    ensures Total(bs) == Total(bs[..|bs| - 1]) + bs[|bs| - 1].size + HEADER
  {
  }

  /** Coalescing keeps every used block: its address, its size and its place in the order. */
  lemma {:induction false} MergeUsed(bs: seq<Block>)
    ensures Used(Merge(bs)) == Used(bs)
  {
    if bs != [] {
      var acc, b := Merge(bs[..|bs| - 1]), bs[|bs| - 1];
      MergeUsed(bs[..|bs| - 1]);
      var r := Absorb(acc, b);
      if |r| == |acc| {
        assert r[..|r| - 1] == acc[..|acc| - 1];
      } else {
        assert r[..|r| - 1] == acc;
      }
    }
  }

  /** The partly merged list has the used blocks of the original. */
  lemma MergeStepUsed(bs: seq<Block>, k: nat)
    requires k < |bs|
    ensures Used(Merge(bs[..k]) + [bs[k]] + bs[k + 1..]) == Used(bs)
  {
    UsedThree(Merge(bs[..k]), [bs[k]], bs[k + 1..]);
    MergeUsed(bs[..k]);
    SplitAt(bs, k);
    UsedThree(bs[..k], [bs[k]], bs[k + 1..]);
  }

  lemma {:induction false} MergeEnds(bs: seq<Block>)
    requires bs != []
    ensures Merge(bs)[0].addr == bs[0].addr
    ensures Merge(bs)[|Merge(bs)| - 1].free == bs[|bs| - 1].free
  {
    if |bs| > 1 {
      MergeEnds(bs[..|bs| - 1]);
    } else {
      assert Merge(bs[..0]) == [];
    }
  }

  /** When the loop is over, current is NULL or the new last block; if it is NULL last_hh is still right. */
  lemma MergeDone(bs: seq<Block>, lo: nat, hi: nat)
    requires bs != [] && Ordered(bs, lo, hi) && lo > 0
    ensures Merge(bs[..|bs|]) + bs[|bs|..] == Merge(bs)
    ensures Merge(bs)[0].addr == bs[0].addr
    ensures
      Merge(bs)[|Merge(bs)| - 1].addr ==
      if OpenBlock(bs, |bs|) != 0 then OpenBlock(bs, |bs|) else bs[|bs| - 1].addr
  {
    assert bs[..|bs|] == bs;
    MergeEnds(bs);
    MergeAddrs(bs);
  }

  lemma {:induction false} MergeNoAdjacentFree(bs: seq<Block>)
    ensures NoAdjacentFree(Merge(bs))
  {
    if bs != [] {
      MergeNoAdjacentFree(bs[..|bs| - 1]);
    }
  }

  lemma {:induction false} MergeFixed(bs: seq<Block>)
    requires NoAdjacentFree(bs)
    ensures Merge(bs) == bs
  {
    if bs != [] {
      var n := |bs| - 1;
      MergeFixed(bs[..n]);
      assert bs == bs[..n] + [bs[n]];
      if n > 0 {
        assert bs[..n][n - 1] == bs[n - 1];
      }
    }
  }

  /** A list is left alone by the merge loop exactly when it has no two consecutive free blocks. */
  lemma MergeIdempotent(bs: seq<Block>)
    ensures Merge(Merge(bs)) == Merge(bs)
    ensures Merge(bs) == bs <==> NoAdjacentFree(bs)
  {
    MergeNoAdjacentFree(bs);
    MergeFixed(Merge(bs));
    if NoAdjacentFree(bs) {
      MergeFixed(bs);
    }
  }

  /** Coalescing works piecewise where the boundary is not between two free blocks. */
  lemma {:induction false} MergeConcat(a: seq<Block>, b: seq<Block>)
    requires a == [] || b == [] || !(a[|a| - 1].free && b[0].free)
    ensures Merge(a + b) == Merge(a) + Merge(b)
  {
    if b == [] {
      assert a + b == a;
    } else if a == [] {
      assert a + b == b;
    } else {
      var n := |b| - 1;
      MergeLast(b);
      MergeLast(a + b);
      assert (a + b)[..|a + b| - 1] == a + b[..n];
      MergeConcat(a, b[..n]);
      MergeEnds(a);
      if n == 0 {
        assert b[..0] == [];
        AbsorbApart(Merge(a), b[0]);
        AbsorbApart([], b[0]);
        hide Merge, Absorb;
      } else {
        hide Merge, Absorb;
        AbsorbConcat(Merge(a), Merge(b[..n]), b[n]);
      }
    }
  }

  lemma MergeLast(bs: seq<Block>)
    requires bs != []
    ensures Merge(bs) == Absorb(Merge(bs[..|bs| - 1]), bs[|bs| - 1])
  {
  }

  lemma AbsorbApart(acc: seq<Block>, b: Block)
    requires acc == [] || !(acc[|acc| - 1].free && b.free)
    ensures Absorb(acc, b) == acc + [b]
  {
  }

  lemma AbsorbConcat(acc: seq<Block>, acc': seq<Block>, b: Block)
    requires acc' != []
    ensures Absorb(acc + acc', b) == acc + Absorb(acc', b)
  {
    assert (acc + acc')[|acc + acc'| - 1] == acc'[|acc'| - 1];
  }

  /** Number of free blocks at the front of the list. */
  function FreeRun(bs: seq<Block>): (r: nat)
    ensures r <= |bs|
    ensures forall i | 0 <= i < r :: bs[i].free
    ensures r < |bs| ==> !bs[r].free
  {
    if bs == [] || !bs[0].free then 0 else 1 + FreeRun(bs[1..])
  }

  /** The list with each maximal run of free blocks replaced by one block that spans the run's bytes. */
  function Coalesce(bs: seq<Block>): seq<Block>
    decreases |bs|
  {
    if bs == [] then []
    else if !bs[0].free then [bs[0]] + Coalesce(bs[1..])
    else
      var r := FreeRun(bs);
      assert r > 0;
      TotalAtLeastHeader(bs[..r]);
      [Block(bs[0].addr, Total(bs[..r]) - HEADER, true)] + Coalesce(bs[r..])
  }

  lemma TotalAtLeastHeader(bs: seq<Block>)
    requires bs != []
    ensures Total(bs) >= HEADER
  {
  }

  lemma {:induction false} MergeRun(bs: seq<Block>)
    requires bs != [] && forall i | 0 <= i < |bs| :: bs[i].free
    ensures Merge(bs) == [Block(bs[0].addr, Total(bs) - HEADER, true)]
  {
    if |bs| == 1 {
      assert bs[..0] == [];
    } else {
      MergeRun(bs[..|bs| - 1]);
    }
  }

  /** The in-place merge loop computes the run-by-run coalescing of the list. */
  lemma {:induction false} MergeIsCoalesce(bs: seq<Block>)
    ensures Merge(bs) == Coalesce(bs)
    decreases |bs|
  {
    if bs != [] {
      var r := if bs[0].free then FreeRun(bs) else 1;
      assert bs == bs[..r] + bs[r..];
      MergeConcat(bs[..r], bs[r..]);
      MergeIsCoalesce(bs[r..]);
      if bs[0].free {
        MergeRun(bs[..r]);
      } else {
        MergeFixed(bs[..r]);
        assert bs[..1] == [bs[0]];
      }
    }
  }
}
