// How a block list lies in memory, and which writes keep the list and the payloads intact.

module HeapEncoding {
  import opened Bits
  import opened Memory
  import opened HeapModel
  import opened HeapLemmas
  import opened HeapSteps

  /** The four header words of b: magic_number, size, freed, next. */
  ghost predicate HeaderAt(m: seq<byte>, b: Block, next: nat) {
    && b.addr + HEADER <= |m|
    && Word(m, b.addr) == MAGIC
    && Word(m, b.addr + 4) == b.size
    && Word(m, b.addr + 8) == (if b.free then 1 else 0)
    && Word(m, b.addr + 12) == next
  }

  /** The next pointer of block i; NULL is 0. */
  function Link(bs: seq<Block>, i: nat): nat {
    if i + 1 < |bs| then bs[i + 1].addr else 0
  }

  ghost predicate Encodes(m: seq<byte>, bs: seq<Block>) {
    forall i {:trigger Link(bs, i)} | 0 <= i < |bs| :: HeaderAt(m, bs[i], Link(bs, i))
  }

  /** No payload byte of a block in us differs between m and m'. */
  ghost predicate Kept(m: seq<byte>, m': seq<byte>, us: seq<Block>) {
    forall b | b in us :: SameInside(m, m', b.Payload(), b.End())
  }

  /** The words behind a header that is in the list. */
  lemma HeaderWords(m: seq<byte>, bs: seq<Block>, i: nat, lo: nat, hi: nat)
    requires Ordered(bs, lo, hi) && Encodes(m, bs) && i < |bs| && lo > 0
    ensures HeaderAt(m, bs[i], Link(bs, i))
    ensures lo <= bs[i].addr && bs[i].End() <= hi && bs[i].Payload() <= |m|
    ensures Word(m, bs[i].addr) == MAGIC
    ensures Word(m, bs[i].addr + 4) == bs[i].size
    ensures Word(m, bs[i].addr + 8) == (if bs[i].free then 1 else 0)
    ensures Word(m, bs[i].addr + 12) == Link(bs, i)
    ensures Link(bs, i) == 0 <==> i + 1 == |bs|
    ensures i + 1 < |bs| ==> Link(bs, i) == bs[i + 1].addr
  {
  }

  /** Kept, for every block of us but the one at p. */
  ghost predicate KeptExcept(m: seq<byte>, m': seq<byte>, us: seq<Block>, p: nat) {
    forall b | b in us && b.Payload() != p :: SameInside(m, m', b.Payload(), b.End())
  }

  lemma HeaderNext(m: seq<byte>, b: Block, next: nat)
    requires HeaderAt(m, b, next)
    ensures Word(m, b.addr + 12) == next
  {
  }

  lemma WordFrame(m: seq<byte>, m': seq<byte>, a: nat)
    requires |m| == |m'| && a + 4 <= |m|
    requires SameInside(m, m', a, a + 4)
    ensures Word(m, a) == Word(m', a)
  {
  }

  lemma WordAbove(m: seq<byte>, m': seq<byte>, lo: nat, hi: nat, a: nat)
    requires SameOutside(m, m', lo, hi) && hi <= a && a + 4 <= |m|
    ensures |m'| == |m| && Word(m', a) == Word(m, a)
  {
  }

  lemma HeaderFrame(m: seq<byte>, m': seq<byte>, b: Block, next: nat)
    requires HeaderAt(m, b, next)
    requires SameInside(m, m', b.addr, b.addr + HEADER)
    ensures HeaderAt(m', b, next)
  {
    WordFrame(m, m', b.addr);
    WordFrame(m, m', b.addr + 4);
    WordFrame(m, m', b.addr + 8);
    WordFrame(m, m', b.addr + 12);
  }

  /** Four stores make a header. */
  lemma HeaderStored(m: seq<byte>, m1: seq<byte>, m2: seq<byte>, m3: seq<byte>, m4: seq<byte>, b: Block, next: nat)
    requires b.addr + HEADER <= |m|
    requires SameOutside(m, m1, b.addr, b.addr + 4) && Word(m1, b.addr) == MAGIC
    requires SameOutside(m1, m2, b.addr + 4, b.addr + 8) && Word(m2, b.addr + 4) == b.size
    requires SameOutside(m2, m3, b.addr + 8, b.addr + 12) && Word(m3, b.addr + 8) == (if b.free then 1 else 0)
    requires SameOutside(m3, m4, b.addr + 12, b.addr + 16) && Word(m4, b.addr + 12) == next
    ensures HeaderAt(m4, b, next)
    ensures SameOutside(m, m4, b.addr, b.Payload())
  {
    WordFrame(m1, m4, b.addr);
    WordFrame(m2, m4, b.addr + 4);
    WordFrame(m3, m4, b.addr + 8);
  }

  /** The block that header b describes after word v is stored at an offset into it. */
  function WithField(b: Block, field: nat, v: word): Block {
    if field == 4 then b.(size := v) else if field == 8 then b.(free := v == 1) else b
  }

  /** Storing one field of a header changes that field alone. */
  lemma FieldStored(m: seq<byte>, m': seq<byte>, b: Block, next: nat, field: nat, v: word)
    requires HeaderAt(m, b, next)
    requires field in {4, 8, 12} && (field == 8 ==> v <= 1)
    requires SameOutside(m, m', b.addr + field, b.addr + field + 4) && Word(m', b.addr + field) == v
    ensures HeaderAt(m', WithField(b, field, v), if field == 12 then v else next)
    ensures SameOutside(m, m', b.addr, b.Payload())
  {
    WordFrame(m, m', b.addr);
    if field != 4 { WordFrame(m, m', b.addr + 4); }
    if field != 8 { WordFrame(m, m', b.addr + 8); }
    if field != 12 { WordFrame(m, m', b.addr + 12); }
  }

  // ---- payloads ----

  /** Where a used block lies, seen from block i of the list. */
  lemma UsedPlace(bs: seq<Block>, i: nat, b: Block, lo: nat, hi: nat)
    requires Ordered(bs, lo, hi) && i < |bs| && b in Used(bs)
    ensures !b.free && (b == bs[i] || b.End() <= bs[i].addr || bs[i].End() <= b.addr)
  {
    UsedMember(bs, b);
    hide Used;
    var j :| 0 <= j < |bs| && bs[j] == b;
  }

  /** A write that lies apart from the payloads of us keeps them. */
  lemma KeptOutside(m: seq<byte>, m': seq<byte>, us: seq<Block>, x: nat, y: nat)
    requires SameOutside(m, m', x, y) && forall b | b in us :: b.End() <= x || y <= b.Payload()
    ensures Kept(m, m', us)
  {
  }

  /** A write inside the header of a listed block, used or free, touches no used payload. */
  lemma KeptByHeaderWrite(m: seq<byte>, m': seq<byte>, bs: seq<Block>, i: nat, lo: nat, hi: nat)
    requires Ordered(bs, lo, hi) && i < |bs|
    requires SameOutside(m, m', bs[i].addr, bs[i].Payload())
    ensures Kept(m, m', Used(bs))
  {
    hide Ordered, Used, SameOutside, Kept;
    forall b | b in Used(bs)
      ensures b.End() <= bs[i].addr || bs[i].Payload() <= b.Payload()
    {
      UsedPlace(bs, i, b, lo, hi);
    }
    KeptOutside(m, m', Used(bs), bs[i].addr, bs[i].Payload());
  }

  /** A write anywhere in a free block touches no used payload. */
  lemma KeptByFreeBlockWrite(m: seq<byte>, m': seq<byte>, bs: seq<Block>, i: nat, lo: nat, hi: nat)
    requires Ordered(bs, lo, hi) && i < |bs| && bs[i].free
    requires SameOutside(m, m', bs[i].addr, bs[i].End())
    ensures Kept(m, m', Used(bs))
  {
    hide Ordered, Used, SameOutside, Kept;
    forall b | b in Used(bs)
      ensures b.End() <= bs[i].addr || bs[i].End() <= b.Payload()
    {
      UsedPlace(bs, i, b, lo, hi);
    }
    KeptOutside(m, m', Used(bs), bs[i].addr, bs[i].End());
  }

  /** A write at or above hi touches no payload of a list that ends below hi. */
  lemma KeptByWriteAbove(m: seq<byte>, m': seq<byte>, bs: seq<Block>, lo: nat, hi: nat)
    requires Ordered(bs, lo, hi)
    requires SameOutside(m, m', hi, |m|)
    ensures Kept(m, m', Used(bs))
  {
    hide Used, SameOutside, Kept;
    forall b | b in Used(bs)
      ensures b.End() <= hi
    {
      UsedMember(bs, b);
    }
    KeptOutside(m, m', Used(bs), hi, |m|);
  }

  lemma KeptRefl(m: seq<byte>, us: seq<Block>)
    ensures Kept(m, m, us)
  {
  }

  lemma KeptTransitive(
    m: seq<byte>, m': seq<byte>, m'': seq<byte>, us: seq<Block>, us': seq<Block>, us'': seq<Block>)
    requires Kept(m, m', us) && Kept(m', m'', us')
    requires |m| == |m'| == |m''|
    requires forall b | b in us'' :: b in us && b in us'
    ensures Kept(m, m'', us'')
  {
  }

  lemma KeptThen(m: seq<byte>, m': seq<byte>, m'': seq<byte>, us: seq<Block>)
    requires Kept(m, m', us) && Kept(m', m'', us) && |m| == |m'| == |m''|
    ensures Kept(m, m'', us)
  {
  }

  /** Setting the freed word in front of a stale pointer changes neither the list nor a used payload. */
  lemma StaleWrite(m: seq<byte>, m': seq<byte>, s: HeapState, lo: nat, p: nat)
    requires Ordered(s.blocks, lo, s.curr) && Encodes(m, s.blocks) && Stale(s, p) && p >= HEADER
    requires SameOutside(m, m', p - 8, p - 4)
    ensures Encodes(m', s.blocks) && Kept(m, m', Used(s.blocks))
  {
    var bs := s.blocks;
    hide Kept, Used, HeaderAt, Link, Ordered, Listed;
    forall i | 0 <= i < |bs|
      ensures HeaderAt(m', bs[i], Link(bs, i))
    {
      assert HeaderAt(m, bs[i], Link(bs, i));
      HeaderFrame(m, m', bs[i], Link(bs, i));
    }
    forall b | b in Used(bs)
      ensures b.End() <= p - 8 || p - 4 <= b.Payload()
    {
      UsedMember(bs, b);
      var j :| 0 <= j < |bs| && bs[j] == b;
    }
    KeptOutside(m, m', Used(bs), p - 8, p - 4);
  }

  // ---- list surgery ----

  /** A write within block i leaves every other header alone. */
  lemma HeaderKept(m: seq<byte>, m': seq<byte>, bs: seq<Block>, i: nat, j: nat, lo: nat, hi: nat)
    requires Ordered(bs, lo, hi) && Encodes(m, bs) && i < |bs| && j < |bs| && j != i
    requires SameOutside(m, m', bs[i].addr, bs[i].End())
    ensures HeaderAt(m', bs[j], Link(bs, j))
  {
    assert HeaderAt(m, bs[j], Link(bs, j));
    if i < j { OrderedPair(bs, i, j, lo, hi); } else { OrderedPair(bs, j, i, lo, hi); }
    hide Ordered, Encodes, Link, HeaderAt;
    HeaderFrame(m, m', bs[j], Link(bs, j));
  }

  /** One block's header is rewritten in place, its address unchanged. */
  lemma EncodesRewrite(m: seq<byte>, m': seq<byte>, bs: seq<Block>, i: nat, b: Block, lo: nat, hi: nat)
    requires Ordered(bs, lo, hi) && Encodes(m, bs) && i < |bs|
    requires SameOutside(m, m', bs[i].addr, bs[i].Payload())
    requires b.addr == bs[i].addr && HeaderAt(m', b, Link(bs, i))
    ensures Encodes(m', bs[i := b])
  {
    var bs' := bs[i := b];
    forall j | 0 <= j < |bs'|
      ensures HeaderAt(m', bs'[j], Link(bs', j))
    {
      assert Link(bs', j) == Link(bs, j);
      if j != i {
        assert HeaderAt(m, bs[j], Link(bs, j));
        HeaderFrame(m, m', bs[j], Link(bs, j));
      }
    }
  }

  /** Block i shrinks to size bytes and a new header is linked in behind its payload. */
  lemma EncodesSplit(m: seq<byte>, m': seq<byte>, bs: seq<Block>, i: nat, size: nat, lo: nat, hi: nat)
    requires Ordered(bs, lo, hi) && Encodes(m, bs) && i < |bs|
    requires bs[i].size > size + HEADER
    requires SameOutside(m, m', bs[i].addr, bs[i].End())
    requires
      var p := Pieces(bs[i], size);
      HeaderAt(m', p[0], p[1].addr) && HeaderAt(m', p[1], Link(bs, i))
    ensures Encodes(m', Take(bs, i, size))
  {
    var t := Take(bs, i, size);
    forall j: nat | j < |t|
      ensures HeaderAt(m', t[j], Link(t, j))
    {
      SplitKeeps(m, m', bs, i, size, lo, hi, j);
    }
    hide Ordered, HeaderAt, SameOutside, Take, Link;
  }

  lemma SplitKeeps(m: seq<byte>, m': seq<byte>, bs: seq<Block>, i: nat, size: nat, lo: nat, hi: nat, j: nat)
    requires Ordered(bs, lo, hi) && Encodes(m, bs) && i < |bs|
    requires bs[i].size > size + HEADER && j < |Take(bs, i, size)|
    requires SameOutside(m, m', bs[i].addr, bs[i].End())
    requires
      var p := Pieces(bs[i], size);
      HeaderAt(m', p[0], p[1].addr) && HeaderAt(m', p[1], Link(bs, i))
    ensures HeaderAt(m', Take(bs, i, size)[j], Link(Take(bs, i, size), j))
  {
    hide Ordered, HeaderAt, SameOutside, Take, Link, Encodes;
    SplitLinks(bs, i, size, j);
    if j < i {
      HeaderKept(m, m', bs, i, j, lo, hi);
    } else if j > i + 1 {
      HeaderKept(m, m', bs, i, j - 1, lo, hi);
    }
  }

  /** Node j of the list after a split of block i, and its next pointer. */
  lemma SplitLinks(bs: seq<Block>, i: nat, size: nat, j: nat)
    requires i < |bs| && bs[i].size > size + HEADER && j < |Take(bs, i, size)|
    ensures
      var t, p := Take(bs, i, size), Pieces(bs[i], size);
      && |t| == |bs| + 1
      && t[j] == (if j < i then bs[j] else if j == i then p[0] else if j == i + 1 then p[1] else bs[j - 1])
      && Link(t, j) ==
         (if j < i then Link(bs, j) else if j == i then p[1].addr else if j == i + 1 then Link(bs, i)
          else Link(bs, j - 1))
  {
  }

  /** The four writes of _split_block, in order: b shrinks to size bytes and q takes up the rest. */
  lemma SplitStored(
    m0: seq<byte>, m1: seq<byte>, m2: seq<byte>, m3: seq<byte>, m4: seq<byte>, b: Block, q: Block, size: word,
    next: nat)
    requires HeaderAt(m0, b, next) && b.End() <= |m0| && b.End() < 0x1_0000_0000
    requires q.addr == b.Payload() + size && q.End() == b.End() && q.free
    requires HeaderAt(m1, q.(free := false), next) && SameOutside(m0, m1, q.addr, q.Payload())
    requires SameOutside(m1, m2, q.addr + 8, q.addr + 12) && Word(m2, q.addr + 8) == 1
    requires SameOutside(m2, m3, b.addr + 4, b.addr + 8) && Word(m3, b.addr + 4) == size
    requires SameOutside(m3, m4, b.addr + 12, b.addr + 16) && Word(m4, b.addr + 12) == q.addr
    ensures HeaderAt(m4, b.(size := size), q.addr)
    ensures HeaderAt(m4, q, next)
    ensures SameOutside(m0, m4, b.addr, b.End())
  {
    hide Word, HeaderAt;
    HeaderFrame(m0, m1, b, next);
    FieldStored(m1, m2, q.(free := false), next, 8, 1);
    HeaderFrame(m1, m2, b, next);
    SizeAndNextStored(m2, m3, m4, b, next, size, q.addr);
    HeaderFrame(m2, m4, q, next);
  }

  /** In after, block n of before has been absorbed into block n - 1. */
  ghost predicate Absorbed(before: seq<Block>, after: seq<Block>, n: nat) {
    && 0 < n < |before| && |after| == |before| - 1
    && (forall j | 0 <= j < n - 1 :: after[j] == before[j])
    && (forall j | n <= j < |after| :: after[j] == before[j + 1])
    && after[n - 1] == before[n - 1].(size := before[n - 1].size + before[n].size + HEADER)
  }

  lemma AbsorbedLink(before: seq<Block>, after: seq<Block>, n: nat, j: nat)
    requires Absorbed(before, after, n) && j < |after|
    ensures Link(after, j) == (if j < n - 1 then Link(before, j) else Link(before, j + 1))
    ensures j != n - 1 ==> after[j] == before[if j < n then j else j + 1]
  {
    if j + 1 < |after| && j + 1 >= n {
      assert after[j + 1] == before[j + 2];
    }
  }

  /** An absorption rewrites only the header of the block that grows. */
  lemma EncodesAbsorb(m: seq<byte>, m': seq<byte>, before: seq<Block>, after: seq<Block>, n: nat, lo: nat, hi: nat)
    requires Absorbed(before, after, n)
    requires Ordered(before, lo, hi) && Encodes(m, before)
    requires SameOutside(m, m', before[n - 1].addr, before[n - 1].End())
    requires HeaderAt(m', after[n - 1], Link(before, n))
    ensures Encodes(m', after)
  {
    forall j: nat | j < |after|
      ensures HeaderAt(m', after[j], Link(after, j))
    {
      AbsorbKeeps(m, m', before, after, n, lo, hi, j);
    }
  }

  lemma AbsorbKeeps(
    m: seq<byte>, m': seq<byte>, before: seq<Block>, after: seq<Block>, n: nat, lo: nat, hi: nat, j: nat)
    requires Absorbed(before, after, n) && j < |after|
    requires Ordered(before, lo, hi) && Encodes(m, before)
    requires SameOutside(m, m', before[n - 1].addr, before[n - 1].End())
    requires HeaderAt(m', after[n - 1], Link(before, n))
    ensures HeaderAt(m', after[j], Link(after, j))
  {
    hide Ordered, HeaderAt, SameOutside, Link, Encodes;
    AbsorbedLink(before, after, n, j);
    if j != n - 1 {
      HeaderKept(m, m', before, n - 1, if j < n then j else j + 1, lo, hi);
    }
  }

  /** A block is linked in behind the last one. */
  lemma EncodesAppend(m: seq<byte>, m': seq<byte>, bs: seq<Block>, b: Block, lo: nat, hi: nat)
    requires Ordered(bs, lo, hi) && Encodes(m, bs)
    requires hi <= b.addr && HeaderAt(m', b, 0) && |m| == |m'|
    requires bs == [] || HeaderAt(m', bs[|bs| - 1], b.addr)
    requires forall k | 0 <= k < hi && (bs == [] || k < bs[|bs| - 1].addr) :: m[k] == m'[k]
    ensures Encodes(m', bs + [b])
  {
    var bs' := bs + [b];
    forall j | 0 <= j < |bs'|
      ensures HeaderAt(m', bs'[j], Link(bs', j))
    {
      if j < |bs| - 1 {
        assert HeaderAt(m, bs[j], Link(bs, j));
        HeaderFrame(m, m', bs[j], Link(bs, j));
      }
    }
  }

  /** The bump path stores a header at hi, above the list, and then links it in behind the last block. */
  lemma LinkStored(m0: seq<byte>, m1: seq<byte>, m2: seq<byte>, bs: seq<Block>, b: Block, lo: nat, hi: nat)
    requires bs != [] && Ordered(bs, lo, hi) && Encodes(m0, bs)
    requires 0 < lo && hi == b.addr < 0x1_0000_0000 && b.Payload() <= |m0|
    requires HeaderAt(m1, b, 0) && SameOutside(m0, m1, hi, b.Payload())
    requires
      var last := bs[|bs| - 1].addr;
      last + 16 <= |m1| && SameOutside(m1, m2, last + 12, last + 16) && Word(m2, last + 12) == hi
    ensures Encodes(m2, bs + [b])
    ensures Kept(m0, m2, Used(bs))
  {
    var n := |bs| - 1;
    hide Ordered, Encodes, HeaderAt, Word, Link, Kept, Used;
    HeaderWords(m0, bs, n, lo, hi);
    HeaderFrame(m0, m1, bs[n], 0);
    FieldStored(m1, m2, bs[n], 0, 12, hi);
    HeaderFrame(m1, m2, b, 0);
    EncodesAppend(m0, m2, bs, b, lo, hi);
    KeptByWriteAbove(m0, m1, bs, lo, hi);
    KeptByHeaderWrite(m1, m2, bs, n, lo, hi);
    KeptThen(m0, m1, m2, Used(bs));
  }

  /** A client that writes only inside the payload of one used block cannot damage the list. */
  lemma PayloadWrite(m: seq<byte>, m': seq<byte>, bs: seq<Block>, b: Block, lo: nat, hi: nat)
    requires Ordered(bs, lo, hi) && Encodes(m, bs) && b in Used(bs)
    requires SameOutside(m, m', b.Payload(), b.End())
    ensures Encodes(m', bs)
    ensures KeptExcept(m, m', Used(bs), b.Payload())
  {
    UsedMember(bs, b);
    var i :| 0 <= i < |bs| && bs[i] == b;
    HeaderFrame(m, m', b, Link(bs, i));
    hide Ordered, HeaderAt, Link, Used;
    forall j | 0 <= j < |bs|
      ensures HeaderAt(m', bs[j], Link(bs, j))
    {
      if j != i {
        HeaderKept(m, m', bs, i, j, lo, hi);
      }
    }
    forall c | c in Used(bs) && c.Payload() != b.Payload()
      ensures SameInside(m, m', c.Payload(), c.End())
    {
      UsedDisjoint(bs, lo, hi, b, c);
    }
  }

  // ---- the merge loop ----

  /** The list in memory before iteration k of the merge loop over the list bs. */
  function Partly(bs: seq<Block>, k: nat): seq<Block>
    requires k <= |bs|
  {
    Merge(bs[..k]) + bs[k..]
  }

  ghost predicate Merging(m: seq<byte>, bs: seq<Block>, k: nat, lo: nat, hi: nat) {
    k <= |bs| && 0 < lo && hi <= |m| && Ordered(Partly(bs, k), lo, hi) && Encodes(m, Partly(bs, k))
  }

  lemma MergingStart(m: seq<byte>, bs: seq<Block>, lo: nat, hi: nat)
    requires 0 < lo && hi <= |m| && Ordered(bs, lo, hi) && Encodes(m, bs)
    ensures Merging(m, bs, 0, lo, hi)
  {
    MergeStart(bs);
  }

  lemma MergingDone(m: seq<byte>, bs: seq<Block>, lo: nat, hi: nat)
    requires bs != [] && Merging(m, bs, |bs|, lo, hi)
    ensures Ordered(Merge(bs), lo, hi) && Encodes(m, Merge(bs))
  {
    assert bs[..|bs|] == bs && Partly(bs, |bs|) == Merge(bs);
  }

  /** What the loop reads at iteration k. */
  lemma MergingReads(m: seq<byte>, bs: seq<Block>, k: nat, lo: nat, hi: nat)
    requires k < |bs| && Merging(m, bs, k, lo, hi)
    ensures lo <= bs[k].addr && bs[k].End() <= hi <= |m|
    ensures Word(m, bs[k].addr + 4) == bs[k].size
    ensures Word(m, bs[k].addr + 8) == (if bs[k].free then 1 else 0)
    ensures Word(m, bs[k].addr + 12) == Link(bs, k)
    ensures Link(bs, k) == (if k + 1 < |bs| then bs[k + 1].addr else 0)
    ensures k + 1 < |bs| ==> bs[k + 1].addr > 0
  {
    var all, n := Partly(bs, k), |Merge(bs[..k])|;
    assert all[n] == bs[k] && (k + 1 < |bs| ==> all[n + 1] == bs[k + 1]) && Link(all, n) == Link(bs, k);
    hide Merge, Ordered, Encodes, HeaderAt, Word, Partly;
    HeaderWords(m, all, n, lo, hi);
    if k + 1 < |bs| {
      HeaderWords(m, all, n + 1, lo, hi);
    }
  }

  /** An iteration that writes nothing. */
  lemma MergingSkip(m: seq<byte>, bs: seq<Block>, k: nat, lo: nat, hi: nat)
    requires k < |bs| && Merging(m, bs, k, lo, hi)
    requires !bs[k].free || OpenBlock(bs, k) == 0
    ensures Merging(m, bs, k + 1, lo, hi)
  {
    OpenBlockStep(bs, k, lo, hi);
    assert Partly(bs, k) == Merge(bs[..k]) + [bs[k]] + bs[k + 1..];
  }

  lemma MergingCurrent(m: seq<byte>, bs: seq<Block>, k: nat, lo: nat, hi: nat)
    requires k < |bs| && Merging(m, bs, k, lo, hi)
    ensures OpenBlock(bs, k + 1) ==
      if !bs[k].free then 0 else if OpenBlock(bs, k) == 0 then bs[k].addr else OpenBlock(bs, k)
  {
    OpenBlockStep(bs, k, lo, hi);
  }

  /** The block named by current, seen in the list. */
  lemma MergingOpen(m: seq<byte>, bs: seq<Block>, k: nat, lo: nat, hi: nat)
    requires k < |bs| && Merging(m, bs, k, lo, hi) && OpenBlock(bs, k) != 0
    ensures
      var acc := Merge(bs[..k]);
      && acc != [] && acc[|acc| - 1].free && acc[|acc| - 1].addr == OpenBlock(bs, k)
      && HeaderAt(m, acc[|acc| - 1], bs[k].addr)
      && Word(m, OpenBlock(bs, k) + 4) == acc[|acc| - 1].size
      && lo <= OpenBlock(bs, k) && acc[|acc| - 1].End() <= bs[k].addr
  {
    var acc, n := Merge(bs[..k]), |Merge(bs[..k])|;
    assert Partly(bs, k)[n - 1] == acc[n - 1] && Partly(bs, k)[n] == bs[k];
    hide Merge, Ordered, Encodes, HeaderAt, Word, Partly;
    HeaderWords(m, Partly(bs, k), n - 1, lo, hi);
    OrderedPair(Partly(bs, k), n - 1, n, lo, hi);
  }

  /** The two stores with which the open block absorbs block k. */
  lemma MergingAbsorb(m0: seq<byte>, m1: seq<byte>, m2: seq<byte>, bs: seq<Block>, k: nat, lo: nat, hi: nat)
    requires k < |bs| && Merging(m0, bs, k, lo, hi) && bs[k].free && OpenBlock(bs, k) != 0 && hi < 0x1_0000_0000
    requires
      var c := OpenBlock(bs, k);
      && c + 16 <= |m0|
      && SameOutside(m0, m1, c + 4, c + 8) && Word(m1, c + 4) == Word(m0, c + 4) + bs[k].size + HEADER
      && SameOutside(m1, m2, c + 12, c + 16) && Word(m2, c + 12) == Link(bs, k)
    ensures Merging(m2, bs, k + 1, lo, hi)
    ensures SameOutside(m0, m2, OpenBlock(bs, k), OpenBlock(bs, k) + HEADER)
  {
    hide Merge, Ordered, Absorbed, Partly, Encodes, HeaderAt, Word, Link, OpenBlock, Merging, SameOutside;
    var n := |Merge(bs[..k])|;
    var c, size := OpenBlockGrows(m0, bs, k, lo, hi);
    SizeAndNextStored(m0, m1, m2, c, bs[k].addr, size, Link(bs, k));
    MergingFrom(m0, m2, bs, k, n, lo, hi);
  }

  /** The open block in the list before and after it absorbs block k. */
  lemma OpenBlockGrows(m: seq<byte>, bs: seq<Block>, k: nat, lo: nat, hi: nat) returns (c: Block, size: word)
    requires k < |bs| && Merging(m, bs, k, lo, hi) && bs[k].free && OpenBlock(bs, k) != 0 && hi < 0x1_0000_0000
    ensures
      var n := |Merge(bs[..k])|;
      && Absorbed(Partly(bs, k), Partly(bs, k + 1), n)
      && Partly(bs, k)[n - 1] == c && Partly(bs, k + 1)[n - 1] == c.(size := size)
      && Link(Partly(bs, k), n) == Link(bs, k) <= hi
    ensures Ordered(Partly(bs, k + 1), lo, hi)
    ensures HeaderAt(m, c, bs[k].addr) && c.addr == OpenBlock(bs, k) && c.addr + 16 <= |m|
    ensures size == Word(m, c.addr + 4) + bs[k].size + HEADER
  {
    var n := |Merge(bs[..k])|;
    PartlyAbsorbs(bs, k, lo, hi);
    MergingOpen(m, bs, k, lo, hi);
    MergingReads(m, bs, k, lo, hi);
    hide Word, Merge, Partly, OpenBlock, Link, Ordered, Encodes, Merging;
    c := Partly(bs, k)[n - 1];
    size := c.size + bs[k].size + HEADER;
  }

  lemma MergingFrom(m0: seq<byte>, m2: seq<byte>, bs: seq<Block>, k: nat, n: nat, lo: nat, hi: nat)
    requires k < |bs| && Merging(m0, bs, k, lo, hi) && Ordered(Partly(bs, k + 1), lo, hi)
    requires Absorbed(Partly(bs, k), Partly(bs, k + 1), n)
    requires SameOutside(m0, m2, Partly(bs, k)[n - 1].addr, Partly(bs, k)[n - 1].End())
    requires HeaderAt(m2, Partly(bs, k + 1)[n - 1], Link(Partly(bs, k), n))
    ensures Merging(m2, bs, k + 1, lo, hi)
  {
    hide Absorbed, Partly, Ordered, Encodes, HeaderAt, Link;
    EncodesAbsorb(m0, m2, Partly(bs, k), Partly(bs, k + 1), n, lo, hi);
  }

  lemma SizeAndNextStored(m0: seq<byte>, m1: seq<byte>, m2: seq<byte>, b: Block, next: nat, size: word, far: word)
    requires HeaderAt(m0, b, next)
    requires SameOutside(m0, m1, b.addr + 4, b.addr + 8) && Word(m1, b.addr + 4) == size
    requires SameOutside(m1, m2, b.addr + 12, b.addr + 16) && Word(m2, b.addr + 12) == far
    ensures HeaderAt(m2, b.(size := size), far)
    ensures SameOutside(m0, m2, b.addr, b.Payload()) && SameOutside(m0, m2, b.addr, b.End())
  {
    FieldStored(m0, m1, b, next, 4, size);
    FieldStored(m1, m2, b.(size := size), next, 12, far);
  }

  lemma PartlyAbsorbs(bs: seq<Block>, k: nat, lo: nat, hi: nat)
    requires k < |bs| && Ordered(Partly(bs, k), lo, hi) && 0 < lo && bs[k].free && OpenBlock(bs, k) != 0
    ensures
      var n := |Merge(bs[..k])|;
      && Absorbed(Partly(bs, k), Partly(bs, k + 1), n)
      && Partly(bs, k)[n] == bs[k] && Partly(bs, k)[n - 1] == Merge(bs[..k])[n - 1]
      && Link(Partly(bs, k), n) == Link(bs, k)
    ensures Ordered(Partly(bs, k + 1), lo, hi)
  {
    var acc, b, rest := Merge(bs[..k]), bs[k], bs[k + 1..];
    OpenBlockLast(bs, k);
    MergePrefix(bs, k);
    SuffixStep(acc, bs, k);
    PartlyLink(bs, k);
    hide Merge, Ordered, Absorbed, Link, OpenBlock;
    AbsorbShape(acc, b, rest);
    AbsorbOrdered(acc, b, rest, lo, hi);
  }

  lemma OpenBlockLast(bs: seq<Block>, k: nat)
    requires k <= |bs| && OpenBlock(bs, k) != 0
    ensures Merge(bs[..k]) != [] && Merge(bs[..k])[|Merge(bs[..k])| - 1].free
  {
  }

  lemma PartlyLink(bs: seq<Block>, k: nat)
    requires k < |bs|
    ensures
      var n := |Merge(bs[..k])|;
      && Partly(bs, k)[n] == bs[k] && (n > 0 ==> Partly(bs, k)[n - 1] == Merge(bs[..k])[n - 1])
      && Link(Partly(bs, k), n) == Link(bs, k)
  {
  }

  lemma AbsorbShape(acc: seq<Block>, b: Block, rest: seq<Block>)
    requires acc != [] && acc[|acc| - 1].free && b.free
    ensures Absorbed(acc + [b] + rest, Absorb(acc, b) + rest, |acc|)
  {
  }

  /** The absorbing stores touch no used payload. */
  lemma MergingKept(m0: seq<byte>, m2: seq<byte>, bs: seq<Block>, k: nat, lo: nat, hi: nat)
    requires k < |bs| && Merging(m0, bs, k, lo, hi) && OpenBlock(bs, k) != 0
    requires SameOutside(m0, m2, OpenBlock(bs, k), OpenBlock(bs, k) + HEADER)
    ensures Kept(m0, m2, Used(bs))
  {
    var n := |Merge(bs[..k])|;
    MergingOpen(m0, bs, k, lo, hi);
    PartlyUsed(bs, k);
    hide HeaderAt, Word, Merge, Partly, OpenBlock, Used, Kept, SameOutside;
    KeptByHeaderWrite(m0, m2, Partly(bs, k), n - 1, lo, hi);
  }

  lemma PartlyUsed(bs: seq<Block>, k: nat)
    requires k < |bs|
    ensures Used(Partly(bs, k)) == Used(bs)
    ensures var acc := Merge(bs[..k]); acc != [] ==> Partly(bs, k)[|acc| - 1] == acc[|acc| - 1]
  {
    assert Partly(bs, k) == Merge(bs[..k]) + [bs[k]] + bs[k + 1..];
    MergeStepUsed(bs, k);
  }

  // ---- realloc ----

  function Min(a: nat, b: nat): nat {
    if a < b then a else b
  }

  /** The c bytes at p in m are the c bytes at r in m'. */
  ghost predicate Arrived(m: seq<byte>, p: nat, m': seq<byte>, r: nat, c: nat) {
    |m| == |m'| && p + c <= |m| && r + c <= |m| && m'[r..r + c] == m[p..p + c]
  }

  /** The block that realloc is to leave, while the new one is being filled. */
  lemma ReallocBlocks(s: HeapState, base: nat, size: nat, p: nat)
    requires Ordered(s.blocks, base, s.curr) && base <= s.curr && Live(s, p)
    ensures
      var t, n, b := Malloc(s, size), MallocBlock(s, size), s.blocks[IndexOf(s.blocks, p)];
      && Listed(t, p) && p == b.Payload() && b in Used(s.blocks) && b in Used(t.blocks)
      && n in Used(t.blocks) && n.Payload() == MallocResult(s, size) && n.size >= size
      && n.End() <= t.curr && b.End() <= t.curr
      && (b.End() <= n.addr || n.End() <= b.addr)
      && (forall c :: c in Used(Realloc(s, p, size).blocks) <==> (c in Used(s.blocks) && c.Payload() != p) || c == n)
  {
    var t, n := Malloc(s, size), MallocBlock(s, size);
    LiveIsUsed(s, base, p);
    var b := s.blocks[IndexOf(s.blocks, p)];
    MallocOrdered(s, base, size);
    MallocUsed(s, size);
    MallocFresh(s, base, size, b);
    LiveIsUsed(t, base, p);
    UsedMember(t.blocks, n);
    UsedMember(t.blocks, b);
    FreeUsed(t, base, p);
  }

  /** The copy fills the new payload and nothing else; the old payload arrives as far as it reaches. */
  lemma CopyStored(m: seq<byte>, m': seq<byte>, bs: seq<Block>, lo: nat, hi: nat, b: Block, n: Block, size: nat)
    requires Ordered(bs, lo, hi) && Encodes(m, bs) && 0 < lo && hi <= |m|
    requires b in Used(bs) && n in Used(bs) && size <= n.size && n.End() <= |m| && b.Payload() + size <= |m|
    requires b.End() <= n.addr || n.End() <= b.addr
    requires m' == ForwardCopy(m, n.Payload(), b.Payload(), size)
    ensures Encodes(m', bs)
    ensures KeptExcept(m, m', Used(bs), n.Payload())
    ensures Arrived(m, b.Payload(), m', n.Payload(), Min(size, b.size))
    ensures b.addr + 4 <= |m'| && Word(m', b.addr) == MAGIC
  {
    CopyBytes(m, n.Payload(), b.Payload(), size, b.size);
    hide ForwardCopy, Encodes, Ordered, Used, HeaderAt, Word;
    PayloadWrite(m, m', bs, n, lo, hi);
    UsedMember(bs, b);
    var i :| 0 <= i < |bs| && bs[i] == b;
    HeaderWords(m', bs, i, lo, hi);
  }

  /** memcpy to a place apart from the first count source bytes: they arrive, and nothing else changes. */
  lemma CopyBytes(m: seq<byte>, dst: nat, src: nat, size: nat, count: nat)
    requires dst + size <= |m| && src + size <= |m|
    requires src + count <= dst || dst <= src
    ensures SameOutside(m, ForwardCopy(m, dst, src, size), dst, dst + size)
    ensures Arrived(m, src, ForwardCopy(m, dst, src, size), dst, Min(size, count))
  {
    var m' := ForwardCopy(m, dst, src, size);
    forall k: nat | k < |m| && !(dst <= k < dst + size)
      ensures m[k] == m'[k]
    {
      ForwardCopyFrame(m, dst, src, size, k);
    }
    var c := Min(size, count);
    var arrived, sent := m'[dst..dst + c], m[src..src + c];
    forall k: nat | k < c
      ensures arrived[k] == sent[k]
    {
      ForwardCopyDelivers(m, dst, src, size, k);
    }
  }

  /** The three phases of realloc, seen from the payloads. */
  lemma ReallocKept(
    m0: seq<byte>, m1: seq<byte>, m2: seq<byte>, m3: seq<byte>,
    us: seq<Block>, us1: seq<Block>, us3: seq<Block>, n: Block, p: nat)
    requires Kept(m0, m1, us) && KeptExcept(m1, m2, us1, n.Payload()) && Kept(m2, m3, us3)
    requires |m0| == |m1| == |m2| == |m3|
    requires forall c | c in us :: c in us1 && c.Payload() != n.Payload()
    requires forall c | c in us && c.Payload() != p :: c in us3
    ensures KeptExcept(m0, m3, us, p)
  {
  }

  lemma ReallocCopied(
    m0: seq<byte>, m1: seq<byte>, m2: seq<byte>, m3: seq<byte>,
    us: seq<Block>, us3: seq<Block>, b: Block, n: Block, size: nat)
    requires Kept(m0, m1, us) && Kept(m2, m3, us3) && b in us && n in us3
    requires |m0| == |m1| == |m2| == |m3| && b.End() <= |m0| && n.End() <= |m0| && size <= n.size
    requires Arrived(m1, b.Payload(), m2, n.Payload(), Min(size, b.size))
    ensures Arrived(m0, b.Payload(), m3, n.Payload(), Min(size, b.size))
  {
    var c := Min(size, b.size);
    assert SameInside(m0, m1, b.Payload(), b.End());
    assert SameInside(m2, m3, n.Payload(), n.End());
    assert m0[b.Payload()..b.Payload() + c] == m1[b.Payload()..b.Payload() + c];
    assert m2[n.Payload()..n.Payload() + c] == m3[n.Payload()..n.Payload() + c];
  }

  /** What realloc has done to the payloads once the old block is freed. */
  lemma ReallocDone(
    m0: seq<byte>, m1: seq<byte>, m2: seq<byte>, m3: seq<byte>, s: HeapState, base: nat, size: nat, p: nat)
    requires Ordered(s.blocks, base, s.curr) && base <= s.curr && Live(s, p)
    requires |m0| == |m1| == |m2| == |m3| && Malloc(s, size).curr <= |m0|
    requires Kept(m0, m1, Used(s.blocks))
    requires KeptExcept(m1, m2, Used(Malloc(s, size).blocks), MallocResult(s, size))
    requires Kept(m2, m3, Used(Realloc(s, p, size).blocks))
    requires Arrived(m1, p, m2, MallocResult(s, size), Min(size, PayloadSize(s, p)))
    ensures KeptExcept(m0, m3, Used(s.blocks), p)
    ensures Arrived(m0, p, m3, MallocResult(s, size), Min(size, PayloadSize(s, p)))
  {
    var n, b := MallocBlock(s, size), s.blocks[IndexOf(s.blocks, p)];
    hide Ordered, Malloc, Used, MallocBlock, Realloc, Live, Listed, Kept, KeptExcept, MallocResult, Arrived, Min;
    ReallocBlocks(s, base, size, p);
    UsedApart(s, base, size);
    ReallocKept(m0, m1, m2, m3, Used(s.blocks), Used(Malloc(s, size).blocks), Used(Realloc(s, p, size).blocks), n, p);
    ReallocCopied(m0, m1, m2, m3, Used(s.blocks), Used(Realloc(s, p, size).blocks), b, n, size);
  }
}
