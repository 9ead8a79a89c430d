// The allocator itself: list headers stored inside the memory that it hands out.

module KernelHeap {
  import opened Bits
  import opened Memory
  import opened HeapModel
  import opened HeapLemmas
  import opened HeapEncoding
  import opened HeapSteps

  /** The value of a 32-bit word read as a C int. */
  function AsInt(x: word): int {
    if x < 0x8000_0000 then x else x - 0x1_0000_0000
  }

  lemma BytesOfWord(v: word)
    ensures v / 0x100_0000 < 0x100
    ensures v ==
      v % 0x100 + 0x100 * (v / 0x100 % 0x100) + 0x1_0000 * (v / 0x1_0000 % 0x100) + 0x100_0000 * (v / 0x100_0000)
  {
    var a := v / 0x100;
    var b := v / 0x1_0000;
    assert a / 0x100 == b && b / 0x100 == v / 0x100_0000;
    assert v == 0x100 * a + v % 0x100 && a == 0x100 * b + a % 0x100 && b == 0x100 * (b / 0x100) + b % 0x100;
  }

  class Heap {
    const mem: array<byte>
    ghost const base: nat
    var curr: nat    // curr_addr
    var first: nat   // frist_hh, 0 for NULL
    var last: nat    // last_hh, 0 for NULL
    ghost var blocks: seq<Block>

    ghost predicate Valid()
      reads this, mem
    {
      && 0 < base <= curr <= mem.Length <= 0x8000_0000
      && Ordered(blocks, base, curr)
      && Encodes(mem[..], blocks)
      && first == (if blocks == [] then 0 else blocks[0].addr)
      && last == (if blocks == [] then 0 else blocks[|blocks| - 1].addr)
    }

    ghost function State(): HeapState
      reads this
    {
      HeapState(blocks, curr)
    }

    constructor (memory: array<byte>, start: nat)
      requires 0 < start <= memory.Length <= 0x8000_0000
      ensures Valid() && State() == HeapState([], start)
      ensures mem == memory && base == start
    {
      mem, base := memory, start;
      curr, first, last := start, 0, 0;
      blocks := [];
    }

    method Store(a: nat, v: word)
      requires a + 4 <= mem.Length
      modifies mem
      ensures Word(mem[..], a) == v
      ensures SameOutside(old(mem[..]), mem[..], a, a + 4)
    {
      BytesOfWord(v);
      mem[a], mem[a + 1] := v % 0x100, v / 0x100 % 0x100;
      mem[a + 2], mem[a + 3] := v / 0x1_0000 % 0x100, v / 0x100_0000;
    }

    function Load(a: nat): word
      requires a + 4 <= mem.Length
      reads mem
    {
      Word(mem[..], a)
    }

    /** *(KheapHeader*)addr = _new_header(size, next) */
    method StoreNewHeader(addr: nat, size: nat, next: word)
      requires addr + HEADER <= mem.Length && addr + HEADER + size < 0x1_0000_0000
      modifies mem
      ensures HeaderAt(mem[..], Block(addr, size, false), next)
      ensures SameOutside(old(mem[..]), mem[..], addr, addr + HEADER)
    {
      Store(addr, MAGIC);
      ghost var m1 := mem[..];
      Store(addr + 4, size);
      ghost var m2 := mem[..];
      Store(addr + 8, 0);
      ghost var m3 := mem[..];
      Store(addr + 12, next);
      HeaderStored(old(mem[..]), m1, m2, m3, mem[..], Block(addr, size, false), next);
    }

    /** _split_block on the block at index i, which has just been marked used. */
    method SplitBlock(header: nat, size: nat, ghost i: nat)
      requires Valid() && i < |blocks| && header == blocks[i].addr
      requires !blocks[i].free && size <= blocks[i].size
      modifies this`last, this`blocks, mem
      ensures Valid()
      ensures blocks == old(Take(blocks, i, size))
      ensures SameOutside(old(mem[..]), mem[..], header, old(blocks[i].End()))
    {
      hide Take, Encodes, Ordered, HeaderAt, Word, Link;
      ghost var m0, bs, b := mem[..], blocks, blocks[i];
      HeaderWords(m0, bs, i, base, curr);
      var newSize := AsInt((Load(header + 4) - size - HEADER) % 0x1_0000_0000);
      assert newSize == b.size - size - HEADER;
      TakeEnds(bs, i, size);
      if !(newSize > 0) {
        TakeWhole(bs, i, size);
        return;
      }
      var newHeader := header + HEADER + size;
      var next := Load(header + 12);
      StoreNewHeader(newHeader, newSize, next);
      ghost var m1 := mem[..];
      Store(newHeader + 8, 1);
      ghost var m2 := mem[..];
      Store(header + 4, size);
      ghost var m3 := mem[..];
      Store(header + 12, newHeader);
      SplitStored(m0, m1, m2, m3, mem[..], b, Pieces(b, size)[1], size, next);
      EncodesSplit(m0, mem[..], bs, i, size, base, curr);
      TakeOrdered(bs, i, size, base, curr);
      blocks := Take(bs, i, size);
      HeaderNext(mem[..], Pieces(b, size)[1], next);
      if Load(newHeader + 12) == 0 {
        last := newHeader;
      }
    }

    /** _find_good_block with reset_free_flag set: the chosen header's address, or 0. */
    method FindGoodBlock(size: nat) returns (found: nat)
      requires Valid() && blocks != []
      modifies this`last, this`blocks, mem
      ensures Valid()
      ensures var bs := old(blocks); var i := FirstFit(bs, size);
        if i < |bs| then
          && found == bs[i].addr
          && blocks == Take(bs, i, size)
          && SameOutside(old(mem[..]), mem[..], bs[i].addr, bs[i].End())
        else
          && found == 0 && blocks == bs && mem[..] == old(mem[..]) && last == old(last)
    {
      hide Take, Encodes, Ordered, HeaderAt, Word, Link, FirstFit;
      var next := first;
      ghost var k := 0;
      while true
        invariant k < |blocks| && next == blocks[k].addr
        invariant Valid() && blocks == old(blocks) && mem[..] == old(mem[..]) && last == old(last)
        invariant forall j | 0 <= j < k :: !Fits(blocks[j], size)
        decreases |blocks| - k
      {
        ghost var bs, m0 := blocks, mem[..];
        HeaderWords(m0, bs, k, base, curr);
        if Load(next + 8) != 0 {
          if Load(next + 4) >= size {
            FirstFitIs(bs, size, k);
            Store(next + 8, 0);
            FieldStored(m0, mem[..], bs[k], Link(bs, k), 8, 0);
            EncodesRewrite(m0, mem[..], bs, k, bs[k].(free := false), base, curr);
            OrderedRewrite(bs, k, bs[k].(free := false), base, curr);
            blocks := bs[k := bs[k].(free := false)];
            TakeOfUsed(bs, k, size);
            SplitBlock(next, size, k);
            return next;
          }
        }
        next := Load(next + 12);
        if next == 0 {
          FirstFitIs(bs, size, |bs|);
          return 0;
        }
        k := k + 1;
      }
    }

    /** The two stores with which the open block absorbs block k. */
    method AbsorbNext(current: nat, next: nat, ghost bs: seq<Block>, ghost k: nat)
      requires curr <= mem.Length <= 0x8000_0000 && Merging(mem[..], bs, k, base, curr)
      requires k < |bs| && bs[k].free && next == bs[k].addr && current == OpenBlock(bs, k) != 0
      modifies mem
      ensures Merging(mem[..], bs, k + 1, base, curr)
      ensures Kept(old(mem[..]), mem[..], Used(bs))
      ensures next + HEADER <= mem.Length && Word(mem[..], next + 12) == Link(bs, k)
    {
      hide Merging, Word, Link, OpenBlock, Kept, Used;
      ghost var m0 := mem[..];
      MergingReads(m0, bs, k, base, curr);
      MergingOpen(m0, bs, k, base, curr);
      Store(current + 4, Load(current + 4) + Load(next + 4) + HEADER);
      ghost var m1 := mem[..];
      WordAbove(m0, m1, current + 4, current + 8, next + 12);
      Store(current + 12, Load(next + 12));
      WordAbove(m1, mem[..], current + 12, current + 16, next + 12);
      MergingAbsorb(m0, m1, mem[..], bs, k, base, curr);
      MergingKept(m0, mem[..], bs, k, base, curr);
    }

    /** _merge_free_blocks */
    method MergeFreeBlocks()
      requires Valid() && blocks != []
      modifies this`last, this`blocks, mem
      ensures Valid()
      ensures blocks == old(Merge(blocks))
      ensures Kept(old(mem[..]), mem[..], old(Used(blocks)))
    {
      hide Merging, Encodes, Ordered, Word, Merge, Used, OpenBlock, Kept;
      ghost var bs, k := blocks, 0;
      var next, current := first, 0;
      MergeStart(bs);
      MergingStart(mem[..], bs, base, curr);
      KeptRefl(mem[..], Used(bs));
      while true
        invariant k < |bs| && next == bs[k].addr
        invariant current == OpenBlock(bs, k) && last == bs[|bs| - 1].addr
        invariant Merging(mem[..], bs, k, base, curr)
        invariant Kept(old(mem[..]), mem[..], Used(bs))
        decreases |bs| - k
      {
        ghost var m0 := mem[..];
        MergingReads(m0, bs, k, base, curr);
        MergingCurrent(m0, bs, k, base, curr);
        if Load(next + 8) == 0 {
          current := 0;
          MergingSkip(m0, bs, k, base, curr);
        } else if current == 0 {
          current := next;
          MergingSkip(m0, bs, k, base, curr);
        } else {
          AbsorbNext(current, next, bs, k);
          KeptThen(old(mem[..]), m0, mem[..], Used(bs));
        }
        k := k + 1;
        next := Load(next + 12);
        if next == 0 {
          break;
        }
      }
      MergingDone(mem[..], bs, base, curr);
      MergeDone(bs, base, curr);
      blocks := Merge(bs);
      if current != 0 {
        last := current;
      }
    }

    method Malloc(size: word) returns (p: nat)
      requires Valid()
      requires FirstFit(blocks, size) == |blocks| ==> curr + 4 * (size + HEADER) <= mem.Length
      modifies this, mem
      ensures Valid()
      ensures State() == HeapModel.Malloc(old(State()), size)
      ensures p == MallocResult(old(State()), size)
      ensures Kept(old(mem[..]), mem[..], old(Used(blocks)))
    {
      hide Encodes, Ordered, Take, FirstFit, Used, Kept, Word, HeaderAt;
      ghost var s, bs, m0 := State(), blocks, mem[..];
      MallocOrdered(s, base, size);
      FirstFitAddress(bs, size, base, curr);
      if first != 0 {
        var found := FindGoodBlock(size);
        if found != 0 {
          TakeEnds(bs, FirstFit(bs, size), size);
          KeptByFreeBlockWrite(m0, mem[..], bs, FirstFit(bs, size), base, curr);
          return found + HEADER;
        }
      }
      var absSize := size;
      var addr := curr;
      StoreNewHeader(curr, size, 0);
      ghost var m1 := mem[..];
      if first == 0 {
        KeptByWriteAbove(m0, m1, bs, base, curr);
        first, last := curr, curr;
        EncodesAppend(m0, m1, bs, Block(addr, size, false), base, curr);
      } else {
        OrderedAt(bs, |bs| - 1, base, curr);
        Store(last + 12, curr);
        LinkStored(m0, m1, mem[..], bs, Block(addr, size, false), base, curr);
        last := curr;
      }
      absSize := absSize + HEADER;
      curr := curr + 4 * absSize;
      blocks := bs + [Block(addr, size, false)];
      return addr + HEADER;
    }

    /**
     * free; a pointer without the magic number in front of it is ignored.  Of a stale pointer that still has
     * it nothing is left to free, and a list that is merged already stays as it is.
     */
    method Free(addr: nat)
      requires Valid() && HEADER <= addr <= mem.Length
      requires Word(mem[..], addr - HEADER) == MAGIC ==> Listed(State(), addr) || Stale(State(), addr)
      modifies this`last, this`blocks, mem
      ensures Valid()
      ensures
        if old(Word(mem[..], addr - HEADER)) != MAGIC then
          State() == old(State()) && mem[..] == old(mem[..])
        else if Listed(old(State()), addr) then
          State() == HeapModel.Free(old(State()), addr)
        else
          State() == old(State()).(blocks := Merge(old(blocks)))
      ensures Kept(old(mem[..]), mem[..], Used(blocks))
    {
      hide Encodes, Ordered, Used, Kept, Word, HeaderAt, Merge, Link, Stale;
      ghost var bs, m0 := blocks, mem[..];
      KeptRefl(m0, Used(bs));
      var header := addr - HEADER;
      if Load(header) != MAGIC {
        return;
      }
      ghost var i := IndexOf(bs, addr);
      ghost var marked := if i < |bs| then bs[i := bs[i].(free := true)] else bs;
      Store(header + 8, 1);
      ghost var m1 := mem[..];
      FreedStored(m0, m1, State(), base, addr);
      blocks := marked;
      MergeFreeBlocks();
      FreedUsed(State(), HeapState(bs, curr), base, addr);
      KeptTransitive(m0, m1, mem[..], Used(bs), Used(marked), Used(blocks));
    }

    /** The memcpy of realloc, from used block b into used block n. */
    method CopyPayload(p: nat, addr: nat, size: nat, ghost b: Block, ghost n: Block)
      requires Valid() && b in Used(blocks) && n in Used(blocks) && addr == b.Payload() && p == n.Payload()
      requires size <= n.size && n.End() <= curr && addr + size <= mem.Length
      requires b.End() <= n.addr || n.End() <= b.addr
      modifies mem
      ensures Valid()
      ensures KeptExcept(old(mem[..]), mem[..], Used(blocks), p)
      ensures Arrived(old(mem[..]), addr, mem[..], p, Min(size, b.size))
      ensures HEADER <= addr <= mem.Length && Word(mem[..], addr - HEADER) == MAGIC
    {
      hide Encodes, Ordered, Used, KeptExcept, Word, Arrived, Min;
      ghost var m := mem[..];
      MemCpy(mem, p, addr, size);
      CopyStored(m, mem[..], blocks, base, curr, b, n, size);
    }

    method Realloc(addr: nat, size: word) returns (p: nat)
      requires Valid() && Live(State(), addr)
      requires FirstFit(blocks, size) == |blocks| ==> curr + 4 * (size + HEADER) <= mem.Length
      requires addr + size <= mem.Length  // the copy loop reads size bytes from addr, whatever the old size
      modifies this, mem
      ensures Valid()
      ensures State() == HeapModel.Realloc(old(State()), addr, size)
      ensures p == MallocResult(old(State()), size)
      ensures Arrived(old(mem[..]), addr, mem[..], p, Min(size, old(PayloadSize(State(), addr))))
      ensures KeptExcept(old(mem[..]), mem[..], old(Used(blocks)), addr)
    {
      hide Encodes, Ordered, Used, Kept, KeptExcept, HeaderAt, Word, FirstFit, MallocBlock, ForwardCopy, MallocResult;
      hide Min, Arrived, Stale;
      ghost var s, m0 := State(), mem[..];
      ghost var b, n := blocks[IndexOf(blocks, addr)], MallocBlock(State(), size);
      ReallocBlocks(s, base, size, addr);
      p := Malloc(size);
      ghost var m1 := mem[..];
      CopyPayload(p, addr, size, b, n);
      ghost var m2 := mem[..];
      Free(addr);
      ReallocDone(m0, m1, m2, mem[..], s, base, size, addr);
    }
  }

  /** The store of the freed word, for a listed block or a stale pointer. */
  lemma FreedStored(m: seq<byte>, m': seq<byte>, s: HeapState, base: nat, addr: nat)
    requires Ordered(s.blocks, base, s.curr) && 0 < base && s.curr <= |m| && Encodes(m, s.blocks)
    requires HEADER <= addr <= |m| && (Listed(s, addr) || Stale(s, addr))
    requires SameOutside(m, m', addr - 8, addr - 4) && Word(m', addr - 8) == 1
    ensures
      var bs, i := s.blocks, IndexOf(s.blocks, addr);
      var marked := if i < |bs| then bs[i := bs[i].(free := true)] else bs;
      && marked != [] && Ordered(marked, base, s.curr) && Encodes(m', marked)
      && marked[0].addr == bs[0].addr && marked[|bs| - 1].addr == bs[|bs| - 1].addr
      && Kept(m, m', Used(bs))
  {
    var bs, i := s.blocks, IndexOf(s.blocks, addr);
    hide Encodes, Ordered, Used, Kept, Word, HeaderAt, Link;
    if i < |bs| {
      HeaderWords(m, bs, i, base, s.curr);
      var b := bs[i].(free := true);
      FieldStored(m, m', bs[i], Link(bs, i), 8, 1);
      EncodesRewrite(m, m', bs, i, b, base, s.curr);
      KeptByHeaderWrite(m, m', bs, i, base, s.curr);
      OrderedRewrite(bs, i, b, base, s.curr);
    } else {
      StaleWrite(m, m', s, base, addr);
    }
  }

  /** The used blocks after the merge were in use before. */
  lemma FreedUsed(t: HeapState, s: HeapState, base: nat, addr: nat)
    requires Ordered(s.blocks, base, s.curr)
    requires
      var bs, i := s.blocks, IndexOf(s.blocks, addr);
      t == HeapState(Merge(if i < |bs| then bs[i := bs[i].(free := true)] else bs), s.curr)
    ensures
      var bs, i := s.blocks, IndexOf(s.blocks, addr);
      var marked := if i < |bs| then bs[i := bs[i].(free := true)] else bs;
      forall b | b in Used(t.blocks) :: b in Used(bs) && b in Used(marked)
  {
    var bs, i := s.blocks, IndexOf(s.blocks, addr);
    hide Merge, Used, Ordered;
    if i < |bs| {
      FreeUsed(s, base, addr);
      MergeUsed(bs[i := bs[i].(free := true)]);
    } else {
      MergeUsed(bs);
    }
  }
}
