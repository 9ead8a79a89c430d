// The block list of the kernel heap as a value: what each allocator operation does to it.

module HeapModel {
  import opened Bits
  import opened Memory

  const HEADER: nat := 16
  const MAGIC: word := 69420

  /** One list node: the address of its header, its payload size and its freed flag. */
  datatype Block = Block(addr: nat, size: nat, free: bool) {
    function Payload(): nat { addr + HEADER }
    function End(): nat { addr + HEADER + size }
  }

  /** The list from frist_hh, and curr_addr. */
  datatype HeapState = HeapState(blocks: seq<Block>, curr: nat)

  /** Blocks lie in lo..hi, ascending, each ending at or below the next header. */
  ghost predicate Ordered(bs: seq<Block>, lo: nat, hi: nat) {
    && (forall i | 0 <= i < |bs| :: lo <= bs[i].addr && bs[i].End() <= hi)
    && (forall i, j | 0 <= i < j < |bs| :: bs[i].End() <= bs[j].addr)
  }

  ghost predicate NoAdjacentFree(bs: seq<Block>) {
    forall i, j | 0 <= i < j < |bs| && j == i + 1 :: !(bs[i].free && bs[j].free)
  }

  /** Sum of payload and header sizes over the list. */
  function Total(bs: seq<Block>): nat {
    if bs == [] then 0 else Total(bs[..|bs| - 1]) + bs[|bs| - 1].size + HEADER
  }

  /** The used blocks, in list order. */
  function Used(bs: seq<Block>): seq<Block> {
    if bs == [] then []
    else Used(bs[..|bs| - 1]) + (if bs[|bs| - 1].free then [] else [bs[|bs| - 1]])
  }

  // ---- first fit ----

  predicate Fits(b: Block, size: nat) {
    b.free && size <= b.size
  }

  /** Index of the first fitting block, |bs| if there is none. */
  function FirstFit(bs: seq<Block>, size: nat): (i: nat)
    ensures i <= |bs|
    ensures i < |bs| ==> Fits(bs[i], size)
    ensures forall j | 0 <= j < i :: !Fits(bs[j], size)
  {
    if bs == [] then 0
    else if Fits(bs[0], size) then 0
    else
      var i := FirstFit(bs[1..], size);
      assert forall j | 1 <= j < i + 1 :: bs[j] == bs[1..][j - 1];
      i + 1
  }

  /** Block i is taken for a request of size bytes; a large enough remainder becomes a free block. */
  function Take(bs: seq<Block>, i: nat, size: nat): seq<Block>
    requires i < |bs| && size <= bs[i].size
  {
    if bs[i].size > size + HEADER then
      bs[..i]
      + [Block(bs[i].addr, size, false), Block(bs[i].addr + HEADER + size, bs[i].size - size - HEADER, true)]
      + bs[i + 1..]
    else
      bs[i := bs[i].(free := false)]
  }

  // ---- coalescing ----

  /** One iteration of the merge loop: b is appended to the list merged so far. */
  function Absorb(acc: seq<Block>, b: Block): (r: seq<Block>)
    ensures r != []
  {
    if acc != [] && acc[|acc| - 1].free && b.free then
      acc[|acc| - 1 := acc[|acc| - 1].(size := acc[|acc| - 1].size + b.size + HEADER)]
    else
      acc + [b]
  }

  function Merge(bs: seq<Block>): (r: seq<Block>)
    ensures bs != [] ==> r != []
  {
    if bs == [] then [] else Absorb(Merge(bs[..|bs| - 1]), bs[|bs| - 1])
  }

  // ---- the operations ----

  function Malloc(s: HeapState, size: nat): HeapState {
    var i := FirstFit(s.blocks, size);
    if i < |s.blocks| then s.(blocks := Take(s.blocks, i, size))
    else HeapState(s.blocks + [Block(s.curr, size, false)], s.curr + 4 * (size + HEADER))
  }

  /** The pointer malloc returns. */
  function MallocResult(s: HeapState, size: nat): nat {
    var i := FirstFit(s.blocks, size);
    (if i < |s.blocks| then s.blocks[i].addr else s.curr) + HEADER
  }

  /** Index of the block whose payload starts at p, |bs| if there is none. */
  function IndexOf(bs: seq<Block>, p: nat): (i: nat)
    ensures i <= |bs|
    ensures i < |bs| ==> bs[i].Payload() == p
    ensures forall j | 0 <= j < i :: bs[j].Payload() != p
  {
    if bs == [] then 0
    else if bs[0].Payload() == p then 0
    else
      var i := IndexOf(bs[1..], p);
      assert forall j | 1 <= j < i + 1 :: bs[j] == bs[1..][j - 1];
      i + 1
  }

  predicate Listed(s: HeapState, p: nat) {
    IndexOf(s.blocks, p) < |s.blocks|
  }

  /** p is a pointer handed out and not yet freed. */
  predicate Live(s: HeapState, p: nat) {
    Listed(s, p) && !s.blocks[IndexOf(s.blocks, p)].free
  }

  /**
   * The freed word in front of p lies in no listed header and in no used payload: p points to nothing that is
   * in use, for example to a block that has since been merged into the one before.
   */
  predicate Stale(s: HeapState, p: nat) {
    && s.blocks != [] && !Listed(s, p)
    && forall i | 0 <= i < |s.blocks| ::
         p <= s.blocks[i].addr + 4 || (if s.blocks[i].free then s.blocks[i].Payload() else s.blocks[i].End()) + 8 <= p
  }

  /** p may be freed without effect on the list: its block is listed as free, or it is stale. */
  predicate Idle(s: HeapState, p: nat) {
    (Listed(s, p) && !Live(s, p)) || Stale(s, p)
  }

  function PayloadSize(s: HeapState, p: nat): nat
    requires Listed(s, p)
  {
    s.blocks[IndexOf(s.blocks, p)].size
  }

  function Free(s: HeapState, p: nat): HeapState
    requires Listed(s, p)
  {
    var i := IndexOf(s.blocks, p);
    s.(blocks := Merge(s.blocks[i := s.blocks[i].(free := true)]))
  }

  /** A new block first, then the old one is freed. */
  function Realloc(s: HeapState, p: nat, size: nat): HeapState {
    var t := Malloc(s, size);
    if Listed(t, p) then Free(t, p) else t
  }
}
