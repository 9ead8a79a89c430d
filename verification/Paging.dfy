// Two-level page tables in physical memory.  Tables and directories are frames of 1024 words.

module Paging {
  import opened Bits
  import opened Frames
  import opened Wrappers

  const PRESENT: word := 0x1
  const WRITABLE: word := 0x2
  const FRAME_BITS: word := 0x7FFF_F000

  // ---- paging.h ----

  function PdIndex(address: word): (i: nat)
    ensures i < 1024
  {
    address / 0x40_0000
  }

  function PtIndex(address: word): (i: nat)
    ensures i < 1024
  {
    And(address / 0x1000, 0x3FF)
  }

  function PagePhysAddress(entry: word): word {
    AndWord(entry, Not(0xFFF))
  }

  function SetAttribute(entry: word, attr: word): word {
    OrWord(entry, attr)
  }

  function TestAttribute(entry: word, attr: word): word {
    AndWord(entry, attr)
  }

  function SetFrameBits(entry: word, address: word): word {
    OrWord(AndWord(entry, Not(FRAME_BITS)), address)
  }

  predicate Present(entry: word) {
    TestAttribute(entry, PRESENT) == PRESENT
  }

  /** The frame that an entry names. */
  function FrameOf(entry: word): nat {
    PagePhysAddress(entry) / BLOCK_SIZE
  }

  lemma Pow2Values()
    ensures Pow2(1) == 2 && Pow2(10) == 0x400 && Pow2(12) == 0x1000 && Pow2(31) == 0x8000_0000
  {
    assert Pow2(4) == 16;
    assert Pow2(8) == 0x100;
    assert Pow2(16) == 0x1_0000;
    assert Pow2(24) == 0x100_0000;
    assert Pow2(28) == 0x1000_0000;
  }

  /** The two indices and the offset split an address. */
  lemma IndicesSplit(address: word)
    ensures PtIndex(address) == address / BLOCK_SIZE % 1024
    ensures PdIndex(address) == address / BLOCK_SIZE / 1024
    ensures address == (PdIndex(address) * 1024 + PtIndex(address)) * BLOCK_SIZE + address % BLOCK_SIZE
  {
    Pow2Values();
    AndOnes(address / 0x1000, 10, 0x400);
  }

  lemma PresentIsOdd(entry: word)
    ensures Present(entry) <==> entry % 2 == 1
  {
    Pow2Values();
    AndOnes(entry, 1, 2);
  }

  lemma FrameOfIs(entry: word)
    ensures PagePhysAddress(entry) == entry - entry % BLOCK_SIZE
    ensures FrameOf(entry) == entry / BLOCK_SIZE
  {
    Pow2At32();
    Pow2Values();
    AndPartition(entry, 0xFFF, 32, 0x1_0000_0000);
    AndOnes(entry, 12, 0x1000);
  }

  lemma SetPresentIs(entry: word)
    ensures SetAttribute(entry, PRESENT) == entry / 2 * 2 + 1
  {
    hide Or;
    OrStep(entry, 1);
    OrZero(entry / 2);
  }

  lemma SetWritableIs(entry: word)
    ensures SetAttribute(entry, WRITABLE) == entry / 2 / 2 * 4 + 2 + entry % 2
  {
    hide Or;
    OrStep(entry, 2);
    OrStep(entry / 2, 1);
    OrZero(entry / 2 / 2);
  }

  /** Setting one of the two low attributes changes nothing above bit 1. */
  lemma SetAttributeKeeps(entry: word, attr: word)
    requires attr == PRESENT || attr == WRITABLE
    ensures SetAttribute(entry, attr) / 4 == entry / 4
    ensures SetAttribute(entry, attr) % 2 == (if attr == PRESENT then 1 else entry % 2)
  {
    SetPresentIs(entry);
    SetWritableIs(entry);
    hide SetAttribute;
    QuarterOf(entry);
  }

  lemma QuarterOf(x: nat)
    ensures x / 2 / 2 == x / 4
    ensures (x / 2 * 2 + 1) / 4 == x / 4 && (x / 2 * 2 + 1) % 2 == 1
    ensures (x / 4 * 4 + 2 + x % 2) / 4 == x / 4 && (x / 4 * 4 + 2 + x % 2) % 2 == x % 2
  {
  }

  /**
   * For an aligned address SET_FRAME replaces the frame and keeps the low twelve bits.  Bit 31 lies outside
   * the mask: once it is set in the entry it stays.
   */
  lemma SetFrameIs(entry: word, address: word)
    requires address % BLOCK_SIZE == 0
    ensures SetFrameBits(entry, address) == StoredFrame(entry, address) + entry % BLOCK_SIZE
  {
    MaskedEntry(entry);
    JoinedFrame(entry % BLOCK_SIZE, entry / 0x8000_0000, address);
    hide And, Or;
  }

  lemma MaskedEntry(entry: word)
    ensures AndWord(entry, Not(FRAME_BITS)) == entry % BLOCK_SIZE + entry / 0x8000_0000 * 0x8000_0000
  {
    hide And;
    EntryParts(entry);
    MaskedParts(entry % 0x8000_0000, entry / 0x8000_0000);
  }

  lemma EntryParts(entry: word)
    ensures
      var low, top := entry % 0x8000_0000, entry / 0x8000_0000;
      entry == low + top * 0x8000_0000 && low % 0x1000 == entry % 0x1000 && low < 0x8000_0000 && top <= 1
  {
  }

  lemma MaskedParts(low: nat, top: nat)
    requires low < 0x8000_0000 && top <= 1
    ensures And(low + top * 0x8000_0000, 0xFFF + 1 * 0x8000_0000) == low % 0x1000 + top * 0x8000_0000
  {
    hide *;
    Pow2Values();
    AndBit(top);
    AndSplit(low, top, 0xFFF, 1, 31, 0x8000_0000);
    AndOnes(low, 12, 0x1000);
  }

  lemma JoinedFrame(low: nat, top: nat, address: word)
    requires low < BLOCK_SIZE && top <= 1 && address % BLOCK_SIZE == 0
    ensures Or(low + top * 0x8000_0000, address) ==
            low + (if top == 1 && address < 0x8000_0000 then address + 0x8000_0000 else address)
  {
    hide Or;
    var a, b := address % 0x8000_0000, address / 0x8000_0000;
    AddressParts(address);
    JoinedParts(low, top, a / 0x1000, a, b);
  }

  lemma AddressParts(address: word)
    requires address % 0x1000 == 0
    ensures
      var a, b := address % 0x8000_0000, address / 0x8000_0000;
      address == a + b * 0x8000_0000 && a == a / 0x1000 * 0x1000 && a < 0x8000_0000 && b <= 1
  {
  }

  lemma JoinedParts(low: nat, top: nat, f: nat, a: nat, b: nat)
    requires low < 0x1000 && top <= 1 && b <= 1 && a == f * 0x1000 && f < 0x8_0000
    ensures Or(low + top * 0x8000_0000, a + b * 0x8000_0000) ==
            low + a + (if top == 1 || b == 1 then 0x8000_0000 else 0)
  {
    hide *;
    Pow2Values();
    OrBit(top, b);
    OrSplit(low, top, a, b, 31, 0x8000_0000);
    OrDisjoint(low, f, 12, 0x1000);
  }

  lemma AndBit(b: nat)
    requires b <= 1
    ensures And(b, 1) == b
  {
  }

  lemma OrBit(b: nat, c: nat)
    requires b <= 1 && c <= 1
    ensures Or(b, c) == if b == 1 || c == 1 then 1 else 0
  {
  }

  /** The frame address that SET_FRAME leaves in an entry. */
  function StoredFrame(entry: word, address: word): (r: word)
    requires address % BLOCK_SIZE == 0
    ensures r % BLOCK_SIZE == 0
  {
    if entry >= 0x8000_0000 && address < 0x8000_0000 then address + 0x8000_0000 else address
  }

  // ---- memory ----

  predicate FrameIn(m: seq<word>, f: nat) {
    1024 * f + 1024 <= |m|
  }

  function Entry(m: seq<word>, f: nat, i: nat): word
    requires FrameIn(m, f) && i < 1024
  {
    m[1024 * f + i]
  }

  function PutEntry(m: seq<word>, f: nat, i: nat, v: word): (m': seq<word>)
    requires FrameIn(m, f) && i < 1024
    ensures |m'| == |m|
  {
    m[1024 * f + i := v]
  }

  lemma EntryPut(m: seq<word>, f: nat, i: nat, v: word, g: nat, j: nat)
    requires FrameIn(m, f) && FrameIn(m, g) && i < 1024 && j < 1024
    ensures Entry(PutEntry(m, f, i, v), g, j) == (if f == g && i == j then v else Entry(m, g, j))
  {
  }

  /** What the processor finds for a page: the physical address it is mapped to. */
  function Walk(m: seq<word>, dir: nat, page: nat): Option<word>
    requires FrameIn(m, dir) && page < 1024 * 1024
  {
    var pde := Entry(m, dir, page / 1024);
    if !Present(pde) || !FrameIn(m, FrameOf(pde)) then None
    else
      var pte := Entry(m, FrameOf(pde), page % 1024);
      if Present(pte) then Some(PagePhysAddress(pte)) else None
  }

  /** Directory entry i names a table. */
  predicate HasTable(m: seq<word>, dir: nat, i: nat)
    requires FrameIn(m, dir) && i < 1024
  {
    Present(Entry(m, dir, i))
  }

  function TableOf(m: seq<word>, dir: nat, i: nat): nat
    requires FrameIn(m, dir) && i < 1024
  {
    FrameOf(Entry(m, dir, i))
  }

  /** Every present directory entry names a table of its own among the owned frames. */
  ghost predicate WellFormed(m: seq<word>, dir: nat, owned: set<nat>) {
    && (forall f | f in owned :: FrameIn(m, f) && f < 0x8_0000)
    && dir in owned && FrameIn(m, dir)
    && (forall i: nat | i < 1024 :: Entry(m, dir, i) < 0x8000_0000)
    && (forall i: nat | i < 1024 && HasTable(m, dir, i) :: TableOf(m, dir, i) in owned && TableOf(m, dir, i) != dir)
    && (forall i: nat, j: nat | i < j < 1024 && HasTable(m, dir, i) && HasTable(m, dir, j) ::
          TableOf(m, dir, i) != TableOf(m, dir, j))
    && (forall i: nat, q: nat | i < 1024 && q < 1024 && HasTable(m, dir, i) && FrameIn(m, TableOf(m, dir, i)) ::
          Entry(m, TableOf(m, dir, i), q) < 0x8000_0000)
  }

  /** The mapping after is the one before, updated at exactly one page. */
  ghost predicate UpdatedAt(m: seq<word>, m': seq<word>, dir: nat, page: nat, phys: word)
    requires FrameIn(m, dir) && FrameIn(m', dir)
  {
    forall p: nat | p < 1024 * 1024 ::
      Walk(m', dir, p) == if p == page then Some(phys) else Walk(m, dir, p)
  }

  // ---- the steps of paging_map as functions of memory ----

  /** memset(newtab, 0, sizeof(PageTable)) */
  function ZeroFrame(m: seq<word>, f: nat): (m': seq<word>)
    requires FrameIn(m, f)
    ensures |m'| == |m|
    ensures forall k | 0 <= k < |m| :: m'[k] == if 1024 * f <= k < 1024 * f + 1024 then 0 else m[k]
  {
    m[..1024 * f] + seq(1024, _ => 0) + m[1024 * f + 1024..]
  }

  /** The last two macros of paging_map, on the page entry for virt in table t. */
  function StorePage(m: seq<word>, t: nat, virt: word, phys: word): (m': seq<word>)
    requires FrameIn(m, t)
    ensures |m'| == |m|
  {
    var pte := SetAttribute(Entry(m, t, PtIndex(virt)), PRESENT);
    PutEntry(m, t, PtIndex(virt), SetFrameBits(pte, phys))
  }

  /** A cleared frame, and the directory entry marked present and writable; its frame bits stay as they were. */
  function MarkTable(m: seq<word>, dir: nat, virt: word, newtab: nat): (m': seq<word>)
    requires FrameIn(m, dir) && FrameIn(m, newtab)
    ensures |m'| == |m|
  {
    var z := ZeroFrame(m, newtab);
    PutEntry(z, dir, PdIndex(virt), SetAttribute(SetAttribute(Entry(z, dir, PdIndex(virt)), PRESENT), WRITABLE))
  }

  /** MarkTable followed by the store that the source leaves out: the new table's frame in the entry. */
  function LinkTable(m: seq<word>, dir: nat, virt: word, newtab: nat): (m': seq<word>)
    requires FrameIn(m, dir) && FrameIn(m, newtab) && newtab < 0x8_0000
    ensures |m'| == |m|
  {
    var k := MarkTable(m, dir, virt, newtab);
    PutEntry(k, dir, PdIndex(virt), SetFrameBits(Entry(k, dir, PdIndex(virt)), newtab * BLOCK_SIZE))
  }

  // ---- what the steps do to the mapping ----

  lemma FrameSum(f: nat, k: nat, v: nat)
    requires v == f * BLOCK_SIZE + k % BLOCK_SIZE
    ensures v / BLOCK_SIZE == f && v % BLOCK_SIZE == k % BLOCK_SIZE && v % 2 == k % 2
  {
    var r := k % BLOCK_SIZE;
    DivModUnique(v, BLOCK_SIZE, f, r);
    DivModUnique(v, 2, 2048 * f + r / 2, r % 2);
    DivModUnique(k, 2, 2048 * (k / BLOCK_SIZE) + r / 2, r % 2);
  }

  /** The page entry that paging_map stores. */
  lemma StoredEntry(e: word, phys: word)
    requires phys % BLOCK_SIZE == 0
    ensures
      var v := SetFrameBits(SetAttribute(e, PRESENT), phys);
      && Present(v) && PagePhysAddress(v) == StoredFrame(e, phys)
      && (e < 0x8000_0000 && phys < 0x8000_0000 ==> v < 0x8000_0000)
  {
    hide *;
    var p := SetAttribute(e, PRESENT);
    var v := SetFrameBits(p, phys);
    SetAttributeKeeps(e, PRESENT);
    SetFrameIs(p, phys);
    PresentIsOdd(v);
    FrameOfIs(v);
    StoredParts(e, p, phys, v);
  }

  lemma StoredParts(e: word, p: word, phys: word, v: word)
    requires phys % BLOCK_SIZE == 0 && p / 4 == e / 4 && p % 2 == 1
    requires v == StoredFrame(p, phys) + p % BLOCK_SIZE
    ensures v % 2 == 1 && v - v % BLOCK_SIZE == StoredFrame(e, phys)
    ensures e < 0x8000_0000 && phys < 0x8000_0000 ==> v < 0x8000_0000
  {
    assert p >= 0x8000_0000 <==> e >= 0x8000_0000;
    FlagsApart(StoredFrame(e, phys), p, v);
  }

  lemma FlagsApart(a: nat, p: nat, v: nat)
    requires a % BLOCK_SIZE == 0 && v == a + p % BLOCK_SIZE
    ensures v - v % BLOCK_SIZE == a && v % 2 == p % 2 && (a < 0x8000_0000 ==> v < 0x8000_0000)
  {
    var f := a / BLOCK_SIZE;
    assert a == f * BLOCK_SIZE;
    FrameSum(f, p, v);
    if a < 0x8000_0000 {
      assert f <= 0x7_FFFF;
    }
  }

  /** The marked entry is present, and names the frame that was in it before. */
  lemma MarkedEntry(e: word)
    ensures
      var v := SetAttribute(SetAttribute(e, PRESENT), WRITABLE);
      Present(v) && FrameOf(v) == FrameOf(e) && v / BLOCK_SIZE == e / BLOCK_SIZE
  {
    var p := SetAttribute(e, PRESENT);
    var v := SetAttribute(p, WRITABLE);
    SetAttributeKeeps(e, PRESENT);
    SetAttributeKeeps(p, WRITABLE);
    PresentIsOdd(v);
    FrameOfIs(v);
    FrameOfIs(e);
    assert v / 4 == e / 4;
    assert v / 4 / 1024 == v / BLOCK_SIZE && e / 4 / 1024 == e / BLOCK_SIZE;
  }

  /** Clearing a frame changes no entry of another. */
  lemma ZeroKeeps(m: seq<word>, f: nat, g: nat, j: nat)
    requires FrameIn(m, f) && FrameIn(m, g) && j < 1024
    ensures Entry(ZeroFrame(m, f), g, j) == if g == f then 0 else Entry(m, g, j)
  {
  }

  /** Memory before the page store: the directory entry has been marked if it was not present. */
  function Marked(m: seq<word>, dir: nat, virt: word, newtab: nat): (k: seq<word>)
    requires FrameIn(m, dir) && FrameIn(m, newtab)
    ensures |k| == |m|
  {
    if HasTable(m, dir, PdIndex(virt)) then m else MarkTable(m, dir, virt, newtab)
  }

  /** The memory after paging_map(virt, phys), newtab being the frame allocated if one is needed. */
  function MapWords(m: seq<word>, dir: nat, virt: word, phys: word, newtab: nat): (r: Option<seq<word>>)
    requires FrameIn(m, dir) && FrameIn(m, newtab)
    ensures r.Some? ==> |r.value| == |m|
  {
    var k := Marked(m, dir, virt, newtab);
    var t := TableOf(k, dir, PdIndex(virt));
    if FrameIn(k, t) then Some(StorePage(k, t, virt, phys)) else None
  }

  /** The frames in use after a call: the new table is one of them if it was needed. */
  function OwnedAfter(m: seq<word>, dir: nat, owned: set<nat>, virt: word, newtab: nat): set<nat>
    requires FrameIn(m, dir)
  {
    if HasTable(m, dir, PdIndex(virt)) then owned else owned + {newtab}
  }

  /** What an entry of a table maps its page to. */
  function EntryMaps(e: word): Option<word> {
    if Present(e) then Some(PagePhysAddress(e)) else None
  }

  lemma WalkAt(m: seq<word>, dir: nat, i: nat, q: nat)
    requires FrameIn(m, dir) && i < 1024 && q < 1024
    ensures (1024 * i + q) / 1024 == i && (1024 * i + q) % 1024 == q && 1024 * i + q < 1024 * 1024
    ensures
      Walk(m, dir, 1024 * i + q) ==
        if HasTable(m, dir, i) && FrameIn(m, TableOf(m, dir, i)) then EntryMaps(Entry(m, TableOf(m, dir, i), q))
        else None
  {
    hide Present, FrameOf, Entry, PagePhysAddress;
  }

  /** The page store changes the page at its slot of every directory entry that names the table. */
  lemma StoreWalk(m: seq<word>, dir: nat, t: nat, virt: word, phys: word, i: nat, q: nat)
    requires FrameIn(m, dir) && FrameIn(m, t) && t != dir && phys % BLOCK_SIZE == 0 && i < 1024 && q < 1024
    ensures
      var p, k := 1024 * i + q, StorePage(m, t, virt, phys);
      && HasTable(k, dir, i) == HasTable(m, dir, i)
      && Walk(k, dir, p) ==
         if q == PtIndex(virt) && HasTable(m, dir, i) && TableOf(m, dir, i) == t then
           Some(StoredFrame(Entry(m, t, q), phys))
         else
           Walk(m, dir, p)
  {
    var pt, k := PtIndex(virt), StorePage(m, t, virt, phys);
    var v := SetFrameBits(SetAttribute(Entry(m, t, pt), PRESENT), phys);
    assert k == PutEntry(m, t, pt, v);
    StoredEntry(Entry(m, t, pt), phys);
    WalkAt(m, dir, i, q);
    WalkAt(k, dir, i, q);
    EntryPut(m, t, pt, v, dir, i);
    if FrameIn(m, TableOf(m, dir, i)) {
      EntryPut(m, t, pt, v, TableOf(m, dir, i), q);
    }
    hide *;
  }

  /** In a well-formed address space a present entry names a table in memory apart from the directory. */
  lemma TableEntries(m: seq<word>, dir: nat, owned: set<nat>, i: nat, q: nat)
    requires WellFormed(m, dir, owned) && i < 1024 && q < 1024 && HasTable(m, dir, i)
    ensures TableOf(m, dir, i) in owned && TableOf(m, dir, i) != dir && FrameIn(m, TableOf(m, dir, i))
    ensures Entry(m, TableOf(m, dir, i), q) < 0x8000_0000
  {
  }

  lemma PageSplit(virt: word, i: nat, q: nat)
    requires i < 1024 && q < 1024
    ensures (1024 * i + q) / 1024 == i && (1024 * i + q) % 1024 == q && 1024 * i + q < 1024 * 1024
    ensures 1024 * i + q == virt / BLOCK_SIZE <==> i == PdIndex(virt) && q == PtIndex(virt)
  {
    IndicesSplit(virt);
  }

  // ---- paging_map with the missing store added ----

  /** In a well-formed address space, storing a page entry changes the mapping of that page alone. */
  lemma StorePageMaps(m: seq<word>, dir: nat, owned: set<nat>, virt: word, phys: word)
    requires WellFormed(m, dir, owned) && HasTable(m, dir, PdIndex(virt))
    requires phys < 0x8000_0000 && phys % BLOCK_SIZE == 0
    requires FrameIn(m, TableOf(m, dir, PdIndex(virt)))
    ensures
      var m' := StorePage(m, TableOf(m, dir, PdIndex(virt)), virt, phys);
      && WellFormed(m', dir, owned) && UpdatedAt(m, m', dir, virt / BLOCK_SIZE, phys)
      && forall i: nat | i < 1024 :: HasTable(m', dir, i) == HasTable(m, dir, i)
  {
    var pd, pt := PdIndex(virt), PtIndex(virt);
    var t := TableOf(m, dir, pd);
    var e := Entry(m, t, pt);
    var v := SetFrameBits(SetAttribute(e, PRESENT), phys);
    var m' := StorePage(m, t, virt, phys);
    TableEntries(m, dir, owned, pd, pt);
    StoredEntry(e, phys);
    IndicesSplit(virt);
    forall g: nat, j: nat | FrameIn(m, g) && j < 1024
      ensures Entry(m', g, j) == if g == t && j == pt then v else Entry(m, g, j)
    {
      EntryPut(m, t, pt, v, g, j);
    }
    hide Present, FrameOf, SetFrameBits, SetAttribute, PagePhysAddress, PtIndex, PdIndex, StorePage, Walk, Entry;
    PutKeepsWellFormed(m, m', dir, owned, t, pt, v);
    forall p: nat | p < 1024 * 1024
      ensures Walk(m', dir, p) == if p == virt / BLOCK_SIZE then Some(phys) else Walk(m, dir, p)
    {
      var i, q := p / 1024, p % 1024;
      assert p == 1024 * i + q;
      StoreWalk(m, dir, t, virt, phys, i, q);
      PageSplit(virt, i, q);
      if HasTable(m, dir, i) {
        OneTable(m, dir, owned, i, pd);
      }
    }
  }

  lemma OneTable(m: seq<word>, dir: nat, owned: set<nat>, i: nat, j: nat)
    requires WellFormed(m, dir, owned) && i < 1024 && j < 1024 && HasTable(m, dir, i) && HasTable(m, dir, j)
    ensures TableOf(m, dir, i) == TableOf(m, dir, j) <==> i == j
  {
  }

  lemma PutKeepsWellFormed(m: seq<word>, m': seq<word>, dir: nat, owned: set<nat>, t: nat, q: nat, v: word)
    requires WellFormed(m, dir, owned) && |m'| == |m| && t != dir && v < 0x8000_0000
    requires forall g: nat, j: nat | FrameIn(m, g) && j < 1024 ::
      Entry(m', g, j) == if g == t && j == q then v else Entry(m, g, j)
    ensures WellFormed(m', dir, owned)
    ensures forall i: nat | i < 1024 :: HasTable(m', dir, i) == HasTable(m, dir, i)
  {
    hide Present, FrameOf;
    forall i: nat | i < 1024
      ensures Entry(m', dir, i) == Entry(m, dir, i)
      ensures HasTable(m', dir, i) == HasTable(m, dir, i) && TableOf(m', dir, i) == TableOf(m, dir, i)
    {
    }
    hide Entry;
  }

  lemma LinkedEntry(e: word, newtab: nat)
    requires e < 0x8000_0000 && newtab < 0x8_0000
    ensures
      var v := SetFrameBits(SetAttribute(SetAttribute(e, PRESENT), WRITABLE), newtab * BLOCK_SIZE);
      v < 0x8000_0000 && Present(v) && FrameOf(v) == newtab
  {
    var k := SetAttribute(SetAttribute(e, PRESENT), WRITABLE);
    MarkedEntry(e);
    PresentIsOdd(k);
    hide Present, FrameOf, SetFrameBits, SetAttribute;
    var v := SetFrameBits(k, newtab * BLOCK_SIZE);
    assert k < 0x8000_0000;
    SetFrameIs(k, newtab * BLOCK_SIZE);
    PresentIsOdd(v);
    FrameOfIs(v);
    FrameSum(newtab, k, v);
  }

  /** The linked entry in full: the new frame, and the flags that were there with the lowest two set. */
  lemma LinkedEntryIs(e: word, newtab: nat)
    requires e < 0x8000_0000 && newtab < 0x8_0000
    ensures
      SetFrameBits(SetAttribute(SetAttribute(e, PRESENT), WRITABLE), newtab * BLOCK_SIZE) ==
        4096 * newtab + e % 4096 / 4 * 4 + 3
  {
    hide SetFrameBits, SetAttribute, StoredFrame;
    var p := SetAttribute(e, PRESENT);
    var k := SetAttribute(p, WRITABLE);
    SetPresentIs(e);
    SetWritableIs(p);
    LowFlags(e);
    SetFrameIs(k, newtab * BLOCK_SIZE);
    LowStored(k, newtab * BLOCK_SIZE);
  }

  lemma LowFlags(e: word)
    ensures
      var p := e / 2 * 2 + 1;
      var k := p / 2 / 2 * 4 + 2 + p % 2;
      && (k < 0x8000_0000 <==> e < 0x8000_0000) && (p < 0x8000_0000 <==> e < 0x8000_0000)
      && k % 4096 == e % 4096 / 4 * 4 + 3 && p % 4096 == e % 4096 / 2 * 2 + 1
  {
    var f, r := e / 4096, e % 4096;
    assert e == 4096 * f + r;
    LowOf(f, r);
  }

  lemma LowOf(f: nat, r: nat)
    requires r < 4096
    ensures
      var e := 4096 * f + r;
      && e / 2 * 2 + 1 == 4096 * f + (r / 2 * 2 + 1)
      && (e / 2 * 2 + 1) / 2 / 2 * 4 + 2 + (e / 2 * 2 + 1) % 2 == 4096 * f + (r / 4 * 4 + 3)
      && (4096 * f + (r / 2 * 2 + 1)) % 4096 == r / 2 * 2 + 1 && (4096 * f + (r / 4 * 4 + 3)) % 4096 == r / 4 * 4 + 3
  {
    var e := 4096 * f + r;
    var p := e / 2 * 2 + 1;
    assert e / 2 == 2048 * f + r / 2 && e / 4 == 1024 * f + r / 4;
    assert p / 2 == e / 2 && p % 2 == 1 && e / 2 / 2 == e / 4;
    DivModUnique(4096 * f + (r / 2 * 2 + 1), 4096, f, r / 2 * 2 + 1);
    DivModUnique(4096 * f + (r / 4 * 4 + 3), 4096, f, r / 4 * 4 + 3);
  }

  lemma LowStored(e: word, address: word)
    requires e < 0x8000_0000 && address % BLOCK_SIZE == 0
    ensures StoredFrame(e, address) == address
  {
  }

  /** The page entry in full: the address, and the flags that were there with the lowest one set. */
  lemma StoredEntryIs(e: word, phys: word)
    requires e < 0x8000_0000 && phys % BLOCK_SIZE == 0
    ensures SetFrameBits(SetAttribute(e, PRESENT), phys) == phys + e % 4096 / 2 * 2 + 1
  {
    hide SetFrameBits, SetAttribute, StoredFrame;
    var p := SetAttribute(e, PRESENT);
    SetPresentIs(e);
    LowFlags(e);
    SetFrameIs(p, phys);
    LowStored(p, phys);
  }

  /** The directory entry and the page entry after a linked call that found no table. */
  lemma LinkedFlags(m: seq<word>, dir: nat, virt: word, phys: word, newtab: nat)
    requires FrameIn(m, dir) && FrameIn(m, newtab) && newtab < 0x8_0000 && newtab != dir
    requires Entry(m, dir, PdIndex(virt)) < 0x8000_0000 && phys % BLOCK_SIZE == 0
    ensures
      var r := StorePage(LinkTable(m, dir, virt, newtab), newtab, virt, phys);
      && Entry(r, dir, PdIndex(virt)) == 4096 * newtab + Entry(m, dir, PdIndex(virt)) % 4096 / 4 * 4 + 3
      && Entry(r, newtab, PtIndex(virt)) == phys + 1
  {
    var k := LinkTable(m, dir, virt, newtab);
    var v := LinkTableEntries(m, dir, virt, newtab);
    LinkedEntryIs(Entry(m, dir, PdIndex(virt)), newtab);
    assert Entry(k, dir, PdIndex(virt)) == v && Entry(k, newtab, PtIndex(virt)) == 0;
    StoreEntries(k, newtab, virt, phys, dir, PdIndex(virt));
    StoreEntries(k, newtab, virt, phys, newtab, PtIndex(virt));
    StoredEntryIs(0, phys);
    hide Entry, LinkTable, StorePage, SetFrameBits, SetAttribute, PtIndex, PdIndex;
  }

  /** The entries after a table has been linked in. */
  ghost predicate LinkedIn(m: seq<word>, k: seq<word>, dir: nat, pd: nat, newtab: nat, v: word)
    requires FrameIn(m, dir) && |k| == |m|
  {
    && pd < 1024 && newtab != dir && v < 0x8000_0000 && Present(v) && FrameOf(v) == newtab
    && forall g: nat, j: nat | FrameIn(m, g) && j < 1024 ::
         Entry(k, g, j) == if g == dir && j == pd then v else if g == newtab then 0 else Entry(m, g, j)
  }

  lemma LinkTableEntries(m: seq<word>, dir: nat, virt: word, newtab: nat) returns (v: word)
    requires FrameIn(m, dir) && FrameIn(m, newtab) && newtab < 0x8_0000 && newtab != dir
    requires Entry(m, dir, PdIndex(virt)) < 0x8000_0000
    ensures LinkedIn(m, LinkTable(m, dir, virt, newtab), dir, PdIndex(virt), newtab, v)
    ensures v == SetFrameBits(
                   SetAttribute(SetAttribute(Entry(m, dir, PdIndex(virt)), PRESENT), WRITABLE), newtab * BLOCK_SIZE)
  {
    var pd, k := PdIndex(virt), MarkTable(m, dir, virt, newtab);
    var e := Entry(m, dir, pd);
    v := SetFrameBits(SetAttribute(SetAttribute(e, PRESENT), WRITABLE), newtab * BLOCK_SIZE);
    LinkedEntry(e, newtab);
    ZeroKeeps(m, newtab, dir, pd);
    hide Present, FrameOf, SetFrameBits, SetAttribute, Entry, ZeroFrame, PutEntry;
    var z, w := ZeroFrame(m, newtab), SetAttribute(SetAttribute(e, PRESENT), WRITABLE);
    assert k == PutEntry(z, dir, pd, w);
    EntryPut(z, dir, pd, w, dir, pd);
    assert LinkTable(m, dir, virt, newtab) == PutEntry(k, dir, pd, v);
    forall g: nat, j: nat | FrameIn(m, g) && j < 1024
      ensures Entry(PutEntry(k, dir, pd, v), g, j) ==
              if g == dir && j == pd then v else if g == newtab then 0 else Entry(m, g, j)
    {
      EntryPut(k, dir, pd, v, g, j);
      EntryPut(z, dir, pd, w, g, j);
      ZeroKeeps(m, newtab, g, j);
    }
  }

  /** Linking in an empty table of its own keeps the address space well formed and the mapping as it was. */
  lemma LinkTableMaps(m: seq<word>, dir: nat, owned: set<nat>, virt: word, newtab: nat)
    requires WellFormed(m, dir, owned) && !HasTable(m, dir, PdIndex(virt))
    requires FrameIn(m, newtab) && newtab !in owned && newtab < 0x8_0000
    ensures
      var k := LinkTable(m, dir, virt, newtab);
      && WellFormed(k, dir, owned + {newtab})
      && TableOf(k, dir, PdIndex(virt)) == newtab
      && (forall i: nat | i < 1024 :: HasTable(k, dir, i) <==> i == PdIndex(virt) || HasTable(m, dir, i))
      && forall p: nat | p < 1024 * 1024 :: Walk(k, dir, p) == Walk(m, dir, p)
  {
    var k := LinkTable(m, dir, virt, newtab);
    var v := LinkTableEntries(m, dir, virt, newtab);
    hide *;
    LinkedWellFormed(m, k, dir, owned, PdIndex(virt), newtab, v);
    forall p: nat | p < 1024 * 1024
      ensures Walk(k, dir, p) == Walk(m, dir, p)
    {
      LinkedWalk(m, k, dir, owned, PdIndex(virt), newtab, v, p);
    }
  }

  lemma LinkedWellFormed(
    m: seq<word>, k: seq<word>, dir: nat, owned: set<nat>, pd: nat, newtab: nat, v: word)
    requires WellFormed(m, dir, owned) && pd < 1024 && !HasTable(m, dir, pd) && |k| == |m|
    requires FrameIn(m, newtab) && newtab !in owned && newtab < 0x8_0000 && LinkedIn(m, k, dir, pd, newtab, v)
    ensures WellFormed(k, dir, owned + {newtab})
    ensures TableOf(k, dir, pd) == newtab
    ensures forall i: nat | i < 1024 :: HasTable(k, dir, i) <==> i == pd || HasTable(m, dir, i)
  {
    hide Present, FrameOf;
    forall i: nat | i < 1024
      ensures Entry(k, dir, i) == if i == pd then v else Entry(m, dir, i)
      ensures HasTable(k, dir, i) <==> i == pd || HasTable(m, dir, i)
      ensures TableOf(k, dir, i) == if i == pd then newtab else TableOf(m, dir, i)
    {
    }
    hide Entry;
  }

  lemma LinkedWalk(
    m: seq<word>, k: seq<word>, dir: nat, owned: set<nat>, pd: nat, newtab: nat, v: word, p: nat)
    requires WellFormed(m, dir, owned) && pd < 1024 && !HasTable(m, dir, pd) && |k| == |m| && p < 1024 * 1024
    requires FrameIn(m, newtab) && newtab !in owned && LinkedIn(m, k, dir, pd, newtab, v)
    ensures Walk(k, dir, p) == Walk(m, dir, p)
  {
    PresentIsOdd(0);
    if p / 1024 != pd && HasTable(m, dir, p / 1024) {
      TableEntries(m, dir, owned, p / 1024, p % 1024);
    }
    hide Present, FrameOf, PagePhysAddress, Entry, WellFormed;
  }

  // ---- paging_map as written ----

  /** The page store of a call, in table t. */
  lemma StoreEntries(m: seq<word>, t: nat, virt: word, phys: word, g: nat, j: nat)
    requires FrameIn(m, t) && FrameIn(m, g) && j < 1024
    ensures
      var pt := PtIndex(virt);
      Entry(StorePage(m, t, virt, phys), g, j) ==
        if g == t && j == pt then SetFrameBits(SetAttribute(Entry(m, t, pt), PRESENT), phys) else Entry(m, g, j)
  {
    hide SetFrameBits, SetAttribute, PtIndex;
  }

  /** The directory entry marked and the new frame cleared. */
  lemma MarkEntries(m: seq<word>, dir: nat, virt: word, newtab: nat, g: nat, j: nat)
    requires FrameIn(m, dir) && FrameIn(m, newtab) && FrameIn(m, g) && j < 1024 && newtab != dir
    ensures
      var pd := PdIndex(virt);
      Entry(MarkTable(m, dir, virt, newtab), g, j) ==
        if g == dir && j == pd then SetAttribute(SetAttribute(Entry(m, dir, pd), PRESENT), WRITABLE)
        else if g == newtab then 0 else Entry(m, g, j)
  {
    var pd, z := PdIndex(virt), ZeroFrame(m, newtab);
    var w := SetAttribute(SetAttribute(Entry(m, dir, pd), PRESENT), WRITABLE);
    ZeroKeeps(m, newtab, dir, pd);
    ZeroKeeps(m, newtab, g, j);
    EntryPut(z, dir, pd, w, g, j);
    hide SetAttribute, ZeroFrame, PutEntry, Entry, PdIndex;
  }

  /** The entries after a call as written, where the table is not the frame just cleared. */
  lemma MapEntries(m: seq<word>, dir: nat, virt: word, phys: word, newtab: nat, g: nat, j: nat)
    requires FrameIn(m, dir) && FrameIn(m, newtab) && FrameIn(m, g) && j < 1024
    requires newtab != dir || HasTable(m, dir, PdIndex(virt))
    ensures
      var pd, pt := PdIndex(virt), PtIndex(virt);
      var t, found := TableOf(m, dir, pd), HasTable(m, dir, pd);
      FrameIn(m, t) && t != dir && (found || t != newtab) ==>
        var r := MapWords(m, dir, virt, phys, newtab);
        && r.Some?
        && Entry(r.value, g, j) ==
           if g == t && j == pt then SetFrameBits(SetAttribute(Entry(m, t, pt), PRESENT), phys)
           else if found then Entry(m, g, j)
           else if g == dir && j == pd then SetAttribute(SetAttribute(Entry(m, dir, pd), PRESENT), WRITABLE)
           else if g == newtab then 0 else Entry(m, g, j)
  {
    var t, pd, k := TableOf(m, dir, PdIndex(virt)), PdIndex(virt), Marked(m, dir, virt, newtab);
    MarkedEntry(Entry(m, dir, pd));
    hide Present, FrameOf, SetFrameBits, SetAttribute, Entry, StorePage, MarkTable, PdIndex, PtIndex;
    if !HasTable(m, dir, pd) {
      MarkEntries(m, dir, virt, newtab, dir, pd);
      MarkEntries(m, dir, virt, newtab, g, j);
    }
    if FrameIn(m, t) {
      if !HasTable(m, dir, pd) {
        MarkEntries(m, dir, virt, newtab, t, PtIndex(virt));
      }
      StoreEntries(k, t, virt, phys, g, j);
    }
  }

  /**
   * What a call as written needs of memory: the table it will store into is in memory, the directory is not
   * one of its tables, and the frame it allocates is in no use.  Tables may be shared.
   */
  ghost predicate Callable(m: seq<word>, dir: nat, virt: word, phys: word, newtab: nat) {
    && FrameIn(m, dir) && FrameIn(m, newtab) && phys % BLOCK_SIZE == 0
    && FrameIn(m, TableOf(m, dir, PdIndex(virt))) && TableOf(m, dir, PdIndex(virt)) != dir
    && (HasTable(m, dir, PdIndex(virt)) ||
        (newtab != dir &&
         forall i: nat | i < 1024 && HasTable(m, dir, i) :: TableOf(m, dir, i) != newtab && TableOf(m, dir, i) != dir))
  }

  /** Marking the entry makes the frame in it a table and changes no page of another entry. */
  lemma MarkedWalk(m: seq<word>, dir: nat, virt: word, phys: word, newtab: nat, i: nat, q: nat)
    requires Callable(m, dir, virt, phys, newtab) && i < 1024 && q < 1024
    ensures
      var k := Marked(m, dir, virt, newtab);
      && (HasTable(k, dir, i) <==> i == PdIndex(virt) || HasTable(m, dir, i))
      && TableOf(k, dir, i) == TableOf(m, dir, i)
      && (i != PdIndex(virt) ==> Walk(k, dir, 1024 * i + q) == Walk(m, dir, 1024 * i + q))
  {
    if !HasTable(m, dir, PdIndex(virt)) {
      var pd, z, t := PdIndex(virt), ZeroFrame(m, newtab), TableOf(m, dir, i);
      var e := Entry(m, dir, pd);
      var w := SetAttribute(SetAttribute(e, PRESENT), WRITABLE);
      MarkedEntry(e);
      ZeroKeeps(m, newtab, dir, pd);
      ZeroKeeps(m, newtab, dir, i);
      assert (1024 * i + q) / 1024 == i && (1024 * i + q) % 1024 == q;
      hide Present, FrameOf, SetAttribute, Entry, ZeroFrame, PutEntry, PagePhysAddress, PdIndex;
      EntryPut(z, dir, pd, w, dir, i);
      if FrameIn(m, t) {
        EntryPut(z, dir, pd, w, t, q);
        ZeroKeeps(m, newtab, t, q);
      }
    }
  }

  /** All entries of frame f but the one at pt are not present. */
  ghost predicate BlankBut(m: seq<word>, f: nat, pt: nat)
    requires FrameIn(m, f)
  {
    forall q: nat | q < 1024 && q != pt :: !Present(Entry(m, f, q))
  }

  /** Every other directory entry that names frame f already maps the page at pt to phys. */
  ghost predicate SharersAgree(m: seq<word>, dir: nat, pd: nat, f: nat, pt: nat, phys: word)
    requires FrameIn(m, dir) && pt < 1024
  {
    forall i: nat | i < 1024 && i != pd && HasTable(m, dir, i) && TableOf(m, dir, i) == f ::
      Walk(m, dir, 1024 * i + pt) == Some(phys)
  }

  /** The mapping after a call as written: page q of each directory entry i. */
  function MapResult(m: seq<word>, dir: nat, virt: word, phys: word, newtab: nat, i: nat, q: nat): Option<word>
    requires Callable(m, dir, virt, phys, newtab) && i < 1024 && q < 1024
  {
    var k, t := Marked(m, dir, virt, newtab), TableOf(m, dir, PdIndex(virt));
    if q == PtIndex(virt) && (i == PdIndex(virt) || (HasTable(m, dir, i) && TableOf(m, dir, i) == t)) then
      Some(StoredFrame(Entry(k, t, q), phys))
    else if i == PdIndex(virt) then EntryMaps(Entry(k, t, q))
    else Walk(m, dir, 1024 * i + q)
  }

  lemma MapWalk(m: seq<word>, dir: nat, virt: word, phys: word, newtab: nat, i: nat, q: nat)
    requires Callable(m, dir, virt, phys, newtab) && i < 1024 && q < 1024
    ensures MapWords(m, dir, virt, phys, newtab).Some?
    ensures
      Walk(MapWords(m, dir, virt, phys, newtab).value, dir, 1024 * i + q) ==
        MapResult(m, dir, virt, phys, newtab, i, q)
  {
    var pd := PdIndex(virt);
    var k, t := Marked(m, dir, virt, newtab), TableOf(m, dir, pd);
    MarkedWalk(m, dir, virt, phys, newtab, pd, q);
    MarkedWalk(m, dir, virt, phys, newtab, i, q);
    WalkAt(k, dir, i, q);
    StoreWalk(k, dir, t, virt, phys, i, q);
    assert MapWords(m, dir, virt, phys, newtab) == Some(StorePage(k, t, virt, phys));
    hide Present, FrameOf, Entry, PagePhysAddress, PdIndex, PtIndex, StoredFrame, StorePage, Marked, Walk, EntryMaps;
    hide HasTable, TableOf, Callable, MapWords;
  }

  /**
   * Bit 31 of the old page entry does not get in the way, every other directory entry that shares the table
   * already maps its own such page to the same address, and, where the directory entry is not present, the
   * frame already named by it is blank but for that page.
   */
  ghost predicate Undisturbed(m: seq<word>, dir: nat, virt: word, phys: word, newtab: nat)
    requires Callable(m, dir, virt, phys, newtab)
  {
    var pd, pt, k := PdIndex(virt), PtIndex(virt), Marked(m, dir, virt, newtab);
    var t := TableOf(m, dir, pd);
    && (Entry(k, t, pt) < 0x8000_0000 || phys >= 0x8000_0000)
    && SharersAgree(m, dir, pd, t, pt, phys)
    && (HasTable(m, dir, pd) || BlankBut(k, t, pt))
  }

  /** paging_map as written updates the mapping at exactly its own page if and only if it is undisturbed. */
  lemma MapUpdatesExactly(m: seq<word>, dir: nat, virt: word, phys: word, newtab: nat)
    requires Callable(m, dir, virt, phys, newtab)
    ensures FrameIn(m, dir) && FrameIn(m, newtab) && MapWords(m, dir, virt, phys, newtab).Some?
    ensures
      UpdatedAt(m, MapWords(m, dir, virt, phys, newtab).value, dir, virt / BLOCK_SIZE, phys)
      <==> Undisturbed(m, dir, virt, phys, newtab)
  {
    MapWalk(m, dir, virt, phys, newtab, 0, 0);
    var m' := MapWords(m, dir, virt, phys, newtab).value;
    hide MapWords, UpdatedAt, Undisturbed;
    if UpdatedAt(m, m', dir, virt / BLOCK_SIZE, phys) {
      UpdatedNeeds(m, dir, virt, phys, newtab, m');
    }
    if Undisturbed(m, dir, virt, phys, newtab) {
      UpdatedIf(m, dir, virt, phys, newtab, m');
    }
  }

  /** What a call that updates exactly its page leaves at page q of directory entry i. */
  ghost predicate PageAsMeant(m: seq<word>, dir: nat, virt: word, phys: word, newtab: nat, i: nat, q: nat)
    requires Callable(m, dir, virt, phys, newtab) && i < 1024 && q < 1024
  {
    MapResult(m, dir, virt, phys, newtab, i, q) ==
      if i == PdIndex(virt) && q == PtIndex(virt) then Some(phys) else Walk(m, dir, 1024 * i + q)
  }

  lemma UpdatedPage(
    m: seq<word>, dir: nat, virt: word, phys: word, newtab: nat, m': seq<word>, i: nat, q: nat)
    requires Callable(m, dir, virt, phys, newtab) && MapWords(m, dir, virt, phys, newtab) == Some(m')
    requires UpdatedAt(m, m', dir, virt / BLOCK_SIZE, phys) && i < 1024 && q < 1024
    ensures PageAsMeant(m, dir, virt, phys, newtab, i, q)
  {
    MapWalk(m, dir, virt, phys, newtab, i, q);
    PageSplit(virt, i, q);
    hide MapResult, Callable, MapWords, Walk, PdIndex, PtIndex;
  }

  lemma MeantOwn(m: seq<word>, dir: nat, virt: word, phys: word, newtab: nat)
    requires Callable(m, dir, virt, phys, newtab)
    requires PageAsMeant(m, dir, virt, phys, newtab, PdIndex(virt), PtIndex(virt))
    ensures
      var k, t := Marked(m, dir, virt, newtab), TableOf(m, dir, PdIndex(virt));
      Entry(k, t, PtIndex(virt)) < 0x8000_0000 || phys >= 0x8000_0000
  {
    hide Present, PagePhysAddress, FrameOf, Entry, PdIndex, PtIndex, Marked, Walk, EntryMaps, HasTable, TableOf;
  }

  lemma MeantSharer(m: seq<word>, dir: nat, virt: word, phys: word, newtab: nat, i: nat)
    requires Callable(m, dir, virt, phys, newtab) && i < 1024 && i != PdIndex(virt)
    requires HasTable(m, dir, i) && TableOf(m, dir, i) == TableOf(m, dir, PdIndex(virt))
    requires PageAsMeant(m, dir, virt, phys, newtab, PdIndex(virt), PtIndex(virt))
    requires PageAsMeant(m, dir, virt, phys, newtab, i, PtIndex(virt))
    ensures Walk(m, dir, 1024 * i + PtIndex(virt)) == Some(phys)
  {
    hide Present, PagePhysAddress, FrameOf, Entry, PdIndex, PtIndex, Marked, Walk, EntryMaps, HasTable, TableOf;
    hide StoredFrame;
  }

  lemma MeantBlank(m: seq<word>, dir: nat, virt: word, phys: word, newtab: nat, q: nat)
    requires Callable(m, dir, virt, phys, newtab) && q < 1024 && q != PtIndex(virt)
    requires !HasTable(m, dir, PdIndex(virt)) && PageAsMeant(m, dir, virt, phys, newtab, PdIndex(virt), q)
    ensures !Present(Entry(Marked(m, dir, virt, newtab), TableOf(m, dir, PdIndex(virt)), q))
  {
    var e := Entry(Marked(m, dir, virt, newtab), TableOf(m, dir, PdIndex(virt)), q);
    assert MapResult(m, dir, virt, phys, newtab, PdIndex(virt), q) == EntryMaps(e);
    WalkAt(m, dir, PdIndex(virt), q);
    hide *;
    MapsIfPresent(e);
    MeantElsewhere(m, dir, virt, phys, newtab, PdIndex(virt), q);
  }

  lemma MeantElsewhere(m: seq<word>, dir: nat, virt: word, phys: word, newtab: nat, i: nat, q: nat)
    requires Callable(m, dir, virt, phys, newtab) && i < 1024 && q < 1024 && q != PtIndex(virt)
    requires PageAsMeant(m, dir, virt, phys, newtab, i, q)
    ensures MapResult(m, dir, virt, phys, newtab, i, q) == Walk(m, dir, 1024 * i + q)
  {
    hide MapResult, Walk, Callable;
  }

  lemma MapsIfPresent(e: word)
    ensures EntryMaps(e).Some? <==> Present(e)
  {
  }

  lemma MeantSharers(m: seq<word>, dir: nat, virt: word, phys: word, newtab: nat, m': seq<word>)
    requires Callable(m, dir, virt, phys, newtab) && MapWords(m, dir, virt, phys, newtab) == Some(m')
    requires UpdatedAt(m, m', dir, virt / BLOCK_SIZE, phys)
    ensures SharersAgree(m, dir, PdIndex(virt), TableOf(m, dir, PdIndex(virt)), PtIndex(virt), phys)
  {
    var pd, pt, t := PdIndex(virt), PtIndex(virt), TableOf(m, dir, PdIndex(virt));
    hide Present, FrameOf, Entry, PdIndex, PtIndex, MapWords, Callable, Walk, UpdatedAt, PageAsMeant, HasTable, TableOf;
    hide MapResult;
    forall i: nat | i < 1024 && i != pd && HasTable(m, dir, i) && TableOf(m, dir, i) == t
      ensures Walk(m, dir, 1024 * i + pt) == Some(phys)
    {
      UpdatedSharer(m, dir, virt, phys, newtab, m', i);
    }
  }

  lemma UpdatedSharer(m: seq<word>, dir: nat, virt: word, phys: word, newtab: nat, m': seq<word>, i: nat)
    requires Callable(m, dir, virt, phys, newtab) && MapWords(m, dir, virt, phys, newtab) == Some(m')
    requires UpdatedAt(m, m', dir, virt / BLOCK_SIZE, phys) && i < 1024 && i != PdIndex(virt)
    requires HasTable(m, dir, i) && TableOf(m, dir, i) == TableOf(m, dir, PdIndex(virt))
    ensures Walk(m, dir, 1024 * i + PtIndex(virt)) == Some(phys)
  {
    hide *;
    UpdatedPage(m, dir, virt, phys, newtab, m', PdIndex(virt), PtIndex(virt));
    UpdatedPage(m, dir, virt, phys, newtab, m', i, PtIndex(virt));
    MeantSharer(m, dir, virt, phys, newtab, i);
  }

  lemma MeantBlankBut(m: seq<word>, dir: nat, virt: word, phys: word, newtab: nat, m': seq<word>)
    requires Callable(m, dir, virt, phys, newtab) && MapWords(m, dir, virt, phys, newtab) == Some(m')
    requires UpdatedAt(m, m', dir, virt / BLOCK_SIZE, phys) && !HasTable(m, dir, PdIndex(virt))
    ensures BlankBut(Marked(m, dir, virt, newtab), TableOf(m, dir, PdIndex(virt)), PtIndex(virt))
  {
    var pd, pt, k, t := PdIndex(virt), PtIndex(virt), Marked(m, dir, virt, newtab), TableOf(m, dir, PdIndex(virt));
    hide Present, FrameOf, Entry, PdIndex, PtIndex, MapWords, Callable, Walk, UpdatedAt, PageAsMeant, HasTable, TableOf;
    hide Marked;
    forall q: nat | q < 1024 && q != pt
      ensures !Present(Entry(k, t, q))
    {
      UpdatedPage(m, dir, virt, phys, newtab, m', pd, q);
      MeantBlank(m, dir, virt, phys, newtab, q);
    }
  }

  lemma UpdatedNeeds(m: seq<word>, dir: nat, virt: word, phys: word, newtab: nat, m': seq<word>)
    requires Callable(m, dir, virt, phys, newtab) && MapWords(m, dir, virt, phys, newtab) == Some(m')
    requires UpdatedAt(m, m', dir, virt / BLOCK_SIZE, phys)
    ensures Undisturbed(m, dir, virt, phys, newtab)
  {
    assert FrameIn(m, dir);
    hide Present, FrameOf, Entry, PdIndex, PtIndex, MapWords, Callable, Walk, UpdatedAt, PageAsMeant, HasTable, TableOf;
    hide Marked, BlankBut, SharersAgree;
    UpdatedPage(m, dir, virt, phys, newtab, m', PdIndex(virt), PtIndex(virt));
    MeantOwn(m, dir, virt, phys, newtab);
    MeantSharers(m, dir, virt, phys, newtab, m');
    if !HasTable(m, dir, PdIndex(virt)) {
      MeantBlankBut(m, dir, virt, phys, newtab, m');
    }
  }

  lemma UpdatedIf(m: seq<word>, dir: nat, virt: word, phys: word, newtab: nat, m': seq<word>)
    requires Callable(m, dir, virt, phys, newtab) && MapWords(m, dir, virt, phys, newtab) == Some(m')
    requires Undisturbed(m, dir, virt, phys, newtab)
    ensures UpdatedAt(m, m', dir, virt / BLOCK_SIZE, phys)
  {
    assert FrameIn(m, dir) && FrameIn(m', dir);
    hide MapWords, Callable, Undisturbed, Walk;
    forall p: nat | p < 1024 * 1024
      ensures Walk(m', dir, p) == if p == virt / BLOCK_SIZE then Some(phys) else Walk(m, dir, p)
    {
      UpdatedIfAt(m, dir, virt, phys, newtab, m', p / 1024, p % 1024);
      assert p == 1024 * (p / 1024) + p % 1024;
    }
  }

  lemma UpdatedIfAt(
    m: seq<word>, dir: nat, virt: word, phys: word, newtab: nat, m': seq<word>, i: nat, q: nat)
    requires Callable(m, dir, virt, phys, newtab) && MapWords(m, dir, virt, phys, newtab) == Some(m')
    requires Undisturbed(m, dir, virt, phys, newtab) && i < 1024 && q < 1024
    ensures FrameIn(m, dir) && FrameIn(m', dir) && 1024 * i + q < 1024 * 1024
    ensures
      var p := 1024 * i + q;
      Walk(m', dir, p) == if p == virt / BLOCK_SIZE then Some(phys) else Walk(m, dir, p)
  {
    assert FrameIn(m, dir) && FrameIn(m', dir);
    hide PdIndex, PtIndex, MapWords, Callable, Undisturbed, Walk, MapResult;
    MapWalk(m, dir, virt, phys, newtab, i, q);
    ResultPage(m, dir, virt, phys, newtab, i, q);
    PageSplit(virt, i, q);
  }

  lemma ResultPage(m: seq<word>, dir: nat, virt: word, phys: word, newtab: nat, i: nat, q: nat)
    requires Callable(m, dir, virt, phys, newtab) && i < 1024 && q < 1024
    requires Undisturbed(m, dir, virt, phys, newtab)
    ensures PageAsMeant(m, dir, virt, phys, newtab, i, q)
  {
    if q == PtIndex(virt) {
      SlotPage(m, dir, virt, phys, newtab, i);
    } else {
      if i == PdIndex(virt) {
        OwnPage(m, dir, virt, phys, newtab, q);
      }
      hide Callable, Entry, PdIndex, PtIndex, Marked, Walk, EntryMaps, HasTable, TableOf, Undisturbed;
    }
  }

  lemma SlotPage(m: seq<word>, dir: nat, virt: word, phys: word, newtab: nat, i: nat)
    requires Callable(m, dir, virt, phys, newtab) && i < 1024
    requires Undisturbed(m, dir, virt, phys, newtab)
    ensures PageAsMeant(m, dir, virt, phys, newtab, i, PtIndex(virt))
  {
    hide Callable, Entry, PdIndex, PtIndex, Marked, Walk, EntryMaps, HasTable, TableOf, BlankBut;
  }

  lemma OwnPage(m: seq<word>, dir: nat, virt: word, phys: word, newtab: nat, q: nat)
    requires Callable(m, dir, virt, phys, newtab) && q < 1024 && q != PtIndex(virt)
    requires Undisturbed(m, dir, virt, phys, newtab)
    ensures
      EntryMaps(Entry(Marked(m, dir, virt, newtab), TableOf(m, dir, PdIndex(virt)), q)) ==
        Walk(m, dir, 1024 * PdIndex(virt) + q)
  {
    WalkAt(m, dir, PdIndex(virt), q);
    hide Present, FrameOf, PagePhysAddress, Entry, Walk, PdIndex, PtIndex, SharersAgree, StoredFrame, MarkTable;
    hide TableOf;
  }

  // ---- runs of calls ----

  datatype Mapping = Mapping(virt: word, phys: word)

  /** The physical address is that of a frame below 2 GiB. */
  predicate LowFrame(r: Mapping) {
    r.phys < 0x8000_0000 && r.phys % BLOCK_SIZE == 0
  }

  /** Some request is for a page of directory entry i. */
  ghost predicate Asked(rs: seq<Mapping>, i: nat) {
    exists k: nat :: k < |rs| && PdIndex(rs[k].virt) == i
  }

  /** What the latest of the requests says about a page. */
  function Latest(rs: seq<Mapping>, page: nat): Option<word> {
    if rs == [] then None
    else
      var r := rs[|rs| - 1];
      if r.virt / BLOCK_SIZE == page then Some(r.phys) else Latest(rs[..|rs| - 1], page)
  }

  /** The mapping in m' is that in m overridden by the requests. */
  ghost predicate Overridden(m: seq<word>, m': seq<word>, dir: nat, rs: seq<Mapping>)
    requires FrameIn(m, dir) && FrameIn(m', dir)
  {
    forall p: nat | p < 1024 * 1024 ::
      Walk(m', dir, p) == if Latest(rs, p).Some? then Latest(rs, p) else Walk(m, dir, p)
  }

  lemma OverriddenStep(m: seq<word>, k: seq<word>, m': seq<word>, dir: nat, rs: seq<Mapping>)
    requires FrameIn(m, dir) && FrameIn(k, dir) && FrameIn(m', dir) && rs != []
    requires Overridden(m, k, dir, rs[..|rs| - 1])
    requires UpdatedAt(k, m', dir, rs[|rs| - 1].virt / BLOCK_SIZE, rs[|rs| - 1].phys)
    ensures Overridden(m, m', dir, rs)
  {
    hide Walk;
  }

  // ---- whether a store reaches its frame once paging is on ----

  /** A store to frame f by its physical address arrives there: its page is mapped to itself. */
  ghost predicate Reached(m: seq<word>, dir: nat, f: nat)
    requires FrameIn(m, dir)
  {
    f < 1024 * 1024 && Walk(m, dir, f) == Some(BLOCK_SIZE * f)
  }

  /** The frames that a call stores into: the directory, the table, and the new frame if it clears one. */
  ghost predicate CallReaches(m: seq<word>, dir: nat, virt: word, newtab: nat)
    requires FrameIn(m, dir)
  {
    && Reached(m, dir, dir) && Reached(m, dir, TableOf(m, dir, PdIndex(virt)))
    && (!HasTable(m, dir, PdIndex(virt)) ==> Reached(m, dir, newtab))
  }

  /** After a run of calls that do what they are meant to, a frame is reached if no call has moved its page. */
  lemma ReachedAfter(m: seq<word>, m': seq<word>, dir: nat, rs: seq<Mapping>, f: nat)
    requires FrameIn(m, dir) && FrameIn(m', dir) && Overridden(m, m', dir, rs)
    ensures Reached(m', dir, f) <==>
      if f < 1024 * 1024 && Latest(rs, f).Some? then Latest(rs, f) == Some(BLOCK_SIZE * f) else Reached(m, dir, f)
  {
    hide Walk, Latest;
  }
}
