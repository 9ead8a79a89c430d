// paging_dir_new: the identity table of the first 4 MiB and the directory that names it.

module PageDirectories {
  import opened Bits
  import opened Frames
  import opened Paging
  import opened Wrappers

  /** The first table of a new directory: page i at physical address 4096 * i. */
  ghost predicate IdentityTable(m: seq<word>, f: nat) {
    FrameIn(m, f) && forall i: nat | i < 1024 :: Entry(m, f, i) == 4096 * i + 1
  }

  /** A new directory: entry 0 present and writable with the table's address, the others writable only. */
  ghost predicate NewDirectory(m: seq<word>, dir: nat, table: nat) {
    && FrameIn(m, dir) && table < 0x8_0000
    && forall i: nat | i < 1024 :: Entry(m, dir, i) == if i == 0 then table * BLOCK_SIZE + 3 else 2
  }

  /** The first 4 MiB are mapped to themselves and nothing else is mapped. */
  ghost predicate IdentityMapped(m: seq<word>, dir: nat) {
    && FrameIn(m, dir)
    && forall p: nat | p < 1024 * 1024 :: Walk(m, dir, p) == if p < 1024 then Some(BLOCK_SIZE * p) else None
  }

  /** The entries of a new directory: the first alone is present, and the others name frame 0. */
  lemma NewDirectoryEntry(m: seq<word>, dir: nat, table: nat, i: nat)
    requires NewDirectory(m, dir, table) && i < 1024
    ensures HasTable(m, dir, i) <==> i == 0
    ensures TableOf(m, dir, i) == if i == 0 then table else 0
  {
    var e := Entry(m, dir, i);
    PresentIsOdd(e);
    FrameOfIs(e);
    FrameSum(table, 3, table * BLOCK_SIZE + 3);
  }

  lemma IdentityEntryMaps(m: seq<word>, table: nat, q: nat)
    requires IdentityTable(m, table) && q < 1024
    ensures EntryMaps(Entry(m, table, q)) == Some(BLOCK_SIZE * q) && Entry(m, table, q) < 0x8000_0000
  {
    var e := Entry(m, table, q);
    assert e == q * BLOCK_SIZE + 1 && e < 0x8000_0000;
    PresentIsOdd(e);
    FrameOfIs(e);
    hide Present, FrameOf, PagePhysAddress, Entry;
    FlagsApart(q * BLOCK_SIZE, 1, e);
  }

  /** In a new directory with its table apart the first 4 MiB are mapped to themselves and nothing else is mapped. */
  lemma NewDirectoryWalk(m: seq<word>, dir: nat, table: nat)
    requires NewDirectory(m, dir, table) && IdentityTable(m, table)
    ensures IdentityMapped(m, dir)
  {
    forall p: nat | p < 1024 * 1024
      ensures Walk(m, dir, p) == if p < 1024 then Some(BLOCK_SIZE * p) else None
    {
      var i, q := p / 1024, p % 1024;
      assert p == 1024 * i + q;
      WalkAt(m, dir, i, q);
      NewDirectoryEntry(m, dir, table, i);
      IdentityEntryMaps(m, table, q);
      hide Walk, EntryMaps, HasTable, TableOf, NewDirectory, IdentityTable;
    }
  }

  /** If the directory lands on the table, page 1 is not mapped. */
  lemma NewDirectoryOverlap(m: seq<word>, table: nat)
    requires NewDirectory(m, table, table)
    ensures Walk(m, table, 1) == None && !IdentityMapped(m, table)
  {
    NewDirectoryEntry(m, table, table, 0);
    NewDirectoryEntry(m, table, table, 1);
    WalkAt(m, table, 0, 1);
    hide Present, FrameOf, PagePhysAddress, Walk;
  }

  lemma NewDirectoryWellFormed(m: seq<word>, dir: nat, table: nat, owned: set<nat>)
    requires NewDirectory(m, dir, table) && IdentityTable(m, table)
    requires forall f | f in owned :: FrameIn(m, f) && f < 0x8_0000
    requires dir in owned && table in owned && dir != table
    ensures WellFormed(m, dir, owned)
  {
    forall i: nat | i < 1024
      ensures HasTable(m, dir, i) <==> i == 0
      ensures TableOf(m, dir, i) == if i == 0 then table else 0
    {
      NewDirectoryEntry(m, dir, table, i);
    }
    hide HasTable, TableOf;
  }

  // ---- where the table and the directory are placed ----

  /** The frame of the table: the lowest free one. */
  ghost function TablePlace(ws: seq<word>, limit: nat): Option<nat>
    requires limit <= 32 * |ws|
  {
    LowestStart(ws, limit, 1)
  }

  /** The run of three frames that is found once the table has been marked. */
  ghost function DirectoryRun(ws: seq<word>, limit: nat, table: nat): Option<nat>
    requires limit <= 32 * |ws| && table + 1 <= 32 * |ws|
  {
    LowestStart(SetRun(ws, table, 1), limit, 3)
  }

  /**
   * The directory is put on the table exactly if the run of three starts in one of the last two frames of a
   * bitmap word and the lowest free frame is the one thirty below it.
   */
  lemma DirectoryOnTable(ws: seq<word>, limit: nat, table: nat, s: nat)
    requires limit <= 32 * |ws| && TablePlace(ws, limit) == Some(table) && table + 1 <= 32 * |ws|
    requires DirectoryRun(ws, limit, table) == Some(s)
    ensures Reported(s, 3) == table <==> s % 32 >= 30 && table + 30 == s
  {
    hide LowestStart, SetRun, Taken, Reported;
    ReportedThree(s);
    if s % 32 < 30 {
      assert FreeRun(SetRun(ws, table, 1), limit, s, 3);
      TakenAfterSetRun(ws, table, 1, s + 2);
    }
  }

  /** The three frames that would be marked for the directory lie in the bitmap. */
  ghost predicate RoomForDirectory(ws: seq<word>, limit: nat)
    requires limit <= 32 * |ws|
  {
    var table := TablePlace(ws, limit);
    table.Some? && table.value < 32 * |ws| ==> RoomFor(SetRun(ws, table.value, 1), limit, 3)
  }

  /** One spare word behind the scanned ones is enough. */
  lemma SpareWord(ws: seq<word>, limit: nat)
    requires limit % 32 == 0 && limit + 32 <= 32 * |ws|
    ensures RoomForDirectory(ws, limit)
  {
    hide SetRun, LowestStart, Taken;
    if TablePlace(ws, limit).Some? && TablePlace(ws, limit).value < 32 * |ws| {
      var marked := SetRun(ws, TablePlace(ws, limit).value, 1);
      forall t: nat | LowestRun(marked, limit, t, Wanted(3))
        ensures Reported(t, 3) + 3 <= 32 * |ws|
      {
        ReportedIsStart(t, 3);
      }
    }
  }

  const OVERLAP_BITMAP: seq<word> := [0x3FFF_FFFE, 0, 0]

  /** With frame 0 free, 1 to 29 taken and 30 onwards free, it is. */
  lemma OverlapExample()
    ensures TablePlace(OVERLAP_BITMAP, 64) == Some(0)
    ensures DirectoryRun(OVERLAP_BITMAP, 64, 0) == Some(30) && Reported(30, 3) == 0
  {
    var ws, ws' := OVERLAP_BITMAP, SetRun(OVERLAP_BITMAP, 0, 1);
    forall j: nat | j < 64
      ensures Taken(ws, j) <==> 1 <= j < 30
      ensures Taken(ws', j) <==> j < 30
    {
      OverlapBits(j);
      TakenAfterSetRun(ws, 0, 1, j);
    }
    hide Taken, SetRun;
    RunsOfOverlap(ws, ws');
  }

  lemma RunsOfOverlap(ws: seq<word>, ws': seq<word>)
    requires |ws| == |ws'| == 3
    requires forall j: nat | j < 64 :: (Taken(ws, j) <==> 1 <= j < 30) && (Taken(ws', j) <==> j < 30)
    ensures LowestStart(ws, 64, 1) == Some(0) && LowestStart(ws', 64, 3) == Some(30)
  {
    hide Taken;
    LowestStartIs(ws, 64, 1, 0);
    forall t: nat | t < 30
      ensures !FreeRun(ws', 64, t, 3)
    {
      assert Taken(ws', t);
    }
    LowestStartIs(ws', 64, 3, 30);
  }

  lemma OverlapBits(j: nat)
    requires j < 64
    ensures Taken(OVERLAP_BITMAP, j) <==> 1 <= j < 30
  {
    assert Pow2(30) == 0x4000_0000 by {
      Pow2Values();
      assert Pow2(31) == 2 * Pow2(30);
    }
    if j < 30 {
      BitComplement(1, 30, j);
      BitPow2(0, j);
    } else if j < 32 {
      BitAbove(0x3FFF_FFFE, 30, j);
    } else {
      BitZero(j - 32);
    }
    hide Bit;
  }

  /** On a cleared bitmap the table is frame 0 and the directory frame 3. */
  lemma PlacedAtBoot(ws: seq<word>, limit: nat)
    requires 32 <= limit <= 32 * |ws| && TakenSet(ws, limit) == {}
    ensures TablePlace(ws, limit) == Some(0)
    ensures DirectoryRun(ws, limit, 0) == Some(1) && Reported(1, 3) == 3
  {
    forall i: nat | i < limit
      ensures !Taken(ws, i)
      ensures Taken(SetRun(ws, 0, 1), i) <==> i == 0
    {
      assert i !in TakenSet(ws, limit);
      TakenAfterSetRun(ws, 0, 1, i);
    }
    hide Taken, SetRun;
    LowestStartIs(ws, limit, 1, 0);
    assert !FreeRun(SetRun(ws, 0, 1), limit, 0, 3) by {
      assert Taken(SetRun(ws, 0, 1), 0);
    }
    LowestStartIs(SetRun(ws, 0, 1), limit, 3, 1);
  }

  lemma RoomAtBoot(ws: seq<word>, limit: nat)
    requires 32 <= limit <= 32 * |ws| && TakenSet(ws, limit) == {}
    ensures RoomForDirectory(ws, limit)
  {
    PlacedAtBoot(ws, limit);
    var marked := SetRun(ws, 0, 1);
    hide SetRun, Taken, LowestStart;
    forall t: nat | LowestRun(marked, limit, t, Wanted(3))
      ensures Reported(t, 3) + 3 <= 32 * |ws|
    {
      LowestStartIs(marked, limit, 3, t);
    }
  }

  // ---- the code ----

  /** The loop that fills the first table of a new directory. */
  method FillIdentity(mem: array<word>, table: nat)
    requires FrameIn(mem[..], table)
    modifies mem
    ensures IdentityTable(mem[..], table)
    ensures forall g: nat, j: nat | g != table && FrameIn(mem[..], g) && j < 1024 ::
      Entry(mem[..], g, j) == old(Entry(mem[..], g, j))
  {
    var frame, virt := 0, 0;
    for i := 0 to 1024
      invariant frame == 4096 * i && virt == 4096 * i
      invariant forall k | 0 <= k < mem.Length ::
        mem[k] == if 1024 * table <= k < 1024 * table + i then 4096 * (k - 1024 * table) + 1 else old(mem[k])
    {
      var page: word := 0;
      page := SetAttribute(page, PRESENT);
      IdentityEntry(i);
      page := SetFrameBits(page, frame);
      mem[1024 * table + PtIndex(virt)] := page;
      frame, virt := frame + 4096, virt + 4096;
    }
  }

  lemma IdentityEntry(i: nat)
    requires i < 1024
    ensures SetFrameBits(SetAttribute(0, PRESENT), 4096 * i) == 4096 * i + 1 && PtIndex(4096 * i) == i
  {
    assert SetAttribute(0, PRESENT) == 1;
    SetFrameIs(1, 4096 * i);
    IndicesSplit(4096 * i);
  }

  /** The loop that empties a new directory, and the three macros on its first entry. */
  method FillDirectory(mem: array<word>, dir: nat, table: nat)
    requires FrameIn(mem[..], dir) && table < 0x8_0000
    modifies mem
    ensures NewDirectory(mem[..], dir, table)
    ensures forall g: nat, j: nat | g != dir && FrameIn(mem[..], g) && j < 1024 ::
      Entry(mem[..], g, j) == old(Entry(mem[..], g, j))
  {
    for i := 0 to 1024
      invariant forall k | 0 <= k < mem.Length ::
        mem[k] == if 1024 * dir <= k < 1024 * dir + i then 2 else old(mem[k])
    {
      mem[1024 * dir + i] := 0x2;
    }
    DirectoryEntry(table);
    var entry := 1024 * dir + PdIndex(0x0);
    mem[entry] := SetAttribute(mem[entry], PRESENT);
    mem[entry] := SetAttribute(mem[entry], WRITABLE);
    mem[entry] := SetFrameBits(mem[entry], table * BLOCK_SIZE);
  }

  lemma DirectoryEntry(table: nat)
    requires table < 0x8_0000
    ensures SetFrameBits(SetAttribute(SetAttribute(2, PRESENT), WRITABLE), table * BLOCK_SIZE) == table * BLOCK_SIZE + 3
  {
    OrStep(2, 1);
    OrStep(3, 2);
    OrStep(1, 0);
    OrStep(1, 1);
    assert SetAttribute(2, PRESENT) == 3 && SetAttribute(3, WRITABLE) == 3;
    SetFrameIs(3, table * BLOCK_SIZE);
  }

  /** The words of m and m' outside the frames f and g are the same. */
  ghost predicate SameOutside(m: seq<word>, m': seq<word>, f: nat, g: nat) {
    && |m'| == |m|
    && forall h: nat, j: nat | h != f && h != g && FrameIn(m, h) && j < 1024 :: Entry(m', h, j) == Entry(m, h, j)
  }

  /** The state after paging_dir_new, from what the bitmap was before the call. */
  ghost predicate DirectoryMade(
    m: seq<word>, m': seq<word>, ws: seq<word>, ws': seq<word>, limit: nat, r: Option<nat>)
    requires limit <= 32 * |ws|
  {
    match TablePlace(ws, limit)
    case None => r == None && m' == m && ws' == ws
    case Some(table) =>
      table < limit &&
      match DirectoryRun(ws, limit, table)
      case None =>
        && r == None && ws' == SetRun(ws, table, 1)
        && IdentityTable(m', table) && SameOutside(m, m', table, table)
      case Some(s) =>
        var dir := Reported(s, 3);
        && dir + 3 <= 32 * |ws| && dir < limit && r == Some(dir)
        && ws' == SetRun(SetRun(ws, table, 1), dir, 3)
        && NewDirectory(m', dir, table) && SameOutside(m, m', table, dir)
        && (dir != table ==> IdentityTable(m', table))
  }

  /**
   * paging_dir_new.  None stands for the panic of the frame allocator: there is no free frame, or no three in
   * a row once the table has one.  The directory made maps the first 4 MiB to themselves and nothing else
   * exactly if it has not been put on its own table.
   */
  method DirNew(mem: array<word>, bitmap: FrameMap) returns (r: Option<nat>)
    requires bitmap.Valid() && mem != bitmap.frames && RoomForDirectory(bitmap.frames[..], bitmap.Limit())
    requires 1024 * bitmap.Limit() <= mem.Length && bitmap.Limit() <= 0x8_0000
    modifies mem, bitmap`alloced, bitmap.frames
    ensures bitmap.Valid()
    ensures DirectoryMade(old(mem[..]), mem[..], old(bitmap.frames[..]), bitmap.frames[..], bitmap.Limit(), r)
    ensures r.Some? ==>
      var table := TablePlace(old(bitmap.frames[..]), bitmap.Limit()).value;
      var s := DirectoryRun(old(bitmap.frames[..]), bitmap.Limit(), table).value;
      IdentityMapped(mem[..], r.value) <==> !(s % 32 >= 30 && table + 30 == s)
  {
    hide Entry, RoomFor, SetRun, LowestRun, LowestStart, FreeRun, Reported, NewDirectory, IdentityTable, TakenSet;
    hide IdentityMapped;
    ghost var m, ws, limit := mem[..], bitmap.frames[..], bitmap.Limit();
    RoomForOne(ws, limit);
    var first;
    ghost var table, s;
    first, table := bitmap.AllocEx(1);
    Placement(ws, bitmap.frames[..], limit, 1, first, table);
    if first == None {
      return None;
    }
    FillIdentity(mem, first.value / BLOCK_SIZE);
    ghost var k, ws1 := mem[..], bitmap.frames[..];
    var second;
    second, s := bitmap.AllocEx(3);
    Placement(ws1, bitmap.frames[..], limit, 3, second, s);
    if second == None {
      return None;
    }
    FillDirectory(mem, second.value / BLOCK_SIZE, first.value / BLOCK_SIZE);
    r := Some(second.value / BLOCK_SIZE);
    TableKept(k, mem[..], table, r.value);
    DirectoryOnTable(ws, limit, table, s);
    if r.value == table {
      NewDirectoryOverlap(mem[..], table);
    } else {
      NewDirectoryWalk(mem[..], r.value, table);
    }
  }

  lemma TableKept(m: seq<word>, m': seq<word>, table: nat, dir: nat)
    requires IdentityTable(m, table) && |m'| == |m|
    requires forall g: nat, j: nat | g != dir && FrameIn(m', g) && j < 1024 :: Entry(m', g, j) == Entry(m, g, j)
    ensures dir != table ==> IdentityTable(m', table)
  {
  }

  /** The allocator's report for one or three frames, by the lowest start. */
  lemma Placement(ws: seq<word>, ws': seq<word>, limit: nat, n: nat, r: Option<word>, s: nat)
    requires limit <= 32 * |ws| && limit % 32 == 0 && (n == 1 || n == 3) && MarksRun(ws, ws', limit, n, r, s)
    ensures LowestStart(ws, limit, n) == if r == None then None else Some(s)
    ensures if r == None then ws' == ws else
      && r.value / BLOCK_SIZE == Reported(s, n) < limit && Reported(s, n) + n <= 32 * |ws|
      && ws' == SetRun(ws, Reported(s, n), n) && (n == 1 ==> Reported(s, n) == s)
  {
    hide *;
    MarksRunParts(ws, ws', limit, n, r, s);
    if r == None {
      LowestStartNone(ws, limit, n);
    } else {
      LowestStartIs(ws, limit, n, s);
      BelowLimit(ws, limit, n, s);
      ReportedBelow(limit, s, n);
    }
  }

  lemma MarksRunParts(ws: seq<word>, ws': seq<word>, limit: nat, n: nat, r: Option<word>, s: nat)
    requires limit <= 32 * |ws| && n > 0 && MarksRun(ws, ws', limit, n, r, s)
    ensures r == None ==> ws' == ws && forall t: nat :: !FreeRun(ws, limit, t, n)
    ensures r.Some? ==>
      && LowestRun(ws, limit, s, n) && Reported(s, n) + n <= 32 * |ws|
      && r.value / BLOCK_SIZE == Reported(s, n) && ws' == SetRun(ws, Reported(s, n), n)
  {
    assert Wanted(n) == n;
    hide SetRun, LowestRun, FreeRun, Reported;
  }

  lemma BelowLimit(ws: seq<word>, limit: nat, n: nat, s: nat)
    requires limit <= 32 * |ws| && n > 0 && LowestRun(ws, limit, s, n)
    ensures s < limit
  {
    hide Taken;
  }

  lemma ReportedBelow(limit: nat, s: nat, n: nat)
    requires limit % 32 == 0 && s < limit
    ensures Reported(s, n) < limit && (n == 1 ==> Reported(s, n) == s)
  {
    ReportedIsStart(s, n);
    hide Reported;
    assert Reported(s, n) / 32 < limit / 32;
  }
}
