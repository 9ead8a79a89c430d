// paging_map over memory and the frame bitmap, as written and with the missing store, and runs of it.

module AddressSpaces {
  import opened Bits
  import opened Frames
  import opened KernelSpace
  import opened PageDirectories
  import opened Paging
  import opened Wrappers

  // ---- which calls get their table ----

  /** A call that needs a table gets one: frame 0 is taken, so it is not the one found, and there is a free frame. */
  ghost predicate TableToHave(owned: set<nat>, limit: nat) {
    0 in owned && exists f: nat :: f < limit && f !in owned
  }

  /** The number of tables to have. */
  ghost function Budget(owned: set<nat>, limit: nat): int {
    if 0 in owned then limit - |owned| else 0
  }

  ghost predicate Below(owned: set<nat>, limit: nat) {
    forall f | f in owned :: f < limit
  }

  lemma BudgetLeft(owned: set<nat>, limit: nat)
    requires Below(owned, limit)
    ensures 0 <= Budget(owned, limit)
    ensures TableToHave(owned, limit) <==> Budget(owned, limit) > 0
  {
    BoundedSet(owned, limit);
    var all := Interval(0, limit);
    assert owned <= all;
    Subset(owned, all);
    if owned != all {
      var f :| f in all && f !in owned;
      assert f < limit;
    }
  }

  /** The directory entries without a table that the requests are for. */
  ghost function NewTables(m: seq<word>, dir: nat, rs: seq<Mapping>): (s: set<nat>)
    requires FrameIn(m, dir)
    ensures forall i: nat :: i in s <==> i < 1024 && !HasTable(m, dir, i) && Asked(rs, i)
  {
    set i: nat | i < 1024 && !HasTable(m, dir, i) && Asked(rs, i)
  }

  lemma NewTablesNext(m: seq<word>, dir: nat, rs: seq<Mapping>, r: Mapping)
    requires FrameIn(m, dir)
    ensures
      NewTables(m, dir, rs + [r]) ==
        NewTables(m, dir, rs) + (if HasTable(m, dir, PdIndex(r.virt)) then {} else {PdIndex(r.virt)})
  {
    hide HasTable;
    forall i: nat | i < 1024
      ensures Asked(rs + [r], i) <==> PdIndex(r.virt) == i || Asked(rs, i)
    {
      AskedNext(rs, r, i, 0);
    }
    hide PdIndex, Asked;
  }

  class AddressSpace {
    const mem: array<word>
    const frames: FrameMap
    var dir: nat  // the frame of current_page_dir

    ghost predicate Valid()
      reads this, mem, frames, frames.frames
    {
      && mem != frames.frames && frames.Valid()
      && 1024 * frames.Limit() <= mem.Length && frames.Limit() <= 0x8_0000
      && dir in frames.Allocated()
    }

    /** paging_dir_switch */
    constructor (memory: array<word>, bitmap: FrameMap, directory: nat)
      requires memory != bitmap.frames && bitmap.Valid()
      requires 1024 * bitmap.Limit() <= memory.Length && bitmap.Limit() <= 0x8_0000
      requires directory in bitmap.Allocated()
      ensures Valid() && mem == memory && frames == bitmap && dir == directory
    {
      mem, frames, dir := memory, bitmap, directory;
    }

    /** Frames that are taken lie below the limit and in memory. */
    lemma InMemory()
      requires Valid()
      ensures Below(frames.Allocated(), frames.Limit())
      ensures forall f | f in frames.Allocated() :: FrameIn(mem[..], f) && f < 0x8_0000
    {
    }

    /**
     * The frame for a new table, or None if the call gives up: no frame is free, or the one found is the
     * frame at address 0, which then stays taken.
     */
    method TableFrame() returns (r: Option<nat>)
      requires Valid()
      modifies frames`alloced, frames.frames
      ensures Valid() && mem[..] == old(mem[..])
      ensures r.Some? <==> TableToHave(old(frames.Allocated()), frames.Limit())
      ensures r.Some? ==> r.value !in old(frames.Allocated()) && 0 < r.value < frames.Limit()
      ensures frames.Allocated() == old(frames.Allocated()) + {if r.Some? then r.value else 0}
    {
      InMemory();
      var addr := frames.Alloc();
      if addr == None {
        return None;
      }
      if addr.value == 0 {
        return None;
      }
      r := Some(addr.value / BLOCK_SIZE);
    }

    /** The last two macros of paging_map. */
    method SetPage(table: nat, virt: word, phys: word)
      requires FrameIn(mem[..], table)
      modifies mem
      ensures mem[..] == StorePage(old(mem[..]), table, virt, phys)
    {
      var page := 1024 * table + PtIndex(virt);
      mem[page] := SetAttribute(mem[page], PRESENT);
      mem[page] := SetFrameBits(mem[page], phys);
    }

    /** The body of the if in paging_map: a cleared table and a directory entry marked present. */
    method NewTable(virt: word, newtab: nat)
      requires FrameIn(mem[..], dir) && FrameIn(mem[..], newtab)
      modifies mem
      ensures mem[..] == MarkTable(old(mem[..]), dir, virt, newtab)
    {
      ClearTable(mem, newtab);
      var entry := 1024 * dir + PdIndex(virt);
      mem[entry] := SetAttribute(mem[entry], PRESENT);
      mem[entry] := SetAttribute(mem[entry], WRITABLE);
    }

    /**
     * paging_map as written: the new table's frame is not stored in the directory entry.  The call gives up
     * exactly if it needs a table and cannot have one.
     */
    method Map(virt: word, phys: word) returns (ok: bool, ghost newtab: nat)
      requires Valid()
      requires FrameIn(mem[..], TableOf(mem[..], dir, PdIndex(virt)))
      modifies mem, frames`alloced, frames.frames
      ensures Valid()
      ensures ok <==>
        || old(HasTable(mem[..], dir, PdIndex(virt)))
        || TableToHave(old(frames.Allocated()), frames.Limit())
      ensures FrameIn(mem[..], dir) && FrameIn(mem[..], newtab)
      ensures
        if ok then
          && MapWords(old(mem[..]), dir, virt, phys, newtab) == Some(mem[..])
          && frames.Allocated() == OwnedAfter(old(mem[..]), dir, old(frames.Allocated()), virt, newtab)
        else
          && mem[..] == old(mem[..])
          && frames.Allocated() == old(frames.Allocated()) + {0}
      ensures ok && !old(HasTable(mem[..], dir, PdIndex(virt))) ==>
        newtab !in old(frames.Allocated()) && 0 < newtab < frames.Limit()
    {
      hide MarkTable, StorePage, Present, PagePhysAddress, SetAttribute, SetFrameBits;
      ghost var m := mem[..];
      InMemory();
      ok, newtab := true, dir;
      var entry := 1024 * dir + PdIndex(virt);
      if !Present(mem[entry]) {
        var frame := TableFrame();
        if frame == None {
          return false, newtab;
        }
        newtab := frame.value;
        MarkedTable(m, dir, virt, newtab);
        NewTable(virt, frame.value);
      }
      SetPage(PagePhysAddress(mem[entry]) / BLOCK_SIZE, virt, phys);
    }

    /** paging_map with the one store that is evidently meant added: the new table's frame in its entry. */
    method MapLinked(virt: word, phys: word) returns (ok: bool)
      requires Valid() && WellFormed(mem[..], dir, frames.Allocated())
      requires LowFrame(Mapping(virt, phys))
      modifies mem, frames`alloced, frames.frames
      ensures Valid() && WellFormed(mem[..], dir, frames.Allocated())
      ensures ok <==>
        || old(HasTable(mem[..], dir, PdIndex(virt)))
        || TableToHave(old(frames.Allocated()), frames.Limit())
      ensures
        if ok then
          && UpdatedAt(old(mem[..]), mem[..], dir, virt / BLOCK_SIZE, phys)
          && TableAdded(old(mem[..]), mem[..], dir, virt)
          && FramesAfter(old(frames.Allocated()), frames.Allocated(), old(HasTable(mem[..], dir, PdIndex(virt))))
          && EntriesMade(old(mem[..]), mem[..], dir, virt, phys)
        else
          && mem[..] == old(mem[..])
          && frames.Allocated() == old(frames.Allocated()) + {0}
    {
      hide WellFormed, UpdatedAt, StorePage, LinkTable, TableAdded, Present, EntriesMade;
      ghost var m, owned, newtab := mem[..], frames.Allocated(), dir;
      InMemory();
      ok := true;
      var entry := 1024 * dir + PdIndex(virt);
      if !Present(mem[entry]) {
        var frame := TableFrame();
        if frame == None {
          WellFormedGrows(m, dir, owned, 0);
          return false;
        }
        newtab := frame.value;
        LinkNew(virt, frame.value);
      }
      LinkedStep(m, mem[..], dir, owned, virt, phys, newtab);
      LinkedMade(m, mem[..], dir, owned, virt, phys, newtab);
      SetPage(PagePhysAddress(mem[entry]) / BLOCK_SIZE, virt, phys);
    }

    /** NewTable and the added store. */
    method LinkNew(virt: word, newtab: nat)
      requires FrameIn(mem[..], dir) && FrameIn(mem[..], newtab) && newtab < 0x8_0000
      modifies mem
      ensures mem[..] == LinkTable(old(mem[..]), dir, virt, newtab)
    {
      NewTable(virt, newtab);
      var entry := 1024 * dir + PdIndex(virt);
      mem[entry] := SetFrameBits(mem[entry], newtab * BLOCK_SIZE);
    }
  }

  lemma MarkedTable(m: seq<word>, dir: nat, virt: word, newtab: nat)
    requires FrameIn(m, dir) && FrameIn(m, newtab) && newtab != dir
    ensures TableOf(MarkTable(m, dir, virt, newtab), dir, PdIndex(virt)) == TableOf(m, dir, PdIndex(virt))
  {
    MarkedEntry(Entry(m, dir, PdIndex(virt)));
    ZeroKeeps(m, newtab, dir, PdIndex(virt));
    hide SetAttribute, FrameOf, Present, ZeroFrame;
  }

  /** The directory entries with a table: those before, and that of the page. */
  ghost predicate TableAdded(m: seq<word>, m': seq<word>, dir: nat, virt: word)
    requires FrameIn(m, dir) && FrameIn(m', dir)
  {
    forall i: nat | i < 1024 :: HasTable(m', dir, i) <==> i == PdIndex(virt) || HasTable(m, dir, i)
  }

  /** One more frame is taken if a table was needed. */
  ghost predicate FramesAfter(owned: set<nat>, owned': set<nat>, found: bool) {
    if found then owned' == owned else exists f: nat :: f !in owned && owned' == owned + {f}
  }

  /**
   * The two entries after a linked call, flags included: the directory entry as it was if it had a table, else
   * present, writable and naming the new table; the page entry present, with its other flags kept.
   */
  ghost predicate EntriesMade(m: seq<word>, m': seq<word>, dir: nat, virt: word, phys: word) {
    var pd, pt := PdIndex(virt), PtIndex(virt);
    && FrameIn(m, dir) && FrameIn(m', dir) && FrameIn(m', TableOf(m', dir, pd))
    && var e, t := Entry(m, dir, pd), TableOf(m', dir, pd);
       if e % 2 == 1 then
         && Entry(m', dir, pd) == e && FrameIn(m, t)
         && Entry(m', t, pt) == phys + Entry(m, t, pt) % 4096 / 2 * 2 + 1
       else
         Entry(m', dir, pd) == 4096 * t + e % 4096 / 4 * 4 + 3 && Entry(m', t, pt) == phys + 1
  }

  lemma LinkedMade(m: seq<word>, k: seq<word>, dir: nat, owned: set<nat>, virt: word, phys: word, newtab: nat)
    requires WellFormed(m, dir, owned) && phys < 0x8000_0000 && phys % BLOCK_SIZE == 0
    requires
      if HasTable(m, dir, PdIndex(virt)) then k == m
      else
        && FrameIn(m, newtab) && newtab < 0x8_0000 && newtab !in owned
        && k == LinkTable(m, dir, virt, newtab)
    ensures |k| == |m| && FrameIn(k, TableOf(k, dir, PdIndex(virt)))
    ensures EntriesMade(m, StorePage(k, TableOf(k, dir, PdIndex(virt)), virt, phys), dir, virt, phys)
  {
    var pd, pt := PdIndex(virt), PtIndex(virt);
    PresentIsOdd(Entry(m, dir, pd));
    assert FrameIn(m, dir) && Entry(m, dir, pd) < 0x8000_0000 && (!HasTable(m, dir, pd) ==> newtab != dir);
    if HasTable(m, dir, pd) {
      var t := TableOf(m, dir, pd);
      TableEntries(m, dir, owned, pd, pt);
      StoreEntries(m, t, virt, phys, dir, pd);
      StoreEntries(m, t, virt, phys, t, pt);
      StoredEntryIs(Entry(m, t, pt), phys);
    } else {
      LinkTableMaps(m, dir, owned, virt, newtab);
      LinkedFlags(m, dir, virt, phys, newtab);
      FlagsBelow(Entry(m, dir, pd));
      NamesTable(StorePage(k, newtab, virt, phys), dir, pd, newtab, Entry(m, dir, pd) % 4096 / 4 * 4 + 3);
    }
    hide Present, FrameOf, Entry, WellFormed, LinkTable, StorePage, SetFrameBits, SetAttribute, PtIndex, PdIndex, Walk;
  }

  lemma FlagsBelow(e: word)
    ensures e % 4096 / 4 * 4 + 3 < 4096
  {
  }

  lemma NamesTable(m: seq<word>, dir: nat, pd: nat, t: nat, flags: nat)
    requires FrameIn(m, dir) && pd < 1024 && Entry(m, dir, pd) == 4096 * t + flags && flags < 4096
    ensures TableOf(m, dir, pd) == t
  {
    FrameOfIs(Entry(m, dir, pd));
    hide FrameOf, PagePhysAddress;
  }

  lemma WellFormedGrows(m: seq<word>, dir: nat, owned: set<nat>, f: nat)
    requires WellFormed(m, dir, owned) && FrameIn(m, f) && f < 0x8_0000
    ensures WellFormed(m, dir, owned + {f})
  {
  }

  /** The page store of a linked call, after the table has been linked in if there was none. */
  lemma LinkedStep(m: seq<word>, k: seq<word>, dir: nat, owned: set<nat>, virt: word, phys: word, newtab: nat)
    requires WellFormed(m, dir, owned) && phys < 0x8000_0000 && phys % BLOCK_SIZE == 0
    requires
      if HasTable(m, dir, PdIndex(virt)) then k == m
      else
        && FrameIn(m, newtab) && newtab < 0x8_0000 && newtab !in owned
        && k == LinkTable(m, dir, virt, newtab)
    ensures |k| == |m|
    ensures
      var t := TableOf(k, dir, PdIndex(virt));
      && FrameIn(k, t)
      && WellFormed(StorePage(k, t, virt, phys), dir, OwnedAfter(m, dir, owned, virt, newtab))
      && UpdatedAt(m, StorePage(k, t, virt, phys), dir, virt / BLOCK_SIZE, phys)
      && TableAdded(m, StorePage(k, t, virt, phys), dir, virt)
  {
    assert FrameIn(m, dir);
    hide Present, FrameOf, WellFormed, StorePage, LinkTable, Walk;
    if HasTable(m, dir, PdIndex(virt)) {
      TableEntries(m, dir, owned, PdIndex(virt), 0);
      StorePageMaps(m, dir, owned, virt, phys);
    } else {
      LinkTableMaps(m, dir, owned, virt, newtab);
      TableEntries(k, dir, owned + {newtab}, PdIndex(virt), 0);
      StorePageMaps(k, dir, owned + {newtab}, virt, phys);
    }
  }

  /** memset over one frame */
  method ClearTable(mem: array<word>, f: nat)
    requires FrameIn(mem[..], f)
    modifies mem
    ensures mem[..] == ZeroFrame(old(mem[..]), f)
  {
    for i := 0 to 1024
      invariant forall k | 0 <= k < mem.Length ::
        mem[k] == if 1024 * f <= k < 1024 * f + i then 0 else old(mem[k])
    {
      mem[1024 * f + i] := 0;
    }
  }

  // ---- whole runs ----

  /** The state of a run from m and owned on, after the requests rs: their tables, each with a frame of its own. */
  ghost predicate Served(
    m: seq<word>, m': seq<word>, dir: nat, owned: set<nat>, owned': set<nat>, limit: nat, rs: seq<Mapping>)
    requires FrameIn(m, dir)
  {
    && |m'| == |m|
    && (forall i: nat | i < 1024 :: HasTable(m', dir, i) <==> HasTable(m, dir, i) || i in NewTables(m, dir, rs))
    && owned <= owned' && Below(owned', limit)
    && |owned'| == |owned| + |NewTables(m, dir, rs)| <= |owned| + Budget(owned, limit)
  }

  /** The next request is served exactly if the tables still suffice with it. */
  lemma ServedNext(
    m: seq<word>, m': seq<word>, dir: nat, owned: set<nat>, owned': set<nat>, limit: nat, rs: seq<Mapping>, r: Mapping)
    requires FrameIn(m, dir) && Served(m, m', dir, owned, owned', limit, rs) && Below(owned, limit)
    ensures
      (HasTable(m', dir, PdIndex(r.virt)) || TableToHave(owned', limit)) <==>
        |NewTables(m, dir, rs + [r])| <= Budget(owned, limit)
    ensures |NewTables(m, dir, rs)| <= Budget(owned, limit)
    ensures |NewTables(m, dir, rs + [r])| ==
      |NewTables(m, dir, rs)| + if HasTable(m', dir, PdIndex(r.virt)) then 0 else 1
  {
    NewTablesNext(m, dir, rs, r);
    BudgetLeft(owned', limit);
    hide HasTable, PdIndex, TableToHave;
    var pd := PdIndex(r.virt);
    if pd in NewTables(m, dir, rs) || HasTable(m, dir, pd) {
      assert NewTables(m, dir, rs + [r]) == NewTables(m, dir, rs);
    }
    if 0 !in owned {
      assert NewTables(m, dir, rs) == {};
      Subset(owned, owned');
    }
  }

  lemma ServedStep(
    m: seq<word>, k: seq<word>, m': seq<word>, dir: nat, owned: set<nat>, owned': set<nat>, owned'': set<nat>,
    limit: nat, rs: seq<Mapping>, r: Mapping)
    requires FrameIn(m, dir) && Served(m, k, dir, owned, owned', limit, rs) && |m'| == |m|
    requires Below(owned, limit) && Below(owned'', limit)
    requires HasTable(k, dir, PdIndex(r.virt)) || TableToHave(owned', limit)
    requires TableAdded(k, m', dir, r.virt) && FramesAfter(owned', owned'', HasTable(k, dir, PdIndex(r.virt)))
    ensures Served(m, m', dir, owned, owned'', limit, rs + [r])
  {
    ServedNext(m, k, dir, owned, owned', limit, rs, r);
    NewTablesNext(m, dir, rs, r);
    ServedFrames(owned, owned', owned'', HasTable(k, dir, PdIndex(r.virt)));
    hide HasTable, PdIndex, TableToHave, Below, NewTables, Budget, FramesAfter;
  }

  lemma ServedFrames(owned: set<nat>, owned': set<nat>, owned'': set<nat>, found: bool)
    requires owned <= owned' && FramesAfter(owned', owned'', found)
    ensures owned <= owned'' && |owned''| == |owned'| + if found then 0 else 1
  {
  }

  lemma ServedNone(m: seq<word>, dir: nat, owned: set<nat>, limit: nat)
    requires FrameIn(m, dir) && Below(owned, limit)
    ensures Served(m, m, dir, owned, owned, limit, [])
  {
    BudgetLeft(owned, limit);
    hide HasTable, TableToHave;
    assert NewTables(m, dir, []) == {};
  }

  /** The run stops after the longest part of the requests whose tables can all be had. */
  ghost predicate ServedUpTo(m: seq<word>, dir: nat, owned: set<nat>, limit: nat, rs: seq<Mapping>, done: nat)
    requires FrameIn(m, dir)
  {
    && done <= |rs|
    && |NewTables(m, dir, rs[..done])| <= Budget(owned, limit)
    && (done < |rs| ==> |NewTables(m, dir, rs[..done + 1])| > Budget(owned, limit))
  }

  /** All requests are served exactly if the tables they need can all be had. */
  lemma {:induction false} AllServed(
    m: seq<word>, dir: nat, owned: set<nat>, limit: nat, rs: seq<Mapping>, done: nat)
    requires FrameIn(m, dir) && ServedUpTo(m, dir, owned, limit, rs, done)
    ensures done == |rs| <==> |NewTables(m, dir, rs)| <= Budget(owned, limit)
  {
    hide HasTable, PdIndex, Budget;
    assert rs[..|rs|] == rs;
    if done < |rs| {
      assert forall k: nat | k < done + 1 :: rs[..done + 1][k] == rs[k];
      Subset(NewTables(m, dir, rs[..done + 1]), NewTables(m, dir, rs));
    }
  }

  /**
   * Any sequence of linked map calls, up to the first that gives up: each page is mapped as the latest of
   * the calls for that page says, and every other page as before.
   */
  method MapAll(space: AddressSpace, rs: seq<Mapping>) returns (done: nat)
    requires space.Valid() && WellFormed(space.mem[..], space.dir, space.frames.Allocated())
    requires forall k: nat | k < |rs| :: LowFrame(rs[k])
    modifies space.mem, space.frames`alloced, space.frames.frames
    ensures space.Valid() && WellFormed(space.mem[..], space.dir, space.frames.Allocated())
    ensures FrameIn(old(space.mem[..]), space.dir) && done <= |rs|
    ensures ServedUpTo(old(space.mem[..]), space.dir, old(space.frames.Allocated()), space.frames.Limit(), rs, done)
    ensures Overridden(old(space.mem[..]), space.mem[..], space.dir, rs[..done])
  {
    hide WellFormed, Overridden, UpdatedAt, Walk, TableAdded, FramesAfter, TableToHave, HasTable, LowFrame;
    hide Budget, NewTables, Served, Below;
    ghost var m, owned, limit := space.mem[..], space.frames.Allocated(), space.frames.Limit();
    space.InMemory();
    OverriddenNone(m, space.dir);
    ServedNone(m, space.dir, owned, limit);
    assert rs[..0] == [] && rs[..|rs|] == rs;
    done := 0;
    while done < |rs|
      invariant done <= |rs| && space.Valid() && FrameIn(m, space.dir)
      invariant WellFormed(space.mem[..], space.dir, space.frames.Allocated())
      invariant Overridden(m, space.mem[..], space.dir, rs[..done])
      invariant Served(m, space.mem[..], space.dir, owned, space.frames.Allocated(), limit, rs[..done])
    {
      ghost var k, frames := space.mem[..], space.frames.Allocated();
      assert rs[..done + 1] == rs[..done] + [rs[done]] && rs[..done + 1][..done] == rs[..done];
      ServedNext(m, k, space.dir, owned, frames, limit, rs[..done], rs[done]);
      var ok := space.MapLinked(rs[done].virt, rs[done].phys);
      if !ok {
        return;
      }
      OverriddenStep(m, k, space.mem[..], space.dir, rs[..done + 1]);
      space.InMemory();
      ServedStep(
        m, k, space.mem[..], space.dir, owned, frames, space.frames.Allocated(), limit, rs[..done], rs[done]);
      done := done + 1;
    }
    ServedWhole(m, space.mem[..], space.dir, owned, space.frames.Allocated(), limit, rs);
  }

  lemma ServedWhole(
    m: seq<word>, m': seq<word>, dir: nat, owned: set<nat>, owned': set<nat>, limit: nat, rs: seq<Mapping>)
    requires FrameIn(m, dir) && Served(m, m', dir, owned, owned', limit, rs)
    ensures ServedUpTo(m, dir, owned, limit, rs, |rs|)
  {
    assert rs[..|rs|] == rs;
  }

  lemma OverriddenNone(m: seq<word>, dir: nat)
    requires FrameIn(m, dir)
    ensures Overridden(m, m, dir, [])
  {
  }

  // ---- the kernel's address space ----

  /** paging_init on a bitmap just cleared. */
  method PagingInit(mem: array<word>, bitmap: FrameMap) returns (space: AddressSpace)
    requires bitmap.Valid() && mem != bitmap.frames
    requires 1024 * bitmap.Limit() <= mem.Length && 32 <= bitmap.Limit() <= 0x8_0000
    requires bitmap.Allocated() == {}
    modifies mem, bitmap`alloced, bitmap.frames
    ensures space.Valid() && space.mem == mem && space.frames == bitmap && space.dir == 3
    ensures bitmap.Allocated() == {0, 3, 4, 5}
    ensures IdentityMapped(mem[..], 3) && WellFormed(mem[..], 3, {0, 3, 4, 5}) && SharedTable(mem[..], 3, [])
  {
    hide WellFormed, NewDirectory, IdentityTable, IdentityMapped, SharedTable, SetRun, Taken, LowestStart;
    ghost var ws, limit := bitmap.frames[..], bitmap.Limit();
    PlacedAtBoot(ws, limit);
    RoomAtBoot(ws, limit);
    var dir := DirNew(mem, bitmap);
    SharedAtStart(mem[..], 3);
    NewDirectoryWellFormed(mem[..], 3, 0, {0, 3, 4, 5});
    TakenAtBoot(ws, limit);
    space := new AddressSpace(mem, bitmap, dir.value);
  }

  lemma TakenAtBoot(ws: seq<word>, limit: nat)
    requires 32 <= limit <= 32 * |ws| && TakenSet(ws, limit) == {}
    ensures TakenSet(SetRun(SetRun(ws, 0, 1), 3, 3), limit) == {0, 3, 4, 5}
  {
    forall i: nat | i < limit
      ensures Taken(SetRun(SetRun(ws, 0, 1), 3, 3), i) <==> i in {0, 3, 4, 5}
    {
      assert i !in TakenSet(ws, limit);
      TakenAfterSetRun(ws, 0, 1, i);
      TakenAfterSetRun(SetRun(ws, 0, 1), 3, 3, i);
    }
    hide Taken, SetRun;
  }

  lemma SharedAdds(m: seq<word>, m': seq<word>, dir: nat, rs: seq<Mapping>, r: Mapping)
    requires SharedTable(m, dir, rs) && SharedTable(m', dir, rs + [r])
    ensures FrameIn(m, dir) && FrameIn(m', dir) && TableAdded(m, m', dir, r.virt)
  {
    assert FrameIn(m, dir) && FrameIn(m', dir);
    hide HasTable, Asked;
    forall i: nat | i < 1024
      ensures HasTable(m', dir, i) <==> i == PdIndex(r.virt) || HasTable(m, dir, i)
    {
      SharedAt(m, dir, rs, i, 0);
      SharedAt(m', dir, rs + [r], i, 0);
      AskedNext(rs, r, i, 0);
    }
  }

  lemma KernelRunStart(m: seq<word>, dir: nat)
    requires SharedTable(m, dir, [])
    ensures KernelRun([m], dir, [], [])
  {
  }

  lemma KernelRunNext(
    ms: seq<seq<word>>, dir: nat, rs: seq<Mapping>, newtabs: seq<nat>, r: Mapping, newtab: nat, m': seq<word>)
    requires KernelRun(ms, dir, rs, newtabs) && LowFrame(r) && NewFrame(ms[|rs|], dir, r.virt, newtab)
    requires MapWords(ms[|rs|], dir, r.virt, r.phys, newtab) == Some(m')
    ensures KernelRun(ms + [m'], dir, rs + [r], newtabs + [newtab])
    ensures SharedTable(m', dir, rs + [r])
  {
    hide SharedTable, MapWords, NewFrame;
    KernelRunShared(ms + [m'], dir, rs + [r], newtabs + [newtab], |rs| + 1);
    assert (rs + [r])[..|rs| + 1] == rs + [r];
  }

  /**
   * Any sequence of calls as written in the kernel's address space, up to the first that gives up.  ms are
   * the memories before the first call and after each: the mapping is right after every one of them exactly
   * if no call is for a page at 4 MiB or above.
   */
  method MapAllAsWritten(space: AddressSpace, rs: seq<Mapping>)
    returns (done: nat, ghost ms: seq<seq<word>>, ghost newtabs: seq<nat>)
    requires space.Valid() && SharedTable(space.mem[..], space.dir, [])
    requires forall k: nat | k < |rs| :: LowFrame(rs[k])
    modifies space.mem, space.frames`alloced, space.frames.frames
    ensures space.Valid() && FrameIn(old(space.mem[..]), space.dir) && done <= |rs|
    ensures ServedUpTo(old(space.mem[..]), space.dir, old(space.frames.Allocated()), space.frames.Limit(), rs, done)
    ensures KernelRun(ms, space.dir, rs[..done], newtabs)
    ensures ms[0] == old(space.mem[..]) && ms[done] == space.mem[..]
    ensures SharedTable(space.mem[..], space.dir, rs[..done])
    ensures (forall k: nat | k <= done :: RightAfter(ms, space.dir, rs[..done], k)) <==> AllBelow(rs[..done])
  {
    hide SharedTable, MapWords, TableAdded, TableToHave, HasTable, LowFrame, Budget, NewTables, Served, Below;
    hide Overridden, AllBelow, KernelRun, RightAfter;
    ghost var m, owned, limit := space.mem[..], space.frames.Allocated(), space.frames.Limit();
    space.InMemory();
    ServedNone(m, space.dir, owned, limit);
    assert rs[..0] == [] && rs[..|rs|] == rs;
    done, ms, newtabs := 0, [m], [];
    KernelRunStart(m, space.dir);
    while done < |rs|
      invariant done <= |rs| && space.Valid() && FrameIn(m, space.dir)
      invariant KernelRun(ms, space.dir, rs[..done], newtabs) && |ms| == done + 1 && |newtabs| == done
      invariant ms[0] == m && ms[done] == space.mem[..]
      invariant SharedTable(space.mem[..], space.dir, rs[..done])
      invariant Served(m, space.mem[..], space.dir, owned, space.frames.Allocated(), limit, rs[..done])
    {
      ghost var k, frames, newtab := space.mem[..], space.frames.Allocated(), 0;
      assert rs[..done + 1] == rs[..done] + [rs[done]];
      SharedAt(k, space.dir, rs[..done], PdIndex(rs[done].virt), 0);
      ServedNext(m, k, space.dir, owned, frames, limit, rs[..done], rs[done]);
      var ok;
      ok, newtab := space.Map(rs[done].virt, rs[done].phys);
      if !ok {
        break;
      }
      KernelRunNext(ms, space.dir, rs[..done], newtabs, rs[done], newtab, space.mem[..]);
      SharedAdds(k, space.mem[..], space.dir, rs[..done], rs[done]);
      space.InMemory();
      ServedStep(
        m, k, space.mem[..], space.dir, owned, frames, space.frames.Allocated(), limit, rs[..done], rs[done]);
      ms, newtabs := ms + [space.mem[..]], newtabs + [newtab];
      done := done + 1;
    }
    if done == |rs| {
      ServedWhole(m, space.mem[..], space.dir, owned, space.frames.Allocated(), limit, rs);
    }
    KernelRunRight(ms, space.dir, rs[..done], newtabs);
  }
}
