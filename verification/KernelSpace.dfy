// The kernel's own address space under paging_map as written: one table, in frame 0, for every directory entry.

module KernelSpace {
  import opened Bits
  import opened Frames
  import opened Paging
  import opened PageDirectories
  import opened Wrappers

  /** No request is for a page at 4 MiB or above. */
  ghost predicate AllBelow(rs: seq<Mapping>) {
    forall k: nat | k < |rs| :: rs[k].virt < 0x40_0000
  }

  /** What the shared table holds in slot q: the latest address stored there through any directory entry. */
  function Slot(rs: seq<Mapping>, q: nat): word
    requires q < 1024
  {
    if rs == [] then BLOCK_SIZE * q
    else
      var r := rs[|rs| - 1];
      if PtIndex(r.virt) == q then r.phys else Slot(rs[..|rs| - 1], q)
  }

  /** The kernel's address space after the requests: every directory entry names frame 0. */
  ghost predicate SharedTable(m: seq<word>, dir: nat, rs: seq<Mapping>) {
    && FrameIn(m, dir) && FrameIn(m, 0) && dir != 0
    && (forall i: nat | i < 1024 :: TableOf(m, dir, i) == 0 && (HasTable(m, dir, i) <==> i == 0 || Asked(rs, i)))
    && (forall q: nat | q < 1024 :: EntryMaps(Entry(m, 0, q)) == Some(Slot(rs, q)) && Entry(m, 0, q) < 0x8000_0000)
  }

  /** The frame allocated by a call that needs a table is neither the directory nor the frame at address 0. */
  ghost predicate NewFrame(m: seq<word>, dir: nat, virt: word, newtab: nat) {
    && FrameIn(m, dir) && FrameIn(m, newtab)
    && (HasTable(m, dir, PdIndex(virt)) || (newtab != dir && newtab != 0))
  }

  lemma SharedAt(m: seq<word>, dir: nat, rs: seq<Mapping>, i: nat, q: nat)
    requires SharedTable(m, dir, rs) && i < 1024 && q < 1024
    ensures FrameIn(m, dir) && FrameIn(m, 0) && dir != 0
    ensures TableOf(m, dir, i) == 0 && (HasTable(m, dir, i) <==> i == 0 || Asked(rs, i))
    ensures EntryMaps(Entry(m, 0, q)) == Some(Slot(rs, q)) && Entry(m, 0, q) < 0x8000_0000
  {
  }

  /** A new directory whose table is frame 0. */
  lemma SharedAtStart(m: seq<word>, dir: nat)
    requires NewDirectory(m, dir, 0) && IdentityTable(m, 0) && dir != 0
    ensures SharedTable(m, dir, [])
  {
    forall i: nat | i < 1024
      ensures TableOf(m, dir, i) == 0 && (HasTable(m, dir, i) <==> i == 0)
    {
      NewDirectoryEntry(m, dir, 0, i);
    }
    forall q: nat | q < 1024
      ensures EntryMaps(Entry(m, 0, q)) == Some(BLOCK_SIZE * q) && Entry(m, 0, q) < 0x8000_0000
    {
      IdentityEntryMaps(m, 0, q);
    }
    hide EntryMaps, Entry, HasTable, TableOf, NewDirectory, IdentityTable;
  }

  /** Every page of a directory entry in use is mapped through the one table. */
  lemma SharedWalk(m: seq<word>, dir: nat, rs: seq<Mapping>, i: nat, q: nat)
    requires SharedTable(m, dir, rs) && i < 1024 && q < 1024
    ensures FrameIn(m, dir) && 1024 * i + q < 1024 * 1024
    ensures Walk(m, dir, 1024 * i + q) == if i == 0 || Asked(rs, i) then Some(Slot(rs, q)) else None
  {
    SharedAt(m, dir, rs, i, q);
    WalkAt(m, dir, i, q);
    hide *;
  }

  lemma AskedNext(rs: seq<Mapping>, r: Mapping, i: nat, q: nat)
    requires q < 1024
    ensures Asked(rs + [r], i) <==> PdIndex(r.virt) == i || Asked(rs, i)
    ensures Slot(rs + [r], q) == if PtIndex(r.virt) == q then r.phys else Slot(rs, q)
  {
    var all := rs + [r];
    assert all[..|all| - 1] == rs;
    hide PdIndex, PtIndex;
    if PdIndex(r.virt) == i {
      assert all[|rs|] == r;
    }
    if Asked(rs, i) {
      var k: nat :| k < |rs| && PdIndex(rs[k].virt) == i;
      assert all[k] == rs[k];
    }
  }

  lemma SharedCallable(m: seq<word>, dir: nat, rs: seq<Mapping>, r: Mapping, newtab: nat)
    requires SharedTable(m, dir, rs) && LowFrame(r) && NewFrame(m, dir, r.virt, newtab)
    ensures Callable(m, dir, r.virt, r.phys, newtab) && TableOf(m, dir, PdIndex(r.virt)) == 0
  {
    hide HasTable, TableOf, EntryMaps, Entry, PdIndex;
    SharedAt(m, dir, rs, PdIndex(r.virt), 0);
  }

  /** A call as written leaves the address space in this form, whichever page it is for. */
  lemma SharedStep(m: seq<word>, dir: nat, rs: seq<Mapping>, r: Mapping, newtab: nat)
    requires SharedTable(m, dir, rs) && LowFrame(r) && NewFrame(m, dir, r.virt, newtab)
    ensures FrameIn(m, dir)
    ensures MapWords(m, dir, r.virt, r.phys, newtab).Some?
    ensures SharedTable(MapWords(m, dir, r.virt, r.phys, newtab).value, dir, rs + [r])
  {
    SharedCallable(m, dir, rs, r, newtab);
    MapWalk(m, dir, r.virt, r.phys, newtab, 0, 0);
    var m' := MapWords(m, dir, r.virt, r.phys, newtab).value;
    hide *;
    hide SharedTable;
    forall i: nat | i < 1024
      ensures FrameIn(m', dir) && TableOf(m', dir, i) == 0 && (HasTable(m', dir, i) <==> i == 0 || Asked(rs + [r], i))
    {
      SharedDirectory(m, dir, rs, r, newtab, i);
    }
    forall q: nat | q < 1024
      ensures FrameIn(m', 0) && EntryMaps(Entry(m', 0, q)) == Some(Slot(rs + [r], q)) && Entry(m', 0, q) < 0x8000_0000
    {
      SharedSlot(m, dir, rs, r, newtab, q);
    }
  }

  lemma SharedDirectory(m: seq<word>, dir: nat, rs: seq<Mapping>, r: Mapping, newtab: nat, i: nat)
    requires SharedTable(m, dir, rs) && LowFrame(r) && NewFrame(m, dir, r.virt, newtab)
    requires i < 1024
    ensures FrameIn(m, dir) && dir != 0
    ensures
      var r' := MapWords(m, dir, r.virt, r.phys, newtab);
      && r'.Some? && FrameIn(r'.value, dir)
      && TableOf(r'.value, dir, i) == 0 && (HasTable(r'.value, dir, i) <==> i == 0 || Asked(rs + [r], i))
  {
    SharedAt(m, dir, rs, i, 0);
    SharedAt(m, dir, rs, PdIndex(r.virt), 0);
    AskedNext(rs, r, i, 0);
    MapEntries(m, dir, r.virt, r.phys, newtab, dir, i);
    MarkedEntry(Entry(m, dir, i));
    hide Asked, Slot, SharedTable, EntryMaps, Present, FrameOf, SetAttribute, SetFrameBits, PdIndex, PtIndex, Entry;
    hide MapWords;
  }

  lemma SharedSlot(m: seq<word>, dir: nat, rs: seq<Mapping>, r: Mapping, newtab: nat, q: nat)
    requires SharedTable(m, dir, rs) && LowFrame(r) && NewFrame(m, dir, r.virt, newtab)
    requires q < 1024
    ensures FrameIn(m, dir)
    ensures
      var r' := MapWords(m, dir, r.virt, r.phys, newtab);
      && r'.Some? && FrameIn(r'.value, 0)
      && EntryMaps(Entry(r'.value, 0, q)) == Some(Slot(rs + [r], q)) && Entry(r'.value, 0, q) < 0x8000_0000
  {
    SharedAt(m, dir, rs, PdIndex(r.virt), q);
    AskedNext(rs, r, 0, q);
    MapEntries(m, dir, r.virt, r.phys, newtab, 0, q);
    StoredEntry(Entry(m, 0, q), r.phys);
    hide Asked, Slot, SharedTable, Present, FrameOf, SetAttribute, SetFrameBits, PdIndex, PtIndex, Entry, MapWords;
    hide PagePhysAddress;
  }

  /**
   * After any run of calls as written, the next one updates exactly its own page if and only if its
   * directory entry is in use already, and either the shared table holds the address in that slot already or
   * no call of the run was for a page at 4 MiB or above.
   */
  lemma KernelMapUpdates(m: seq<word>, dir: nat, rs: seq<Mapping>, r: Mapping, newtab: nat)
    requires SharedTable(m, dir, rs) && LowFrame(r) && NewFrame(m, dir, r.virt, newtab)
    ensures FrameIn(m, dir)
    ensures
      var pd := PdIndex(r.virt);
      var r' := MapWords(m, dir, r.virt, r.phys, newtab);
      && r'.Some?
      && (UpdatedAt(m, r'.value, dir, r.virt / BLOCK_SIZE, r.phys)
          <==>
          && (pd == 0 || Asked(rs, pd))
          && (Slot(rs, PtIndex(r.virt)) == r.phys || (pd == 0 && AllBelow(rs))))
  {
    var pd, pt := PdIndex(r.virt), PtIndex(r.virt);
    SharedCallable(m, dir, rs, r, newtab);
    SharedAt(m, dir, rs, pd, pt);
    MapUpdatesExactly(m, dir, r.virt, r.phys, newtab);
    SharersOf(m, dir, rs, pd, pt, r.phys);
    NotBlank(m, dir, rs, r, newtab);
    hide SharersAgree, BlankBut, Entry, HasTable, TableOf, Callable, UpdatedAt, MapWords, Marked, PdIndex, PtIndex;
    hide SharedTable, Asked, AllBelow, Slot;
  }

  lemma SharersOf(m: seq<word>, dir: nat, rs: seq<Mapping>, pd: nat, pt: nat, phys: word)
    requires SharedTable(m, dir, rs) && pd < 1024 && pt < 1024
    ensures SharersAgree(m, dir, pd, 0, pt, phys) <==> Slot(rs, pt) == phys || (pd == 0 && AllBelow(rs))
  {
    forall i: nat | i < 1024
      ensures TableOf(m, dir, i) == 0 && (HasTable(m, dir, i) <==> i == 0 || Asked(rs, i))
      ensures 1024 * i + pt < 1024 * 1024
      ensures Walk(m, dir, 1024 * i + pt) == if i == 0 || Asked(rs, i) then Some(Slot(rs, pt)) else None
    {
      SharedAt(m, dir, rs, i, pt);
      SharedWalk(m, dir, rs, i, pt);
    }
    hide Walk, HasTable, TableOf, SharedTable, Slot;
    if SharersAgree(m, dir, pd, 0, pt, phys) && Slot(rs, pt) != phys {
      forall k: nat | k < |rs|
        ensures rs[k].virt < 0x40_0000
      {
        assert Asked(rs, PdIndex(rs[k].virt));
      }
    }
  }

  /** Frame 0 is full, so it is never blank but for one page. */
  lemma NotBlank(m: seq<word>, dir: nat, rs: seq<Mapping>, r: Mapping, newtab: nat)
    requires SharedTable(m, dir, rs) && LowFrame(r) && NewFrame(m, dir, r.virt, newtab)
    ensures FrameIn(m, dir) && FrameIn(m, 0)
    ensures
      var k, pt := Marked(m, dir, r.virt, newtab), PtIndex(r.virt);
      Entry(k, 0, pt) < 0x8000_0000 && !BlankBut(k, 0, pt)
  {
    var k, pt := Marked(m, dir, r.virt, newtab), PtIndex(r.virt);
    var q: nat := if pt == 0 then 1 else 0;
    SharedAt(m, dir, rs, 0, pt);
    SharedAt(m, dir, rs, 0, q);
    MarkedFrame(m, dir, r.virt, newtab, 0, pt);
    MarkedFrame(m, dir, r.virt, newtab, 0, q);
    hide Entry, Present, Marked, SharedTable, Asked, Slot, PtIndex, PagePhysAddress;
    assert Present(Entry(k, 0, q));
  }

  lemma MarkedFrame(m: seq<word>, dir: nat, virt: word, newtab: nat, g: nat, j: nat)
    requires NewFrame(m, dir, virt, newtab) && FrameIn(m, g) && g != dir && j < 1024
    requires HasTable(m, dir, PdIndex(virt)) || g != newtab
    ensures Entry(Marked(m, dir, virt, newtab), g, j) == Entry(m, g, j)
  {
    ZeroKeeps(m, newtab, g, j);
    hide SetAttribute, HasTable, ZeroFrame, PdIndex;
  }

  /** After a page at 4 MiB, a call below 4 MiB with a table in place also moves the page 4 MiB further up. */
  lemma LaterCallMoves(m: seq<word>, dir: nat, x: word, y: word, newtab: nat)
    requires SharedTable(m, dir, [Mapping(0x40_0000, x)]) && LowFrame(Mapping(0x1000, y)) && y != 0x1000
    requires NewFrame(m, dir, 0x1000, newtab)
    ensures FrameIn(m, dir)
    ensures
      var r := MapWords(m, dir, 0x1000, y, newtab);
      && r.Some? && !UpdatedAt(m, r.value, dir, 1, y)
      && Walk(m, dir, 1025) == Some(0x1000) && Walk(r.value, dir, 1025) == Some(y)
  {
    var rs, r := [Mapping(0x40_0000, x)], Mapping(0x1000, y);
    IndicesSplit(0x40_0000);
    IndicesSplit(0x1000);
    assert rs == [] + rs;
    AskedNext([], rs[0], 1, 1);
    AskedNext(rs, r, 1, 1);
    SharedStep(m, dir, rs, r, newtab);
    SharedWalk(m, dir, rs, 1, 1);
    SharedWalk(MapWords(m, dir, 0x1000, y, newtab).value, dir, rs + [r], 1, 1);
    hide Walk, MapWords, SharedTable, Asked, PdIndex, PtIndex;
  }

  // ---- whole runs ----

  lemma {:induction false} LatestUnasked(rs: seq<Mapping>, i: nat, q: nat)
    requires i < 1024 && q < 1024 && !Asked(rs, i)
    ensures Latest(rs, 1024 * i + q) == None
  {
    if rs != [] {
      var last, front := rs[|rs| - 1], rs[..|rs| - 1];
      assert front + [last] == rs;
      AskedNext(front, last, i, q);
      PageSplit(last.virt, i, q);
      LatestUnasked(front, i, q);
    }
  }

  lemma {:induction false} SlotBelow(rs: seq<Mapping>, q: nat)
    requires q < 1024 && AllBelow(rs)
    ensures Slot(rs, q) == if Latest(rs, q).Some? then Latest(rs, q).value else BLOCK_SIZE * q
  {
    if rs != [] {
      var last, front := rs[|rs| - 1], rs[..|rs| - 1];
      PageSplit(last.virt, 0, q);
      SlotBelow(front, q);
    }
  }

  /** The memories m0 and m before and after a run: right if no call was for a page at 4 MiB or above. */
  lemma RunBelow(m0: seq<word>, m: seq<word>, dir: nat, rs: seq<Mapping>)
    requires SharedTable(m0, dir, []) && SharedTable(m, dir, rs) && AllBelow(rs)
    ensures FrameIn(m0, dir) && FrameIn(m, dir) && Overridden(m0, m, dir, rs)
  {
    assert FrameIn(m0, dir) && FrameIn(m, dir);
    hide Asked, Latest, Slot, SharedTable, Walk;
    forall p: nat | p < 1024 * 1024
      ensures Walk(m, dir, p) == if Latest(rs, p).Some? then Latest(rs, p) else Walk(m0, dir, p)
    {
      var i, q := p / 1024, p % 1024;
      assert p == 1024 * i + q;
      SharedWalk(m0, dir, [], i, q);
      SharedWalk(m, dir, rs, i, q);
      SlotBelow(rs, q);
      SlotBelow([], q);
      NothingAsked(i);
      if i > 0 {
        NotAskedAbove(rs, i);
        LatestUnasked(rs, i, q);
        LatestUnasked([], i, q);
      }
      EmptyLatest(p);
    }
  }

  lemma EmptyLatest(p: nat)
    ensures Latest([], p) == None
  {
  }

  lemma NothingAsked(i: nat)
    ensures !Asked([], i)
  {
  }

  lemma NotAskedAbove(rs: seq<Mapping>, i: nat)
    requires AllBelow(rs) && i > 0
    ensures !Asked(rs, i)
  {
  }

  /** The first call at 4 MiB or above maps pages that nobody asked for. */
  lemma RunAbove(m0: seq<word>, m: seq<word>, dir: nat, rs: seq<Mapping>, r: Mapping)
    requires SharedTable(m0, dir, []) && SharedTable(m, dir, rs + [r]) && AllBelow(rs) && r.virt >= 0x40_0000
    ensures FrameIn(m0, dir) && FrameIn(m, dir) && !Overridden(m0, m, dir, rs + [r])
  {
    var pd, pt := PdIndex(r.virt), PtIndex(r.virt);
    var q: nat := if pt == 0 then 1 else 0;
    assert pd > 0;
    NothingAsked(pd);
    NotAskedAbove(rs, pd);
    AskedNext(rs, r, pd, q);
    SharedWalk(m0, dir, [], pd, q);
    SharedWalk(m, dir, rs + [r], pd, q);
    LatestUnasked(rs, pd, q);
    PageSplit(r.virt, pd, q);
    assert (rs + [r])[..|rs|] == rs;
    assert Latest(rs + [r], 1024 * pd + q) == None;
    hide Walk, SharedTable, Asked, PdIndex, PtIndex, Latest, Slot;
  }

  /** The memories of a run of calls as written in the kernel's address space. */
  ghost predicate KernelRun(ms: seq<seq<word>>, dir: nat, rs: seq<Mapping>, newtabs: seq<nat>) {
    && |ms| == |rs| + 1 && |newtabs| == |rs| && SharedTable(ms[0], dir, [])
    && forall k: nat | k < |rs| ::
         && LowFrame(rs[k]) && NewFrame(ms[k], dir, rs[k].virt, newtabs[k])
         && MapWords(ms[k], dir, rs[k].virt, rs[k].phys, newtabs[k]) == Some(ms[k + 1])
  }

  lemma {:induction false} KernelRunShared(
    ms: seq<seq<word>>, dir: nat, rs: seq<Mapping>, newtabs: seq<nat>, k: nat)
    requires KernelRun(ms, dir, rs, newtabs) && k <= |rs|
    ensures SharedTable(ms[k], dir, rs[..k])
  {
    if k > 0 {
      KernelRunShared(ms, dir, rs, newtabs, k - 1);
      assert rs[..k] == rs[..k - 1] + [rs[k - 1]];
      hide SharedTable, MapWords;
      SharedStep(ms[k - 1], dir, rs[..k - 1], rs[k - 1], newtabs[k - 1]);
    } else {
      assert rs[..0] == [];
    }
  }

  /** The memory after the first k calls is the one at the start overridden by them. */
  ghost predicate RightAfter(ms: seq<seq<word>>, dir: nat, rs: seq<Mapping>, k: nat) {
    k <= |rs| && k < |ms| && FrameIn(ms[0], dir) && FrameIn(ms[k], dir) && Overridden(ms[0], ms[k], dir, rs[..k])
  }

  /**
   * Over a whole run of calls as written, the mapping is after every call what the calls so far ask for if
   * and only if no call is for a page at 4 MiB or above.
   */
  lemma KernelRunRight(ms: seq<seq<word>>, dir: nat, rs: seq<Mapping>, newtabs: seq<nat>)
    requires KernelRun(ms, dir, rs, newtabs)
    ensures (forall k: nat | k <= |rs| :: RightAfter(ms, dir, rs, k)) <==> AllBelow(rs)
  {
    hide SharedTable, MapWords, Overridden;
    KernelRunShared(ms, dir, rs, newtabs, 0);
    assert rs[..0] == [];
    if AllBelow(rs) {
      forall k: nat | k <= |rs|
        ensures RightAfter(ms, dir, rs, k)
      {
        KernelRunShared(ms, dir, rs, newtabs, k);
        assert AllBelow(rs[..k]);
        RunBelow(ms[0], ms[k], dir, rs[..k]);
      }
    } else {
      var k := FirstAbove(rs);
      KernelRunShared(ms, dir, rs, newtabs, k + 1);
      assert rs[..k + 1] == rs[..k] + [rs[k]];
      RunAbove(ms[0], ms[k + 1], dir, rs[..k], rs[k]);
      assert !RightAfter(ms, dir, rs, k + 1);
    }
  }

  lemma {:induction false} FirstAbove(rs: seq<Mapping>) returns (k: nat)
    requires !AllBelow(rs)
    ensures k < |rs| && AllBelow(rs[..k]) && rs[k].virt >= 0x40_0000
  {
    var front := rs[..|rs| - 1];
    if AllBelow(front) {
      k := |rs| - 1;
    } else {
      k := FirstAbove(front);
      assert front[..k] == rs[..k];
    }
  }

  // ---- whether the stores of a run reach their frames once paging is on ----

  /** The requests leave the page of frame f mapped to itself. */
  ghost predicate FrameKept(rs: seq<Mapping>, f: nat) {
    f < 1024 * 1024 && (f < 1024 || Asked(rs, f / 1024)) && Slot(rs, f % 1024) == BLOCK_SIZE * f
  }

  lemma SharedReached(m: seq<word>, dir: nat, rs: seq<Mapping>, f: nat)
    requires SharedTable(m, dir, rs)
    ensures FrameIn(m, dir) && (Reached(m, dir, f) <==> FrameKept(rs, f))
  {
    SharedAt(m, dir, rs, 0, 0);
    if f < 1024 * 1024 {
      assert f == 1024 * (f / 1024) + f % 1024;
      SharedWalk(m, dir, rs, f / 1024, f % 1024);
    }
    hide Walk, SharedTable, Asked, Slot;
  }

  /** The stores of a call reach the directory, frame 0, and the frame cleared if the directory entry is new. */
  ghost predicate CallKept(rs: seq<Mapping>, dir: nat, virt: word, newtab: nat) {
    && FrameKept(rs, dir) && FrameKept(rs, 0)
    && (PdIndex(virt) != 0 && !Asked(rs, PdIndex(virt)) ==> FrameKept(rs, newtab))
  }

  /**
   * With paging on, all stores of a run reach their frames exactly if, before each call, the requests so far
   * have left the pages of the directory, of frame 0 and of the frame to be cleared mapped to themselves.
   */
  lemma KernelRunReaches(ms: seq<seq<word>>, dir: nat, rs: seq<Mapping>, newtabs: seq<nat>)
    requires KernelRun(ms, dir, rs, newtabs)
    ensures forall k: nat | k < |rs| :: FrameIn(ms[k], dir)
    ensures
      (forall k: nat | k < |rs| :: CallReaches(ms[k], dir, rs[k].virt, newtabs[k])) <==>
      (forall k: nat | k < |rs| :: CallKept(rs[..k], dir, rs[k].virt, newtabs[k]))
  {
    assert forall k: nat | k < |rs| :: FrameIn(ms[k], dir);
    hide CallReaches, CallKept;
    forall k: nat | k < |rs|
      ensures CallReaches(ms[k], dir, rs[k].virt, newtabs[k]) <==> CallKept(rs[..k], dir, rs[k].virt, newtabs[k])
    {
      KernelRunShared(ms, dir, rs, newtabs, k);
      CallReached(ms[k], dir, rs[..k], rs[k].virt, newtabs[k]);
    }
  }

  lemma CallReached(m: seq<word>, dir: nat, rs: seq<Mapping>, virt: word, newtab: nat)
    requires SharedTable(m, dir, rs)
    ensures FrameIn(m, dir) && (CallReaches(m, dir, virt, newtab) <==> CallKept(rs, dir, virt, newtab))
  {
    SharedAt(m, dir, rs, PdIndex(virt), 0);
    SharedReached(m, dir, rs, dir);
    SharedReached(m, dir, rs, 0);
    SharedReached(m, dir, rs, newtab);
    hide SharedTable, Asked, Reached, FrameKept, HasTable, TableOf, PdIndex;
  }

  /** Once page 0 has been moved, the next store to the shared table goes elsewhere. */
  lemma TableMoved(m: seq<word>, dir: nat, x: word, virt: word, newtab: nat)
    requires SharedTable(m, dir, [Mapping(0, x)]) && x != 0
    ensures FrameIn(m, dir) && !CallReaches(m, dir, virt, newtab)
  {
    var rs := [Mapping(0, x)];
    IndicesSplit(0);
    assert [] + rs == rs;
    AskedNext([], rs[0], 0, 0);
    CallReached(m, dir, rs, virt, newtab);
    hide SharedTable, Asked, CallReaches, PdIndex, PtIndex;
  }
}
