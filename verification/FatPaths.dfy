// The path walk of the FAT16 reader: directory buffers, the lookup of a name, and the tokenized loop over a path.

module FatPaths {
  import opened Bits
  import opened Fat
  import opened Memory
  import opened Tokenizer
  import opened Wrappers

  const NAME_MAX: nat := 55
  const DIRECTORY: byte := 0x10
  const SLASH: byte := 47

  /**
   * A malloc'd buffer of one sector and the memory behind it, as far as the read of a directory or the
   * comparison with a name can reach.
   */
  const REACH: nat := SECTOR + EOF + 1

  // ---- directory buffers ----

  /** Slot i of a directory buffer holds an entry whose bytes begin with name. */
  predicate Matches(buf: seq<byte>, name: seq<byte>, i: nat)
    requires i < 16 && ENTRY * 15 + |name| <= |buf|
  {
    buf[ENTRY * i..ENTRY * i + |name|] == name
  }

  /** The first matching slot from slot i on. */
  function LookupFrom(buf: seq<byte>, name: seq<byte>, i: nat): (r: Option<nat>)
    requires i <= 16 && ENTRY * 15 + |name| <= |buf|
    ensures r == None ==> forall j: nat | i <= j < 16 :: !Matches(buf, name, j)
    ensures r.Some? ==>
      && i <= r.value < 16 && Matches(buf, name, r.value)
      && forall j: nat | i <= j < r.value :: !Matches(buf, name, j)
    decreases 16 - i
  {
    if i == 16 then None else if Matches(buf, name, i) then Some(i) else LookupFrom(buf, name, i + 1)
  }

  function Lookup(buf: seq<byte>, name: seq<byte>): (r: Option<nat>)
    requires ENTRY * 15 + |name| <= |buf|
    ensures r.Some? ==> r.value < 16
  {
    LookupFrom(buf, name, 0)
  }

  function Slot(buf: seq<byte>, i: nat): (e: seq<byte>)
    requires i < 16 && SECTOR <= |buf|
    ensures |e| == ENTRY
  {
    buf[ENTRY * i..ENTRY * i + ENTRY]
  }

  function Attributes(e: seq<byte>): byte
    requires |e| == ENTRY
  {
    e[11]
  }

  function StartingCluster(e: seq<byte>): nat
    requires |e| == ENTRY
  {
    Half(e, 26)
  }

  /** memcmp: the sign of the first difference. */
  method MemCmp(m: seq<byte>, a: nat, t: seq<byte>) returns (r: int)
    requires a + |t| <= |m|
    ensures r == 0 <==> m[a..a + |t|] == t
    ensures r != 0 ==> exists k: nat :: k < |t| && m[a..a + k] == t[..k]
                         && m[a + k] != t[k] && (r == -1 <==> m[a + k] < t[k]) && (r == 1 <==> t[k] < m[a + k])
  {
    for i := 0 to |t|
      invariant m[a..a + i] == t[..i]
    {
      if m[a + i] < t[i] {
        assert m[a..a + |t|][i] != t[i];
        return -1;
      } else if t[i] < m[a + i] {
        assert m[a..a + |t|][i] != t[i];
        return 1;
      }
      assert m[a..a + i + 1] == m[a..a + i] + [m[a + i]];
      assert t[..i + 1] == t[..i] + [t[i]];
    }
    r := 0;
  }

  /** _fat_get_filehandle_buffer: the offset of the entry found. */
  method FindEntry(name: seq<byte>, buf: seq<byte>) returns (r: Option<nat>)
    requires ENTRY * 15 + |name| <= |buf|
    ensures r == match Lookup(buf, name) case None => None case Some(i) => Some(ENTRY * i)
  {
    hide Matches, Lookup, LookupFrom;
    var i := 0;
    ghost var k := 0;
    LookupStart(buf, name);
    while i < SECTOR
      invariant k <= 16 && i == ENTRY * k && Lookup(buf, name) == LookupFrom(buf, name, k)
      decreases 16 - k
    {
      LookupStep(buf, name, k);
      var d := MemCmp(buf, i, name);
      if d == 0 {
        return Some(i);
      }
      i := i + 32;
      k := k + 1;
    }
    LookupEnd(buf, name);
    r := None;
  }

  lemma LookupStart(buf: seq<byte>, name: seq<byte>)
    requires ENTRY * 15 + |name| <= |buf|
    ensures Lookup(buf, name) == LookupFrom(buf, name, 0)
  {
  }

  lemma LookupStep(buf: seq<byte>, name: seq<byte>, k: nat)
    requires k < 16 && ENTRY * 15 + |name| <= |buf|
    ensures LookupFrom(buf, name, k) ==
      if buf[ENTRY * k..ENTRY * k + |name|] == name then Some(k) else LookupFrom(buf, name, k + 1)
  {
  }

  lemma LookupEnd(buf: seq<byte>, name: seq<byte>)
    requires ENTRY * 15 + |name| <= |buf|
    ensures LookupFrom(buf, name, 16) == None
  {
  }

  // ---- entering a directory ----

  /** The clusters that the reader visits for an entry, None if its chain does not end or leaves the device. */
  function ChainOf(disk: seq<byte>, e: seq<byte>): (r: Option<seq<nat>>)
    requires |disk| >= SECTOR && |e| == ENTRY
    ensures r.Some? ==> IsChain(disk, ParseBpb(disk), StartingCluster(e), r.value) && |r.value| <= EOF + 1
    ensures r.Some? ==> AllOnDisk(disk, ParseBpb(disk), r.value)
  {
    var b, c := ParseBpb(disk), StartingCluster(e);
    var r := Follow(disk, b, c, {});
    if r == None then None
    else
      FollowGivesChain(disk, b, c, {});
      FollowLength(disk, b, c, {});
      ChainOnDisk(disk, b, c, r.value);
      r
  }

  /** A read into a buffer of one sector stores at most a byte more than that for every cluster. */
  lemma {:induction false} ReadBound(disk: seq<byte>, b: Bpb, chain: seq<nat>, size: nat)
    requires b.sectorsPerCluster > 0 && AllOnDisk(disk, b, chain)
    ensures |ReadBytes(disk, b, chain, size)| <= size + |chain|
  {
    if chain != [] {
      ReadBound(disk, b, chain[..|chain| - 1], size);
    }
  }

  /** The buffer after the directory e has been read into it; bytes not stored stay as they were. */
  function Entered(disk: seq<byte>, buf: seq<byte>, e: seq<byte>): (r: seq<byte>)
    requires Readable(disk) && |buf| == REACH && |e| == ENTRY && ChainOf(disk, e).Some?
    ensures |r| == REACH
  {
    var chain := ChainOf(disk, e).value;
    ReadBound(disk, ParseBpb(disk), chain, SECTOR);
    var out := ReadBytes(disk, ParseBpb(disk), chain, SECTOR);
    out + buf[|out|..]
  }

  /** Of a directory that has a cluster the buffer holds the first sector, however long the directory is. */
  lemma FirstSector(disk: seq<byte>, buf: seq<byte>, e: seq<byte>)
    requires Readable(disk) && |buf| == REACH && |e| == ENTRY && ChainOf(disk, e).Some?
    requires StartingCluster(e) <= EOF
    ensures OnDisk(disk, ParseBpb(disk), StartingCluster(e))
    ensures Entered(disk, buf, e)[..SECTOR] == ClusterBytes(disk, ParseBpb(disk), StartingCluster(e))[..SECTOR]
  {
    var b, chain := ParseBpb(disk), ChainOf(disk, e).value;
    var all := ChainBytes(disk, b, chain);
    ReadIsPrefix(disk, b, chain, SECTOR);
    FirstCluster(disk, b, chain);
    assert chain[0] == StartingCluster(e);
  }

  lemma {:induction false} FirstCluster(disk: seq<byte>, b: Bpb, chain: seq<nat>)
    requires b.sectorsPerCluster > 0 && AllOnDisk(disk, b, chain) && chain != []
    ensures |ChainBytes(disk, b, chain)| >= b.ClusterSize() >= SECTOR
    ensures ChainBytes(disk, b, chain)[..SECTOR] == ClusterBytes(disk, b, chain[0])[..SECTOR]
  {
    var n := |chain| - 1;
    if n > 0 {
      FirstCluster(disk, b, chain[..n]);
    } else {
      assert chain[..0] == [] && ChainBytes(disk, b, []) == [];
      assert ChainBytes(disk, b, chain) == ClusterBytes(disk, b, chain[0]);
    }
  }

  // ---- paths ----

  /** NullName stands for a lookup of the NULL that strtok returns when the tokens have run out. */
  datatype Outcome = Found(entry: seq<byte>) | NotFound | NullName

  /**
   * The entry that the root lookup copies: the one found in the first root sector, or else the bytes at
   * address 0, since a failed lookup yields NULL and the copy does not test for it.
   */
  function RootEntry(disk: seq<byte>, low: seq<byte>, root: seq<byte>, name: seq<byte>): (e: seq<byte>)
    requires Readable(disk) && |low| == ENTRY && |root| == REACH && |name| < NAME_MAX
    ensures |e| == ENTRY
  {
    var buf := Sectors(disk, ParseBpb(disk).RootLba(), 1) + root[SECTOR..];
    match Lookup(buf, name)
    case Some(i) => Slot(buf, i)
    case None => low
  }

  predicate ShortNames(names: seq<seq<byte>>) {
    forall i | 0 <= i < |names| :: |names[i]| < NAME_MAX
  }

  /** The names of a path are no longer than the path. */
  lemma {:induction false} TokensAreShort(s: Option<seq<byte>>, ch: byte)
    requires s.Some? ==> |s.value| < NAME_MAX
    ensures ShortNames(Tokens(s, ch))
    decreases if s.Some? then |s.value| + 1 else 0
  {
    if s.Some? {
      var (token, rest) := NextToken(s.value, ch);
      NextTokenIsShort(s.value, ch);
      TokensAreShort(rest, ch);
      hide NextToken;
      forall i | 0 <= i < |Tokens(s, ch)|
        ensures |Tokens(s, ch)[i]| < NAME_MAX
      {
        if i > 0 {
          assert Tokens(s, ch)[i] == Tokens(rest, ch)[i - 1];
        }
      }
    }
  }

  lemma {:induction false} NextTokenIsShort(s: seq<byte>, ch: byte)
    ensures |NextToken(s, ch).0| <= |s|
    decreases |s|
  {
    if Find(s, ch) == 0 && s != [] {
      NextTokenIsShort(s[1..], ch);
    }
  }

  /** Every directory that the walk over names enters, from the buffer on, has a chain that ends. */
  predicate Walkable(disk: seq<byte>, buf: seq<byte>, names: seq<seq<byte>>)
    requires Readable(disk) && |buf| == REACH && ShortNames(names)
    decreases |names|
  {
    names == [] ||
    match Lookup(buf, names[0])
    case None => true
    case Some(i) =>
      var e := Slot(buf, i);
      Attributes(e) != DIRECTORY || (ChainOf(disk, e).Some? && Walkable(disk, Entered(disk, buf, e), names[1..]))
  }

  /** The recursive walk: each name is looked up in the buffer of the directory found for the one before. */
  function Walk(disk: seq<byte>, buf: seq<byte>, names: seq<seq<byte>>): Outcome
    requires Readable(disk) && |buf| == REACH && ShortNames(names) && Walkable(disk, buf, names)
    decreases |names|
  {
    if names == [] then NullName
    else
      match Lookup(buf, names[0])
      case None => NotFound
      case Some(i) =>
        var e := Slot(buf, i);
        if Attributes(e) != DIRECTORY then Found(e) else Walk(disk, Entered(disk, buf, e), names[1..])
  }

  /** The two buffers as malloc returns them, and the bytes at address 0. */
  datatype Start = Start(low: seq<byte>, root: seq<byte>, dir: seq<byte>)
  {
    predicate Valid() {
      |low| == ENTRY && |root| == REACH && |dir| == REACH
    }
  }

  predicate RootWalkable(disk: seq<byte>, at: Start, names: seq<seq<byte>>)
    requires Readable(disk) && at.Valid() && names != [] && ShortNames(names)
  {
    var e := RootEntry(disk, at.low, at.root, names[0]);
    Attributes(e) != DIRECTORY || (ChainOf(disk, e).Some? && Walkable(disk, Entered(disk, at.dir, e), names[1..]))
  }

  function Resolve(disk: seq<byte>, at: Start, names: seq<seq<byte>>): Outcome
    requires Readable(disk) && at.Valid() && names != [] && ShortNames(names)
    requires RootWalkable(disk, at, names)
  {
    var e := RootEntry(disk, at.low, at.root, names[0]);
    if Attributes(e) != DIRECTORY then Found(e) else Walk(disk, Entered(disk, at.dir, e), names[1..])
  }

  /** Every directory on the path has a chain that ends. */
  predicate PathWalkable(disk: seq<byte>, at: Start, name: seq<byte>)
    requires Readable(disk) && at.Valid() && |name| < NAME_MAX
  {
    TokensAreShort(Some(name), SLASH);
    RootWalkable(disk, at, Tokens(Some(name), SLASH))
  }

  function PathOutcome(disk: seq<byte>, at: Start, name: seq<byte>): Outcome
    requires Readable(disk) && at.Valid() && |name| < NAME_MAX && PathWalkable(disk, at, name)
  {
    TokensAreShort(Some(name), SLASH);
    Resolve(disk, at, Tokens(Some(name), SLASH))
  }

  /** es are the entries of a path below a directory: directories, each found in the one before, then a file. */
  predicate EntriesOf(disk: seq<byte>, buf: seq<byte>, names: seq<seq<byte>>, es: seq<seq<byte>>)
    requires Readable(disk) && |buf| == REACH && ShortNames(names)
    ensures EntriesOf(disk, buf, names, es) ==> es != []
    decreases |es|
  {
    && 0 < |es| <= |names| && |es[0]| == ENTRY
    && Lookup(buf, names[0]).Some? && es[0] == Slot(buf, Lookup(buf, names[0]).value)
    && if |es| == 1 then Attributes(es[0]) != DIRECTORY
       else
         && Attributes(es[0]) == DIRECTORY && ChainOf(disk, es[0]).Some?
         && EntriesOf(disk, Entered(disk, buf, es[0]), names[1..], es[1..])
  }

  lemma {:induction false} EntriesGiveWalk(disk: seq<byte>, buf: seq<byte>, names: seq<seq<byte>>, es: seq<seq<byte>>)
    requires Readable(disk) && |buf| == REACH && ShortNames(names) && Walkable(disk, buf, names)
    requires EntriesOf(disk, buf, names, es)
    ensures Walk(disk, buf, names) == Found(es[|es| - 1])
    decreases |es|
  {
    if |es| > 1 {
      EntriesGiveWalk(disk, Entered(disk, buf, es[0]), names[1..], es[1..]);
    }
  }

  lemma {:induction false} WalkGivesEntries(disk: seq<byte>, buf: seq<byte>, names: seq<seq<byte>>)
    returns (es: seq<seq<byte>>)
    requires Readable(disk) && |buf| == REACH && ShortNames(names) && Walkable(disk, buf, names)
    requires Walk(disk, buf, names).Found?
    ensures EntriesOf(disk, buf, names, es) && es[|es| - 1] == Walk(disk, buf, names).entry
    decreases |names|
  {
    hide ChainOf, Entered, Readable;
    var f := Slot(buf, Lookup(buf, names[0]).value);
    hide Slot, Lookup, Attributes;
    if Attributes(f) != DIRECTORY {
      es := [f];
    } else {
      var rest := WalkGivesEntries(disk, Entered(disk, buf, f), names[1..]);
      es := [f] + rest;
      assert es[1..] == rest;
    }
  }

  /**
   * The walk finds an entry exactly if there is such a sequence of entries for some prefix of the names, and
   * it is the last of them.  Names behind a file are not looked at.
   */
  lemma WalkFindsEntries(disk: seq<byte>, buf: seq<byte>, names: seq<seq<byte>>, e: seq<byte>)
    requires Readable(disk) && |buf| == REACH && ShortNames(names) && Walkable(disk, buf, names)
    ensures Walk(disk, buf, names) == Found(e) <==>
      exists es :: EntriesOf(disk, buf, names, es) && es[|es| - 1] == e
  {
    hide EntriesOf, Walk, Walkable;
    if Walk(disk, buf, names) == Found(e) {
      var es := WalkGivesEntries(disk, buf, names);
    }
    forall es | EntriesOf(disk, buf, names, es) && es[|es| - 1] == e
      ensures Walk(disk, buf, names) == Found(e)
    {
      EntriesGiveWalk(disk, buf, names, es);
    }
  }

  /** es are the entries of a path from the root on: the root's entry for the first name, then those below it. */
  predicate PathEntries(disk: seq<byte>, at: Start, name: seq<byte>, es: seq<seq<byte>>)
    requires Readable(disk) && at.Valid() && |name| < NAME_MAX
    ensures PathEntries(disk, at, name, es) ==> es != []
  {
    TokensAreShort(Some(name), SLASH);
    var names := Tokens(Some(name), SLASH);
    && 0 < |es| <= |names| && es[0] == RootEntry(disk, at.low, at.root, names[0])
    && if |es| == 1 then Attributes(es[0]) != DIRECTORY
       else
         && Attributes(es[0]) == DIRECTORY && ChainOf(disk, es[0]).Some?
         && EntriesOf(disk, Entered(disk, at.dir, es[0]), names[1..], es[1..])
  }

  /**
   * A path leads to an entry exactly if the entry is the last of such a sequence: directories, each the first
   * match in the one before, and then a file.
   */
  lemma PathFindsEntries(disk: seq<byte>, at: Start, name: seq<byte>, e: seq<byte>)
    requires Readable(disk) && at.Valid() && |name| < NAME_MAX && PathWalkable(disk, at, name)
    ensures PathOutcome(disk, at, name) == Found(e) <==>
      exists es :: PathEntries(disk, at, name, es) && es[|es| - 1] == e
  {
    if PathOutcome(disk, at, name) == Found(e) {
      var es := OutcomeGivesEntries(disk, at, name);
    }
    forall es | PathEntries(disk, at, name, es) && es[|es| - 1] == e
      ensures PathOutcome(disk, at, name) == Found(e)
    {
      EntriesGiveOutcome(disk, at, name, es);
    }
    hide PathEntries, PathOutcome, PathWalkable;
  }

  lemma OutcomeGivesEntries(disk: seq<byte>, at: Start, name: seq<byte>) returns (es: seq<seq<byte>>)
    requires Readable(disk) && at.Valid() && |name| < NAME_MAX && PathWalkable(disk, at, name)
    requires PathOutcome(disk, at, name).Found?
    ensures PathEntries(disk, at, name, es) && es[|es| - 1] == PathOutcome(disk, at, name).entry
  {
    TokensStep(name, SLASH);
    hide Readable, RootEntry, ChainOf, Entered, Attributes, Tokens, Walk, Walkable, EntriesOf;
    TokensAreShort(Some(name), SLASH);
    var names := Tokens(Some(name), SLASH);
    var e := RootEntry(disk, at.low, at.root, names[0]);
    if Attributes(e) != DIRECTORY {
      es := [e];
    } else {
      var rest := WalkGivesEntries(disk, Entered(disk, at.dir, e), names[1..]);
      EntriesFit(disk, Entered(disk, at.dir, e), names[1..], rest);
      es := [e] + rest;
      assert es[1..] == rest;
    }
  }

  lemma EntriesFit(disk: seq<byte>, buf: seq<byte>, names: seq<seq<byte>>, es: seq<seq<byte>>)
    requires Readable(disk) && |buf| == REACH && ShortNames(names) && EntriesOf(disk, buf, names, es)
    ensures 0 < |es| <= |names|
  {
  }

  lemma EntriesGiveOutcome(disk: seq<byte>, at: Start, name: seq<byte>, es: seq<seq<byte>>)
    requires Readable(disk) && at.Valid() && |name| < NAME_MAX && PathWalkable(disk, at, name)
    requires PathEntries(disk, at, name, es)
    ensures PathOutcome(disk, at, name) == Found(es[|es| - 1])
  {
    hide Readable, RootEntry, ChainOf, Entered, Attributes, Tokens, Walk, Walkable, EntriesOf;
    TokensAreShort(Some(name), SLASH);
    if |es| > 1 {
      EntriesGiveWalk(disk, Entered(disk, at.dir, es[0]), Tokens(Some(name), SLASH)[1..], es[1..]);
    }
  }

  /** Every name leads to a directory, each looked up in the one before. */
  predicate AllDirectories(disk: seq<byte>, buf: seq<byte>, names: seq<seq<byte>>)
    requires Readable(disk) && |buf| == REACH && ShortNames(names)
    decreases |names|
  {
    names == [] ||
    (exists i: nat :: i < 16 && Lookup(buf, names[0]) == Some(i) && |Slot(buf, i)| == 32 && Slot(buf, i)[11] == 0x10
      && ChainOf(disk, Slot(buf, i)).Some? && AllDirectories(disk, Entered(disk, buf, Slot(buf, i)), names[1..]))
  }

  /** The names run out exactly if all of them are directories. */
  lemma {:induction false} WalkRunsOut(disk: seq<byte>, buf: seq<byte>, names: seq<seq<byte>>)
    requires Readable(disk) && |buf| == REACH && ShortNames(names) && Walkable(disk, buf, names)
    ensures Walk(disk, buf, names) == NullName <==> AllDirectories(disk, buf, names)
    decreases |names|
  {
    hide Readable, ChainOf, Entered, Lookup, Slot;
    if names != [] && Lookup(buf, names[0]).Some? {
      var e := Slot(buf, Lookup(buf, names[0]).value);
      if Attributes(e) == DIRECTORY {
        WalkRunsOut(disk, Entered(disk, buf, e), names[1..]);
      }
    }
  }

  /** A path runs out exactly if every name of it is a directory; then the code goes on with a null pointer. */
  lemma PathRunsOut(disk: seq<byte>, at: Start, name: seq<byte>)
    requires Readable(disk) && at.Valid() && |name| < NAME_MAX && PathWalkable(disk, at, name)
    ensures ShortNames(Tokens(Some(name), 47)) && Tokens(Some(name), 47) != []
    ensures
      var names := Tokens(Some(name), 47);
      var e := RootEntry(disk, at.low, at.root, names[0]);
      PathOutcome(disk, at, name) == NullName <==>
        e[11] == 0x10 && ChainOf(disk, e).Some? && AllDirectories(disk, Entered(disk, at.dir, e), names[1..])
  {
    TokensStep(name, SLASH);
    TokensAreShort(Some(name), SLASH);
    var names := Tokens(Some(name), SLASH);
    var e := RootEntry(disk, at.low, at.root, names[0]);
    hide Readable, RootEntry, ChainOf, Entered, Tokens, Walk, Walkable, AllDirectories;
    if Attributes(e) == DIRECTORY {
      WalkRunsOut(disk, Entered(disk, at.dir, e), names[1..]);
    }
  }

  /**
   * A path whose first component is missing resolves to the bytes at address 0, if they do not look like a
   * directory.
   */
  lemma MissingRootName(disk: seq<byte>, at: Start, names: seq<seq<byte>>)
    requires Readable(disk) && at.Valid() && names != [] && ShortNames(names)
    requires Lookup(Sectors(disk, ParseBpb(disk).RootLba(), 1) + at.root[SECTOR..], names[0]) == None
    requires Attributes(at.low) != DIRECTORY
    ensures RootWalkable(disk, at, names) && Resolve(disk, at, names) == Found(at.low)
  {
  }

  // ---- the entries of a path, in the bytes of the device ----

  /** Slot i is the first of the sixteen whose bytes begin with name. */
  ghost predicate FirstMatch(buf: seq<byte>, name: seq<byte>, i: nat)
    requires i < 16 && 32 * 15 + |name| <= |buf|
  {
    && buf[32 * i..32 * i + |name|] == name
    && forall j: nat | j < i :: buf[32 * j..32 * j + |name|] != name
  }

  /** Where the root directory begins. */
  function RootPosition(disk: seq<byte>): nat
    requires |disk| >= 512
  {
    512 * (Octet(disk, 16) * (Octet(disk, 22) + 0x100 * Octet(disk, 23)) + (Octet(disk, 14) + 0x100 * Octet(disk, 15)))
  }

  /** e is the first entry in the first root sector that begins with name, or else the bytes at address 0. */
  ghost predicate InRoot(disk: seq<byte>, low: seq<byte>, root: seq<byte>, name: seq<byte>, e: seq<byte>)
    requires |disk| >= 512 && |root| == REACH && |name| < 55
  {
    var a := RootPosition(disk);
    && a + 512 <= |disk|
    && var buf := disk[a..a + 512] + root[512..];
       && (forall i: nat | i < 16 && FirstMatch(buf, name, i) :: e == buf[32 * i..32 * i + 32])
       && ((forall i: nat | i < 16 :: !FirstMatch(buf, name, i)) ==> e == low)
  }

  /** e is the first entry in the first sector of cluster c that begins with name. */
  ghost predicate InCluster(disk: seq<byte>, c: nat, name: seq<byte>, e: seq<byte>)
    requires |disk| >= 512 && |name| <= 32
  {
    var a := Position(disk, c, 0);
    && 0 <= a && a + 512 <= |disk|
    && exists i: nat :: i < 16 && FirstMatch(disk[a..a + 512], name, i) && e == disk[a + 32 * i..a + 32 * i + 32]
  }

  /** The first cluster that an entry names. */
  function FirstClusterOf(e: seq<byte>): nat
    requires |e| == 32
  {
    Octet(e, 26) + 0x100 * Octet(e, 27)
  }

  /**
   * Entry k of a path: all but the last are directories, the first is looked up in the root, and each later one
   * of an ordinary name in the directory before it.
   */
  ghost predicate EntryIs(disk: seq<byte>, at: Start, names: seq<seq<byte>>, es: seq<seq<byte>>, k: nat)
    requires |disk| >= 512 && at.Valid() && ShortNames(names)
  {
    && k < |es| <= |names| && |es[k]| == 32 && (es[k][11] == 0x10 <==> k < |es| - 1)
    && (k == 0 ==> InRoot(disk, at.low, at.root, names[0], es[0]))
    && (k > 0 && |es[k - 1]| == 32 && FirstClusterOf(es[k - 1]) <= 0xFFF8 && |names[k]| <= 32 ==>
          InCluster(disk, FirstClusterOf(es[k - 1]), names[k], es[k]))
  }

  /** The entries es lead along the path to the last of them. */
  ghost predicate LeadsAlong(disk: seq<byte>, at: Start, name: seq<byte>, es: seq<seq<byte>>)
    requires |disk| >= 512 && at.Valid() && |name| < 55
  {
    TokensAreShort(Some(name), 47);
    es != [] && forall k: nat | k < |es| :: EntryIs(disk, at, Tokens(Some(name), 47), es, k)
  }

  lemma LookupIsFirst(buf: seq<byte>, name: seq<byte>, i: nat)
    requires 32 * 15 + |name| <= |buf| && i < 16
    ensures FirstMatch(buf, name, i) <==> Lookup(buf, name) == Some(i)
  {
    var r := Lookup(buf, name);
    hide LookupFrom;
    if FirstMatch(buf, name, i) {
      assert Matches(buf, name, i);
      assert r.Some? && Matches(buf, name, r.value);
    }
    if r == Some(i) {
      forall j: nat | j < i
        ensures buf[32 * j..32 * j + |name|] != name
      {
        assert !Matches(buf, name, j);
      }
    }
  }

  lemma RootEntryIs(disk: seq<byte>, low: seq<byte>, root: seq<byte>, name: seq<byte>)
    requires Readable(disk) && |low| == ENTRY && |root| == REACH && |name| < NAME_MAX
    ensures InRoot(disk, low, root, name, RootEntry(disk, low, root, name))
  {
    RootSector(disk);
    RootLooksUp(disk, low, root, name);
    var a, e := RootPosition(disk), RootEntry(disk, low, root, name);
    hide FirstMatch, Lookup, RootPosition, RootEntry, Sectors, Slot, Readable, InRoot, ParseBpb;
    RootFrom(disk, low, root, name, e, disk[a..a + 512] + root[512..]);
  }

  /** The sector that is read for the root directory. */
  lemma RootSector(disk: seq<byte>)
    requires Readable(disk)
    ensures |disk| >= 512 && RootPosition(disk) + 512 <= |disk|
    ensures Sectors(disk, ParseBpb(disk).RootLba(), 1) == disk[RootPosition(disk)..RootPosition(disk) + 512]
  {
    assert RootPosition(disk) == SECTOR * ParseBpb(disk).RootLba();
  }

  /** The slot that the lookup finds is the one copied. */
  lemma RootLooksUp(disk: seq<byte>, low: seq<byte>, root: seq<byte>, name: seq<byte>)
    requires Readable(disk) && |low| == ENTRY && |root| == REACH && |name| < NAME_MAX
    ensures
      var buf, e := Sectors(disk, ParseBpb(disk).RootLba(), 1) + root[512..], RootEntry(disk, low, root, name);
      match Lookup(buf, name)
      case Some(i) => e == buf[32 * i..32 * i + 32]
      case None => e == low
  {
    hide Lookup, Sectors, ParseBpb;
  }

  lemma RootFrom(disk: seq<byte>, low: seq<byte>, root: seq<byte>, name: seq<byte>, e: seq<byte>, buf: seq<byte>)
    requires |disk| >= 512 && |root| == REACH && |name| < 55 && RootPosition(disk) + 512 <= |disk|
    requires buf == disk[RootPosition(disk)..RootPosition(disk) + 512] + root[512..]
    requires
      match Lookup(buf, name)
      case Some(i) => e == buf[32 * i..32 * i + 32]
      case None => e == low
    ensures InRoot(disk, low, root, name, e)
  {
    hide FirstMatch, Lookup, RootPosition;
    forall i: nat | i < 16
      ensures FirstMatch(buf, name, i) <==> Lookup(buf, name) == Some(i)
    {
      LookupIsFirst(buf, name, i);
    }
  }

  /** What is found in the buffer of a directory was found in its first sector. */
  lemma FoundInCluster(disk: seq<byte>, buf: seq<byte>, d: seq<byte>, name: seq<byte>, i: nat)
    requires Readable(disk) && |buf| == REACH && |d| == ENTRY && ChainOf(disk, d).Some?
    requires StartingCluster(d) <= EOF && |name| <= ENTRY && Lookup(Entered(disk, buf, d), name) == Some(i) && i < 16
    ensures InCluster(disk, StartingCluster(d), name, Slot(Entered(disk, buf, d), i))
  {
    var c, all := StartingCluster(d), Entered(disk, buf, d);
    FirstSector(disk, buf, d);
    SectorOf(disk, c);
    LookupIsFirst(all, name, i);
    InFront(all, name, i);
    hide *;
    SlotAt(all, i);
    PlacedInCluster(disk, c, name, i, all);
  }

  lemma PlacedInCluster(disk: seq<byte>, c: nat, name: seq<byte>, i: nat, all: seq<byte>)
    requires |disk| >= 512 && i < 16 && |name| <= 32 && 512 <= |all| && FirstMatch(all[..512], name, i)
    requires 0 <= Position(disk, c, 0) && Position(disk, c, 0) + 512 <= |disk|
    requires all[..512] == disk[Position(disk, c, 0)..Position(disk, c, 0) + 512]
    requires all[32 * i..32 * i + 32] == all[..512][32 * i..32 * i + 32]
    ensures InCluster(disk, c, name, all[32 * i..32 * i + 32])
  {
    var a := Position(disk, c, 0);
    hide Position, FirstMatch;
    InSector(disk, a, 32 * i);
  }

  lemma InSector(disk: seq<byte>, a: nat, x: nat)
    requires a + 512 <= |disk| && x + 32 <= 512
    ensures disk[a..a + 512][x..x + 32] == disk[a + x..a + x + 32]
  {
    var s, t := disk[a..a + 512][x..x + 32], disk[a + x..a + x + 32];
    forall k: nat | k < 32
      ensures s[k] == t[k]
    {
      assert disk[a..a + 512][x + k] == disk[a + (x + k)];
    }
  }

  /** For a name that fits a slot the first 512 bytes decide. */
  lemma InFront(all: seq<byte>, name: seq<byte>, i: nat)
    requires i < 16 && |name| <= 32 && 512 <= |all| && FirstMatch(all, name, i)
    ensures FirstMatch(all[..512], name, i) && all[32 * i..32 * i + 32] == all[..512][32 * i..32 * i + 32]
  {
    var front := all[..512];
    forall j: nat | j <= i
      ensures all[32 * j..32 * j + |name|] == front[32 * j..32 * j + |name|]
    {
      FrontSlice(all, 32 * j, |name|);
    }
    FrontSlice(all, 32 * i, 32);
  }

  lemma FrontSlice(all: seq<byte>, a: nat, n: nat)
    requires a + n <= 512 <= |all|
    ensures all[a..a + n] == all[..512][a..a + n]
  {
  }

  lemma SectorOf(disk: seq<byte>, c: nat)
    requires Readable(disk) && OnDisk(disk, ParseBpb(disk), c)
    ensures
      var a := Position(disk, c, 0);
      0 <= a && a + 512 <= |disk| && ClusterBytes(disk, ParseBpb(disk), c)[..512] == disk[a..a + 512]
  {
    var b := ParseBpb(disk);
    assert Position(disk, c, 0) == 512 * b.ClusterLba(c);
  }

  lemma {:induction false} EntriesAre(
    disk: seq<byte>, buf: seq<byte>, names: seq<seq<byte>>, es: seq<seq<byte>>, k: nat)
    requires Readable(disk) && |buf| == REACH && ShortNames(names) && EntriesOf(disk, buf, names, es) && k < |es|
    ensures |es| <= |names| && |es[k]| == ENTRY && (es[k][11] == 0x10 <==> k < |es| - 1)
    ensures k == 0 ==> Lookup(buf, names[0]).Some? && es[0] == Slot(buf, Lookup(buf, names[0]).value)
    ensures k > 0 ==> |es[k - 1]| == ENTRY
    ensures k > 0 && FirstClusterOf(es[k - 1]) <= 0xFFF8 && |names[k]| <= 32 ==>
      InCluster(disk, FirstClusterOf(es[k - 1]), names[k], es[k])
    decreases k
  {
    hide Readable, ChainOf, Entered, Lookup, InCluster;
    if k > 0 {
      EntriesAre(disk, Entered(disk, buf, es[0]), names[1..], es[1..], k - 1);
      assert es[1..][k - 1] == es[k] && names[1..][k - 1] == names[k];
      if k == 1 {
        FoundAfter(disk, buf, es[0], names[1], es[1]);
      } else {
        assert es[1..][k - 2] == es[k - 1];
      }
    }
  }

  lemma FoundAfter(disk: seq<byte>, buf: seq<byte>, d: seq<byte>, name: seq<byte>, e: seq<byte>)
    requires Readable(disk) && |buf| == REACH && |d| == ENTRY && ChainOf(disk, d).Some? && |name| < NAME_MAX
    requires Lookup(Entered(disk, buf, d), name).Some?
    requires e == Slot(Entered(disk, buf, d), Lookup(Entered(disk, buf, d), name).value)
    ensures FirstClusterOf(d) <= 0xFFF8 && |name| <= 32 ==> InCluster(disk, FirstClusterOf(d), name, e)
  {
    hide Readable, ChainOf, Entered, Lookup, InCluster;
    assert FirstClusterOf(d) == StartingCluster(d);
    if FirstClusterOf(d) <= 0xFFF8 && |name| <= 32 {
      FoundInCluster(disk, buf, d, name, Lookup(Entered(disk, buf, d), name).value);
    }
  }

  /** The entries that a path leads along are those in the bytes of the device. */
  lemma PathEntriesAre(disk: seq<byte>, at: Start, name: seq<byte>, es: seq<seq<byte>>)
    requires Readable(disk) && at.Valid() && |name| < NAME_MAX && PathEntries(disk, at, name, es)
    ensures LeadsAlong(disk, at, name, es)
  {
    TokensAreShort(Some(name), SLASH);
    var names := Tokens(Some(name), SLASH);
    RootEntryIs(disk, at.low, at.root, names[0]);
    assert |disk| >= 512 && names == Tokens(Some(name), 47);
    hide Readable, ChainOf, Entered, Lookup, InCluster, InRoot, RootEntry, Tokens, EntriesOf;
    forall k: nat | k < |es|
      ensures EntryIs(disk, at, names, es, k)
    {
      if k > 0 {
        LaterEntryIs(disk, at, names, es, k);
      }
    }
  }

  lemma LaterEntryIs(disk: seq<byte>, at: Start, names: seq<seq<byte>>, es: seq<seq<byte>>, k: nat)
    requires Readable(disk) && at.Valid() && ShortNames(names) && 0 < k < |es| <= |names| && |es[0]| == ENTRY
    requires ChainOf(disk, es[0]).Some? && EntriesOf(disk, Entered(disk, at.dir, es[0]), names[1..], es[1..])
    ensures |disk| >= 512 && EntryIs(disk, at, names, es, k)
  {
    if k == 1 {
      FirstBelow(disk, at.dir, names, es);
    }
    hide ChainOf, Entered, EntriesOf, InCluster, FirstClusterOf, InRoot, EntryIs, Lookup, Slot;
    var buf, ns, ts := Entered(disk, at.dir, es[0]), names[1..], es[1..];
    TailEntryIs(disk, at, names, es, buf, ns, ts, k);
  }

  lemma TailEntryIs(
    disk: seq<byte>, at: Start, names: seq<seq<byte>>, es: seq<seq<byte>>, buf: seq<byte>, ns: seq<seq<byte>>,
    ts: seq<seq<byte>>, k: nat)
    requires Readable(disk) && at.Valid() && ShortNames(names) && ShortNames(ns) && |buf| == REACH
    requires |names| == |ns| + 1 && |es| == |ts| + 1 && 0 < k < |es| && |es[0]| == 32
    requires forall i: nat | i < |ns| :: names[i + 1] == ns[i]
    requires forall i: nat | i < |ts| :: es[i + 1] == ts[i]
    requires EntriesOf(disk, buf, ns, ts) && |disk| >= 512
    requires k == 1 && FirstClusterOf(es[0]) <= 0xFFF8 && |names[1]| <= 32 ==>
      InCluster(disk, FirstClusterOf(es[0]), names[1], es[1])
    ensures EntryIs(disk, at, names, es, k)
  {
    hide Readable, EntriesOf, InCluster, FirstClusterOf, InRoot, EntryIs, Lookup, Slot;
    EntriesAre(disk, buf, ns, ts, k - 1);
    assert es[k] == ts[k - 1] && names[k] == ns[k - 1] && (k > 1 ==> es[k - 1] == ts[k - 2]);
    EntryFrom(disk, at, names, es, k);
  }

  lemma FirstBelow(disk: seq<byte>, dir: seq<byte>, names: seq<seq<byte>>, es: seq<seq<byte>>)
    requires Readable(disk) && |dir| == REACH && ShortNames(names) && 1 < |es| <= |names| && |es[0]| == ENTRY
    requires ChainOf(disk, es[0]).Some? && EntriesOf(disk, Entered(disk, dir, es[0]), names[1..], es[1..])
    ensures FirstClusterOf(es[0]) <= 0xFFF8 && |names[1]| <= 32 ==>
      InCluster(disk, FirstClusterOf(es[0]), names[1], es[1])
  {
    assert es[1..][0] == es[1] && names[1..][0] == names[1];
    hide Readable, ChainOf, Entered, Lookup, InCluster, FirstClusterOf;
    FoundAfter(disk, dir, es[0], names[1], es[1]);
  }

  lemma EntryFrom(disk: seq<byte>, at: Start, names: seq<seq<byte>>, es: seq<seq<byte>>, k: nat)
    requires |disk| >= 512 && at.Valid() && ShortNames(names) && 0 < k < |es| <= |names| && |es[k]| == 32
    requires es[k][11] == 0x10 <==> k < |es| - 1
    requires |es[k - 1]| == 32 && FirstClusterOf(es[k - 1]) <= 0xFFF8 && |names[k]| <= 32 ==>
      InCluster(disk, FirstClusterOf(es[k - 1]), names[k], es[k])
    ensures EntryIs(disk, at, names, es, k)
  {
    hide InCluster, FirstClusterOf, InRoot;
  }

  // ---- the code ----

  /** _fat_get_filehandle_rootdir; low are the bytes at address 0, buffer is what malloc returns. */
  method RootDirectory(disk: seq<byte>, low: seq<byte>, name: seq<byte>, buffer: array<byte>)
    returns (status: seq<byte>)
    requires Readable(disk) && |low| == ENTRY && |name| < NAME_MAX && buffer.Length == REACH
    modifies buffer
    ensures status == RootEntry(disk, low, old(buffer[..]), name)
    ensures InRoot(disk, low, old(buffer[..]), name, status)
  {
    RootEntryIs(disk, low, buffer[..], name);
    hide InRoot;
    var b := ParseBpb(disk);
    VRead(disk, b.RootLba(), 1, buffer);
    var found := FindEntry(name, buffer[..]);
    status := match found case None => low case Some(offset) => buffer[offset..offset + ENTRY];
  }

  /** The directory's contents go to the buffer. */
  method ReadDirectory(disk: seq<byte>, flag: nat, e: seq<byte>, buffer: array<byte>)
    requires Readable(disk) && |e| == ENTRY && ChainOf(disk, e).Some? && buffer.Length == REACH
    requires flag == 1 || flag == 2
    modifies buffer
    ensures buffer[..] == Entered(disk, old(buffer[..]), e)
  {
    ghost var chain := ChainOf(disk, e).value;
    ReadBound(disk, ParseBpb(disk), chain, SECTOR);
    hide ReadBytes, ChainOf, IsChain, AllOnDisk, ParseBpb, StartingCluster;
    var status := ReadWithHandle(disk, flag, StartingCluster(e), SECTOR, buffer, chain);
  }

  /** In the middle of a path: the buffer and the names left lead to the same outcome. */
  ghost predicate Walking(disk: seq<byte>, buf: seq<byte>, rest: seq<seq<byte>>, goal: Outcome) {
    && Readable(disk) && |buf| == REACH && ShortNames(rest)
    && Walkable(disk, buf, rest) && Walk(disk, buf, rest) == goal
  }

  /** What the next name leads to. */
  lemma WalkStep(disk: seq<byte>, buf: seq<byte>, rest: seq<seq<byte>>, goal: Outcome)
    requires Walking(disk, buf, rest, goal)
    ensures rest == [] ==> goal == NullName
    ensures rest != [] ==>
      && |rest[0]| < NAME_MAX && Readable(disk) && |buf| == REACH
      && match Lookup(buf, rest[0])
         case None => goal == NotFound
         case Some(i) =>
           var e := Slot(buf, i);
           if Attributes(e) != DIRECTORY then goal == Found(e)
           else ChainOf(disk, e).Some? && Walking(disk, Entered(disk, buf, e), rest[1..], goal)
  {
  }

  lemma WalkStart(disk: seq<byte>, at: Start, names: seq<seq<byte>>)
    requires Readable(disk) && at.Valid() && names != [] && ShortNames(names) && RootWalkable(disk, at, names)
    ensures |names[0]| < NAME_MAX
    ensures
      var e, goal := RootEntry(disk, at.low, at.root, names[0]), Resolve(disk, at, names);
      if Attributes(e) != DIRECTORY then goal == Found(e)
      else ChainOf(disk, e).Some? && Walking(disk, Entered(disk, at.dir, e), names[1..], goal)
  {
  }

  lemma SlotAt(buf: seq<byte>, i: nat)
    requires i < 16 && SECTOR <= |buf|
    ensures Slot(buf, i) == buf[ENTRY * i..ENTRY * i + ENTRY]
  {
  }

  lemma TokensStep(s: seq<byte>, ch: byte)
    ensures Tokens(Some(s), ch) == [NextToken(s, ch).0] + Tokens(NextToken(s, ch).1, ch)
    ensures Tokens(Some(s), ch)[1..] == Tokens(NextToken(s, ch).1, ch)
    ensures Tokens(None, ch) == []
  {
  }

  /** One turn of the loop in _fat_get_filehandle: the outcome if it is known, else the next directory is read. */
  method Descend(
    disk: seq<byte>, flag: nat, name: seq<byte>, buffer: array<byte>, ghost rest: seq<seq<byte>>, ghost goal: Outcome)
    returns (r: Option<Outcome>)
    requires Readable(disk) && (flag == 1 || flag == 2) && buffer.Length == REACH
    requires Walking(disk, buffer[..], rest, goal) && rest != [] && rest[0] == name
    modifies buffer
    ensures r.Some? ==> r.value == goal
    ensures r == None ==> Walking(disk, buffer[..], rest[1..], goal)
  {
    hide Readable, Walking, ChainOf, Entered, Attributes, Slot, Lookup;
    WalkStep(disk, buffer[..], rest, goal);
    var entry := FindEntry(name, buffer[..]);
    if entry == None {
      return Some(NotFound);
    }
    var e := buffer[entry.value..entry.value + ENTRY];
    SlotAt(buffer[..], entry.value / ENTRY);
    if Attributes(e) != DIRECTORY {
      return Some(Found(e));
    }
    ReadDirectory(disk, flag, e, buffer);
    return None;
  }

  /**
   * _fat_get_filehandle: a file node's name, tokenized and walked from the root directory.  root and buffer are
   * the two blocks that malloc returns, with whatever they hold.
   */
  method GetFilehandle(
    disk: seq<byte>, low: seq<byte>, flag: nat, name: seq<byte>, tok: StrTok, root: array<byte>, buffer: array<byte>)
    returns (r: Outcome)
    requires Readable(disk) && |low| == ENTRY && (flag == 1 || flag == 2) && |name| < NAME_MAX
    requires root.Length == REACH && buffer.Length == REACH && root != buffer
    requires PathWalkable(disk, Start(low, root[..], buffer[..]), name)
    modifies tok, root, buffer
    ensures r == PathOutcome(disk, Start(low, old(root[..]), old(buffer[..])), name)
    ensures r.Found? ==>
      exists es :: LeadsAlong(disk, Start(low, old(root[..]), old(buffer[..])), name, es) && es[|es| - 1] == r.entry
  {
    FoundAlong(disk, Start(low, root[..], buffer[..]), name);
    hide LeadsAlong, InRoot;
    TokensStep(name, SLASH);
    TokensAreShort(Some(name), SLASH);
    hide Readable, RootEntry, ChainOf, Entered, Attributes, Walking, Resolve, Tokens, NextToken, RootWalkable;
    hide ShortNames;
    ghost var names := Tokens(Some(name), SLASH);
    ghost var at := Start(low, root[..], buffer[..]);
    ghost var goal := Resolve(disk, at, names);
    WalkStart(disk, at, names);
    var token := tok.Next(Some(name), SLASH);
    var result := RootDirectory(disk, low, token.value, root);
    if Attributes(result) != DIRECTORY {
      return Found(result);
    }
    ReadDirectory(disk, flag, result, buffer);
    ghost var rest := names[1..];
    while token != None
      invariant token != None
      invariant rest == Tokens(tok.input, SLASH) && Walking(disk, buffer[..], rest, goal)
      decreases |rest|
    {
      if tok.input.Some? {
        TokensStep(tok.input.value, SLASH);
      } else {
        NoTokens(disk, buffer[..], goal, SLASH);
      }
      token := tok.Next(None, SLASH);
      if token == None {
        return NullName;
      }
      var outcome := Descend(disk, flag, token.value, buffer, rest, goal);
      if outcome.Some? {
        return outcome.value;
      }
      rest := rest[1..];
    }
  }

  lemma FoundAlong(disk: seq<byte>, at: Start, name: seq<byte>)
    requires Readable(disk) && at.Valid() && |name| < NAME_MAX && PathWalkable(disk, at, name)
    ensures PathOutcome(disk, at, name).Found? ==>
      exists es :: LeadsAlong(disk, at, name, es) && es[|es| - 1] == PathOutcome(disk, at, name).entry
  {
    hide PathEntries, PathOutcome, PathWalkable, Readable;
    if PathOutcome(disk, at, name).Found? {
      var es := OutcomeGivesEntries(disk, at, name);
      PathEntriesAre(disk, at, name, es);
    }
  }

  lemma NoTokens(disk: seq<byte>, buf: seq<byte>, goal: Outcome, ch: byte)
    ensures Tokens(None, ch) == []
    ensures Walking(disk, buf, [], goal) ==> goal == NullName
  {
  }

  // ---- reading a file by its path ----

  /** The entry found, if any, has a chain that ends, and ptr has room for what is stored of it. */
  predicate FileReadable(disk: seq<byte>, out: Outcome, size: nat, room: nat)
    requires Readable(disk)
  {
    out.Found? ==>
      && |out.entry| == ENTRY && ChainOf(disk, out.entry).Some?
      && |ReadBytes(disk, ParseBpb(disk), ChainOf(disk, out.entry).value, size)| <= room
  }

  /**
   * p begins with the first size bytes of the file that the path leads to, or with all of it: the clusters that
   * the table links together from the one named in bytes 26 and 27 of its entry.
   */
  ghost predicate Delivered(disk: seq<byte>, at: Start, name: seq<byte>, size: nat, p: seq<byte>)
    requires |disk| >= 512 && at.Valid() && |name| < 55
  {
    exists es: seq<seq<byte>>, chain: seq<nat> ::
      && LeadsAlong(disk, at, name, es) && |es[|es| - 1]| == 32
      && Linked(disk, FirstClusterOf(es[|es| - 1]), chain) && Holds(disk, chain, size, p)
  }

  /**
   * fat_file_read: the status, None where the path runs out in a directory.  A file that is found is delivered
   * from its first byte on, whatever offset is asked for.
   */
  method FileRead(
    disk: seq<byte>, low: seq<byte>, flag: nat, name: seq<byte>, offset: nat, size: nat, ptr: array<byte>, tok: StrTok,
    root: array<byte>, buffer: array<byte>)
    returns (status: Option<int>)
    requires Readable(disk) && |low| == ENTRY && (flag == 1 || flag == 2) && |name| < NAME_MAX
    requires root.Length == REACH && buffer.Length == REACH && root != buffer && ptr != root && ptr != buffer
    requires PathWalkable(disk, Start(low, root[..], buffer[..]), name)
    requires FileReadable(disk, PathOutcome(disk, Start(low, root[..], buffer[..]), name), size, ptr.Length)
    modifies tok, root, buffer, ptr
    ensures
      var out := PathOutcome(disk, Start(low, old(root[..]), old(buffer[..])), name);
      && FileReadable(disk, out, size, ptr.Length)
      && status == (match out case Found(_) => Some(0) case NotFound => Some(1) case NullName => None)
      && if out.Found? then Delivered(disk, Start(low, old(root[..]), old(buffer[..])), name, size, ptr[..])
         else ptr[..] == old(ptr[..])
  {
    assert |disk| >= SECTOR && ParseBpb(disk).sectorsPerCluster > 0;
    hide PathOutcome, PathWalkable, Delivered, Readable, ReadBytes, ChainOf, IsChain, AllOnDisk, ParseBpb;
    hide LeadsAlong, Linked, Holds;
    ghost var out := PathOutcome(disk, Start(low, root[..], buffer[..]), name);
    var r := GetFilehandle(disk, low, flag, name, tok, root, buffer);
    match r
    case NotFound => status := Some(1);
    case NullName => status := None;
    case Found(e) =>
      ghost var chain := ChainOf(disk, e).value;
      var s := ReadWithHandle(disk, flag, StartingCluster(e), size, ptr, chain);
      assert FirstClusterOf(e) == StartingCluster(e);
      status := Some(0);
  }
}
