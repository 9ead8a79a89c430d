// The FAT16 reader: cluster chains, directory sectors and paths.  The format is that of the Microsoft FAT32
// File System Specification 1.03, sections "FAT Data Structure" and "FAT Directory Structure".

module Fat {
  import opened Bits
  import opened Memory
  import opened Wrappers

  const SECTOR: nat := 512
  const ENTRY: nat := 32
  const EOF: nat := 0xFFF8

  // ---- the volume ----

  /** The fields of the BIOS parameter block that the reader uses. */
  datatype Bpb = Bpb(
    bytesPerSector: nat, sectorsPerCluster: byte, reservedSectors: nat, numberOfFats: byte, numDirEntries: nat,
    sectorsPerFat: nat)
  {
    function RootLba(): nat {
      numberOfFats as nat * sectorsPerFat + reservedSectors
    }

    /** The root directory is taken to be 32 sectors long. */
    function DataLba(): nat {
      RootLba() + 32
    }

    function ClusterLba(cluster: nat): int {
      DataLba() + (cluster - 2) * sectorsPerCluster
    }

    /** Bytes in one cluster. */
    function ClusterSize(): nat {
      SECTOR * sectorsPerCluster as nat
    }
  }

  /** _parse_bpb: the block starts at byte 3 of sector 0. */
  function ParseBpb(disk: seq<byte>): Bpb
    requires |disk| >= SECTOR
  {
    Bpb(Half(disk, 11), disk[13], Half(disk, 14), disk[16], Half(disk, 17), Half(disk, 22))
  }

  /** The data area is where the specification puts it exactly if the root directory fills 32 sectors. */
  lemma DataLbaIsFirstDataSector(b: Bpb)
    requires b.bytesPerSector == SECTOR
    ensures
      b.DataLba() == b.reservedSectors + b.numberOfFats as nat * b.sectorsPerFat
                     + (b.numDirEntries * ENTRY + b.bytesPerSector - 1) / b.bytesPerSector
      <==> 496 < b.numDirEntries <= 512
  {
  }

  /** A device of 512-byte sectors whose parameter block and root directory can be read. */
  ghost predicate Readable(disk: seq<byte>) {
    && |disk| >= SECTOR
    && var b := ParseBpb(disk);
       b.bytesPerSector == SECTOR && b.sectorsPerCluster > 0 && SECTOR * (b.RootLba() + 1) <= |disk|
  }

  function Sectors(disk: seq<byte>, lba: nat, n: nat): (r: seq<byte>)
    requires SECTOR * (lba + n) <= |disk|
    ensures |r| == SECTOR * n
  {
    disk[SECTOR * lba..SECTOR * (lba + n)]
  }

  /** vread from the block device: n sectors go to the front of the buffer. */
  method VRead(disk: seq<byte>, lba: nat, n: nat, buffer: array<byte>)
    requires SECTOR * (lba + n) <= |disk| && SECTOR * n <= buffer.Length
    modifies buffer
    ensures buffer[..] == Sectors(disk, lba, n) + old(buffer[SECTOR * n..])
  {
    for i := 0 to SECTOR * n
      invariant buffer[..i] == disk[SECTOR * lba..SECTOR * lba + i]
      invariant buffer[i..] == old(buffer[i..])
    {
      buffer[i] := disk[SECTOR * lba + i];
    }
  }

  // ---- cluster chains ----

  /**
   * The cluster and its word in the first FAT lie on the device.  The reader does not test for the clusters 0
   * and 1, which the format reserves: it reads the sectors before the data area.
   */
  predicate OnDisk(disk: seq<byte>, b: Bpb, c: nat) {
    && 0 <= b.ClusterLba(c) && SECTOR * (b.ClusterLba(c) + b.sectorsPerCluster) <= |disk|
    && SECTOR * (b.reservedSectors + 2 * c / SECTOR + 1) <= |disk|
  }

  /** Word c of the first FAT, seen as one flat table. */
  function FatWord(disk: seq<byte>, b: Bpb, c: nat): (w: nat)
    requires OnDisk(disk, b, c)
    ensures w < 0x1_0000
  {
    Half(disk, SECTOR * b.reservedSectors + 2 * c)
  }

  function ClusterBytes(disk: seq<byte>, b: Bpb, c: nat): (r: seq<byte>)
    requires OnDisk(disk, b, c)
    ensures |r| == b.ClusterSize()
  {
    Sectors(disk, b.ClusterLba(c), b.sectorsPerCluster)
  }

  /** chain is the sequence of clusters the read loop visits from c on: all up to a word above 0xFFF8. */
  predicate IsChain(disk: seq<byte>, b: Bpb, c: nat, chain: seq<nat>)
    decreases |chain|
  {
    if c > EOF then chain == []
    else chain != [] && chain[0] == c && OnDisk(disk, b, c) && IsChain(disk, b, FatWord(disk, b, c), chain[1..])
  }

  /** The chain as the specification defines it: it ends before the first word from 0xFFF8 on. */
  predicate IsSpecifiedChain(disk: seq<byte>, b: Bpb, c: nat, chain: seq<nat>)
    decreases |chain|
  {
    if c >= EOF then chain == []
    else
      && chain != [] && chain[0] == c && 2 <= c && OnDisk(disk, b, c)
      && IsSpecifiedChain(disk, b, FatWord(disk, b, c), chain[1..])
  }

  /** The end-of-chain word of a specified chain. */
  function Terminator(disk: seq<byte>, b: Bpb, c: nat, chain: seq<nat>): nat
    requires IsSpecifiedChain(disk, b, c, chain)
    decreases |chain|
  {
    if c >= EOF then c else Terminator(disk, b, FatWord(disk, b, c), chain[1..])
  }

  /** The loop visits the specified chain exactly if its end-of-chain word is not 0xFFF8 itself. */
  lemma {:induction false} ChainIsSpecified(disk: seq<byte>, b: Bpb, c: nat, chain: seq<nat>)
    requires IsSpecifiedChain(disk, b, c, chain)
    ensures IsChain(disk, b, c, chain) <==> Terminator(disk, b, c, chain) != EOF
    decreases |chain|
  {
    if c < EOF {
      ChainIsSpecified(disk, b, FatWord(disk, b, c), chain[1..]);
    }
  }

  /** A disk of 35 sectors whose one file has one cluster, with the end mark 0xFFF8. */
  function EndMarkDisk(): (disk: seq<byte>)
    ensures |disk| == 35 * SECTOR
  {
    seq(35 * SECTOR, i requires 0 <= i < 35 * SECTOR =>
      if i == 12 then 2
      else if i == 13 || i == 14 || i == 16 || i == 22 then 1
      else if i == 516 then 0xF8
      else if i == 517 then 0xFF
      else 0)
  }

  /** On that disk the loop reads on at cluster 0xFFF8, which is not there. */
  lemma ReadsPastEndMark()
    ensures
      var disk := EndMarkDisk();
      var b := ParseBpb(disk);
      && Readable(disk) && IsSpecifiedChain(disk, b, 2, [2]) && Terminator(disk, b, 2, [2]) == EOF
      && !IsChain(disk, b, 2, [2]) && !OnDisk(disk, b, EOF)
  {
    var disk := EndMarkDisk();
    var b := ParseBpb(disk);
    assert b == Bpb(SECTOR, 1, 1, 1, 0, 1);
    assert FatWord(disk, b, 2) == EOF;
    assert [2][1..] == [];
  }

  lemma {:induction false} ChainUnique(disk: seq<byte>, b: Bpb, c: nat, p: seq<nat>, q: seq<nat>)
    requires IsChain(disk, b, c, p) && IsChain(disk, b, c, q)
    ensures p == q
    decreases |p|
  {
    if c <= EOF {
      ChainUnique(disk, b, FatWord(disk, b, c), p[1..], q[1..]);
    }
  }

  lemma {:induction false} ChainSuffix(disk: seq<byte>, b: Bpb, c: nat, chain: seq<nat>, i: nat)
    requires IsChain(disk, b, c, chain) && i < |chain|
    ensures chain[i] <= EOF && IsChain(disk, b, chain[i], chain[i..])
    decreases |chain|
  {
    if i > 0 {
      ChainSuffix(disk, b, FatWord(disk, b, c), chain[1..], i - 1);
      assert chain[1..][i - 1..] == chain[i..];
    }
  }

  /** A chain that ends visits no cluster twice. */
  lemma ChainIsAcyclic(disk: seq<byte>, b: Bpb, c: nat, chain: seq<nat>, i: nat, j: nat)
    requires IsChain(disk, b, c, chain) && i < j < |chain|
    ensures chain[i] != chain[j]
  {
    ChainSuffix(disk, b, c, chain, i);
    ChainSuffix(disk, b, c, chain, j);
    if chain[i] == chain[j] {
      ChainUnique(disk, b, chain[i], chain[i..], chain[j..]);
    }
  }

  /**
   * The walk along the table that gives up at a cluster met before or not on the device.  The clusters not yet
   * met bound it.
   */
  function Follow(disk: seq<byte>, b: Bpb, c: nat, seen: set<nat>): Option<seq<nat>>
    requires forall x | x in seen :: x <= EOF
    decreases EOF + 1 - |seen|
  {
    if c > EOF then Some([])
    else if c in seen || !OnDisk(disk, b, c) then None
    else
      BoundedSet(seen + {c}, EOF + 1);
      match Follow(disk, b, FatWord(disk, b, c), seen + {c})
      case None => None
      case Some(rest) => Some([c] + rest)
  }

  lemma {:induction false} FollowGivesChain(disk: seq<byte>, b: Bpb, c: nat, seen: set<nat>)
    requires forall x | x in seen :: x <= EOF
    requires Follow(disk, b, c, seen).Some?
    ensures IsChain(disk, b, c, Follow(disk, b, c, seen).value)
    decreases EOF + 1 - |seen|
  {
    if c <= EOF {
      BoundedSet(seen + {c}, EOF + 1);
      FollowGivesChain(disk, b, FatWord(disk, b, c), seen + {c});
      var rest := Follow(disk, b, FatWord(disk, b, c), seen + {c}).value;
      assert ([c] + rest)[1..] == rest;
    }
  }

  lemma {:induction false} ChainIsFollowed(disk: seq<byte>, b: Bpb, c: nat, chain: seq<nat>, seen: set<nat>)
    requires forall x | x in seen :: x <= EOF
    requires IsChain(disk, b, c, chain) && forall i | 0 <= i < |chain| :: chain[i] !in seen
    ensures Follow(disk, b, c, seen) == Some(chain)
    decreases |chain|
  {
    if c <= EOF {
      assert chain[0] == c;
      forall i | 0 <= i < |chain[1..]|
        ensures chain[1..][i] !in seen + {c}
      {
        assert chain[1..][i] == chain[i + 1];
        ChainIsAcyclic(disk, b, c, chain, 0, i + 1);
      }
      ChainIsFollowed(disk, b, FatWord(disk, b, c), chain[1..], seen + {c});
      assert [c] + chain[1..] == chain;
    }
  }

  ghost predicate Ends(disk: seq<byte>, b: Bpb, c: nat) {
    exists chain: seq<nat> :: IsChain(disk, b, c, chain)
  }

  /** No more clusters than there are cluster numbers up to 0xFFF8. */
  lemma {:induction false} FollowLength(disk: seq<byte>, b: Bpb, c: nat, seen: set<nat>)
    requires forall x | x in seen :: x <= EOF
    requires Follow(disk, b, c, seen).Some?
    ensures |Follow(disk, b, c, seen).value| + |seen| <= EOF + 1
    decreases EOF + 1 - |seen|
  {
    BoundedSet(seen, EOF + 1);
    if c <= EOF {
      BoundedSet(seen + {c}, EOF + 1);
      FollowLength(disk, b, FatWord(disk, b, c), seen + {c});
    }
  }

  lemma EndsWith(disk: seq<byte>, b: Bpb, c: nat, chain: seq<nat>)
    requires IsChain(disk, b, c, chain)
    ensures Ends(disk, b, c)
  {
  }

  /** The read loop ends exactly if the walk stays on the device and meets no cluster twice. */
  lemma LoopEnds(disk: seq<byte>, b: Bpb, c: nat)
    ensures Ends(disk, b, c) <==> Follow(disk, b, c, {}).Some?
  {
    if Follow(disk, b, c, {}).Some? {
      FollowGivesChain(disk, b, c, {});
      EndsWith(disk, b, c, Follow(disk, b, c, {}).value);
    }
    if Ends(disk, b, c) {
      var chain: seq<nat> :| IsChain(disk, b, c, chain);
      ChainIsFollowed(disk, b, c, chain, {});
    }
  }

  predicate AllOnDisk(disk: seq<byte>, b: Bpb, chain: seq<nat>) {
    forall i | 0 <= i < |chain| :: OnDisk(disk, b, chain[i])
  }

  lemma ChainOnDisk(disk: seq<byte>, b: Bpb, c: nat, chain: seq<nat>)
    requires IsChain(disk, b, c, chain)
    ensures AllOnDisk(disk, b, chain)
  {
    forall i | 0 <= i < |chain|
      ensures OnDisk(disk, b, chain[i])
    {
      ChainSuffix(disk, b, c, chain, i);
    }
  }

  /** The contents of the chain: its clusters one after the other. */
  function ChainBytes(disk: seq<byte>, b: Bpb, chain: seq<nat>): (r: seq<byte>)
    requires AllOnDisk(disk, b, chain)
    ensures |r| == |chain| * b.ClusterSize()
  {
    if chain == [] then []
    else
      var n := |chain| - 1;
      LengthStep(n, b.ClusterSize());
      ChainBytes(disk, b, chain[..n]) + ClusterBytes(disk, b, chain[n])
  }

  lemma LengthStep(n: nat, size: nat)
    ensures n * size + size == (n + 1) * size
  {
  }

  // ---- reading a chain ----

  /** How many bytes of a cluster are stored when x bytes have been: up to byte size itself, then one a cluster. */
  function Stored(x: nat, cluster: nat, size: nat): (n: nat)
    requires cluster > 0
    ensures n <= cluster
  {
    if x + cluster <= size then cluster else if x <= size then size + 1 - x else 1
  }

  /** The bytes the read loop stores for a chain. */
  function ReadBytes(disk: seq<byte>, b: Bpb, chain: seq<nat>, size: nat): seq<byte>
    requires b.sectorsPerCluster > 0 && AllOnDisk(disk, b, chain)
  {
    if chain == [] then []
    else
      var n := |chain| - 1;
      var before := ReadBytes(disk, b, chain[..n], size);
      before + ClusterBytes(disk, b, chain[n])[..Stored(|before|, b.ClusterSize(), size)]
  }

  /**
   * What is stored agrees with the chain's contents on the first size bytes; it is no longer than size exactly
   * if the contents are, and otherwise goes beyond it by one byte and one more for every later cluster.
   */
  lemma {:induction false} ReadIsPrefix(disk: seq<byte>, b: Bpb, chain: seq<nat>, size: nat)
    requires b.sectorsPerCluster > 0 && AllOnDisk(disk, b, chain)
    ensures
      var out, all := ReadBytes(disk, b, chain, size), ChainBytes(disk, b, chain);
      && (|all| <= size ==> out == all)
      && (|all| > size ==> |out| > size && out[..size] == all[..size])
  {
    if chain != [] {
      var n := |chain| - 1;
      ReadIsPrefix(disk, b, chain[..n], size);
      var x, y := ReadBytes(disk, b, chain[..n], size), ChainBytes(disk, b, chain[..n]);
      AppendPrefix(x, y, ClusterBytes(disk, b, chain[n]), size);
    }
  }

  lemma AppendPrefix(x: seq<byte>, y: seq<byte>, cluster: seq<byte>, size: nat)
    requires cluster != []
    requires |y| <= size ==> x == y
    requires |y| > size ==> |x| > size && x[..size] == y[..size]
    ensures
      var out, all := x + cluster[..Stored(|x|, |cluster|, size)], y + cluster;
      && (|all| <= size ==> out == all)
      && (|all| > size ==> |out| > size && out[..size] == all[..size])
  {
    var n := Stored(|x|, |cluster|, size);
    var out, all := x + cluster[..n], y + cluster;
    if |y| <= size {
      if |all| <= size {
        assert cluster[..n] == cluster;
      } else {
        assert out[..size] == y + cluster[..size - |y|] == all[..size];
      }
    } else {
      assert out[..size] == x[..size] && all[..size] == y[..size];
    }
  }

  /** The number of bytes stored beyond size: none, or one for the cluster that reaches it and each later one. */
  lemma {:induction false} ReadOverrun(disk: seq<byte>, b: Bpb, chain: seq<nat>, size: nat, k: nat)
    requires b.sectorsPerCluster > 0 && AllOnDisk(disk, b, chain)
    requires k * b.ClusterSize() <= size < (k + 1) * b.ClusterSize()
    ensures |ReadBytes(disk, b, chain, size)| ==
      if |chain| <= k then |chain| * b.ClusterSize() else size + (|chain| - k)
  {
    if chain != [] {
      var n := |chain| - 1;
      ReadOverrun(disk, b, chain[..n], size, k);
      var c := b.ClusterSize();
      LengthStep(n, c);
      if n < k {
        LengthStep(k - 1, c);
        MulLess(n + 1, k, c);
      }
    }
  }

  lemma MulLess(a: nat, b: nat, c: nat)
    requires a <= b
    ensures a * c <= b * c
  {
  }

  /** The inner loop: bytes of the buffer go to ptr until more than size have been stored. */
  method CopyCluster(buffer: array<byte>, count: nat, size: nat, ptr: array<byte>, start: nat) returns (index: nat)
    requires 0 < count <= buffer.Length && buffer != ptr
    requires start + Stored(start, count, size) <= ptr.Length
    modifies ptr
    ensures index == start + Stored(start, count, size)
    ensures ptr[..] == Copied(old(ptr[..]), buffer[..], start, index - start)
  {
    hide Copied;
    index := start;
    ghost var was, from := ptr[..], buffer[..];
    CopiedNone(was, from, start);
    var i := 0;
    while i < count
      invariant i <= count && index == start + i && i <= Stored(start, count, size)
      invariant i > 0 ==> i == count || index <= size
      invariant ptr[..] == Copied(was, from, start, i)
    {
      CopiedNext(was, from, start, i);
      ptr[index] := buffer[i];
      index := index + 1;
      if index > size {
        break;
      }
      i := i + 1;
    }
  }

  /** ptr after n bytes of the buffer have been stored from start on. */
  function Copied(was: seq<byte>, from: seq<byte>, start: nat, n: nat): (r: seq<byte>)
    requires start + n <= |was| && n <= |from|
    ensures |r| == |was|
  {
    was[..start] + from[..n] + was[start + n..]
  }

  lemma CopiedNone(was: seq<byte>, from: seq<byte>, start: nat)
    requires start <= |was|
    ensures Copied(was, from, start, 0) == was
  {
  }

  lemma CopiedNext(was: seq<byte>, from: seq<byte>, start: nat, n: nat)
    requires start + n < |was| && n < |from|
    ensures Copied(was, from, start, n)[start + n := from[n]] == Copied(was, from, start, n + 1)
  {
    assert from[..n + 1] == from[..n] + [from[n]];
    assert was[start + n..][1..] == was[start + n + 1..];
    var a, b, c := was[..start], from[..n], was[start + n..];
    assert (a + b + c)[start + n := from[n]] == a + b + c[0 := from[n]];
    assert c[0 := from[n]] == [from[n]] + c[1..];
  }

  lemma {:induction false} ReadGrows(disk: seq<byte>, b: Bpb, chain: seq<nat>, size: nat, k: nat)
    requires b.sectorsPerCluster > 0 && AllOnDisk(disk, b, chain) && k <= |chain|
    ensures |ReadBytes(disk, b, chain[..k], size)| <= |ReadBytes(disk, b, chain, size)|
  {
    if k < |chain| {
      var n := |chain| - 1;
      ReadGrows(disk, b, chain[..n], size, k);
      assert chain[..n][..k] == chain[..k];
    } else {
      assert chain[..k] == chain;
    }
  }

  /** The sector and offset arithmetic reads word c of the flat table. */
  lemma FatLookup(disk: seq<byte>, b: Bpb, c: nat)
    requires b.bytesPerSector == SECTOR && OnDisk(disk, b, c)
    ensures
      var sector, offset := b.reservedSectors + 2 * c / b.bytesPerSector, 2 * c % b.bytesPerSector;
      && SECTOR * (sector + 1) <= |disk| && offset + 2 <= SECTOR
      && Half(Sectors(disk, sector, 1), offset) == FatWord(disk, b, c)
  {
    var q, r := 2 * c / SECTOR, 2 * c % SECTOR;
    assert 2 * c == SECTOR * q + r;
    var s := Sectors(disk, b.reservedSectors + q, 1);
    assert s[r] == disk[SECTOR * b.reservedSectors + 2 * c];
    assert s[r + 1] == disk[SECTOR * b.reservedSectors + 2 * c + 1];
  }

  lemma HalfOfFront(s: seq<byte>, t: seq<byte>, a: nat)
    requires a + 2 <= |s| <= |t| && t[..|s|] == s
    ensures Half(t, a) == Half(s, a)
  {
    assert t[a] == t[..|s|][a] && t[a + 1] == t[..|s|][a + 1];
  }

  // ---- what is read, in the bytes of the device ----

  function Octet(m: seq<byte>, a: nat): nat
    requires a < |m|
  {
    m[a]
  }

  /** Where byte j of cluster c lies on the device, from the parameter block at the front of it. */
  function Position(disk: seq<byte>, c: nat, j: nat): int
    requires |disk| >= 512
  {
    512 * (Octet(disk, 16) * (Octet(disk, 22) + 0x100 * Octet(disk, 23)) + (Octet(disk, 14) + 0x100 * Octet(disk, 15))
           + 32 + (c - 2) * Octet(disk, 13)) + j
  }

  /** The word for cluster c in the table behind the reserved sectors, None if it is not on the device. */
  function Next(disk: seq<byte>, c: nat): Option<nat>
    requires |disk| >= 512
  {
    var a := 512 * (Octet(disk, 14) + 0x100 * Octet(disk, 15)) + 2 * c;
    if a + 1 < |disk| then Some(Octet(disk, a) + 0x100 * Octet(disk, a + 1)) else None
  }

  /** chain is what the words of the table link together from start on, up to one above 0xFFF8. */
  ghost predicate Linked(disk: seq<byte>, start: nat, chain: seq<nat>)
    requires |disk| >= 512
  {
    && (start > 0xFFF8 ==> chain == [])
    && (start <= 0xFFF8 ==> chain != [] && chain[0] == start)
    && forall i: nat | i < |chain| ::
         && chain[i] <= 0xFFF8 && Next(disk, chain[i]).Some?
         && if i + 1 < |chain| then Next(disk, chain[i]).value == chain[i + 1] else Next(disk, chain[i]).value > 0xFFF8
  }

  /** Bytes in a cluster. */
  function ClusterLength(disk: seq<byte>): nat
    requires |disk| >= 512
  {
    512 * Octet(disk, 13)
  }

  /** Where byte j of the i-th cluster of a chain belongs. */
  function Place(size: nat, i: nat, j: nat): nat {
    i * size + j
  }

  /** Byte k of p is byte j of the i-th cluster. */
  ghost predicate ByteStored(disk: seq<byte>, chain: seq<nat>, p: seq<byte>, i: nat, j: nat, k: nat)
    requires |disk| >= 512 && i < |chain|
  {
    k < |p| && 0 <= Position(disk, chain[i], j) < |disk| && p[k] == disk[Position(disk, chain[i], j)]
  }

  /** p begins with the clusters of the chain one behind the other, as far as size and the chain reach. */
  ghost predicate Holds(disk: seq<byte>, chain: seq<nat>, size: nat, p: seq<byte>)
    requires |disk| >= 512
  {
    forall i: nat, j: nat | i < |chain| && j < ClusterLength(disk) && Place(ClusterLength(disk), i, j) < size ::
      ByteStored(disk, chain, p, i, j, Place(ClusterLength(disk), i, j))
  }

  /** The loop's chain is linked by the table. */
  lemma ChainIsLinked(disk: seq<byte>, start: nat, chain: seq<nat>)
    requires |disk| >= 512 && IsChain(disk, ParseBpb(disk), start, chain)
    ensures Linked(disk, start, chain)
  {
    var b := ParseBpb(disk);
    forall i: nat | i < |chain|
      ensures chain[i] <= 0xFFF8 && Next(disk, chain[i]).Some?
      ensures
        if i + 1 < |chain| then Next(disk, chain[i]).value == chain[i + 1] else Next(disk, chain[i]).value > 0xFFF8
    {
      ChainSuffix(disk, b, start, chain, i);
      assert chain[i..][1..] == chain[i + 1..];
      NextIs(disk, chain[i]);
    }
  }

  lemma NextIs(disk: seq<byte>, c: nat)
    requires |disk| >= 512 && OnDisk(disk, ParseBpb(disk), c)
    ensures Next(disk, c) == Some(FatWord(disk, ParseBpb(disk), c))
  {
    assert 2 * c == 512 * (2 * c / 512) + 2 * c % 512 && 2 * c % 512 <= 510;
  }

  lemma ClusterAt(disk: seq<byte>, c: nat, j: nat)
    requires |disk| >= 512 && OnDisk(disk, ParseBpb(disk), c) && j < 512 * Octet(disk, 13)
    ensures ParseBpb(disk).ClusterSize() == 512 * Octet(disk, 13)
    ensures 0 <= Position(disk, c, j) < |disk|
    ensures ClusterBytes(disk, ParseBpb(disk), c)[j] == disk[Position(disk, c, j)]
  {
    var b := ParseBpb(disk);
    assert Position(disk, c, j) == 512 * b.ClusterLba(c) + j;
  }

  /** Byte j of cluster i of the chain's contents. */
  lemma {:induction false} ChainByteAt(disk: seq<byte>, b: Bpb, chain: seq<nat>, i: nat, j: nat)
    requires AllOnDisk(disk, b, chain) && i < |chain| && j < b.ClusterSize()
    ensures i * b.ClusterSize() + j < |ChainBytes(disk, b, chain)|
    ensures ChainBytes(disk, b, chain)[i * b.ClusterSize() + j] == ClusterBytes(disk, b, chain[i])[j]
  {
    var n, size := |chain| - 1, b.ClusterSize();
    hide ClusterBytes, OnDisk;
    MulLess(i + 1, n + 1, size);
    LengthStep(i, size);
    LengthStep(n, size);
    if i < n {
      ChainByteAt(disk, b, chain[..n], i, j);
    }
  }

  /** What is stored for the chain, byte by byte. */
  lemma StoredHolds(disk: seq<byte>, chain: seq<nat>, size: nat, p: seq<byte>, rest: seq<byte>)
    requires Readable(disk) && AllOnDisk(disk, ParseBpb(disk), chain)
    requires p == ReadBytes(disk, ParseBpb(disk), chain, size) + rest
    ensures Holds(disk, chain, size, p)
  {
    hide Place, ClusterLength, ByteStored, ReadBytes, Position, Octet, AllOnDisk;
    forall i: nat, j: nat | i < |chain| && j < ClusterLength(disk) && Place(ClusterLength(disk), i, j) < size
      ensures ByteStored(disk, chain, p, i, j, Place(ClusterLength(disk), i, j))
    {
      StoredByte(disk, chain, size, p, rest, i, j);
    }
  }

  lemma StoredByte(
    disk: seq<byte>, chain: seq<nat>, size: nat, p: seq<byte>, rest: seq<byte>, i: nat, j: nat)
    requires Readable(disk) && AllOnDisk(disk, ParseBpb(disk), chain)
    requires p == ReadBytes(disk, ParseBpb(disk), chain, size) + rest
    requires i < |chain| && j < ClusterLength(disk) && Place(ClusterLength(disk), i, j) < size
    ensures ByteStored(disk, chain, p, i, j, Place(ClusterLength(disk), i, j))
  {
    var b, k := ParseBpb(disk), Place(ClusterLength(disk), i, j);
    assert |disk| >= 512 && b.sectorsPerCluster > 0 && OnDisk(disk, b, chain[i]);
    hide Readable, AllOnDisk, OnDisk, ReadBytes, ChainBytes, ClusterBytes, Position, ParseBpb, Octet;
    var out, all := ReadBytes(disk, b, chain, size), ChainBytes(disk, b, chain);
    ReadIsPrefix(disk, b, chain, size);
    ClusterAt(disk, chain[i], j);
    ChainByteAt(disk, b, chain, i, j);
    StoredAt(out, all, size, k);
  }

  lemma StoredAt(out: seq<byte>, all: seq<byte>, size: nat, k: nat)
    requires |all| <= size ==> out == all
    requires |all| > size ==> |out| > size && out[..size] == all[..size]
    requires k < |all| && k < size
    ensures k < |out| && out[k] == all[k]
  {
    if |all| > size {
      assert out[..size][k] == all[..size][k];
    }
  }

  /** fat_file_read_with_handle; flag is that of the file node, start the starting cluster of the handle. */
  method ReadWithHandle(disk: seq<byte>, flag: nat, start: nat, size: nat, ptr: array<byte>, ghost chain: seq<nat>)
    returns (status: int)
    requires Readable(disk) && IsChain(disk, ParseBpb(disk), start, chain) && AllOnDisk(disk, ParseBpb(disk), chain)
    requires |ReadBytes(disk, ParseBpb(disk), chain, size)| <= ptr.Length
    modifies ptr
    ensures status == if flag == 1 || flag == 2 then 0 else 1
    ensures status != 0 ==> ptr[..] == old(ptr[..])
    ensures status == 0 ==>
      var out := ReadBytes(disk, ParseBpb(disk), chain, size);
      ptr[..] == out + old(ptr[..])[|out|..]
    ensures Linked(disk, start, chain) && (status == 0 ==> Holds(disk, chain, size, ptr[..]))
  {
    ghost var p := ptr[..];
    ChainIsLinked(disk, start, chain);
    if !(flag == 1 || flag == 2) {
      return 1;
    }
    ReadLoop(disk, ParseBpb(disk), start, size, ptr, chain);
    StoredHolds(disk, chain, size, ptr[..], p[|ReadBytes(disk, ParseBpb(disk), chain, size)|..]);
    return 0;
  }

  /** The loop over the clusters. */
  method ReadLoop(disk: seq<byte>, b: Bpb, start: nat, size: nat, ptr: array<byte>, ghost chain: seq<nat>)
    requires b.sectorsPerCluster > 0 && b.bytesPerSector == SECTOR
    requires AllOnDisk(disk, b, chain) && IsChain(disk, b, start, chain)
    requires |ReadBytes(disk, b, chain, size)| <= ptr.Length
    modifies ptr
    ensures var out := ReadBytes(disk, b, chain, size); ptr[..] == out + old(ptr[..])[|out|..]
  {
    hide *;
    var buffer := new byte[b.ClusterSize()];
    var current: nat, index: nat := start, 0;
    ghost var k: nat := 0;
    ReadStart(disk, b, current, chain, size, ptr[..]);
    while current <= EOF
      invariant k <= |chain| && ReadSoFar(disk, b, chain, k, current, size, old(ptr[..]), ptr[..], index)
      decreases |chain| - k
    {
      ghost var p0 := ptr[..];
      ReadMayStep(disk, b, chain, k, current, size, old(ptr[..]), p0, index);
      var index', next := ReadCluster(disk, b, current, size, ptr, index, buffer);
      ReadStep(disk, b, chain, k, current, size, old(ptr[..]), p0, ptr[..], index);
      index, current, k := index', next, k + 1;
    }
    ReadEnd(disk, b, chain, k, current, size, old(ptr[..]), ptr[..], index);
  }

  /** The state of the read loop before iteration k; full is what ptr held at first. */
  ghost predicate ReadSoFar(
    disk: seq<byte>, b: Bpb, chain: seq<nat>, k: nat, current: nat, size: nat, full: seq<byte>, p: seq<byte>,
    index: nat)
  {
    && b.sectorsPerCluster > 0 && AllOnDisk(disk, b, chain) && k <= |chain|
    && IsChain(disk, b, current, chain[k..])
    && |ReadBytes(disk, b, chain, size)| <= |full|
    && index == |ReadBytes(disk, b, chain[..k], size)| <= |full|
    && p == ReadBytes(disk, b, chain[..k], size) + full[index..]
  }

  /** One iteration of the read loop: a cluster to ptr, then its word from the table. */
  method ReadCluster(
    disk: seq<byte>, b: Bpb, cluster: nat, size: nat, ptr: array<byte>, start: nat, buffer: array<byte>)
    returns (index: nat, next: nat)
    requires b.bytesPerSector == SECTOR && b.sectorsPerCluster > 0 && OnDisk(disk, b, cluster)
    requires buffer.Length == b.ClusterSize() && buffer != ptr
    requires start + Stored(start, b.ClusterSize(), size) <= ptr.Length
    modifies ptr, buffer
    ensures index == start + Stored(start, b.ClusterSize(), size) && next == FatWord(disk, b, cluster)
    ensures ptr[..] == Copied(old(ptr[..]), ClusterBytes(disk, b, cluster), start, index - start)
  {
    hide Copied, FatWord, Sectors, Half;
    VRead(disk, b.ClusterLba(cluster), b.sectorsPerCluster, buffer);
    assert buffer[..] == ClusterBytes(disk, b, cluster);
    index := CopyCluster(buffer, b.ClusterSize(), size, ptr, start);
    var fatSector, offset := b.reservedSectors + 2 * cluster / b.bytesPerSector, 2 * cluster % b.bytesPerSector;
    FatLookup(disk, b, cluster);
    VRead(disk, fatSector, 1, buffer);
    HalfOfFront(Sectors(disk, fatSector, 1), buffer[..], offset);
    next := Half(buffer[..], offset);
  }

  lemma ReadStart(disk: seq<byte>, b: Bpb, start: nat, chain: seq<nat>, size: nat, full: seq<byte>)
    requires b.sectorsPerCluster > 0 && AllOnDisk(disk, b, chain) && IsChain(disk, b, start, chain)
    requires |ReadBytes(disk, b, chain, size)| <= |full|
    ensures ReadSoFar(disk, b, chain, 0, start, size, full, full, 0)
  {
    assert chain[0..] == chain;
  }

  lemma ChainStep(disk: seq<byte>, b: Bpb, current: nat, chain: seq<nat>, k: nat)
    requires k <= |chain| && current <= EOF && IsChain(disk, b, current, chain[k..])
    ensures k < |chain| && chain[k] == current && OnDisk(disk, b, current)
    ensures b.ClusterLba(current) >= 0 && SECTOR * (b.ClusterLba(current) + b.sectorsPerCluster) <= |disk|
    ensures IsChain(disk, b, FatWord(disk, b, current), chain[k + 1..])
  {
    assert chain[k..][1..] == chain[k + 1..];
  }

  /** What iteration k of the read loop adds to the bytes stored. */
  lemma ReadAdds(disk: seq<byte>, b: Bpb, chain: seq<nat>, k: nat, size: nat)
    requires b.sectorsPerCluster > 0 && AllOnDisk(disk, b, chain) && k < |chain|
    ensures
      var x, x' := ReadBytes(disk, b, chain[..k], size), ReadBytes(disk, b, chain[..k + 1], size);
      var n := Stored(|x|, b.ClusterSize(), size);
      && x' == x + ClusterBytes(disk, b, chain[k])[..n] && |x'| == |x| + n
      && |x'| <= |ReadBytes(disk, b, chain, size)|
  {
    assert chain[..k + 1][..k] == chain[..k];
    ReadGrows(disk, b, chain, size, k + 1);
  }

  lemma ReadMayStep(
    disk: seq<byte>, b: Bpb, chain: seq<nat>, k: nat, current: nat, size: nat, full: seq<byte>, p: seq<byte>,
    index: nat)
    requires ReadSoFar(disk, b, chain, k, current, size, full, p, index) && current <= EOF
    ensures k < |chain| && OnDisk(disk, b, current) && b.sectorsPerCluster > 0
    ensures index + Stored(index, b.ClusterSize(), size) <= |full| == |p|
  {
    ChainStep(disk, b, current, chain, k);
    ReadAdds(disk, b, chain, k, size);
  }

  lemma ReadStep(
    disk: seq<byte>, b: Bpb, chain: seq<nat>, k: nat, cluster: nat, size: nat, full: seq<byte>,
    p0: seq<byte>, p1: seq<byte>, start: nat)
    requires ReadSoFar(disk, b, chain, k, cluster, size, full, p0, start) && cluster <= EOF
    requires OnDisk(disk, b, cluster) && start + Stored(start, b.ClusterSize(), size) <= |p0|
    requires
      var n := Stored(start, b.ClusterSize(), size);
      p1 == Copied(p0, ClusterBytes(disk, b, cluster), start, n)
    ensures
      var n := Stored(start, b.ClusterSize(), size);
      ReadSoFar(disk, b, chain, k + 1, FatWord(disk, b, cluster), size, full, p1, start + n)
  {
    ChainStep(disk, b, cluster, chain, k);
    ReadAdds(disk, b, chain, k, size);
    var n := Stored(start, b.ClusterSize(), size);
    hide OnDisk, AllOnDisk, ReadBytes, ClusterBytes, Stored, IsChain, FatWord;
    Splice(ReadBytes(disk, b, chain[..k], size), full, p0, p1, ClusterBytes(disk, b, cluster)[..n]);
  }

  lemma Splice(x: seq<byte>, full: seq<byte>, p0: seq<byte>, p1: seq<byte>, add: seq<byte>)
    requires |x| + |add| <= |full| && p0 == x + full[|x|..]
    requires p1 == p0[..|x|] + add + p0[|x| + |add|..]
    ensures p1 == (x + add) + full[|x| + |add|..]
  {
  }

  lemma ReadEnd(
    disk: seq<byte>, b: Bpb, chain: seq<nat>, k: nat, current: nat, size: nat, full: seq<byte>, p: seq<byte>,
    index: nat)
    requires ReadSoFar(disk, b, chain, k, current, size, full, p, index) && current > EOF
    ensures var out := ReadBytes(disk, b, chain, size); |out| <= |full| && p == out + full[|out|..]
  {
    assert k == |chain| && chain[..k] == chain;
  }
}
