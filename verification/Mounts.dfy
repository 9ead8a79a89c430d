// The mount table: which file system serves a path, and what is left of the path for it.

module Mounts {
  import opened Bits
  import opened CStrings

  const SLASH: byte := 47

  /** The device is an index into the kernel's device list. */
  datatype MountInfo = MountInfo(path: seq<byte>, device: nat)

  /** q is the path itself, or a prefix of it that ends in a slash. */
  predicate Covers(q: seq<byte>, path: seq<byte>) {
    q == path || (q != [] && q <= path && q[|q| - 1] == SLASH)
  }

  /** i is the first mount whose path is the longest of those that cover path. */
  ghost predicate BestMount(ms: seq<MountInfo>, path: seq<byte>, i: nat) {
    && i < |ms| && Covers(ms[i].path, path)
    && (forall j | 0 <= j < |ms| && Covers(ms[j].path, path) :: |ms[j].path| <= |ms[i].path|)
    && (forall j | 0 <= j < i :: ms[j].path != ms[i].path)
  }

  ghost predicate Uncovered(ms: seq<MountInfo>, path: seq<byte>) {
    forall j | 0 <= j < |ms| :: !Covers(ms[j].path, path)
  }

  /** The best mount is unique. */
  lemma BestMountUnique(ms: seq<MountInfo>, path: seq<byte>, i: nat, j: nat)
    requires BestMount(ms, path, i) && BestMount(ms, path, j)
    ensures i == j
  {
    assert ms[i].path == path[..|ms[i].path|] == ms[j].path;
  }

  /** fopen's split: nothing is left of a path that is no longer than the mount's. */
  function RealPath(ms: seq<MountInfo>, path: seq<byte>, i: nat): seq<byte>
    requires i < |ms|
  {
    if |path| <= |ms[i].path| then [] else path[|ms[i].path|..]
  }

  /** What _find_relative_mount returns. */
  ghost predicate Resolved(ms: seq<MountInfo>, path: seq<byte>, i: nat) {
    if Uncovered(ms, path) then i == 0 else BestMount(ms, path, i)
  }

  /**
   * The mount's path and the rest that fopen hands to its file system make up the whole path, exactly if some
   * mount covers the path or the path of mount 0, which is the default, is a prefix of it all the same.
   */
  lemma SplitIsWhole(ms: seq<MountInfo>, path: seq<byte>, i: nat)
    requires ms != [] && Resolved(ms, path, i) && i < |ms| && |path| > |ms[i].path|
    ensures ms[i].path + RealPath(ms, path, i) == path <==> !Uncovered(ms, path) || ms[0].path <= path
  {
    if ms[i].path <= path {
      assert ms[i].path + path[|ms[i].path|..] == path;
    }
    if ms[i].path + RealPath(ms, path, i) == path {
      assert ms[i].path <= path;
    }
  }

  /** With the root mounted first, as the kernel does, every absolute path is covered. */
  lemma RootCovers(ms: seq<MountInfo>, path: seq<byte>)
    requires ms != [] && ms[0].path == [47] && path != [] && path[0] == 47
    ensures !Uncovered(ms, path)
  {
    assert Covers(ms[0].path, path);
  }

  /** The next shorter string to try is the longest shorter one that covers the path. */
  lemma CutIsNext(cur: seq<byte>, path: seq<byte>, q: seq<byte>)
    requires cur != [] && Covers(cur, path) && Cut(cur, SLASH) != cur
    requires Covers(q, path) && |q| < |cur| && q != []
    ensures |q| <= |Cut(cur, SLASH)| && Covers(Cut(cur, SLASH), path)
  {
    var r := Cut(cur, SLASH);
    CutShortens(cur, SLASH);
    assert cur == path[..|cur|];
    assert cur[|q| - 1] == q[|q| - 1] == SLASH;
  }

  /** No mount that covers the path is longer than cur. */
  ghost predicate LongestFrom(ms: seq<MountInfo>, path: seq<byte>, cur: seq<byte>) {
    && cur != [] && Covers(cur, path) && (path[0] == SLASH || !Uncovered(ms, path))
    && forall j | 0 <= j < |ms| && Covers(ms[j].path, path) :: |ms[j].path| <= |cur|
  }

  /** If no mount is cur itself, those that cover the path are shorter. */
  lemma ShorterThan(ms: seq<MountInfo>, path: seq<byte>, cur: seq<byte>)
    requires LongestFrom(ms, path, cur)
    requires forall j | 0 <= j < |ms| :: ms[j].path != cur
    ensures forall j | 0 <= j < |ms| && Covers(ms[j].path, path) :: 0 < |ms[j].path| < |cur|
  {
    forall j | 0 <= j < |ms| && Covers(ms[j].path, path)
      ensures 0 < |ms[j].path| < |cur|
    {
      assert ms[j].path == path[..|ms[j].path|] && cur == path[..|cur|];
    }
  }

  lemma NextCut(ms: seq<MountInfo>, path: seq<byte>, cur: seq<byte>)
    requires LongestFrom(ms, path, cur) && cur != [SLASH]
    requires forall j | 0 <= j < |ms| && Covers(ms[j].path, path) :: 0 < |ms[j].path| < |cur|
    ensures |Cut(cur, SLASH)| < |cur| && LongestFrom(ms, path, Cut(cur, SLASH))
  {
    var q := ShorterCover(ms, path, cur);
    assert cur[|q| - 1] == q[|q| - 1] == SLASH;
    CutShortens(cur, SLASH);
    forall j | 0 <= j < |ms| && Covers(ms[j].path, path)
      ensures |ms[j].path| <= |Cut(cur, SLASH)|
    {
      CutIsNext(cur, path, ms[j].path);
    }
    CutIsNext(cur, path, q);
  }

  /** A shorter string than cur that covers the path: its first slash, or a mount. */
  lemma ShorterCover(ms: seq<MountInfo>, path: seq<byte>, cur: seq<byte>) returns (q: seq<byte>)
    requires LongestFrom(ms, path, cur) && cur != [SLASH]
    requires forall j | 0 <= j < |ms| && Covers(ms[j].path, path) :: 0 < |ms[j].path| < |cur|
    ensures q != [] && |q| < |cur| && q <= cur && Covers(q, path) && q[|q| - 1] == SLASH
  {
    assert cur == path[..|cur|];
    if path[0] == SLASH {
      q := [SLASH];
      assert |cur| == 1 ==> cur == [SLASH];
    } else {
      var j: nat :| j < |ms| && Covers(ms[j].path, path);
      q := ms[j].path;
    }
  }

  // ---- when the search ends ----

  /** The string that the search tries in round k. */
  function Tried(path: seq<byte>, k: nat): (r: seq<byte>)
    requires path != []
    ensures r != []
  {
    if k == 0 then path
    else
      CutShortens(Tried(path, k - 1), SLASH);
      Cut(Tried(path, k - 1), SLASH)
  }

  /** The search ends at a mount's path and at the root. */
  ghost predicate StopsAt(ms: seq<MountInfo>, s: seq<byte>) {
    s == [SLASH] || exists j :: 0 <= j < |ms| && ms[j].path == s
  }

  lemma {:induction false} TriedCovers(path: seq<byte>, k: nat)
    requires path != []
    ensures Covers(Tried(path, k), path)
  {
    if k > 0 {
      var cur := Tried(path, k - 1);
      TriedCovers(path, k - 1);
      CutShortens(cur, SLASH);
      assert cur == path[..|cur|];
    }
  }

  lemma {:induction false} TriedStops(ms: seq<MountInfo>, path: seq<byte>, k: nat) returns (n: nat)
    requires path != [] && LongestFrom(ms, path, Tried(path, k))
    ensures StopsAt(ms, Tried(path, n))
    decreases |Tried(path, k)|
  {
    var cur := Tried(path, k);
    if StopsAt(ms, cur) {
      n := k;
    } else {
      ShorterThan(ms, path, cur);
      NextCut(ms, path, cur);
      n := TriedStops(ms, path, k + 1);
    }
  }

  ghost predicate Ends(ms: seq<MountInfo>, path: seq<byte>)
    requires path != []
  {
    exists k: nat :: StopsAt(ms, Tried(path, k))
  }

  /** The search ends exactly for paths that start with a slash or are covered by some mount. */
  lemma SearchEnds(ms: seq<MountInfo>, path: seq<byte>)
    requires path != []
    ensures Ends(ms, path) <==> path[0] == SLASH || !Uncovered(ms, path)
  {
    if path[0] == SLASH || !Uncovered(ms, path) {
      assert Tried(path, 0) == path;
      var n := TriedStops(ms, path, 0);
      assert Ends(ms, path);
    }
    if Ends(ms, path) {
      var k: nat :| StopsAt(ms, Tried(path, k));
      TriedCovers(path, k);
      assert Tried(path, k) == path[..|Tried(path, k)|];
    }
  }

  /** With only the root mounted, the search for a path without a leading slash goes on for ever. */
  lemma EndlessSearch(device: nat)
    ensures !Ends([MountInfo([SLASH], device)], [97])
  {
    SearchEnds([MountInfo([SLASH], device)], [97]);
  }

  class MountTable {
    var mounts: seq<MountInfo>

    ghost predicate Valid()
      reads this
    {
      forall i | 0 <= i < |mounts| :: NoNul(mounts[i].path)
    }

    constructor ()
      ensures Valid() && mounts == []
    {
      mounts := [];
    }

    /** The append in vmount_device. */
    method Mount(path: seq<byte>, device: nat)
      requires Valid() && NoNul(path)
      modifies this
      ensures Valid() && mounts == old(mounts) + [MountInfo(path, device)]
    {
      mounts := mounts + [MountInfo(path, device)];
    }

    /** One scan of the table for the string in the buffer. */
    method Scan(mountPath: array<byte>) returns (i: nat)
      requires Valid() && Terminated(mountPath[..])
      ensures i <= |mounts|
      ensures i < |mounts| ==> mounts[i].path == CStr(mountPath[..])
      ensures forall j | 0 <= j < i :: mounts[j].path != CStr(mountPath[..])
    {
      hide CStr, Terminated;
      i := 0;
      while i < |mounts|
        invariant i <= |mounts|
        invariant forall j | 0 <= j < i :: mounts[j].path != CStr(mountPath[..])
      {
        CStrOfString(mounts[i].path);
        var d := StrCmp(mountPath[..], mounts[i].path + [0]);
        if d == 0 {
          return;
        }
        i := i + 1;
      }
    }

    /** _find_relative_mount */
    method FindRelativeMount(path: seq<byte>) returns (i: nat)
      requires Valid() && NoNul(path) && path != [] && (path[0] == SLASH || !Uncovered(mounts, path))
      ensures Resolved(mounts, path, i)
    {
      hide LongestFrom, Resolved, Uncovered, Covers, CStr, Terminated, Cut;
      var mountPath := new byte[|path| + 1](k requires 0 <= k <= |path| => if k < |path| then path[k] else 0);
      assert mountPath[..] == path + [0];
      CStrOfString(path);
      LongestAtStart(mounts, path);
      while true
        invariant fresh(mountPath) && Valid() && mounts == old(mounts)
        invariant Terminated(mountPath[..]) && LongestFrom(mounts, path, CStr(mountPath[..]))
        decreases |CStr(mountPath[..])|
      {
        ghost var cur := CStr(mountPath[..]);
        LongestNotEmpty(mounts, path, cur);
        i := Scan(mountPath);
        if i < |mounts| {
          FoundIsBest(mounts, path, cur, i);
          return;
        }
        ShorterThan(mounts, path, cur);
        CStrOfString([SLASH]);
        var atRoot := StrCmp(mountPath[..], [SLASH] + [0]);
        if atRoot == 0 {
          NoneAtRoot(mounts, path, cur);
          break;
        }
        NextCut(mounts, path, cur);
        var stat := StrDelToC(mountPath, SLASH);
      }
      i := 0;
    }
  }

  lemma LongestAtStart(ms: seq<MountInfo>, path: seq<byte>)
    requires path != [] && (path[0] == SLASH || !Uncovered(ms, path))
    ensures LongestFrom(ms, path, path)
  {
  }

  lemma LongestNotEmpty(ms: seq<MountInfo>, path: seq<byte>, cur: seq<byte>)
    requires LongestFrom(ms, path, cur)
    ensures cur != []
  {
  }

  lemma FoundIsBest(ms: seq<MountInfo>, path: seq<byte>, cur: seq<byte>, i: nat)
    requires LongestFrom(ms, path, cur) && i < |ms| && ms[i].path == cur
    requires forall j | 0 <= j < i :: ms[j].path != cur
    ensures Resolved(ms, path, i)
  {
    hide Covers;
  }

  lemma NoneAtRoot(ms: seq<MountInfo>, path: seq<byte>, cur: seq<byte>)
    requires LongestFrom(ms, path, cur) && |cur| <= 1
    requires forall j | 0 <= j < |ms| && Covers(ms[j].path, path) :: 0 < |ms[j].path| < |cur|
    ensures Resolved(ms, path, 0)
  {
    hide Covers;
  }
}
