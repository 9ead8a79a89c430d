// NUL-terminated strings in memory, and the string loops of the C library.

module CStrings {
  import opened Bits

  /** A string as the caller thinks of it: its characters without the terminator. */
  ghost predicate NoNul(s: seq<byte>) {
    forall i | 0 <= i < |s| :: s[i] != 0
  }

  ghost predicate Terminated(m: seq<byte>) {
    0 in m
  }

  /** The string that starts at the front of m: everything before the first NUL. */
  function CStr(m: seq<byte>): (s: seq<byte>)
    ensures |s| <= |m| && s == m[..|s|] && NoNul(s)
    ensures Terminated(m) ==> |s| < |m| && m[|s|] == 0
  {
    if m == [] || m[0] == 0 then [] else [m[0]] + CStr(m[1..])
  }

  lemma CStrIs(m: seq<byte>, n: nat)
    requires n < |m| && m[n] == 0 && NoNul(m[..n])
    ensures CStr(m) == m[..n] && Terminated(m)
  {
    var k := |CStr(m)|;
    assert forall i | 0 <= i < n :: m[i] == m[..n][i] != 0;
    assert forall i | 0 <= i < k :: m[i] == CStr(m)[i] != 0;
  }

  /** A string laid out with its terminator reads back as itself. */
  lemma CStrOfString(s: seq<byte>)
    requires NoNul(s)
    ensures CStr(s + [0]) == s && Terminated(s + [0])
  {
    assert (s + [0])[..|s|] == s;
    CStrIs(s + [0], |s|);
  }

  method StrLen(m: seq<byte>) returns (len: nat)
    requires Terminated(m)
    ensures len == |CStr(m)|
  {
    len := 0;
    while m[len] != 0
      invariant len <= |CStr(m)|
      decreases |m| - len
    {
      assert CStr(m)[..len] == m[..len];
      len := len + 1;
    }
  }

  /** The strings agree before i and differ at i, where the terminator counts as a character. */
  ghost predicate DifferAt(s: seq<byte>, t: seq<byte>, i: nat)
    requires Terminated(s) && Terminated(t)
  {
    i <= |CStr(s)| && i <= |CStr(t)| && CStr(s)[..i] == CStr(t)[..i] && s[i] != t[i]
  }

  /** *str1 - *str2 as a size_t */
  function Difference(x: byte, y: byte): (r: word)
    ensures r == 0 <==> x == y
  {
    var a: int, b: int := x, y;
    (a - b) % 0x1_0000_0000
  }

  /** The size_t r is the positive difference x - y, or 2^32 less the difference the other way round. */
  predicate IsWrappedDifference(r: word, x: int, y: int) {
    if x >= y then r == x - y else r + (y - x) == 0x1_0000_0000
  }

  /** 0 for equal strings, otherwise the difference of the first two bytes that differ, as a size_t. */
  method StrCmp(s: seq<byte>, t: seq<byte>) returns (res: word)
    requires Terminated(s) && Terminated(t)
    ensures res == 0 <==> CStr(s) == CStr(t)
    ensures res != 0 ==> exists i: nat :: DifferAt(s, t, i) && IsWrappedDifference(res, s[i], t[i])
  {
    hide CStr;
    var i := 0;
    res := Difference(s[0], t[0]);
    while res == 0 && t[i] != 0
      invariant i <= |CStr(s)| && i <= |CStr(t)|
      invariant CStr(s)[..i] == CStr(t)[..i]
      invariant res == Difference(s[i], t[i])
      decreases |t| - i
    {
      CompareAt(s, t, i);
      i := i + 1;
      res := Difference(s[i], t[i]);
    }
    CompareAt(s, t, i);
  }

  /** What the characters at i say about two strings that agree before i. */
  lemma CompareAt(s: seq<byte>, t: seq<byte>, i: nat)
    requires Terminated(s) && Terminated(t) && i <= |CStr(s)| && i <= |CStr(t)| && CStr(s)[..i] == CStr(t)[..i]
    ensures s[i] == t[i] && t[i] != 0 ==>
      i < |CStr(s)| && i < |CStr(t)| && CStr(s)[..i + 1] == CStr(t)[..i + 1]
    ensures s[i] == t[i] == 0 ==> CStr(s) == CStr(t)
    ensures s[i] != t[i] ==> DifferAt(s, t, i) && CStr(s) != CStr(t)
  {
    hide CStr;
    var a, b := CStr(s), CStr(t);
    assert i < |a| ==> a[i] == s[i] != 0;
    assert i < |b| ==> b[i] == t[i] != 0;
    assert i == |a| ==> s[i] == 0;
    assert i == |b| ==> t[i] == 0;
    if i < |a| && i < |b| {
      assert a[..i + 1] == a[..i] + [a[i]] && b[..i + 1] == b[..i] + [b[i]];
    }
  }

  // ---- strdeltoc ----

  /** The last index below n at which p holds c, or n if there is none. */
  function LastBefore(p: seq<byte>, c: byte, n: nat): (k: nat)
    requires n <= |p|
    ensures k <= n && (k < n ==> p[k] == c && forall i | k < i < n :: p[i] != c)
    ensures k == n ==> forall i | 0 <= i < n :: p[i] != c
  {
    if n == 0 then 0
    else if p[n - 1] == c then n - 1
    else
      var k := LastBefore(p, c, n - 1);
      if k == n - 1 then n else k
  }

  /** p up to and including its last c that is not its last character; p itself if there is none. */
  function Cut(p: seq<byte>, c: byte): (r: seq<byte>)
    requires p != []
    ensures |r| <= |p| && r == p[..|r|]
  {
    var k := LastBefore(p, c, |p| - 1);
    if k == |p| - 1 then p else p[..k + 1]
  }

  /** Cutting shortens the string exactly if it has such a c; then nothing between the cut and the end is c. */
  lemma CutShortens(p: seq<byte>, c: byte)
    requires p != []
    ensures Cut(p, c) != p <==> exists i :: 0 <= i < |p| - 1 && p[i] == c
    ensures Cut(p, c) != p ==>
      var r := Cut(p, c); r != [] && |r| < |p| && r[|r| - 1] == c && forall i | |r| <= i < |p| - 1 :: p[i] != c
  {
  }

  method StrDelToC(path: array<byte>, c: byte) returns (stat: nat)
    requires Terminated(path[..]) && CStr(path[..]) != []
    modifies path
    ensures Terminated(path[..]) && CStr(path[..]) == Cut(old(CStr(path[..])), c)
    ensures stat == if CStr(path[..]) == old(CStr(path[..])) then 0 else old(|CStr(path[..])|) - |CStr(path[..])| - 1
  {
    hide Cut;
    ghost var p := CStr(path[..]);
    var i := StrLen(path[..]);
    var cnt := 0;
    i := i - 1;
    stat := 0;
    while i != 0
      invariant 0 <= i <= |p| - 1 && cnt == |p| - 1 - i
      invariant path[..] == old(path[..]) && stat == 0
      invariant forall j | i <= j < |p| - 1 :: p[j] != c
      decreases i
    {
      i := i - 1;
      if path[i] == c {
        CutAt(p, c, i);
        path[i + 1] := 0;
        assert path[..][..i + 1] == p[..i + 1];
        CStrIs(path[..], i + 1);
        stat := cnt;
        return;
      }
      cnt := cnt + 1;
    }
    CutNowhere(p, c);
  }

  lemma CutAt(p: seq<byte>, c: byte, i: nat)
    requires i + 1 < |p| && p[i] == c && forall j | i < j < |p| - 1 :: p[j] != c
    ensures Cut(p, c) == p[..i + 1]
  {
    assert LastBefore(p, c, |p| - 1) == i;
  }

  lemma CutNowhere(p: seq<byte>, c: byte)
    requires p != [] && forall j | 0 <= j < |p| - 1 :: p[j] != c
    ensures Cut(p, c) == p
  {
    assert LastBefore(p, c, |p| - 1) == |p| - 1;
  }
}
