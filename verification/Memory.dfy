// Flat byte memory: little-endian words in it, and the copy loop of the C library.

module Memory {
  import opened Bits

  function Half(m: seq<byte>, a: nat): (v: nat)
    requires a + 2 <= |m|
    ensures v < 0x1_0000
  {
    var lo: int, hi: int := m[a], m[a + 1];
    lo + 0x100 * hi
  }

  function Word(m: seq<byte>, a: nat): (v: word)
    requires a + 4 <= |m|
  {
    Half(m, a) + 0x1_0000 * Half(m, a + 2)
  }

  /** m and m' differ at most in the bytes lo <= k < hi. */
  ghost predicate SameOutside(m: seq<byte>, m': seq<byte>, lo: int, hi: int) {
    && |m| == |m'|
    && forall k | 0 <= k < |m| && !(lo <= k < hi) :: m[k] == m'[k]
  }

  /** m and m' agree on the bytes lo <= k < hi. */
  ghost predicate SameInside(m: seq<byte>, m': seq<byte>, lo: int, hi: int) {
    && |m| == |m'|
    && forall k | 0 <= k < |m| && lo <= k < hi :: m[k] == m'[k]
  }

  /**
   * memcpy is an ascending loop, so where destination and source overlap it can read bytes that it has
   * already written.  This is the memory after n steps of that loop.
   */
  function ForwardCopy<T>(m: seq<T>, dst: nat, src: nat, n: nat): (m': seq<T>)
    requires dst + n <= |m| && src + n <= |m|
    ensures |m'| == |m|
  {
    if n == 0 then m
    else
      var before := ForwardCopy(m, dst, src, n - 1);
      before[dst + n - 1 := before[src + n - 1]]
  }

  lemma {:induction false} ForwardCopyFrame<T>(m: seq<T>, dst: nat, src: nat, n: nat, k: nat)
    requires dst + n <= |m| && src + n <= |m| && k < |m|
    requires !(dst <= k < dst + n)
    ensures ForwardCopy(m, dst, src, n)[k] == m[k]
  {
    if n > 0 {
      ForwardCopyFrame(m, dst, src, n - 1, k);
    }
  }

  /** Every source element that is read before it is overwritten arrives intact. */
  lemma {:induction false} ForwardCopyDelivers<T>(m: seq<T>, dst: nat, src: nat, n: nat, k: nat)
    requires dst + n <= |m| && src + n <= |m| && k < n
    requires dst <= src || src + k < dst
    ensures ForwardCopy(m, dst, src, n)[dst + k] == m[src + k]
  {
    if k < n - 1 {
      ForwardCopyDelivers(m, dst, src, n - 1, k);
    } else {
      ForwardCopyFrame(m, dst, src, n - 1, src + k);
    }
  }

  /** What one step of the copy leaves at index j. */
  lemma ForwardCopyStep<T>(m: seq<T>, dst: nat, src: nat, n: nat, j: nat)
    requires 0 < n && dst + n <= |m| && src + n <= |m| && j < |m|
    ensures
      var before := ForwardCopy(m, dst, src, n - 1);
      ForwardCopy(m, dst, src, n)[j] == before[if j == dst + n - 1 then src + n - 1 else j]
  {
  }

  function Remainder(k: nat, d: nat): nat
    requires d > 0
  {
    k % d
  }

  lemma RemainderStep(k: nat, d: nat)
    requires d > 0
    ensures Remainder(k, d) == if k < d then k else Remainder(k - d, d)
  {
    if k >= d {
      var q := (k - d) / d;
      assert (q + 1) * d == q * d + d;
      DivModUnique(k, d, q + 1, (k - d) % d);
    }
  }

  lemma {:induction false} ForwardCopyRepeats<T>(m: seq<T>, dst: nat, src: nat, n: nat, k: nat)
    requires src < dst && dst + n <= |m| && k < n
    ensures src + Remainder(k, dst - src) < |m|
    ensures ForwardCopy(m, dst, src, n)[dst + k] == m[src + Remainder(k, dst - src)]
  {
    var d := dst - src;
    hide ForwardCopy, Remainder;
    ForwardCopyStep(m, dst, src, n, dst + k);
    RemainderStep(k, d);
    if k < n - 1 {
      ForwardCopyRepeats(m, dst, src, n - 1, k);
    } else if k < d {
      ForwardCopyFrame(m, dst, src, n - 1, src + k);
    } else {
      ForwardCopyRepeats(m, dst, src, n - 1, k - d);
      assert dst + (k - d) == src + k;
    }
  }

  /** With the destination above the source, the first dst - src elements are repeated periodically. */
  lemma ForwardCopySmears<T>(m: seq<T>, dst: nat, src: nat, n: nat, k: nat)
    requires src < dst && dst + n <= |m| && k < n
    ensures src + k % (dst - src) < |m|
    ensures ForwardCopy(m, dst, src, n)[dst + k] == m[src + k % (dst - src)]
  {
    ForwardCopyRepeats(m, dst, src, n, k);
    hide ForwardCopy;
  }

  method MemCpy<T>(a: array<T>, dst: nat, src: nat, size: nat)
    requires dst + size <= a.Length && src + size <= a.Length
    modifies a
    ensures a[..] == ForwardCopy(old(a[..]), dst, src, size)
  {
    for i := 0 to size
      invariant a[..] == ForwardCopy(old(a[..]), dst, src, i)
    {
      a[dst + i] := a[src + i];
    }
  }
}
