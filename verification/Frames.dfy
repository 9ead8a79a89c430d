// The physical frame allocator: a bitmap with one bit a frame, searched for the first run of clear bits.

module Frames {
  import opened Bits
  import opened Wrappers

  const BLOCK_SIZE: nat := 4096
  const NONE: word := 0xFFFF_FFFF  // (uint32_t)-1

  // ---- the bitmap as a value ----

  /** frame_test: frame i is marked as taken. */
  predicate Taken(ws: seq<word>, i: nat)
    requires i < 32 * |ws|
  {
    Bit(ws[i / 32], i % 32)
  }

  /** frames[i/32] |= 1 << (i%32) */
  function SetFrame(ws: seq<word>, i: nat): (r: seq<word>)
    requires i < 32 * |ws|
    ensures |r| == |ws|
  {
    ws[i / 32 := OrWord(ws[i / 32], FrameMask(i))]
  }

  /** frames[i/32] &= ~(1 << (i%32)) */
  function ClearFrame(ws: seq<word>, i: nat): (r: seq<word>)
    requires i < 32 * |ws|
    ensures |r| == |ws|
  {
    ws[i / 32 := AndWord(ws[i / 32], Not(FrameMask(i)))]
  }

  function FrameMask(i: nat): word {
    Pow2At32();
    Pow2Monotone(i % 32, 32);
    Pow2(i % 32)
  }

  lemma TakenAfterSet(ws: seq<word>, i: nat, j: nat)
    requires i < 32 * |ws| && j < 32 * |ws|
    ensures Taken(SetFrame(ws, i), j) <==> j == i || Taken(ws, j)
  {
    if i / 32 == j / 32 {
      BitOr(ws[i / 32], FrameMask(i), j % 32);
      BitPow2(i % 32, j % 32);
    }
  }

  lemma TakenAfterClear(ws: seq<word>, i: nat, j: nat)
    requires i < 32 * |ws| && j < 32 * |ws|
    ensures Taken(ClearFrame(ws, i), j) <==> j != i && Taken(ws, j)
  {
    if i / 32 == j / 32 {
      BitAnd(ws[i / 32], Not(FrameMask(i)), j % 32);
      BitNot(FrameMask(i), j % 32);
      BitPow2(i % 32, j % 32);
    }
  }

  /** Bitmaps that mark the same frames are equal word for word. */
  lemma SameBitmap(ws: seq<word>, ws': seq<word>)
    requires |ws| == |ws'| && forall j: nat | j < 32 * |ws| :: Taken(ws, j) <==> Taken(ws', j)
    ensures ws == ws'
  {
    forall q | 0 <= q < |ws|
      ensures ws[q] == ws'[q]
    {
      Pow2At32();
      forall k: nat | k < 32
        ensures Bit(ws[q], k) <==> Bit(ws'[q], k)
      {
        var j := 32 * q + k;
        assert j / 32 == q && j % 32 == k;
        assert Taken(ws, j) <==> Taken(ws', j);
      }
      SameBits(ws[q], ws'[q], 32);
    }
  }

  /** n calls of frame_set. */
  function SetRun(ws: seq<word>, i: nat, n: nat): (r: seq<word>)
    requires i + n <= 32 * |ws|
    ensures |r| == |ws|
  {
    if n == 0 then ws else SetFrame(SetRun(ws, i, n - 1), i + n - 1)
  }

  lemma {:induction false} TakenAfterSetRun(ws: seq<word>, i: nat, n: nat, j: nat)
    requires i + n <= 32 * |ws| && j < 32 * |ws|
    ensures Taken(SetRun(ws, i, n), j) <==> i <= j < i + n || Taken(ws, j)
  {
    hide Taken, SetFrame;
    if n > 0 {
      TakenAfterSetRun(ws, i, n - 1, j);
      TakenAfterSet(SetRun(ws, i, n - 1), i + n - 1, j);
    }
  }

  // ---- runs of free frames ----

  /** The n frames from s on lie below the limit and are free. */
  ghost predicate FreeRun(ws: seq<word>, limit: nat, s: nat, n: nat)
    requires limit <= 32 * |ws|
  {
    s + n <= limit && forall i: nat | s <= i < s + n :: !Taken(ws, i)
  }

  /** s is the lowest start of n free frames. */
  ghost predicate LowestRun(ws: seq<word>, limit: nat, s: nat, n: nat)
    requires limit <= 32 * |ws|
  {
    FreeRun(ws, limit, s, n) && forall t: nat | t < s :: !FreeRun(ws, limit, t, n)
  }

  /** The lowest start of n free frames from frame t on. */
  ghost function LowestFrom(ws: seq<word>, limit: nat, n: nat, t: nat): (r: Option<nat>)
    requires limit <= 32 * |ws| && n > 0
    ensures r.Some? ==>
      t <= r.value && FreeRun(ws, limit, r.value, n) && forall i: nat | t <= i < r.value :: !FreeRun(ws, limit, i, n)
    ensures r == None ==> forall i: nat | t <= i :: !FreeRun(ws, limit, i, n)
    decreases limit - t
  {
    if t >= limit then None
    else if FreeRun(ws, limit, t, n) then Some(t)
    else LowestFrom(ws, limit, n, t + 1)
  }

  ghost function LowestStart(ws: seq<word>, limit: nat, n: nat): (r: Option<nat>)
    requires limit <= 32 * |ws| && n > 0
    ensures r.Some? ==> LowestRun(ws, limit, r.value, n)
    ensures r == None ==> forall t: nat :: !FreeRun(ws, limit, t, n)
  {
    LowestFrom(ws, limit, n, 0)
  }

  lemma LowestStartIs(ws: seq<word>, limit: nat, n: nat, s: nat)
    requires limit <= 32 * |ws| && n > 0 && LowestRun(ws, limit, s, n)
    ensures LowestStart(ws, limit, n) == Some(s)
  {
    var r := LowestStart(ws, limit, n);
    assert r.Some?;
  }

  lemma LowestStartNone(ws: seq<word>, limit: nat, n: nat)
    requires limit <= 32 * |ws| && n > 0 && forall t: nat :: !FreeRun(ws, limit, t, n)
    ensures LowestStart(ws, limit, n) == None
  {
  }

  /** The number of frames frame_frist_free looks for: a request for none is treated as one for one. */
  function Wanted(n: nat): nat {
    if n == 0 then 1 else n
  }

  /**
   * What frame_frist_free(n) returns for a run that starts at s.  The assignment to bj is outside the if, so
   * the word index is that of the run's first frame and the bit index is that of its last.
   */
  function Reported(s: nat, n: nat): nat {
    s / 32 * 32 + (s + Wanted(n) - 1) % 32
  }

  /** The reported frame is the start of the run exactly for the run lengths 0, 1, 33, 65, ... */
  lemma ReportedIsStart(s: nat, n: nat)
    ensures Reported(s, n) == s <==> Wanted(n) % 32 == 1
    ensures Reported(s, n) / 32 == s / 32
  {
    var q, x, w := s / 32, s % 32, Wanted(n) - 1;
    assert s == 32 * q + x;
    ModShift(x + w, q);
    SameRemainder(x, w);
  }

  lemma ModShift(a: nat, q: nat)
    ensures (32 * q + a) % 32 == a % 32
  {
  }

  lemma SameRemainder(x: nat, w: nat)
    requires x < 32
    ensures (x + w) % 32 == x <==> w % 32 == 0
  {
    var k := w / 32;
    ModShift(x + w % 32, k);
  }

  /** For three frames the report is two higher, or wraps around in the word. */
  lemma ReportedThree(s: nat)
    ensures Reported(s, 3) == if s % 32 < 30 then s + 2 else s - 30
  {
    var q, x := s / 32, s % 32;
    ModShift(x + 2, q);
  }

  /** For two frames, the first run of an empty bitmap is reported one frame too high. */
  lemma ReportedNotStart(ws: seq<word>)
    requires |ws| > 0 && forall q | 0 <= q < |ws| :: ws[q] == 0
    ensures LowestRun(ws, 32 * |ws|, 0, 2) && Reported(0, 2) == 1
  {
    forall i: nat | i < 32 * |ws|
      ensures !Taken(ws, i)
    {
      BitZero(i % 32);
    }
  }

  /**
   * frame_alloc_ex(n) marks n frames from the reported one on.  They were all free exactly if the length is
   * one of those above, or the report is too high and the frames behind the run are free as well.
   */
  lemma AllocatedWasFree(ws: seq<word>, limit: nat, s: nat, n: nat)
    requires limit <= 32 * |ws| && LowestRun(ws, limit, s, Wanted(n)) && Reported(s, n) + n <= 32 * |ws|
    ensures FreeRun(ws, 32 * |ws|, Reported(s, n), n) <==>
      || n == 0 || n % 32 == 1
      || (Reported(s, n) > s && forall i: nat | s + n <= i < Reported(s, n) + n :: !Taken(ws, i))
  {
    ReportedIsStart(s, n);
    var r := Reported(s, n);
    assert r <= s + Wanted(n) - 1;
    hide Reported, Taken;
    assert r < s && n > 0 ==> (FreeRun(ws, 32 * |ws|, r, n) <==> FreeRun(ws, limit, r, n));
    if n > 0 && r >= s {
      assert FreeRun(ws, 32 * |ws|, s, n);
      ShiftedRun(ws, 32 * |ws|, s, r, n);
    }
  }

  /** A window moved up within reach is free exactly if the frames it has moved onto are. */
  lemma ShiftedRun(ws: seq<word>, limit: nat, s: nat, r: nat, n: nat)
    requires r + n <= limit <= 32 * |ws| && s <= r <= s + n && FreeRun(ws, limit, s, n)
    ensures FreeRun(ws, limit, r, n) <==> forall i: nat | s + n <= i < r + n :: !Taken(ws, i)
  {
    hide Taken;
    if forall i: nat | s + n <= i < r + n :: !Taken(ws, i) {
      forall i: nat | r <= i < r + n
        ensures !Taken(ws, i)
      {
      }
    }
  }

  /**
   * With frames 0 and 1 free and frame 2 taken, a request for two frames is given frames 1 and 2, the second
   * of which is in use; freeing the pair all the same restores the bitmap.
   */
  lemma HandedOutTwice(ws: seq<word>, limit: nat)
    requires 2 <= limit <= 32 * |ws| && |ws| > 0
    requires !Taken(ws, 0) && !Taken(ws, 1) && Taken(ws, 2)
    ensures LowestRun(ws, limit, 0, Wanted(2)) && Reported(0, 2) == 1
    ensures !FreeRun(ws, 32 * |ws|, 1, 2)
    ensures FreedWords(SetRun(ws, 1, 2), 1, 2) == ws
  {
    hide Taken, SetRun, FreedWords;
    assert 1 <= 2 < 1 + 2;
    FreeUndoesAlloc(ws, 1, 2);
  }

  /** The bitmap as a set of frame numbers. */
  ghost function TakenSet(ws: seq<word>, limit: nat): set<nat>
    requires limit <= 32 * |ws|
  {
    set i: nat | i < limit && Taken(ws, i)
  }

  lemma TakenSetAfterSet(ws: seq<word>, limit: nat, s: nat)
    requires limit <= 32 * |ws| && LowestRun(ws, limit, s, 1)
    ensures
      var a, a' := TakenSet(ws, limit), TakenSet(SetRun(ws, s, 1), limit);
      && s < limit && s !in a && (forall i: nat | i < s :: i in a)
      && a' == a + {s} && |a'| == |a| + 1 <= limit
  {
    LowestIsMinimum(ws, limit, s);
    forall j: nat | j < limit
      ensures Taken(SetRun(ws, s, 1), j) <==> j == s || Taken(ws, j)
    {
      TakenAfterSetRun(ws, s, 1, j);
    }
    assert TakenSet(SetRun(ws, s, 1), limit) == TakenSet(ws, limit) + {s};
    BoundedSet(TakenSet(SetRun(ws, s, 1), limit), limit);
  }

  /** The frames that frame_alloc_ex(n) would mark lie in the bitmap. */
  ghost predicate RoomFor(ws: seq<word>, limit: nat, n: nat)
    requires limit <= 32 * |ws|
  {
    forall t: nat | LowestRun(ws, limit, t, Wanted(n)) :: Reported(t, n) + n <= 32 * |ws|
  }

  /**
   * What frame_alloc_ex(n) does to the bitmap: nothing, if there is no run of n free frames; otherwise it
   * marks n frames from the one reported for the lowest run, s, and returns that frame's address.
   */
  ghost predicate MarksRun(ws: seq<word>, ws': seq<word>, limit: nat, n: nat, r: Option<word>, s: nat)
    requires limit <= 32 * |ws|
  {
    if r == None then (forall t: nat :: !FreeRun(ws, limit, t, Wanted(n))) && ws' == ws
    else
      && LowestRun(ws, limit, s, Wanted(n)) && Reported(s, n) + n <= 32 * |ws|
      && r.value == Reported(s, n) * BLOCK_SIZE && r.value / BLOCK_SIZE == Reported(s, n)
      && ws' == SetRun(ws, Reported(s, n), n)
  }

  lemma RoomAt(ws: seq<word>, limit: nat, n: nat, s: nat)
    requires limit <= 32 * |ws| && RoomFor(ws, limit, n) && LowestRun(ws, limit, s, Wanted(n))
    ensures Reported(s, n) + n <= 32 * |ws|
  {
  }

  lemma RoomForOne(ws: seq<word>, limit: nat)
    requires limit <= 32 * |ws|
    ensures RoomFor(ws, limit, 1)
  {
    forall t: nat | LowestRun(ws, limit, t, Wanted(1))
      ensures Reported(t, 1) + 1 <= 32 * |ws|
    {
      ReportedIsStart(t, 1);
    }
  }

  /** For one frame the marked frame is the lowest free one. */
  lemma MarksOne(ws: seq<word>, ws': seq<word>, limit: nat, r: Option<word>, s: nat)
    requires limit <= 32 * |ws| && |ws'| == |ws| && MarksRun(ws, ws', limit, 1, r, s)
    ensures
      var a, a' := TakenSet(ws, limit), TakenSet(ws', limit);
      if r == None then (forall i: nat | i < limit :: i in a) && a' == a
      else
        var f := r.value / BLOCK_SIZE;
        && r.value == f * BLOCK_SIZE && f < limit
        && f !in a && (forall i: nat | i < f :: i in a)
        && a' == a + {f} && |a'| == |a| + 1 <= limit
  {
    assert Wanted(1) == 1;
    if r == None {
      NoFreeFrame(ws, limit);
    } else {
      ReportedIsStart(s, 1);
      TakenSetAfterSet(ws, limit, s);
    }
  }

  /** The same, bit by bit. */
  lemma MarksOneBit(ws: seq<word>, ws': seq<word>, limit: nat, r: Option<word>, s: nat)
    requires limit <= 32 * |ws| && |ws'| == |ws| && MarksRun(ws, ws', limit, 1, r, s)
    ensures r == None <==> forall i: nat | i < limit :: Taken(ws, i)
    ensures forall j: nat | j < 32 * |ws| :: Taken(ws', j) <==> Taken(ws, j) || (r.Some? && j == r.value / BLOCK_SIZE)
  {
    assert Wanted(1) == 1;
    if r == None {
      forall i: nat | i < limit
        ensures Taken(ws, i)
      {
        assert !FreeRun(ws, limit, i, 1);
      }
    } else {
      ReportedIsStart(s, 1);
      LowestIsMinimum(ws, limit, s);
      assert s < limit && !Taken(ws, s);
      forall j: nat | j < 32 * |ws|
        ensures Taken(ws', j) <==> Taken(ws, j) || j == r.value / BLOCK_SIZE
      {
        TakenAfterSetRun(ws, s, 1, j);
      }
    }
    hide Taken, SetRun;
  }

  function Interval(i: nat, n: nat): (r: set<nat>)
    ensures |r| == n
    ensures forall j :: j in r <==> i <= j < i + n
  {
    if n == 0 then {} else Interval(i, n - 1) + {i + n - 1}
  }

  /** Adding n to alloced_frames is right exactly if the n marked frames were free and are all counted. */
  lemma CountAfterSetRun(ws: seq<word>, limit: nat, i: nat, n: nat)
    requires limit <= 32 * |ws| && i + n <= 32 * |ws|
    ensures
      var a, a' := TakenSet(ws, limit), TakenSet(SetRun(ws, i, n), limit);
      && |a| <= |a'| <= limit
      && (|a'| == |a| + n <==> n == 0 || FreeRun(ws, limit, i, n))
  {
    var a, a', b := TakenSet(ws, limit), TakenSet(SetRun(ws, i, n), limit), Interval(i, n);
    NewlyTaken(ws, limit, i, n);
    NewlyTakenAll(ws, limit, i, n);
    BoundedSet(a', limit);
    hide *;
    assert a' == a + (a' - a);
    Subset(a' - a, b);
  }

  lemma NewlyTakenAll(ws: seq<word>, limit: nat, i: nat, n: nat)
    requires limit <= 32 * |ws| && i + n <= 32 * |ws|
    ensures TakenSet(SetRun(ws, i, n), limit) - TakenSet(ws, limit) == Interval(i, n) <==>
      n == 0 || FreeRun(ws, limit, i, n)
  {
    var c := TakenSet(SetRun(ws, i, n), limit) - TakenSet(ws, limit);
    NewlyTaken(ws, limit, i, n);
    hide Taken, SetRun, TakenSet;
    if c == Interval(i, n) && n > 0 {
      assert i + n - 1 in c;
      forall j: nat | i <= j < i + n
        ensures !Taken(ws, j)
      {
        assert j in c;
      }
    }
    if FreeRun(ws, limit, i, n) {
      assert forall j | j in Interval(i, n) :: j in c;
    }
  }

  /** The frames that a run adds to the set: those of the interval that are below the limit and were free. */
  lemma NewlyTaken(ws: seq<word>, limit: nat, i: nat, n: nat)
    requires limit <= 32 * |ws| && i + n <= 32 * |ws|
    ensures TakenSet(ws, limit) <= TakenSet(SetRun(ws, i, n), limit)
    ensures forall j: nat | j < 32 * |ws| ::
      j in TakenSet(SetRun(ws, i, n), limit) - TakenSet(ws, limit) <==> i <= j < i + n && j < limit && !Taken(ws, j)
    ensures TakenSet(SetRun(ws, i, n), limit) - TakenSet(ws, limit) <= Interval(i, n)
  {
    forall j: nat | j < 32 * |ws|
      ensures Taken(SetRun(ws, i, n), j) <==> i <= j < i + n || Taken(ws, j)
    {
      TakenAfterSetRun(ws, i, n, j);
    }
    hide Taken, SetRun;
  }

  lemma Subset(c: set<nat>, b: set<nat>)
    requires c <= b
    ensures |c| <= |b| && (|c| == |b| ==> c == b)
  {
    assert b == c + (b - c);
  }

  /** Adding and subtracting below 2^32 does not reach another value by wrapping around. */
  lemma WrappedCount(c: nat, n: word, d: nat)
    requires c < 0x1_0000_0000 && d < 0x1_0000_0000
    ensures d >= c ==> ((c + n) % 0x1_0000_0000 == d <==> d == c + n)
    ensures d <= c ==> ((c - n) % 0x1_0000_0000 == d <==> d == c - n)
  {
  }

  lemma TakenSetAfterClear(ws: seq<word>, limit: nat, f: nat)
    requires limit <= 32 * |ws| && f < 32 * |ws|
    ensures TakenSet(ClearFrame(ws, f), limit) == TakenSet(ws, limit) - {f}
  {
    forall j: nat | j < limit
      ensures Taken(ClearFrame(ws, f), j) <==> j != f && Taken(ws, j)
    {
      TakenAfterClear(ws, f, j);
    }
  }

  /** Subtracting n from alloced_frames is right exactly for no frame, or for one counted frame that was taken. */
  lemma CountAfterFree(ws: seq<word>, limit: nat, i: nat, n: nat)
    requires limit <= 32 * |ws| && i < 32 * |ws|
    ensures
      var a, a' := TakenSet(ws, limit), TakenSet(FreedWords(ws, i, n), limit);
      && |a'| <= |a| <= limit
      && (|a'| == |a| - n <==> n == 0 || (n == 1 && i in a))
  {
    TakenSetAfterClear(ws, limit, i);
    BoundedSet(TakenSet(ws, limit), limit);
  }

  // ---- the allocator ----

  class FrameMap {
    const frames: array<word>
    var framesMax: nat
    var alloced: word  // alloced_frames

    /** Number of frames that the search covers. */
    function Limit(): nat
      reads this
    {
      framesMax / 32 * 32
    }

    ghost predicate Valid()
      reads this, frames
    {
      framesMax < 0x10_0000 && framesMax / 32 <= frames.Length
    }

    /** The frames marked as taken. */
    ghost function Allocated(): set<nat>
      requires Valid()
      reads this, frames
    {
      TakenSet(frames[..], Limit())
    }

    constructor (bitmap: array<word>)
      ensures Valid() && frames == bitmap && alloced == 0 && framesMax == 0
    {
      frames, framesMax, alloced := bitmap, 0, 0;
    }

    /** frame_init; memset clears framesMax / 8 bytes, so part of one more word if that is not a multiple of 4. */
    method Init(endAddr: word)
      requires (endAddr / BLOCK_SIZE + 31) / 32 <= frames.Length
      modifies this`framesMax, frames
      ensures Valid() && framesMax == endAddr / BLOCK_SIZE
      ensures forall q | 0 <= q < framesMax / 32 :: frames[q] == 0
      ensures forall q | framesMax / 32 < q < frames.Length :: frames[q] == old(frames[q])
      ensures Allocated() == {}
      ensures forall j: nat | j < 32 * frames.Length ::
        Taken(frames[..], j) <==> j >= endAddr / 4096 / 8 * 8 && Taken(old(frames[..]), j)
    {
      ghost var ws := frames[..];
      framesMax := endAddr / BLOCK_SIZE;
      var whole, bytes := framesMax / 8 / 4, framesMax / 8 % 4;
      EighthOfQuarter(framesMax);
      for q := 0 to whole
        modifies frames
        invariant forall k | 0 <= k < q :: frames[k] == 0
        invariant forall k | q <= k < frames.Length :: frames[k] == old(frames[k])
      {
        frames[q] := 0;
      }
      if bytes > 0 {
        frames[whole] := ClearLow(frames[whole], bytes);
      }
      ZeroIsFree(frames[..], Limit());
      forall j: nat | j < 32 * frames.Length
        ensures Taken(frames[..], j) <==> j >= framesMax / 8 * 8 && Taken(ws, j)
      {
        ClearedBits(ws, frames[..], framesMax, j);
      }
    }

    method Set(i: nat)
      requires i < 32 * frames.Length
      modifies frames
      ensures frames[..] == SetFrame(old(frames[..]), i)
    {
      frames[i / 32] := OrWord(frames[i / 32], FrameMask(i));
    }

    method Clear(i: nat)
      requires i < 32 * frames.Length
      modifies frames
      ensures frames[..] == ClearFrame(old(frames[..]), i)
    {
      frames[i / 32] := AndWord(frames[i / 32], Not(FrameMask(i)));
    }

    /** frame_frist_free */
    method FirstFree(n: nat) returns (r: word)
      requires Valid()
      ensures r ==
        match LowestStart(frames[..], Limit(), Wanted(n))
        case None => NONE
        case Some(s) => Reported(s, n)
      ensures LowestStart(frames[..], Limit(), Wanted(n)).Some? ==> r < Limit()
      ensures r == NONE <==> forall t: nat :: !FreeRun(frames[..], framesMax / 32 * 32, t, Wanted(n))
    {
      hide Scanned, FreeRun, LowestRun, LowestStart, Bit, And, Reported;
      ghost var ws, limit, want := frames[..], Limit(), Wanted(n);
      ScannedNone(ws, limit, want);
      var cnt, bi, bj := 0, 0, 0;
      for i := 0 to framesMax / 32
        invariant cnt <= 32 * i && cnt < want && Scanned(ws, limit, 32 * i, cnt, want)
        invariant cnt > 0 ==> bi == (32 * i - cnt) / 32
      {
        for j := 0 to 32
          invariant cnt <= 32 * i + j && cnt < want && Scanned(ws, limit, 32 * i + j, cnt, want)
          invariant cnt > 0 ==> bi == (32 * i + j - cnt) / 32
        {
          ghost var p := 32 * i + j;
          assert p / 32 == i && p % 32 == j;
          TestMask(frames[i], j);
          if AndWord(frames[i], Pow2Word(j)) == 0 {
            if cnt == 0 {
              bi := i;
            }
            bj := j;
            cnt := cnt + 1;
            ScannedFree(ws, limit, p, cnt - 1, want);
            if cnt >= n {
              LowestStartIs(ws, limit, want, p + 1 - cnt);
              ReportedHere(p, n, bi, limit);
              r := bi * 32 + bj;
              return;
            }
            continue;
          }
          ScannedTaken(ws, limit, p, cnt, want);
          cnt := 0;
        }
      }
      ScannedAll(ws, limit, cnt, want);
      LowestStartNone(ws, limit, want);
      r := NONE;
    }

    /**
     * frame_alloc_ex.  None stands for the panic when there is no run.  The requires says that the marked
     * frames lie in the bitmap, which the reported frame alone does not guarantee for n > 1.
     */
    method AllocEx(n: word) returns (r: Option<word>, ghost s: nat)
      requires Valid()
      requires RoomFor(frames[..], Limit(), n)
      modifies this`alloced, frames
      ensures Valid()
      ensures MarksRun(old(frames[..]), frames[..], Limit(), n, r, s)
      ensures r == None <==> forall t: nat :: !FreeRun(old(frames[..]), framesMax / 32 * 32, t, Wanted(n))
      ensures alloced == if r == None then old(alloced) else (old(alloced) + n) % 0x1_0000_0000
      ensures r.Some? && old(alloced) == |old(Allocated())| ==>
        (alloced == |Allocated()| <==> n == 0 || FreeRun(old(frames[..]), Limit(), r.value / BLOCK_SIZE, n))
    {
      hide RoomFor, LowestRun, LowestStart, FreeRun, SetFrame, Reported, TakenSet;
      ghost var ws := frames[..];
      var idx := FirstFree(n);
      if idx == NONE {
        return None, 0;
      }
      s := LowestStart(ws, Limit(), Wanted(n)).value;
      RoomAt(ws, Limit(), n, s);
      for i := 0 to n
        modifies frames
        invariant frames[..] == SetRun(ws, idx, i)
      {
        Set(idx + i);
      }
      CountAfterSetRun(ws, Limit(), idx, n);
      WrappedCount(alloced, n, |Allocated()|);
      alloced := (alloced + n) % 0x1_0000_0000;
      return Some(idx * BLOCK_SIZE), s;
    }

    /** frame_free_ex: the loop clears the same bit n times. */
    method FreeEx(addr: word, n: word)
      requires Valid() && addr / BLOCK_SIZE < 32 * frames.Length
      modifies this`alloced, frames
      ensures Valid()
      ensures frames[..] == FreedWords(old(frames[..]), addr / BLOCK_SIZE, n)
      ensures alloced == (old(alloced) - n) % 0x1_0000_0000
      ensures old(alloced) == |old(Allocated())| ==>
        (alloced == |Allocated()| <==> n == 0 || (n == 1 && addr / BLOCK_SIZE in old(Allocated())))
    {
      hide TakenSet;
      ghost var ws := frames[..];
      var index := addr / BLOCK_SIZE;
      for i := 0 to n
        modifies frames
        invariant frames[..] == FreedWords(ws, index, i)
      {
        Clear(index);
        ClearAgain(ws, index);
      }
      CountAfterFree(ws, Limit(), index, n);
      WrappedCount(alloced, n, |Allocated()|);
      alloced := (alloced - n) % 0x1_0000_0000;
    }

    /** frame_alloc(): the lowest free frame, and no other, becomes taken. */
    method Alloc() returns (r: Option<word>)
      requires Valid()
      modifies this`alloced, frames
      ensures Valid() && (old(alloced) == |old(Allocated())| ==> alloced == |Allocated()|)
      ensures
        if r == None then
          (forall i: nat | i < Limit() :: i in old(Allocated())) && Allocated() == old(Allocated())
        else
          var f := r.value / BLOCK_SIZE;
          && r.value == f * BLOCK_SIZE && f < Limit()
          && f !in old(Allocated()) && (forall i: nat | i < f :: i in old(Allocated()))
          && Allocated() == old(Allocated()) + {f}
      ensures r == None <==> forall i: nat | i < framesMax / 32 * 32 :: Taken(old(frames[..]), i)
      ensures forall j: nat | j < 32 * frames.Length ::
        Taken(frames[..], j) <==> Taken(old(frames[..]), j) || (r.Some? && j == r.value / 4096)
    {
      hide RoomFor, MarksRun, TakenSet;
      ghost var ws, s := frames[..], 0;
      RoomForOne(ws, Limit());
      r, s := AllocEx(1);
      MarksOne(ws, frames[..], Limit(), r, s);
      MarksOneBit(ws, frames[..], Limit(), r, s);
    }

    /** frame_free(addr): that frame, and no other, becomes free. */
    method Free(addr: word)
      requires Valid() && addr / BLOCK_SIZE < 32 * frames.Length
      modifies this`alloced, frames
      ensures Valid() && Allocated() == old(Allocated()) - {addr / BLOCK_SIZE}
      ensures old(alloced) == |old(Allocated())| ==>
        (alloced == |Allocated()| <==> addr / BLOCK_SIZE in old(Allocated()))
      ensures forall j: nat | j < 32 * frames.Length ::
        Taken(frames[..], j) <==> Taken(old(frames[..]), j) && j != addr / 4096
    {
      ghost var ws := frames[..];
      forall j: nat | j < 32 * frames.Length
        ensures Taken(ClearFrame(ws, addr / 4096), j) <==> Taken(ws, j) && j != addr / 4096
      {
        TakenAfterClear(ws, addr / 4096, j);
      }
      hide Taken;
      TakenSetAfterClear(frames[..], Limit(), addr / BLOCK_SIZE);
      FreeEx(addr, 1);
    }
  }

  lemma NoFreeFrame(ws: seq<word>, limit: nat)
    requires limit <= 32 * |ws| && forall t: nat :: !FreeRun(ws, limit, t, 1)
    ensures forall i: nat | i < limit :: i in TakenSet(ws, limit)
  {
    forall i: nat | i < limit
      ensures i in TakenSet(ws, limit)
    {
      assert !FreeRun(ws, limit, i, 1);
    }
  }

  lemma LowestIsMinimum(ws: seq<word>, limit: nat, s: nat)
    requires limit <= 32 * |ws| && LowestRun(ws, limit, s, 1)
    ensures s < limit && !Taken(ws, s) && forall i: nat | i < s :: Taken(ws, i)
  {
    forall i: nat | i < s
      ensures Taken(ws, i)
    {
      assert !FreeRun(ws, limit, i, 1);
    }
  }

  /** The bitmap after frame_free_ex of n frames from frame i on. */
  function FreedWords(ws: seq<word>, i: nat, n: nat): (r: seq<word>)
    requires i < 32 * |ws|
    ensures |r| == |ws|
  {
    if n == 0 then ws else ClearFrame(ws, i)
  }

  lemma ClearAgain(ws: seq<word>, i: nat)
    requires i < 32 * |ws|
    ensures ClearFrame(ClearFrame(ws, i), i) == ClearFrame(ws, i)
  {
    var once := ClearFrame(ws, i);
    forall j: nat | j < 32 * |ws|
      ensures Taken(ClearFrame(once, i), j) <==> Taken(once, j)
    {
      TakenAfterClear(ws, i, j);
      TakenAfterClear(once, i, j);
    }
    SameBitmap(ClearFrame(once, i), once);
  }

  /**
   * Freeing n frames from i on, just marked, gives the bitmap back bit for bit exactly if n is 0, or frame i
   * was free and the other frames of the run were taken before.
   */
  lemma FreeUndoesAlloc(ws: seq<word>, i: nat, n: nat)
    requires i < 32 * |ws| && i + n <= 32 * |ws|
    ensures FreedWords(SetRun(ws, i, n), i, n) == ws <==>
      n == 0 || (!Taken(ws, i) && forall j: nat | i < j < i + n :: Taken(ws, j))
  {
    if n > 0 {
      var freed := FreedWords(SetRun(ws, i, n), i, n);
      forall j: nat | j < 32 * |ws|
        ensures Taken(freed, j) <==> j != i && (i <= j < i + n || Taken(ws, j))
      {
        TakenAfterSetRun(ws, i, n, j);
        TakenAfterClear(SetRun(ws, i, n), i, j);
      }
      hide Taken, FreedWords, SetRun;
      if !Taken(ws, i) && forall j: nat | i < j < i + n :: Taken(ws, j) {
        SameBitmap(freed, ws);
      }
    }
  }

  /**
   * The same for the frame that frame_alloc_ex reports.  Where the marked frames were all free, so that the
   * allocation itself was in order, that means at most one frame; else it can happen for more.
   */
  lemma FreeUndoesReported(ws: seq<word>, limit: nat, s: nat, n: nat)
    requires limit <= 32 * |ws| && LowestRun(ws, limit, s, Wanted(n)) && Reported(s, n) + n <= 32 * |ws|
    ensures Reported(s, n) < 32 * |ws|
    ensures
      var i := Reported(s, n);
      var restored := FreedWords(SetRun(ws, i, n), i, n) == ws;
      && (restored <==> n == 0 || (!Taken(ws, i) && forall j: nat | i < j < i + n :: Taken(ws, j)))
      && (FreeRun(ws, 32 * |ws|, i, n) ==> (restored <==> n <= 1))
  {
    ReportedIsStart(s, n);
    var i := Reported(s, n);
    assert i < 32 * |ws|;
    hide Taken, SetRun, FreedWords, Reported;
    FreeUndoesAlloc(ws, i, n);
    assert n > 1 && FreeRun(ws, 32 * |ws|, i, n) ==> !Taken(ws, i + 1);
  }

  lemma EighthOfQuarter(x: nat)
    ensures x / 8 / 4 == x / 32
    ensures x / 8 % 4 > 0 ==> x / 32 < (x + 31) / 32
  {
  }

  /** The low bytes of w set to zero. */
  function ClearLow(w: word, bytes: nat): word
    requires bytes <= 3
  {
    if bytes == 1 then w - w % 0x100
    else if bytes == 2 then w - w % 0x1_0000
    else if bytes == 3 then w - w % 0x100_0000
    else w
  }

  /** The frames whose bits lie in the first framesMax / 8 bytes are free, the others as before. */
  lemma ClearedBits(ws: seq<word>, ws': seq<word>, framesMax: nat, j: nat)
    requires |ws'| == |ws| && j < 32 * |ws| && framesMax / 32 <= |ws|
    requires forall q: nat | q < framesMax / 32 :: ws'[q] == 0
    requires framesMax / 32 < |ws| ==> ws'[framesMax / 32] == ClearLow(ws[framesMax / 32], framesMax / 8 % 4)
    requires forall q: nat | framesMax / 32 < q < |ws| :: ws'[q] == ws[q]
    ensures Taken(ws', j) <==> j >= framesMax / 8 * 8 && Taken(ws, j)
  {
    var q, k, bytes := j / 32, j % 32, framesMax / 8 % 4;
    assert framesMax / 8 * 8 == 32 * (framesMax / 32) + 8 * bytes && j == 32 * q + k;
    if q < framesMax / 32 {
      BitZero(k);
    } else if q == framesMax / 32 {
      ClearLowBits(ws[q], bytes, k);
    }
    hide Bit, ClearLow;
  }

  lemma ClearLowBits(w: word, bytes: nat, k: nat)
    requires bytes <= 3
    ensures Bit(ClearLow(w, bytes), k) <==> k >= 8 * bytes && Bit(w, k)
  {
    var n := 8 * bytes;
    Pow2Bytes();
    hide Bit, Pow2;
    if bytes == 1 {
      BitCleared(w, 8, 0x100, k);
    } else if bytes == 2 {
      BitCleared(w, 16, 0x1_0000, k);
    } else if bytes == 3 {
      BitCleared(w, 24, 0x100_0000, k);
    }
  }

  lemma Pow2Bytes()
    ensures Pow2(8) == 0x100 && Pow2(16) == 0x1_0000 && Pow2(24) == 0x100_0000
  {
    assert Pow2(4) == 16;
    assert Pow2(12) == 0x1000;
    assert Pow2(20) == 0x10_0000;
  }

  lemma ZeroIsFree(ws: seq<word>, limit: nat)
    requires limit <= 32 * |ws| && limit % 32 == 0
    requires forall q | 0 <= q < limit / 32 :: ws[q] == 0
    ensures TakenSet(ws, limit) == {}
  {
    forall i: nat | i < limit
      ensures !Taken(ws, i)
    {
      BitZero(i % 32);
    }
  }

  function Pow2Word(j: nat): word
    requires j < 32
  {
    Pow2At32();
    Pow2Monotone(j, 32);
    Pow2(j)
  }

  /** The word index of the run's first frame and the bit index of its last, frame p. */
  lemma ReportedHere(p: nat, n: nat, bi: nat, limit: nat)
    requires Wanted(n) <= p + 1 && bi == (p + 1 - Wanted(n)) / 32 && p < limit
    ensures bi * 32 + p % 32 == Reported(p + 1 - Wanted(n), n) < limit
  {
  }

  /** frames[i] & (1 << j) is zero exactly if bit j is clear. */
  lemma TestMask(w: word, j: nat)
    requires j < 32
    ensures AndWord(w, Pow2Word(j)) == 0 <==> !Bit(w, j)
  {
    BitAnd(w, Pow2(j), j);
    BitPow2(j, j);
    if !Bit(w, j) {
      forall k: nat | k < 32
        ensures Bit(And(w, Pow2(j)), k) <==> Bit(0, k)
      {
        BitAnd(w, Pow2(j), k);
        BitPow2(j, k);
        BitZero(k);
      }
      Pow2At32();
      SameBits(And(w, Pow2(j)), 0, 32);
    } else {
      BitZero(j);
    }
  }

  // ---- the state of the search before frame p is tested ----

  /** The cnt frames below p are free, the one below them is not, and no run of the wanted length ends by p. */
  ghost predicate Scanned(ws: seq<word>, limit: nat, p: nat, cnt: nat, want: nat) {
    && p <= limit <= 32 * |ws| && cnt <= p && cnt < want
    && (forall i: nat | p - cnt <= i < p :: !Taken(ws, i))
    && (cnt < p ==> Taken(ws, p - cnt - 1))
    && (forall t: nat | t + want <= p :: !FreeRun(ws, limit, t, want))
  }

  lemma ScannedNone(ws: seq<word>, limit: nat, want: nat)
    requires limit <= 32 * |ws| && want > 0
    ensures Scanned(ws, limit, 0, 0, want)
  {
  }

  lemma ScannedFree(ws: seq<word>, limit: nat, p: nat, cnt: nat, want: nat)
    requires Scanned(ws, limit, p, cnt, want) && p < limit && !Taken(ws, p)
    ensures cnt + 1 < want ==> Scanned(ws, limit, p + 1, cnt + 1, want)
    ensures cnt + 1 == want ==> LowestRun(ws, limit, p + 1 - want, want)
  {
    forall t: nat | t + want <= p + 1 && t != p - cnt
      ensures !FreeRun(ws, limit, t, want)
    {
      if t + want == p + 1 {
        assert t <= p - cnt - 1 < t + want;
      }
    }
  }

  lemma ScannedTaken(ws: seq<word>, limit: nat, p: nat, cnt: nat, want: nat)
    requires Scanned(ws, limit, p, cnt, want) && p < limit && Taken(ws, p)
    ensures Scanned(ws, limit, p + 1, 0, want)
  {
    forall t: nat | t + want <= p + 1
      ensures !FreeRun(ws, limit, t, want)
    {
      if t + want == p + 1 {
        assert t <= p < t + want;
      }
    }
  }

  lemma ScannedAll(ws: seq<word>, limit: nat, cnt: nat, want: nat)
    requires Scanned(ws, limit, limit, cnt, want)
    ensures forall t: nat :: !FreeRun(ws, limit, t, want)
  {
  }
}
