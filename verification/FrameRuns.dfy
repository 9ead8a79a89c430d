// Whole runs of single-frame allocations and frees.

module FrameRuns {
  import opened Bits
  import opened Frames
  import opened Wrappers

  /** Give(k) gives back the k-th frame held at the time, if there is one. */
  datatype FrameRequest = Take | Give(k: nat)

  function SetOf(held: seq<nat>): set<nat> {
    set f | f in held
  }

  ghost predicate Distinct(held: seq<nat>) {
    forall i: nat, j: nat | i < j < |held| :: held[i] != held[j]
  }

  /** The frames held are pairwise distinct, none was taken before the run, and no other has been taken since. */
  ghost predicate Holding(held: seq<nat>, before: set<nat>, now: set<nat>, limit: nat) {
    Distinct(held) && SetOf(held) !! before && now == before + SetOf(held) && forall f | f in held :: f < limit
  }

  lemma {:induction false} SetOfSize(held: seq<nat>)
    requires Distinct(held)
    ensures |SetOf(held)| == |held|
  {
    if held != [] {
      var n := |held| - 1;
      SetOfSize(held[..n]);
      assert held == held[..n] + [held[n]];
      assert SetOf(held) == SetOf(held[..n]) + {held[n]};
      assert held[n] !in held[..n];
    } else {
      assert SetOf(held) == {};
    }
  }

  lemma HoldMore(held: seq<nat>, before: set<nat>, now: set<nat>, limit: nat, f: nat)
    requires Holding(held, before, now, limit) && f !in now && f < limit
    ensures Holding(held + [f], before, now + {f}, limit)
  {
    assert SetOf(held + [f]) == SetOf(held) + {f};
  }

  lemma HoldLess(held: seq<nat>, before: set<nat>, now: set<nat>, limit: nat, k: nat)
    requires Holding(held, before, now, limit) && k < |held|
    ensures held[k] in now && Holding(held[..k] + held[k + 1..], before, now - {held[k]}, limit)
  {
    var rest := held[..k] + held[k + 1..];
    RestAt(held, k);
    assert held[k] in SetOf(held);
    forall f
      ensures f in rest <==> f in held && f != held[k]
    {
      RestMembers(held, k, f);
    }
    assert SetOf(rest) == SetOf(held) - {held[k]};
  }

  lemma RestAt(held: seq<nat>, k: nat)
    requires k < |held|
    ensures
      var rest := held[..k] + held[k + 1..];
      && |rest| == |held| - 1 && forall j: nat | j < |rest| :: rest[j] == held[if j < k then j else j + 1]
  {
  }

  lemma RestMembers(held: seq<nat>, k: nat, f: nat)
    requires k < |held| && Distinct(held)
    ensures f in held[..k] + held[k + 1..] <==> f in held && f != held[k]
  {
    var rest := held[..k] + held[k + 1..];
    RestAt(held, k);
    if f in held && f != held[k] {
      var j: nat :| j < |held| && held[j] == f;
      assert rest[if j < k then j else j - 1] == f;
    }
    if f in rest {
      var j: nat :| j < |rest| && rest[j] == f;
      assert held[if j < k then j else j + 1] == f;
    }
  }

  // ---- the frames held, from the requests ----

  /** The least number from f on that is below the limit and not in taken. */
  function LeastFree(taken: set<nat>, limit: nat, f: nat): (r: Option<nat>)
    ensures r.Some? ==> f <= r.value < limit && r.value !in taken && forall i: nat | f <= i < r.value :: i in taken
    ensures r == None ==> forall i: nat | f <= i < limit :: i in taken
    decreases limit - f
  {
    if f >= limit then None else if f !in taken then Some(f) else LeastFree(taken, limit, f + 1)
  }

  lemma LeastFreeIs(taken: set<nat>, limit: nat, f: nat)
    requires f < limit && f !in taken && forall i: nat | i < f :: i in taken
    ensures LeastFree(taken, limit, 0) == Some(f)
  {
    var r := LeastFree(taken, limit, 0);
  }

  lemma LeastFreeNone(taken: set<nat>, limit: nat)
    requires forall i: nat | i < limit :: i in taken
    ensures LeastFree(taken, limit, 0) == None
  {
    var r := LeastFree(taken, limit, 0);
  }

  /**
   * The frames held after the requests: an allocation adds the lowest frame that is neither held nor was taken
   * before the run, if there is one; a free drops the one named.
   */
  function Played(before: set<nat>, limit: nat, rs: seq<FrameRequest>): seq<nat> {
    if rs == [] then []
    else
      var held := Played(before, limit, rs[..|rs| - 1]);
      match rs[|rs| - 1]
      case Take =>
        (match LeastFree(before + SetOf(held), limit, 0)
         case Some(f) => held + [f]
         case None => held)
      case Give(k) => if k < |held| then held[..k] + held[k + 1..] else held
  }

  lemma PlayedNext(before: set<nat>, limit: nat, rs: seq<FrameRequest>, i: nat)
    requires i < |rs|
    ensures
      var held := Played(before, limit, rs[..i]);
      Played(before, limit, rs[..i + 1]) ==
        match rs[i]
        case Take =>
          (match LeastFree(before + SetOf(held), limit, 0)
           case Some(f) => held + [f]
           case None => held)
        case Give(k) => if k < |held| then held[..k] + held[k + 1..] else held
  {
    assert rs[..i + 1][..i] == rs[..i];
  }

  /** n allocations. */
  function Takes(n: nat): (rs: seq<FrameRequest>)
    ensures |rs| == n
  {
    seq(n, _ => Take)
  }

  function FirstFrames(k: nat): (fs: seq<nat>)
    ensures |fs| == k && forall i: nat | i < k :: fs[i] == i
  {
    seq(k, i => i)
  }

  /** From a cleared bitmap n allocations take the first n frames, or all frames below the limit. */
  lemma {:induction false} PlayedTakes(limit: nat, n: nat)
    ensures Played({}, limit, Takes(n)) == FirstFrames(if n <= limit then n else limit)
  {
    if n > 0 {
      PlayedTakes(limit, n - 1);
      hide *;
      TakeNext(limit, n, if n - 1 <= limit then n - 1 else limit);
    } else {
      NoTakes(limit);
    }
  }

  lemma NoTakes(limit: nat)
    ensures Played({}, limit, Takes(0)) == FirstFrames(0)
  {
  }

  /** One more allocation, when the first k frames are held. */
  lemma TakeNext(limit: nat, n: nat, k: nat)
    requires n > 0 && k <= limit && Played({}, limit, Takes(n - 1)) == FirstFrames(k)
    ensures Played({}, limit, Takes(n)) == FirstFrames(if k < limit then k + 1 else k)
  {
    TakesFront(n);
    hide Played, Takes, FirstFrames, SetOf, LeastFree;
    PlayedNext({}, limit, Takes(n), n - 1);
    TakenFirst(k);
    var taken := {} + SetOf(FirstFrames(k));
    if k < limit {
      LeastFreeIs(taken, limit, k);
      assert FirstFrames(k) + [k] == FirstFrames(k + 1);
    } else {
      LeastFreeNone(taken, limit);
    }
  }

  lemma TakesFront(n: nat)
    requires n > 0
    ensures Takes(n)[..n - 1] == Takes(n - 1) && Takes(n)[..n] == Takes(n) && Takes(n)[n - 1] == Take
  {
  }

  lemma TakenFirst(k: nat)
    ensures forall i: nat | i < k :: i in {} + SetOf(FirstFrames(k))
    ensures k !in {} + SetOf(FirstFrames(k))
  {
    forall i: nat | i < k
      ensures i in FirstFrames(k)
    {
      assert FirstFrames(k)[i] == i;
    }
    hide FirstFrames;
  }

  // ---- the code ----

  /** One request. */
  method Serve(bitmap: FrameMap, held: seq<nat>, r: FrameRequest, ghost before: set<nat>) returns (after: seq<nat>)
    requires bitmap.Valid() && bitmap.alloced == |bitmap.Allocated()|
    requires Holding(held, before, bitmap.Allocated(), bitmap.Limit())
    modifies bitmap`alloced, bitmap.frames
    ensures bitmap.Valid() && bitmap.alloced == |bitmap.Allocated()|
    ensures Holding(after, before, bitmap.Allocated(), bitmap.Limit())
    ensures after ==
      match r
      case Take =>
        (match LeastFree(before + SetOf(held), bitmap.framesMax / 32 * 32, 0)
         case Some(f) => held + [f]
         case None => held)
      case Give(k) => if k < |held| then held[..k] + held[k + 1..] else held
  {
    hide TakenSet, Holding, Distinct, SetOf, Taken;
    ghost var limit := bitmap.Limit();
    HeldTaken(held, before, bitmap.Allocated(), limit);
    after := held;
    match r
    case Take =>
      var addr := bitmap.Alloc();
      if addr.Some? {
        var f := addr.value / BLOCK_SIZE;
        LeastFreeIs(before + SetOf(held), limit, f);
        HoldMore(held, before, bitmap.Allocated() - {f}, limit, f);
        after := held + [f];
      } else {
        LeastFreeNone(before + SetOf(held), limit);
      }
    case Give(k) =>
      if k < |held| {
        HoldLess(held, before, bitmap.Allocated(), limit, k);
        HeldBelow(held, before, bitmap.Allocated(), limit, k);
        bitmap.Free(held[k] * BLOCK_SIZE);
        after := held[..k] + held[k + 1..];
      }
  }

  /**
   * Any run of frame_alloc and frame_free on the frames it holds: which frames they are, that none is handed out
   * twice at a time, that the bitmap marks what was marked before and what is held, and that alloced_frames
   * counts them.
   */
  method Replay(bitmap: FrameMap, rs: seq<FrameRequest>) returns (held: seq<nat>)
    requires bitmap.Valid() && bitmap.alloced == |bitmap.Allocated()|
    modifies bitmap`alloced, bitmap.frames
    ensures bitmap.Valid()
    ensures held == Played(TakenSet(old(bitmap.frames[..]), bitmap.framesMax / 32 * 32), bitmap.framesMax / 32 * 32, rs)
    ensures Holding(held, old(bitmap.Allocated()), bitmap.Allocated(), bitmap.Limit())
    ensures bitmap.alloced == |bitmap.Allocated()| == |old(bitmap.Allocated())| + |held|
  {
    hide TakenSet, Holding, Distinct, SetOf, Played, LeastFree;
    ghost var before, limit := bitmap.Allocated(), bitmap.Limit();
    held := [];
    HoldNone(before, limit);
    PlayedNone(before, limit);
    assert rs[..0] == [];
    for i := 0 to |rs|
      invariant bitmap.Valid() && bitmap.alloced == |bitmap.Allocated()|
      invariant Holding(held, before, bitmap.Allocated(), limit) && held == Played(before, limit, rs[..i])
    {
      PlayedNext(before, limit, rs, i);
      held := Serve(bitmap, held, rs[i], before);
    }
    assert rs[..|rs|] == rs;
    HeldCount(held, before, bitmap.Allocated(), limit);
  }

  lemma PlayedNone(before: set<nat>, limit: nat)
    ensures Played(before, limit, []) == []
  {
  }

  lemma HeldTaken(held: seq<nat>, before: set<nat>, now: set<nat>, limit: nat)
    requires Holding(held, before, now, limit)
    ensures now == before + SetOf(held)
  {
  }

  /** After frame_init exactly endAddr / 4096 / 32 * 32 single allocations succeed, from frame 0 upwards. */
  method Capacity(bitmap: FrameMap, endAddr: word, n: nat) returns (held: seq<nat>)
    requires (endAddr / 4096 + 31) / 32 <= bitmap.frames.Length && bitmap.alloced == 0
    modifies bitmap`framesMax, bitmap`alloced, bitmap.frames
    ensures bitmap.Valid()
    ensures
      var limit := endAddr / 4096 / 32 * 32;
      |held| == (if n <= limit then n else limit) && forall i: nat | i < |held| :: held[i] == i
  {
    bitmap.Init(endAddr);
    PlayedTakes(endAddr / 4096 / 32 * 32, n);
    hide Played;
    held := Replay(bitmap, Takes(n));
  }

  lemma HoldNone(before: set<nat>, limit: nat)
    ensures Holding([], before, before, limit)
  {
    assert SetOf([]) == {};
  }

  lemma HeldBelow(held: seq<nat>, before: set<nat>, now: set<nat>, limit: nat, k: nat)
    requires Holding(held, before, now, limit) && k < |held|
    ensures held[k] < limit
  {
    assert held[k] in held;
  }

  lemma HeldCount(held: seq<nat>, before: set<nat>, now: set<nat>, limit: nat)
    requires Holding(held, before, now, limit)
    ensures |now| == |before| + |held|
  {
    SetOfSize(held);
  }
}
