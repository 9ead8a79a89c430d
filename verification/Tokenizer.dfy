// strtok of the FAT reader: a tokenizer that keeps the rest of its input between calls.

module Tokenizer {
  import opened Bits
  import opened Wrappers

  // ---- the tokens of a string ----

  /** Index of the first ch, |s| if there is none. */
  function Find(s: seq<byte>, ch: byte): (i: nat)
    ensures i <= |s| && (i < |s| ==> s[i] == ch)
    ensures forall j | 0 <= j < i :: s[j] != ch
  {
    if s == [] || s[0] == ch then 0 else 1 + Find(s[1..], ch)
  }

  lemma FindIs(s: seq<byte>, ch: byte, i: nat)
    requires i <= |s| && (i < |s| ==> s[i] == ch)
    requires forall j | 0 <= j < i :: s[j] != ch
    ensures Find(s, ch) == i
  {
  }

  /** The token one call returns, and the input it leaves; None is a NULL input. */
  function NextToken(s: seq<byte>, ch: byte): (r: (seq<byte>, Option<seq<byte>>))
    ensures r.1.Some? ==> |r.1.value| < |s|
    decreases |s|
  {
    var i := Find(s, ch);
    if i == |s| then (s, None)
    else if i == 0 then NextToken(s[1..], ch)
    else (s[..i], Some(s[i + 1..]))
  }

  /** All tokens that successive calls return before NULL. */
  function Tokens(s: Option<seq<byte>>, ch: byte): seq<seq<byte>>
    decreases if s.Some? then |s.value| + 1 else 0
  {
    if s == None then []
    else
      var (token, rest) := NextToken(s.value, ch);
      [token] + Tokens(rest, ch)
  }

  /** The string cut at every ch. */
  function Split(s: seq<byte>, ch: byte): (r: seq<seq<byte>>)
    ensures r != []
    decreases |s|
  {
    var i := Find(s, ch);
    if i == |s| then [s] else [s[..i]] + Split(s[i + 1..], ch)
  }

  /** Without the empty pieces, except an empty last one. */
  function DropEmpty(ps: seq<seq<byte>>): seq<seq<byte>> {
    if |ps| <= 1 then ps
    else (if ps[0] == [] then [] else [ps[0]]) + DropEmpty(ps[1..])
  }

  /** Calling strtok until NULL yields the pieces of the string, empty ones dropped except a last one. */
  lemma {:induction false} TokensAreSplit(s: seq<byte>, ch: byte)
    ensures Tokens(Some(s), ch) == DropEmpty(Split(s, ch))
    decreases |s|
  {
    var i := Find(s, ch);
    if i < |s| {
      TokensAreSplit(s[i + 1..], ch);
      var ps := Split(s, ch);
      assert ps[0] == s[..i] && ps[1..] == Split(s[i + 1..], ch);
      if i == 0 {
        assert NextToken(s, ch) == NextToken(s[1..], ch);
        assert Tokens(Some(s), ch) == Tokens(Some(s[1..]), ch);
      }
    }
  }

  /** No token contains ch, and none is empty but perhaps the last. */
  lemma {:induction false} TokensAreClean(s: Option<seq<byte>>, ch: byte, k: nat)
    requires k < |Tokens(s, ch)|
    ensures ch !in Tokens(s, ch)[k]
    ensures k < |Tokens(s, ch)| - 1 ==> Tokens(s, ch)[k] != []
    decreases if s.Some? then |s.value| + 1 else 0
  {
    var (token, rest) := NextToken(s.value, ch);
    if k == 0 {
      NextTokenIsClean(s.value, ch);
    } else {
      TokensAreClean(rest, ch, k - 1);
    }
  }

  lemma {:induction false} NextTokenIsClean(s: seq<byte>, ch: byte)
    ensures ch !in NextToken(s, ch).0
    ensures NextToken(s, ch).1.Some? ==> NextToken(s, ch).0 != []
    decreases |s|
  {
    if Find(s, ch) == 0 && s != [] {
      NextTokenIsClean(s[1..], ch);
    }
  }

  // ---- the code ----

  class StrTok {
    var input: Option<seq<byte>>

    constructor ()
      ensures input == None
    {
      input := None;
    }

    method Next(path: Option<seq<byte>>, ch: byte) returns (token: Option<seq<byte>>)
      modifies this
      ensures
        var start := if path.Some? then path else old(input);
        && (start == None ==> token == None && input == None)
        && (start.Some? ==> token == Some(NextToken(start.value, ch).0) && input == NextToken(start.value, ch).1)
      decreases if path.Some? then |path.value| + 1 else if input.Some? then |input.value| + 1 else 0
    {
      if path != None {
        input := path;
      }
      if input == None {
        return None;
      }
      var s := input.value;
      var result := new byte[|s| + 1];
      var i := 0;
      while i < |s|
        invariant i <= |s| && result[..i] == s[..i]
        invariant fresh(result) && input == Some(s)
        invariant forall j | 0 <= j < i :: s[j] != ch
      {
        if s[i] != ch {
          result[i] := s[i];
          i := i + 1;
          continue;
        }
        FindIs(s, ch, i);
        result[i] := 0;
        input := Some(s[i + 1..]);
        if i == 0 {
          token := Next(None, ch);
          return;
        }
        return Some(result[..i]);
      }
      FindIs(s, ch, i);
      result[i] := 0;
      input := None;
      assert result[..i] == s[..i] == s;
      return Some(result[..i]);
    }
  }
}
