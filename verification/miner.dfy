/**
 The fragment miner `findAllLCS` (plagio1.go:84-114): repeatedly takes the
 longest common substring of the two working texts, stops once it is shorter
 than `minLength`, records it unless all its words are stop words, and in
 either case deletes every non-overlapping occurrence of it from both working
 texts. The deletion can bring a fresh copy together ("aabb" without "ab"
 leaves "ab"), so a later round can meet the same match again.
 */
module Miner {
  import opened Substrings
  import opened LongestCommon
  import opened Words
  import opened Arithmetic

  /** A non-empty match occurs in both working texts, so removing it shortens
      each of them by at least its own length. */
  lemma MatchShrinks(t1: Text, t2: Text)
    requires |LongestCommonSubstring(t1, t2)| > 0
    ensures |RemoveAll(t1, LongestCommonSubstring(t1, t2))| + |LongestCommonSubstring(t1, t2)| <= |t1|
    ensures |RemoveAll(t2, LongestCommonSubstring(t1, t2))| + |LongestCommonSubstring(t1, t2)| <= |t2|
  {
    var s := LongestCommonSubstring(t1, t2);
    var _ := ResultIsCommonAndFirst(t1, t2);
    RemoveShrinks(t1, s);
    RemoveShrinks(t2, s);
  }

  /** The fragments `findAllLCS` returns, in the order it records them. Only a
      positive `minLength` lets the loop end (see `LoopNeverExitsWithoutPositiveMinimum`). */
  function Mine(t1: Text, t2: Text, minLength: int): (frags: seq<Text>)
    requires minLength >= 1
    ensures forall k :: 0 <= k < |frags| ==> |frags[k]| >= minLength && HasContentWord(frags[k])
    decreases |t1|
  {
    var s := LongestCommonSubstring(t1, t2);
    if |s| < minLength then []
    else
      MatchShrinks(t1, t2);
      var rest := Mine(RemoveAll(t1, s), RemoveAll(t2, s), minLength);
      if AllStopWords(Fields(s)) then rest else [s] + rest
  }

  /** How many times the loop body runs past the length test, whether the
      match is recorded or discarded. */
  function Rounds(t1: Text, t2: Text, minLength: int): nat
    requires minLength >= 1
    decreases |t1|
  {
    var s := LongestCommonSubstring(t1, t2);
    if |s| < minLength then 0
    else
      MatchShrinks(t1, t2);
      1 + Rounds(RemoveAll(t1, s), RemoveAll(t2, s), minLength)
  }

  /** Total length of a list of fragments (lines 133-136). */
  function TotalLength(frags: seq<Text>): nat
  {
    if |frags| == 0 then 0 else |frags[0]| + TotalLength(frags[1..])
  }

  /** Each round removes at least `minLength` bytes from both texts. */
  lemma {:induction false} RoundsTimesMinimum(t1: Text, t2: Text, minLength: int)
    requires minLength >= 1
    ensures Rounds(t1, t2, minLength) * minLength <= |t1|
    ensures Rounds(t1, t2, minLength) * minLength <= |t2|
    decreases |t1|
  {
    var s := LongestCommonSubstring(t1, t2);
    if |s| >= minLength {
      MatchShrinks(t1, t2);
      var u1, u2 := RemoveAll(t1, s), RemoveAll(t2, s);
      var r := Rounds(u1, u2, minLength);
      RoundsTimesMinimum(u1, u2, minLength);
      assert Rounds(t1, t2, minLength) == r + 1;
      MultiplyOneMore(r, minLength);
    }
  }

  /** So the loop body runs at most min(|t1|, |t2|) / minLength times. */
  lemma RoundsBounded(t1: Text, t2: Text, minLength: int)
    requires minLength >= 1
    ensures Rounds(t1, t2, minLength) <= |t1| / minLength
    ensures Rounds(t1, t2, minLength) <= |t2| / minLength
  {
    RoundsTimesMinimum(t1, t2, minLength);
    DivisionBound(Rounds(t1, t2, minLength), minLength, |t1|);
    DivisionBound(Rounds(t1, t2, minLength), minLength, |t2|);
  }

  /** Every recorded fragment was one round's match. */
  lemma {:induction false} FragmentsAtMostRounds(t1: Text, t2: Text, minLength: int)
    requires minLength >= 1
    ensures |Mine(t1, t2, minLength)| <= Rounds(t1, t2, minLength)
    decreases |t1|
  {
    var s := LongestCommonSubstring(t1, t2);
    if |s| >= minLength {
      MatchShrinks(t1, t2);
      FragmentsAtMostRounds(RemoveAll(t1, s), RemoveAll(t2, s), minLength);
    }
  }

  /** No double counting: the recorded fragments together are no longer than
      either original text, since each was cut out of both working texts. */
  lemma {:induction false} MinedLengthBounded(t1: Text, t2: Text, minLength: int)
    requires minLength >= 1
    ensures TotalLength(Mine(t1, t2, minLength)) <= |t1|
    ensures TotalLength(Mine(t1, t2, minLength)) <= |t2|
    decreases |t1|
  {
    var s := LongestCommonSubstring(t1, t2);
    if |s| >= minLength {
      MatchShrinks(t1, t2);
      var rest := Mine(RemoveAll(t1, s), RemoveAll(t2, s), minLength);
      MinedLengthBounded(RemoveAll(t1, s), RemoveAll(t2, s), minLength);
      if !AllStopWords(Fields(s)) {
        assert ([s] + rest)[1..] == rest;
      }
    }
  }

  /** One round of the loop, unfolded. */
  lemma MineStep(t1: Text, t2: Text, minLength: int)
    requires minLength >= 1
    requires |LongestCommonSubstring(t1, t2)| >= minLength
    ensures |RemoveAll(t1, LongestCommonSubstring(t1, t2))| < |t1|
    ensures Mine(t1, t2, minLength) ==
              (if AllStopWords(Fields(LongestCommonSubstring(t1, t2))) then [] else [LongestCommonSubstring(t1, t2)])
              + Mine(RemoveAll(t1, LongestCommonSubstring(t1, t2)), RemoveAll(t2, LongestCommonSubstring(t1, t2)), minLength)
  {
    MatchShrinks(t1, t2);
    var s := LongestCommonSubstring(t1, t2);
    var rest := Mine(RemoveAll(t1, s), RemoveAll(t2, s), minLength);
    assert [] + rest == rest;
  }

  /** The loop exits on a match shorter than `minLength`. */
  lemma MineStops(t1: Text, t2: Text, minLength: int)
    requires minLength >= 1
    requires |LongestCommonSubstring(t1, t2)| < minLength
    ensures Mine(t1, t2, minLength) == []
  {
  }

  /** Removing the match, as one round of the loop does (lines 109-110). */
  function Step(t1: Text, t2: Text): (Text, Text)
  {
    var s := LongestCommonSubstring(t1, t2);
    (RemoveAll(t1, s), RemoveAll(t2, s))
  }

  /** With `minLength <= 0` the exit test `len(lcsStr) < minLength` never
      succeeds, and once the texts share nothing the round leaves them as
      they are: the loop runs forever. */
  lemma LoopNeverExitsWithoutPositiveMinimum(t1: Text, t2: Text, minLength: int)
    requires minLength <= 0
    ensures !(|LongestCommonSubstring(t1, t2)| < minLength)
    ensures (forall x, y :: 0 <= x < |t1| && 0 <= y < |t2| ==> t1[x] != t2[y]) ==> Step(t1, t2) == (t1, t2)
  {
    EmptyIffNothingShared(t1, t2);
  }

  /** The stop-word loop of lines 96-103, with its early exit. */
  method IsAllStopWords(words: seq<Text>) returns (allStopWords: bool)
    ensures allStopWords <==> forall k :: 0 <= k < |words| ==> Lower(words[k]) in StopWords
  {
    allStopWords := true;
    var k := 0;
    while k < |words|
      invariant 0 <= k <= |words|
      invariant allStopWords <==> forall i :: 0 <= i < k ==> Lower(words[i]) in StopWords
      invariant !allStopWords ==> k < |words|
      decreases |words| - k
    {
      if Lower(words[k]) !in StopWords {
        allStopWords := false;
        break;
      }
      k := k + 1;
    }
  }

  /** `findAllLCS` as written: the loop over the working copies. Each round's
      match is `LongestCommonSubstring`, the value `Lcs` is proved to compute. */
  method FindAllLcs(text1: Text, text2: Text, minLength: int) returns (commonSubstrings: seq<Text>)
    requires minLength >= 1
    ensures commonSubstrings == Mine(text1, text2, minLength)
    ensures forall k :: 0 <= k < |commonSubstrings| ==>
              |commonSubstrings[k]| >= minLength && HasContentWord(commonSubstrings[k])
  {
    commonSubstrings := [];
    var t1, t2 := text1, text2;
    while true
      invariant commonSubstrings + Mine(t1, t2, minLength) == Mine(text1, text2, minLength)
      decreases |t1|
    {
      var lcsStr := LongestCommonSubstring(t1, t2);
      if |lcsStr| < minLength {
        MineStops(t1, t2, minLength);
        assert commonSubstrings + [] == commonSubstrings;
        break;
      }
      var allStopWords := IsAllStopWords(Fields(lcsStr));
      MineStep(t1, t2, minLength);
      ghost var rest := Mine(RemoveAll(t1, lcsStr), RemoveAll(t2, lcsStr), minLength);
      if !allStopWords {
        assert (commonSubstrings + [lcsStr]) + rest == commonSubstrings + ([lcsStr] + rest);
        commonSubstrings := commonSubstrings + [lcsStr];
      } else {
        assert [] + rest == rest;
      }
      t1 := RemoveAll(t1, lcsStr);
      t2 := RemoveAll(t2, lcsStr);
    }
  }
}
