/**
 Contiguous occurrence of one sequence inside another, and the left-to-right
 removal of every non-overlapping occurrence (Go's `strings.Replace(t, s, "", -1)`
 as used by `removeSubstring`).
 */
module Substrings {

  /** `s` occurs in `t` starting at index `k`. */
  predicate OccursAt<T(==)>(s: seq<T>, t: seq<T>, k: int)
  {
    0 <= k && k + |s| <= |t| && t[k..k + |s|] == s
  }

  /** `s` occurs contiguously somewhere in `t`. */
  ghost predicate Occurs<T>(s: seq<T>, t: seq<T>)
  {
    exists k :: OccursAt(s, t, k)
  }

  /** `s` is a common contiguous substring of `a` and `b`. */
  ghost predicate IsCommon<T>(s: seq<T>, a: seq<T>, b: seq<T>)
  {
    Occurs(s, a) && Occurs(s, b)
  }

  /** Deletes every non-overlapping occurrence of `s` from `t`, scanning left to
      right; deleting the empty sequence leaves `t` as it is. */
  function RemoveAll<T(==)>(t: seq<T>, s: seq<T>): (r: seq<T>)
    ensures |r| <= |t|
    ensures |s| == 0 ==> r == t
    decreases |t|
  {
    if |s| == 0 || |t| < |s| then t
    else if t[..|s|] == s then RemoveAll(t[|s|..], s)
    else [t[0]] + RemoveAll(t[1..], s)
  }

  /** An occurrence of `s` inside `t[1..]` is an occurrence inside `t`, one further on. */
  lemma OccursInTail<T>(s: seq<T>, t: seq<T>, k: int)
    requires |t| > 0 && OccursAt(s, t[1..], k)
    ensures OccursAt(s, t, k + 1)
  {
    assert t[k + 1..k + 1 + |s|] == t[1..][k..k + |s|];
  }

  /** When `s` does not occur in `t`, removal changes nothing. */
  lemma {:induction false} RemoveAbsent<T>(t: seq<T>, s: seq<T>)
    requires !Occurs(s, t)
    ensures RemoveAll(t, s) == t
    decreases |t|
  {
    if |s| == 0 || |t| < |s| {
    } else {
      assert !OccursAt(s, t, 0);
      if Occurs(s, t[1..]) {
        var k :| OccursAt(s, t[1..], k);
        OccursInTail(s, t, k);
        assert false;
      }
      RemoveAbsent(t[1..], s);
      assert [t[0]] + t[1..] == t;
    }
  }

  /** When a non-empty `s` occurs in `t`, removal deletes at least one copy of it. */
  lemma {:induction false} RemoveShrinks<T>(t: seq<T>, s: seq<T>)
    requires |s| > 0 && Occurs(s, t)
    ensures |RemoveAll(t, s)| + |s| <= |t|
    decreases |t|
  {
    var k :| OccursAt(s, t, k);
    if t[..|s|] == s {
    } else {
      assert k != 0;
      assert t[1..][k - 1..k - 1 + |s|] == t[k..k + |s|];
      assert OccursAt(s, t[1..], k - 1);
      RemoveShrinks(t[1..], s);
    }
  }

  /** No copy of `s` starts before `k` in `t`, so none starts before `k - 1`
      in its tail. */
  lemma NoEarlierInTail<T>(t: seq<T>, s: seq<T>, k: int)
    requires 0 < k <= |t|
    requires forall j :: 0 <= j < k ==> !OccursAt(s, t, j)
    ensures forall j :: 0 <= j < k - 1 ==> !OccursAt(s, t[1..], j)
  {
    forall j | 0 <= j < k - 1
      ensures !OccursAt(s, t[1..], j)
    {
      if OccursAt(s, t[1..], j) {
        OccursInTail(s, t, j);
      }
    }
  }

  /** A copy of `s` at the front is dropped. */
  lemma RemoveDropsFront<T>(t: seq<T>, s: seq<T>)
    requires |s| > 0 && OccursAt(s, t, 0)
    ensures RemoveAll(t, s) == RemoveAll(t[|s|..], s)
  {
    assert t[..|s|] == t[0..0 + |s|];
  }

  /** Without a copy of `s` at the front, the first element is kept. */
  lemma RemoveKeepsFront<T>(t: seq<T>, s: seq<T>)
    requires 0 < |s| <= |t| && !OccursAt(s, t, 0)
    ensures RemoveAll(t, s) == [t[0]] + RemoveAll(t[1..], s)
  {
    assert t[..|s|] == t[0..0 + |s|];
  }

  /** A prefix in which no copy of `s` starts is kept as it is. */
  lemma {:induction false} RemoveKeepsUnmatchedPrefix<T>(t: seq<T>, s: seq<T>, k: int)
    requires |s| > 0 && 0 <= k <= |t|
    requires forall j :: 0 <= j < k ==> !OccursAt(s, t, j)
    ensures RemoveAll(t, s) == t[..k] + RemoveAll(t[k..], s)
    decreases k
  {
    if k == 0 {
      assert t[..k] == [] && t[k..] == t;
    } else if |t| < |s| {
      assert t[..k] + t[k..] == t;
    } else {
      var tail := t[1..];
      assert !OccursAt(s, t, 0);
      RemoveKeepsFront(t, s);
      NoEarlierInTail(t, s, k);
      RemoveKeepsUnmatchedPrefix(tail, s, k - 1);
      assert tail[k - 1..] == t[k..];
      assert [t[0]] + tail[..k - 1] == t[..k];
    }
  }

  /** The removal as `strings.Replace` performs it: with `k` the first place
      a non-empty `s` occurs, the text up to `k` is kept, that copy is
      dropped, and removal carries on after it. For non-empty `s`, with
      `RemoveAbsent` this determines the result completely. */
  lemma RemoveAtFirstOccurrence<T>(t: seq<T>, s: seq<T>, k: int)
    requires |s| > 0 && OccursAt(s, t, k)
    requires forall j :: 0 <= j < k ==> !OccursAt(s, t, j)
    ensures RemoveAll(t, s) == t[..k] + RemoveAll(t[k + |s|..], s)
  {
    RemoveKeepsUnmatchedPrefix(t, s, k);
    assert t[k..][0..0 + |s|] == t[k..k + |s|];
    RemoveDropsFront(t[k..], s);
    assert t[k..][|s|..] == t[k + |s|..];
  }
}
