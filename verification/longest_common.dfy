/**
 The LCS extractor: the longest common contiguous substring of two sequences,
 found by the dynamic-programming table of `lcs` (plagio1.go). Cell (i, j) of
 the table holds the length of the longest common run ending at `a[i-1]` and
 `b[j-1]`; the scan visits cells row by row and keeps the first cell, in that
 order, that holds the largest value in the table.
 */
module LongestCommon {
  import opened Substrings

  /** The table cell (i, j): the length of the longest common suffix of
      `a[..i]` and `b[..j]`. */
  function Run<T(==)>(a: seq<T>, b: seq<T>, i: nat, j: nat): (r: nat)
    requires i <= |a| && j <= |b|
    ensures r <= i && r <= j
  {
    if i == 0 || j == 0 || a[i - 1] != b[j - 1] then 0 else Run(a, b, i - 1, j - 1) + 1
  }

  /** What the scan remembers: the best length so far and the row (end index in `a`) where it was first reached. */
  datatype Best = Best(length: nat, endPos: nat)

  /** Cell (r, c) comes no later than cell (i, j) in row-major order. */
  predicate Before(r: int, c: int, i: int, j: int)
  {
    r < i || (r == i && c <= j)
  }

  /** `st` is what the scan holds after visiting every cell up to (i, j):
      no visited cell beats it, it was reached at a visited cell of row
      `endPos`, and every cell of an earlier row is strictly smaller. */
  ghost predicate Summarises<T>(a: seq<T>, b: seq<T>, st: Best, i: int, j: int)
  {
    && st.length <= st.endPos <= |a|
    && (st.length == 0 <==> st.endPos == 0)
    && st.endPos <= i
    && (forall r, c :: 1 <= r <= |a| && 1 <= c <= |b| && Before(r, c, i, j) ==> Run(a, b, r, c) <= st.length)
    && (st.length > 0 ==>
          exists c :: 1 <= c <= |b| && Before(st.endPos, c, i, j) && Run(a, b, st.endPos, c) == st.length)
    && (forall r, c :: 1 <= r < st.endPos && r <= |a| && 1 <= c <= |b| ==> Run(a, b, r, c) < st.length)
  }

  /** Visits cells (i, 1) .. (i, j) of row `i`, starting from `acc`; a cell
      replaces the best only when its characters match and its value is
      strictly larger (lines 66-72). */
  function ScanRow<T(==)>(a: seq<T>, b: seq<T>, i: nat, j: nat, acc: Best): (st: Best)
    requires 1 <= i <= |a| && j <= |b|
    requires acc.length <= acc.endPos <= i
    ensures st.length <= st.endPos <= i
    decreases j
  {
    if j == 0 then acc
    else
      var prev := ScanRow(a, b, i, j - 1, acc);
      if a[i - 1] == b[j - 1] && Run(a, b, i, j) > prev.length then Best(Run(a, b, i, j), i) else prev
  }

  /** Visits every cell of rows 1 .. i. */
  function ScanRows<T(==)>(a: seq<T>, b: seq<T>, i: nat): (st: Best)
    requires i <= |a|
    ensures st.length <= st.endPos <= i
  {
    if i == 0 then Best(0, 0)
    else ScanRow(a, b, i, |b|, ScanRows(a, b, i - 1))
  }

  /** Each visited cell keeps the scan's summary true. */
  lemma {:induction false} ScanRowSummarises<T>(a: seq<T>, b: seq<T>, i: nat, j: nat, acc: Best)
    requires 1 <= i <= |a| && j <= |b|
    requires acc.length <= acc.endPos <= i
    requires Summarises(a, b, acc, i, 0)
    ensures Summarises(a, b, ScanRow(a, b, i, j, acc), i, j)
    decreases j
  {
    if j > 0 {
      ScanRowSummarises(a, b, i, j - 1, acc);
      var prev := ScanRow(a, b, i, j - 1, acc);
      if a[i - 1] == b[j - 1] && Run(a, b, i, j) > prev.length {
        assert Before(i, j, i, j);
      } else {
        var c :| prev.length > 0 ==> 1 <= c <= |b| && Before(prev.endPos, c, i, j - 1) && Run(a, b, prev.endPos, c) == prev.length;
        assert prev.length > 0 ==> Before(prev.endPos, c, i, j);
      }
    }
  }

  /** After rows 1 .. i the summary covers every cell of those rows. */
  lemma {:induction false} ScanRowsSummarises<T>(a: seq<T>, b: seq<T>, i: nat)
    requires i <= |a|
    ensures Summarises(a, b, ScanRows(a, b, i), i, |b|)
  {
    if i > 0 {
      var prev := ScanRows(a, b, i - 1);
      ScanRowsSummarises(a, b, i - 1);
      if prev.length > 0 {
        var c :| 1 <= c <= |b| && Before(prev.endPos, c, i - 1, |b|) && Run(a, b, prev.endPos, c) == prev.length;
        assert Before(prev.endPos, c, i, 0);
      }
      ScanRowSummarises(a, b, i, |b|, prev);
    }
  }

  /** The substring `lcs` returns: empty when the best length is 0, otherwise
      the `length` elements of `a` ending at `endPos` (lines 77-80). */
  function LongestCommonSubstring<T(==)>(a: seq<T>, b: seq<T>): seq<T>
  {
    var st := ScanRows(a, b, |a|);
    if st.length == 0 then [] else a[st.endPos - st.length..st.endPos]
  }

  /** Some common substring of length `len` ends at index `e` of `a`. */
  ghost predicate CommonEndingAt<T>(a: seq<T>, b: seq<T>, len: int, e: int)
  {
    0 <= len <= e <= |a| && Occurs(a[e - len..e], b)
  }

  /** Among common substrings of length |r|, the one in `a` ending at `e` is the
      first: none ends earlier in `a`. */
  ghost predicate EndsFirstAt<T>(r: seq<T>, a: seq<T>, b: seq<T>, e: int)
  {
    && |r| <= e <= |a|
    && a[e - |r|..e] == r
    && forall e' :: 0 <= e' < e ==> !CommonEndingAt(a, b, |r|, e')
  }

  /** The full characterisation of the extractor's answer: a common substring,
      no common substring is longer, and (when non-empty) it is the copy that
      ends earliest in `a`. */
  ghost predicate IsPickedLcs<T(!new)>(r: seq<T>, a: seq<T>, b: seq<T>)
  {
    && IsCommon(r, a, b)
    && (forall s :: IsCommon(s, a, b) ==> |s| <= |r|)
    && (|r| > 0 ==> exists e :: EndsFirstAt(r, a, b, e))
  }

  /** The run a cell counts really is a common run. */
  lemma {:induction false} RunMatches<T>(a: seq<T>, b: seq<T>, i: nat, j: nat)
    requires i <= |a| && j <= |b|
    ensures a[i - Run(a, b, i, j)..i] == b[j - Run(a, b, i, j)..j]
  {
    if i == 0 || j == 0 || a[i - 1] != b[j - 1] {
    } else {
      RunMatches(a, b, i - 1, j - 1);
      var k := Run(a, b, i - 1, j - 1);
      assert a[i - 1 - k..i] == a[i - 1 - k..i - 1] + [a[i - 1]];
      assert b[j - 1 - k..j] == b[j - 1 - k..j - 1] + [b[j - 1]];
    }
  }

  /** A common run of length `len` ending at (p, q) is counted by cell (p, q). */
  lemma {:induction false} RunAtLeast<T>(a: seq<T>, b: seq<T>, p: nat, q: nat, len: nat)
    requires len <= p <= |a| && len <= q <= |b|
    requires a[p - len..p] == b[q - len..q]
    ensures Run(a, b, p, q) >= len
  {
    if len > 0 {
      assert a[p - 1] == a[p - len..p][len - 1] == b[q - len..q][len - 1] == b[q - 1];
      assert a[p - len..p - 1] == a[p - len..p][..len - 1];
      assert b[q - len..q - 1] == b[q - len..q][..len - 1];
      RunAtLeast(a, b, p - 1, q - 1, len - 1);
    }
  }

  /** Every common substring is bounded by some table cell. */
  lemma CommonBoundedByRun<T>(s: seq<T>, a: seq<T>, b: seq<T>) returns (p: nat, q: nat)
    requires IsCommon(s, a, b)
    ensures |s| <= p <= |a| && |s| <= q <= |b|
    ensures a[p - |s|..p] == s
    ensures Run(a, b, p, q) >= |s|
  {
    var x :| OccursAt(s, a, x);
    var y :| OccursAt(s, b, y);
    p, q := x + |s|, y + |s|;
    RunAtLeast(a, b, p, q, |s|);
  }

  /** The facts about the finished scan that the lemmas below rely on. */
  lemma FinalScan<T>(a: seq<T>, b: seq<T>) returns (st: Best)
    ensures st == ScanRows(a, b, |a|)
    ensures st.length <= st.endPos <= |a|
    ensures LongestCommonSubstring(a, b) == if st.length == 0 then [] else a[st.endPos - st.length..st.endPos]
    ensures forall r, c :: 1 <= r <= |a| && 1 <= c <= |b| ==> Run(a, b, r, c) <= st.length
    ensures forall r, c :: 1 <= r < st.endPos && 1 <= c <= |b| ==> Run(a, b, r, c) < st.length
    ensures st.length > 0 ==> exists c :: 1 <= c <= |b| && Run(a, b, st.endPos, c) == st.length
  {
    st := ScanRows(a, b, |a|);
    ScanRowsSummarises(a, b, |a|);
  }

  /** When every cell of the rows before `e` is below `len`, no common
      substring of length `len` ends in `a` before `e`. */
  lemma NoEarlierCommonEnd<T>(a: seq<T>, b: seq<T>, len: nat, e: nat)
    requires 1 <= len <= e <= |a|
    requires forall r, c :: 1 <= r < e && 1 <= c <= |b| ==> Run(a, b, r, c) < len
    ensures forall e' :: 0 <= e' < e ==> !CommonEndingAt(a, b, len, e')
  {
    forall e' | 0 <= e' < e
      ensures !CommonEndingAt(a, b, len, e')
    {
      if CommonEndingAt(a, b, len, e') {
        var y :| OccursAt(a[e' - len..e'], b, y);
        RunAtLeast(a, b, e', y + len, len);
        assert false;
      }
    }
  }

  /** The result occurs in both sequences. */
  lemma ResultIsCommon<T>(a: seq<T>, b: seq<T>)
    ensures IsCommon(LongestCommonSubstring(a, b), a, b)
  {
    var st := FinalScan(a, b);
    var r := LongestCommonSubstring(a, b);
    var L, e := st.length, st.endPos;
    if L == 0 {
      assert OccursAt(r, a, 0) && OccursAt(r, b, 0);
    } else {
      var c :| 1 <= c <= |b| && Run(a, b, e, c) == L;
      RunMatches(a, b, e, c);
      assert OccursAt(r, b, c - L);
      assert OccursAt(r, a, e - L);
    }
  }

  /** A non-empty result is the copy in `a` with the smallest end index. */
  lemma ResultEndsFirst<T>(a: seq<T>, b: seq<T>) returns (e: nat)
    ensures |LongestCommonSubstring(a, b)| > 0 ==> EndsFirstAt(LongestCommonSubstring(a, b), a, b, e)
  {
    var st := FinalScan(a, b);
    e := st.endPos;
    if st.length > 0 {
      NoEarlierCommonEnd(a, b, st.length, e);
    }
  }

  lemma ResultIsCommonAndFirst<T>(a: seq<T>, b: seq<T>) returns (e: nat)
    ensures IsCommon(LongestCommonSubstring(a, b), a, b)
    ensures |LongestCommonSubstring(a, b)| > 0 ==> EndsFirstAt(LongestCommonSubstring(a, b), a, b, e)
  {
    ResultIsCommon(a, b);
    e := ResultEndsFirst(a, b);
  }

  /** No common substring is longer than the result. */
  lemma ResultIsMaximal<T>(a: seq<T>, b: seq<T>, s: seq<T>)
    requires IsCommon(s, a, b)
    ensures |s| <= |LongestCommonSubstring(a, b)|
  {
    var st := FinalScan(a, b);
    if |s| > 0 {
      var p, q := CommonBoundedByRun(s, a, b);
    }
  }

  /** The extractor's result satisfies the full characterisation. */
  lemma LongestCommonSubstringIsPicked<T(!new)>(a: seq<T>, b: seq<T>)
    ensures IsPickedLcs(LongestCommonSubstring(a, b), a, b)
  {
    var r := LongestCommonSubstring(a, b);
    var e := ResultIsCommonAndFirst(a, b);
    forall s | IsCommon(s, a, b)
      ensures |s| <= |r|
    {
      ResultIsMaximal(a, b, s);
    }
  }

  /** The characterisation pins the answer down: two results that both satisfy
      it are equal, so the tie-break leaves no freedom. */
  lemma PickedIsUnique<T(!new)>(r1: seq<T>, r2: seq<T>, a: seq<T>, b: seq<T>)
    requires IsPickedLcs(r1, a, b) && IsPickedLcs(r2, a, b)
    ensures r1 == r2
  {
    assert |r1| == |r2|;
    if |r1| > 0 {
      var e1 :| EndsFirstAt(r1, a, b, e1);
      var e2 :| EndsFirstAt(r2, a, b, e2);
      var y1 :| OccursAt(r1, b, y1);
      var y2 :| OccursAt(r2, b, y2);
      if e1 < e2 {
        assert OccursAt(a[e1 - |r1|..e1], b, y1);
        assert CommonEndingAt(a, b, |r2|, e1);
        assert false;
      } else if e2 < e1 {
        assert OccursAt(a[e2 - |r2|..e2], b, y2);
        assert CommonEndingAt(a, b, |r1|, e2);
        assert false;
      }
    }
  }

  /** The result is empty exactly when the two sequences share no element. */
  lemma EmptyIffNothingShared<T>(a: seq<T>, b: seq<T>)
    ensures LongestCommonSubstring(a, b) == [] <==>
              forall x, y :: 0 <= x < |a| && 0 <= y < |b| ==> a[x] != b[y]
  {
    var r := LongestCommonSubstring(a, b);
    var _ := ResultIsCommonAndFirst(a, b);
    if exists x, y :: 0 <= x < |a| && 0 <= y < |b| && a[x] == b[y] {
      var x, y :| 0 <= x < |a| && 0 <= y < |b| && a[x] == b[y];
      assert OccursAt([a[x]], a, x) && OccursAt([a[x]], b, y);
      ResultIsMaximal(a, b, [a[x]]);
    }
    if r != [] {
      var x :| OccursAt(r, a, x);
      var y :| OccursAt(r, b, y);
      assert a[x] == r[0] == b[y];
    }
  }

  /** A non-empty sequence compared with itself yields the whole sequence. */
  lemma SelfComparisonIsWhole<T>(a: seq<T>)
    requires |a| > 0
    ensures LongestCommonSubstring(a, a) == a
  {
    var r := LongestCommonSubstring(a, a);
    var _ := ResultIsCommonAndFirst(a, a);
    assert OccursAt(a, a, 0);
    ResultIsMaximal(a, a, a);
    var x :| OccursAt(r, a, x);
    assert x == 0;
  }

  /** Rows 0 .. i-1 of the table hold their cells' values and every later row
      still holds the table's initial zero. */
  ghost predicate RowsFilled<T>(a: seq<T>, b: seq<T>, dp: array2<int>, i: int)
    reads dp
  {
    && dp.Length0 == |a| + 1 && dp.Length1 == |b| + 1
    && (forall r, c :: 0 <= r < i && r <= |a| && 0 <= c <= |b| ==> dp[r, c] == Run(a, b, r, c))
    && (forall r, c :: i <= r <= |a| && 0 <= r && 0 <= c <= |b| ==> dp[r, c] == 0)
  }

  /** One pass of the inner loop of `lcs` (lines 66-74): fills row `i` and
      carries the best length and its row across it. */
  method FillRow<T(==)>(a: seq<T>, b: seq<T>, dp: array2<int>, i: nat, length0: int, endPos0: int)
    returns (length: int, endPos: int)
    requires 1 <= i <= |a|
    requires RowsFilled(a, b, dp, i)
    requires length0 == ScanRows(a, b, i - 1).length && endPos0 == ScanRows(a, b, i - 1).endPos
    modifies dp
    ensures RowsFilled(a, b, dp, i + 1)
    ensures length == ScanRows(a, b, i).length && endPos == ScanRows(a, b, i).endPos
  {
    var m := |b|;
    length, endPos := length0, endPos0;
    var j := 1;
    while j <= m
      invariant 1 <= j <= m + 1
      invariant dp.Length0 == |a| + 1 && dp.Length1 == m + 1
      invariant forall r, c :: 0 <= r < i && 0 <= c <= m ==> dp[r, c] == Run(a, b, r, c)
      invariant forall c :: 0 <= c < j ==> dp[i, c] == Run(a, b, i, c)
      invariant forall c :: j <= c <= m ==> dp[i, c] == 0
      invariant forall r, c :: i < r <= |a| && 0 <= c <= m ==> dp[r, c] == 0
      invariant length == ScanRow(a, b, i, j - 1, ScanRows(a, b, i - 1)).length
      invariant endPos == ScanRow(a, b, i, j - 1, ScanRows(a, b, i - 1)).endPos
    {
      if a[i - 1] == b[j - 1] {
        dp[i, j] := dp[i - 1, j - 1] + 1;
        if dp[i, j] > length {
          length := dp[i, j];
          endPos := i;
        }
      }
      j := j + 1;
    }
  }

  /** The `lcs` routine itself: fills the (|a|+1) x (|b|+1) table row by row,
      writing a cell only when the characters match (other cells keep the
      table's initial zero), and tracks the best length and its row. */
  method Lcs<T(==,!new)>(a: seq<T>, b: seq<T>) returns (r: seq<T>)
    ensures r == LongestCommonSubstring(a, b)
    ensures IsPickedLcs(r, a, b)
  {
    var n, m := |a|, |b|;
    var dp := new int[n + 1, m + 1]((_, _) => 0);
    var length, endPos := 0, 0;
    var i := 1;
    while i <= n
      invariant 1 <= i <= n + 1
      invariant RowsFilled(a, b, dp, i)
      invariant length == ScanRows(a, b, i - 1).length && endPos == ScanRows(a, b, i - 1).endPos
    {
      length, endPos := FillRow(a, b, dp, i, length, endPos);
      i := i + 1;
    }
    if length == 0 {
      r := [];
    } else {
      r := a[endPos - length..endPos];
    }
    LongestCommonSubstringIsPicked(a, b);
  }

  /** The tie-break follows the first argument, so swapping the arguments can
      change the answer: "ab" against "ba" gives "a" ... */
  lemma ResultDependsOnArgumentOrder()
    ensures LongestCommonSubstring("ab", "ba") == "a"
  {
    var a: seq<char>, b: seq<char> := "ab", "ba";
    assert Run(a, b, 1, 2) == 1 && Run(a, b, 2, 1) == 1 && Run(a, b, 1, 1) == 0 && Run(a, b, 2, 2) == 0;
    assert ScanRow(a, b, 1, 2, Best(0, 0)) == Best(1, 1) by {
      assert ScanRow(a, b, 1, 1, Best(0, 0)) == Best(0, 0);
    }
    assert ScanRows(a, b, 2) == Best(1, 1) by {
      assert ScanRows(a, b, 1) == Best(1, 1);
      assert ScanRow(a, b, 2, 1, Best(1, 1)) == Best(1, 1);
    }
  }

  /** ... and "ba" against "ab" gives "b". */
  lemma ResultDependsOnArgumentOrderSwapped()
    ensures LongestCommonSubstring("ba", "ab") == "b"
  {
    var a: seq<char>, b: seq<char> := "ba", "ab";
    assert Run(a, b, 1, 2) == 1 && Run(a, b, 2, 1) == 1 && Run(a, b, 1, 1) == 0 && Run(a, b, 2, 2) == 0;
    assert ScanRow(a, b, 1, 2, Best(0, 0)) == Best(1, 1) by {
      assert ScanRow(a, b, 1, 1, Best(0, 0)) == Best(0, 0);
    }
    assert ScanRows(a, b, 2) == Best(1, 1) by {
      assert ScanRows(a, b, 1) == Best(1, 1);
      assert ScanRow(a, b, 2, 1, Best(1, 1)) == Best(1, 1);
    }
  }

  /** The extractor is not symmetric: swapping the arguments changes the answer. */
  lemma ArgumentOrderMatters()
    ensures LongestCommonSubstring("ab", "ba") != LongestCommonSubstring("ba", "ab")
  {
    ResultDependsOnArgumentOrder();
    ResultDependsOnArgumentOrderSwapped();
  }
}
