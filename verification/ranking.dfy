/**
 The pair ranker inside `compararArchivosHTML` (plagio1.go:160-174): one result
 per pair i < j of documents, sorted by descending score and cut to the first
 ten. The slice `[:10]` is modelled as written (it fails on fewer than ten
 pairs) and in corrected form (at most ten, never failing).
 */
module Ranking {
  import opened Words
  import opened Miner
  import opened Scoring
  import opened Arithmetic

  /** A loaded file: its path and its content. */
  datatype Document = Document(name: string, text: Text)

  /** One row of `resultados`; the highlighted copies of the two texts are
      presentation and are not kept. */
  datatype PairResult = PairResult(file1: string, file2: string, similarity: Score, fragments: seq<Text>)

  /** Pair `p` comes strictly before pair `q` in the loops' order. */
  predicate PairBefore(p: (nat, nat), q: (nat, nat))
  {
    p.0 < q.0 || (p.0 == q.0 && p.1 < q.1)
  }

  /** The inner loop for a fixed `i`: pairs (i, j), (i, j+1), .., (i, n-1). */
  function RowPairs(i: nat, j: nat, n: nat): (ps: seq<(nat, nat)>)
    requires j <= n
    ensures |ps| == n - j
    ensures forall k :: 0 <= k < |ps| ==> ps[k] == (i, j + k)
    decreases n - j
  {
    if j == n then [] else [(i, j)] + RowPairs(i, j + 1, n)
  }

  /** Both loops from outer index `i` on (lines 161-162): every pair a < b of
      indices with i <= a, once each, in increasing order, n(n-1)/2 in all
      when i = 0. */
  function PairsFrom(i: nat, n: nat): (ps: seq<(nat, nat)>)
    requires i <= n
    ensures 2 * |ps| == (n - i) * (n - i - 1)
    ensures forall k :: 0 <= k < |ps| ==> i <= ps[k].0 < ps[k].1 < n
    ensures forall a, b :: i <= a < b < n ==> (a, b) in ps
    ensures forall k, l :: 0 <= k < l < |ps| ==> PairBefore(ps[k], ps[l])
    decreases n - i
  {
    if i + 1 >= n then []
    else
      var row := RowPairs(i, i + 1, n);
      var rest := PairsFrom(i + 1, n);
      var d := n - i - 1;
      assert 2 * d + d * (d - 1) == (d + 1) * d;
      assert forall a, b :: i <= a < b < n && a == i ==> row[b - i - 1] == (a, b);
      row + rest
  }

  function PairIndices(n: nat): seq<(nat, nat)>
  {
    PairsFrom(0, n)
  }

  /** Scores one pair of documents (line 163). */
  function Compare(d1: Document, d2: Document, minLength: int): PairResult
    requires minLength >= 1
  {
    var c := Similarity(d1.text, d2.text, minLength);
    PairResult(d1.name, d2.name, c.similarity, c.fragments)
  }

  /** `resultados` before sorting: one result per pair, in loop order. */
  function PairResults(docs: seq<Document>, minLength: int): (rs: seq<PairResult>)
    requires minLength >= 1
  {
    var ps := PairIndices(|docs|);
    seq(|ps|, k requires 0 <= k < |ps| => Compare(docs[ps[k].0], docs[ps[k].1], minLength))
  }

  /** Every unordered pair is compared exactly once, never a document with
      itself: n(n-1)/2 results, the k-th for the k-th pair i < j. */
  lemma PairResultsCoverEveryPair(docs: seq<Document>, minLength: int)
    requires minLength >= 1
    ensures 2 * |PairResults(docs, minLength)| == |docs| * (|docs| - 1)
    ensures forall k :: 0 <= k < |PairResults(docs, minLength)| ==>
              var p := PairIndices(|docs|)[k];
              p.0 < p.1 < |docs| && PairResults(docs, minLength)[k] == Compare(docs[p.0], docs[p.1], minLength)
    ensures forall i, j :: 0 <= i < j < |docs| ==> (i, j) in PairIndices(|docs|)
    ensures forall k, l :: 0 <= k < l < |PairIndices(|docs|)| ==> PairIndices(|docs|)[k] != PairIndices(|docs|)[l]
  {
  }

  /** The sort key: Go compares float64 scores with `>`; NaN is placed last. */
  function ScoreKey(s: Score): int
  {
    match s
    case Percent(v) => v
    case NaN => -1
  }

  /** Go's `x > y` on float64 scores: false whenever either is NaN. */
  predicate Exceeds(x: Score, y: Score)
  {
    x.Percent? && y.Percent? && x.value > y.value
  }

  ghost predicate SortedByScore(rs: seq<PairResult>)
  {
    forall k, l :: 0 <= k < l < |rs| ==> ScoreKey(rs[k].similarity) >= ScoreKey(rs[l].similarity)
  }

  function Insert(x: PairResult, rs: seq<PairResult>): (r: seq<PairResult>)
    requires SortedByScore(rs)
    ensures SortedByScore(r)
    ensures multiset(r) == multiset(rs) + multiset{x}
  {
    if |rs| == 0 then [x]
    else if ScoreKey(x.similarity) >= ScoreKey(rs[0].similarity) then [x] + rs
    else
      var tail := Insert(x, rs[1..]);
      assert rs == [rs[0]] + rs[1..];
      HeadStillFirst(rs[0], x, rs[1..], tail);
      [rs[0]] + tail
  }

  /** An element scoring at least as high as `x` and as everything in `rest`
      scores at least as high as every element of a permutation of both. */
  lemma HeadStillFirst(h: PairResult, x: PairResult, rest: seq<PairResult>, tail: seq<PairResult>)
    requires ScoreKey(h.similarity) >= ScoreKey(x.similarity)
    requires forall l :: 0 <= l < |rest| ==> ScoreKey(h.similarity) >= ScoreKey(rest[l].similarity)
    requires multiset(tail) == multiset(rest) + multiset{x}
    ensures forall l :: 0 <= l < |tail| ==> ScoreKey(h.similarity) >= ScoreKey(tail[l].similarity)
  {
    forall l | 0 <= l < |tail|
      ensures ScoreKey(h.similarity) >= ScoreKey(tail[l].similarity)
    {
      assert tail[l] in multiset(tail);
      if tail[l] != x {
        assert tail[l] in multiset(rest);
        var m :| 0 <= m < |rest| && rest[m] == tail[l];
      }
    }
  }

  /** `sort.Slice` with `Similitud > Similitud` (lines 170-172): a
      permutation in which no later score exceeds an earlier one. */
  function SortByScore(rs: seq<PairResult>): (r: seq<PairResult>)
    ensures multiset(r) == multiset(rs)
    ensures SortedByScore(r)
    ensures forall k, l :: 0 <= k < l < |r| ==> !Exceeds(r[l].similarity, r[k].similarity)
  {
    if |rs| == 0 then []
    else
      assert rs == [rs[0]] + rs[1..];
      Insert(rs[0], SortByScore(rs[1..]))
  }

  /** The outcome of `resultados[:10]` as written. */
  datatype Outcome = Panic | Report(entries: seq<PairResult>)

  /** `resultados[:10]` as written (line 174): fails when fewer than ten
      results exist, otherwise keeps exactly the first ten. */
  function SliceTopTen(rs: seq<PairResult>): (o: Outcome)
    ensures o.Panic? <==> |rs| < 10
    ensures o.Report? ==> |o.entries| == 10 && o.entries <= rs
  {
    if |rs| < 10 then Panic else Report(rs[..10])
  }

  /** The guarded cut: the first min(n, |rs|) results, never failing. */
  function TopN(rs: seq<PairResult>, n: nat): (r: seq<PairResult>)
    ensures |r| == if |rs| < n then |rs| else n
    ensures r <= rs
  {
    if |rs| < n then rs else rs[..n]
  }

  /** `compararArchivosHTML` after the files are read, as written. */
  function RankAsWritten(docs: seq<Document>, minLength: int): Outcome
    requires minLength >= 1
  {
    SliceTopTen(SortByScore(PairResults(docs, minLength)))
  }

  /** The ranker with the guarded cut. */
  function Rank(docs: seq<Document>, minLength: int): seq<PairResult>
    requires minLength >= 1
  {
    TopN(SortByScore(PairResults(docs, minLength)), 10)
  }

  /** The as-written ranker fails exactly when there are fewer than five
      files (fewer than ten pairs), including the empty and one-file corpus. */
  lemma RankAsWrittenPanicsBelowFiveFiles(docs: seq<Document>, minLength: int)
    requires minLength >= 1
    ensures RankAsWritten(docs, minLength).Panic? <==> |docs| < 5
  {
    var rs := PairResults(docs, minLength);
    assert 2 * |rs| == |docs| * (|docs| - 1) by {
      assert |rs| == |PairsFrom(0, |docs|)|;
    }
    assert |SortByScore(rs)| == |rs| by {
      assert |multiset(SortByScore(rs))| == |multiset(rs)|;
    }
    PairCountBelowTen(|docs|);
  }

  /** Wherever the as-written slice succeeds, the guarded ranker returns the
      same ten results. */
  lemma RankAgreesWithAsWritten(docs: seq<Document>, minLength: int)
    requires minLength >= 1
    requires RankAsWritten(docs, minLength).Report?
    ensures Rank(docs, minLength) == RankAsWritten(docs, minLength).entries
  {
  }

  /** Cutting a sorted list keeps its highest-scoring entries: nothing left
      out scores above anything kept. */
  lemma TopOfSortedIsHighest(sorted: seq<PairResult>, n: nat)
    requires SortedByScore(sorted)
    ensures multiset(TopN(sorted, n)) <= multiset(sorted)
    ensures forall x, e :: (x in multiset(sorted) - multiset(TopN(sorted, n)) && e in TopN(sorted, n)) ==>
              ScoreKey(x.similarity) <= ScoreKey(e.similarity)
  {
    var r := TopN(sorted, n);
    var cut := |r|;
    assert sorted == r + sorted[cut..];
    assert multiset(sorted) == multiset(r) + multiset(sorted[cut..]);
    forall x, e | x in multiset(sorted) - multiset(r) && e in r
      ensures ScoreKey(x.similarity) <= ScoreKey(e.similarity)
    {
      assert x in multiset(sorted[cut..]);
      var l :| 0 <= l < |sorted| - cut && sorted[cut..][l] == x;
      var k :| 0 <= k < cut && r[k] == e;
      assert sorted[k] == e && sorted[cut + l] == x;
    }
  }

  /** Every result the ranker reports is the comparison of some pair i < j. */
  lemma RankEntriesArePairs(docs: seq<Document>, minLength: int)
    requires minLength >= 1
    ensures forall e :: e in Rank(docs, minLength) ==>
              exists i, j :: 0 <= i < j < |docs| && e == Compare(docs[i], docs[j], minLength)
  {
    var all := PairResults(docs, minLength);
    var sorted := SortByScore(all);
    var r := Rank(docs, minLength);
    PairResultsCoverEveryPair(docs, minLength);
    forall e | e in r
      ensures exists i, j :: 0 <= i < j < |docs| && e == Compare(docs[i], docs[j], minLength)
    {
      assert e in multiset(sorted);
      assert e in multiset(all);
      var k :| 0 <= k < |all| && all[k] == e;
      var p := PairIndices(|docs|)[k];
      assert e == Compare(docs[p.0], docs[p.1], minLength);
    }
  }

  /** A prefix of a sorted list is sorted. */
  lemma TopOfSortedIsSorted(sorted: seq<PairResult>, n: nat)
    requires SortedByScore(sorted)
    ensures SortedByScore(TopN(sorted, n))
  {
    var r := TopN(sorted, n);
    forall k, l | 0 <= k < l < |r|
      ensures ScoreKey(r[k].similarity) >= ScoreKey(r[l].similarity)
    {
      assert r[k] == sorted[k] && r[l] == sorted[l];
    }
  }

  /** What the guarded ranker returns: min(10, number of pairs) results,
      sorted, drawn from the pair results without repetition, and no pair
      left out scores above any pair kept. */
  lemma RankIsTopTen(docs: seq<Document>, minLength: int)
    requires minLength >= 1
    ensures var all := PairResults(docs, minLength);
            |Rank(docs, minLength)| == if |all| < 10 then |all| else 10
    ensures SortedByScore(Rank(docs, minLength))
    ensures multiset(Rank(docs, minLength)) <= multiset(PairResults(docs, minLength))
    ensures forall x, e :: (x in multiset(PairResults(docs, minLength)) - multiset(Rank(docs, minLength))
              && e in Rank(docs, minLength)) ==> ScoreKey(x.similarity) <= ScoreKey(e.similarity)
  {
    var sorted := SortByScore(PairResults(docs, minLength));
    TopOfSortedIsHighest(sorted, 10);
    TopOfSortedIsSorted(sorted, 10);
  }
}
