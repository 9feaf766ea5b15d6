/**
 The similarity scorer `calcularSimilitud` (plagio1.go:130-142): mines the
 fragments, adds up their lengths and divides by the floor average of the two
 ORIGINAL text lengths, as a percentage rounded half away from zero.
 */
module Scoring {
  import opened Words
  import opened Miner
  import opened Arithmetic

  /** The float64 the program produces: a whole percentage, or NaN when the
      average length is 0 (Go's 0.0 / 0.0). */
  datatype Score = Percent(value: nat) | NaN

  /** `math.Round(common / total * 100)` in exact arithmetic: the whole number
      nearest to 100 * common / total, halves rounded up. */
  function RoundedPercent(common: nat, total: nat): (p: nat)
    requires total > 0
    ensures (2 * p - 1) * total <= 200 * common < (2 * p + 1) * total
  {
    var q := (200 * common + total) / (2 * total);
    var rem := (200 * common + total) % (2 * total);
    assert 200 * common + total == q * (2 * total) + rem;
    assert (2 * q - 1) * total == q * (2 * total) - total;
    assert (2 * q + 1) * total == q * (2 * total) + total;
    q
  }

  /** A percentage of at most the whole is at most 100. */
  lemma RoundedPercentAtMostHundred(common: nat, total: nat)
    requires 0 < total && common <= total
    ensures RoundedPercent(common, total) <= 100
  {
    var p := RoundedPercent(common, total);
    if p > 100 {
      MultiplyMonotone(201, 2 * p - 1, total);
      assert false;
    }
  }

  /** The score of one pair and the fragments behind it. */
  datatype Comparison = Comparison(similarity: Score, fragments: seq<Text>)

  /** `calcularSimilitud`: the score lies in [0, 100] whenever the average
      length is positive, and is NaN exactly when it is 0. */
  function Similarity(text1: Text, text2: Text, minLength: int): (c: Comparison)
    requires minLength >= 1
    ensures c.fragments == Mine(text1, text2, minLength)
    ensures c.similarity == NaN <==> (|text1| + |text2|) / 2 == 0
    ensures c.similarity.Percent? ==> c.similarity.value <= 100
    ensures c.similarity.Percent? ==>
              var total := (|text1| + |text2|) / 2;
              var common := TotalLength(c.fragments);
              (2 * c.similarity.value - 1) * total <= 200 * common < (2 * c.similarity.value + 1) * total
  {
    var commonSubstrings := Mine(text1, text2, minLength);
    var totalLengthCommon := TotalLength(commonSubstrings);
    var totalLength := (|text1| + |text2|) / 2;
    MinedLengthBounded(text1, text2, minLength);
    if totalLength == 0 then
      Comparison(NaN, commonSubstrings)
    else
      RoundedPercentAtMostHundred(totalLengthCommon, totalLength);
      Comparison(Percent(RoundedPercent(totalLengthCommon, totalLength)), commonSubstrings)
  }

  /** With a zero average length nothing can be mined, so Go divides 0 by 0. */
  lemma ZeroAverageMeansNothingMined(text1: Text, text2: Text, minLength: int)
    requires minLength >= 1
    requires (|text1| + |text2|) / 2 == 0
    ensures TotalLength(Mine(text1, text2, minLength)) == 0
  {
    MinedLengthBounded(text1, text2, minLength);
  }
}
