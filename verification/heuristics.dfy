/**
 * The two rational significance heuristics, JLH and PercentageScore.
 * Arguments are `(subsetFreq, subsetSize, supersetFreq, supersetSize)`:
 * foreground document frequency, foreground size, background document
 * frequency, background size.
 */
module Heuristics {
  import opened Types

  /**
   * JLH: with `fgPct = subsetFreq / subsetSize` and
   * `bgPct = supersetFreq / supersetSize`, the score is
   * `(fgPct - bgPct) * (fgPct / bgPct)` when `fgPct > bgPct` and 0 otherwise;
   * any zero size or zero background frequency scores 0.
   */
  function JlhScore(subsetFreq: nat, subsetSize: nat, supersetFreq: nat, supersetSize: nat): (r: real)
    ensures subsetSize == 0 || supersetSize == 0 || supersetFreq == 0 ==> r == 0.0
    ensures r >= 0.0
  {
    if subsetSize == 0 || supersetSize == 0 || supersetFreq == 0 then 0.0
    else
      var fgPct := subsetFreq as real / subsetSize as real;
      var bgPct := supersetFreq as real / supersetSize as real;
      assert bgPct > 0.0;
      if fgPct > bgPct then
        assert fgPct / bgPct > 0.0;
        (fgPct - bgPct) * (fgPct / bgPct)
      else 0.0
  }

  lemma RatioCompare(a: nat, b: nat, c: nat, d: nat)
    requires b > 0 && d > 0
    ensures a as real / b as real > c as real / d as real <==> a * d > c * b
  {
    var x := a as real / b as real;
    var y := c as real / d as real;
    assert x * b as real == a as real;
    assert y * d as real == c as real;
    assert (a * d) as real == x * (b * d) as real;
    assert (c * b) as real == y * (b * d) as real;
    assert (b * d) as real > 0.0;
  }

  /**
   * JLH is positive exactly when all guards pass and the foreground rate
   * beats the background rate, compared here by cross-multiplication.
   */
  lemma JlhPositiveIff(subsetFreq: nat, subsetSize: nat, supersetFreq: nat, supersetSize: nat)
    ensures JlhScore(subsetFreq, subsetSize, supersetFreq, supersetSize) > 0.0
        <==> subsetSize > 0 && supersetSize > 0 && supersetFreq > 0
             && subsetFreq * supersetSize > supersetFreq * subsetSize
  {
    if subsetSize > 0 && supersetSize > 0 && supersetFreq > 0 {
      RatioCompare(subsetFreq, subsetSize, supersetFreq, supersetSize);
      var fgPct := subsetFreq as real / subsetSize as real;
      var bgPct := supersetFreq as real / supersetSize as real;
      if fgPct > bgPct {
        assert fgPct - bgPct > 0.0;
        assert fgPct / bgPct > 0.0;
        assert (fgPct - bgPct) * (fgPct / bgPct) > 0.0;
      }
    }
  }

  /** A term absent from the foreground never scores under JLH. */
  lemma JlhZeroForeground(subsetSize: nat, supersetFreq: nat, supersetSize: nat)
    ensures JlhScore(0, subsetSize, supersetFreq, supersetSize) == 0.0
  {
    JlhPositiveIff(0, subsetSize, supersetFreq, supersetSize);
  }

  /** PercentageScore: `subsetFreq / supersetFreq`, or 0 when the background frequency is 0. */
  function PercentageScore(subsetFreq: nat, subsetSize: nat, supersetFreq: nat, supersetSize: nat): (r: real)
    ensures supersetFreq == 0 ==> r == 0.0
    ensures supersetFreq > 0 ==> r * supersetFreq as real == subsetFreq as real
    ensures r >= 0.0
    ensures subsetFreq <= supersetFreq ==> r <= 1.0
  {
    if supersetFreq == 0 then 0.0 else subsetFreq as real / supersetFreq as real
  }

  /** PercentageScore ignores both sample sizes. */
  lemma PercentageIgnoresSizes(subsetFreq: nat, supersetFreq: nat, s1: nat, b1: nat, s2: nat, b2: nat)
    ensures PercentageScore(subsetFreq, s1, supersetFreq, b1) == PercentageScore(subsetFreq, s2, supersetFreq, b2)
  {
  }

  const Jlh: SignificanceHeuristic := SignificanceHeuristic("jlh", JlhScore)
  const Percentage: SignificanceHeuristic := SignificanceHeuristic("percentage", PercentageScore)

  /** `JLH.score(10, 100, 5, 1000) > 0`: a 10% foreground rate against a 0.5% background rate. */
  lemma JlhExample()
    ensures Jlh.score(10, 100, 5, 1000) > 0.0
  {
    JlhPositiveIff(10, 100, 5, 1000);
  }
}
