/**
 * Score fusion and the advice tier: the heuristic score is blended 0.6/0.4
 * with the classifier's score when there is one, and the final score is
 * mapped to a Low / Medium / High advice.
 */
module Fusion {
  import opened Wrappers

  /** `round(0.6 * h + 0.4 * m)`. Since 0.6h + 0.4m = (3h + 2m) / 5, its fractional part is a
      multiple of 0.2 and never 0.5, so rounding to nearest is exact: floor((6h + 4m + 5) / 10). */
  function Blend(h: int, m: int): (r: int)
    ensures -5 < 10 * r - (6 * h + 4 * m) < 5
    ensures (if h < m then h else m) <= r <= (if h < m then m else h)
  {
    (6 * h + 4 * m + 5) / 10
  }

  /** The blended value is the unique integer nearest to 0.6h + 0.4m. */
  lemma BlendIsNearest(h: int, m: int, k: int)
    requires -5 < 10 * k - (6 * h + 4 * m) < 5
    ensures k == Blend(h, m)
  {
  }

  /** `combine_scores(heur, ml_prob)`, given `ml_score = round(ml_prob * 100)` when a
      probability is present: without one the heuristic score is returned unchanged;
      with one the blend is clamped to [0,100]. */
  function CombineScores(heur: int, mlScore: Option<int>): (r: int)
    ensures mlScore.None? ==> r == heur
    ensures mlScore.Some? ==> 0 <= r <= 100
    ensures mlScore.Some? && 0 <= heur <= 100 && 0 <= mlScore.value <= 100 ==>
      r == Blend(heur, mlScore.value)
      && (if heur < mlScore.value then heur else mlScore.value) <= r
      && r <= (if heur < mlScore.value then mlScore.value else heur)
  {
    match mlScore
    case None => heur
    case Some(m) =>
      var combined := Blend(heur, m);
      if combined < 0 then 0 else if combined > 100 then 100 else combined
  }

  /** A certain-phishing classifier lifts a zero heuristic to 40; a certain-benign one pulls
      a full heuristic down to 60. */
  lemma CombineExamples()
    ensures CombineScores(0, Some(100)) == 40
    ensures CombineScores(100, Some(0)) == 60
    ensures AdviceFor(40) == Medium && AdviceFor(60) == Medium
  {
  }

  datatype Advice = Low | Medium | High

  /** The advice expression of the scan handler. */
  function AdviceFor(final: int): Advice {
    if final >= 70 then High else if final >= 40 then Medium else Low
  }

  /** The text the handler returns for each tier. */
  function AdviceText(a: Advice): string {
    match a
    case High => "High risk — do NOT click."
    case Medium => "Medium risk — be cautious."
    case Low => "Low risk."
  }

  /** Each tier has its own text, so the text tells the tier. */
  lemma AdviceTextDistinct(a: Advice, b: Advice)
    ensures AdviceText(a) == AdviceText(b) <==> a == b
  {
    assert AdviceText(High)[0] == 'H' && AdviceText(Medium)[0] == 'M' && AdviceText(Low)[0] == 'L';
  }

  /** The tiers are exact and cover every score. */
  lemma AdviceTiers(final: int)
    ensures AdviceFor(final) == High <==> final >= 70
    ensures AdviceFor(final) == Medium <==> 40 <= final < 70
    ensures AdviceFor(final) == Low <==> final < 40
  {
  }

  /** A higher final score never gets a milder advice. */
  lemma AdviceMonotone(a: int, b: int)
    requires a <= b
    ensures AdviceFor(a) == High ==> AdviceFor(b) == High
    ensures AdviceFor(b) == Low ==> AdviceFor(a) == Low
  {
  }
}
