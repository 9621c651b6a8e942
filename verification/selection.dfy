/**
 * The "keep the first strictly better score" loop that appears twice in the
 * repository: over metadata fields in render_deploy/src/utils/text_processing.py
 * (`if sim > best_score`) and over page texts in src/main.py
 * (`if similarity > best_similarity`). Entries that the loop `continue`s past
 * carry no score.
 */
module Selection {
  import opened Wrappers

  /** The index kept by the loop (`None` while nothing beat the start value) and its score. */
  datatype Pick = Pick(index: Option<nat>, score: real)

  /**
   * `p` is what the loop ends with when it starts from (`None`, `floor`):
   * either no score beats `floor`, or `p` names the earliest entry holding the
   * greatest score, and that score beats `floor`.
   */
  ghost predicate IsFirstBest(scores: seq<Option<real>>, floor: real, p: Pick) {
    match p.index
    case None =>
      && p.score == floor
      && forall j :: 0 <= j < |scores| && scores[j].Some? ==> scores[j].value <= floor
    case Some(k) =>
      && k < |scores| && scores[k] == Some(p.score) && p.score > floor
      && (forall j :: 0 <= j < k && scores[j].Some? ==> scores[j].value < p.score)
      && (forall j :: k < j < |scores| && scores[j].Some? ==> scores[j].value <= p.score)
  }

  /** The loop itself, read as a fold from the left. */
  function FirstBest(scores: seq<Option<real>>, floor: real): (p: Pick)
    ensures IsFirstBest(scores, floor, p)
    decreases |scores|
  {
    if scores == [] then Pick(None, floor)
    else
      var earlier := scores[..|scores| - 1];
      var prev := FirstBest(earlier, floor);
      assert forall j :: 0 <= j < |earlier| ==> earlier[j] == scores[j];
      var last := scores[|scores| - 1];
      if last.Some? && last.value > prev.score then Pick(Some(|scores| - 1), last.value) else prev
  }

  /** At most one pick fits the description, so the loop's result is determined by it. */
  lemma FirstBestUnique(scores: seq<Option<real>>, floor: real, p: Pick, q: Pick)
    requires IsFirstBest(scores, floor, p) && IsFirstBest(scores, floor, q)
    ensures p == q
  {
  }
}
