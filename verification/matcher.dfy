/**
 * `safe_best_match` of render_deploy/src/utils/text_processing.py: the guards
 * around the TF-IDF step, the choice of the returned text, and numpy's
 * `argmax`. The vectoriser and the cosine similarity are an oracle.
 */
module Matcher {
  import opened Wrappers
  import opened Text
  import opened Cleaning

  /** What `fit_transform` followed by `cosine_similarity` yields: an exception, or one score per candidate. */
  datatype Vectorized = ValueError | Similarities(sims: seq<real>)

  /** Cosine similarity gives one value in [0, 1] for each of the `n` candidates. */
  ghost predicate Fits(v: Vectorized, n: nat) {
    v.Similarities? ==> |v.sims| == n && forall i :: 0 <= i < |v.sims| ==> 0.0 <= v.sims[i] <= 1.0
  }

  /**
   * The TF-IDF vectoriser (English stop words) and cosine similarity, from the
   * cleaned query and the cleaned candidate list; left uninterpreted.
   */
  type Vectorizer = f: (string, seq<string>) -> Vectorized
    | forall query, pool :: Fits(f(query, pool), |pool|)
    witness (query: string, pool: seq<string>) => ValueError

  /** The `(best_text, similarity)` pair. */
  datatype Match = Match(text: string, score: real)

  /** The `("", 0.0)` answer of the guards and of the `ValueError` handler. */
  const NoMatch := Match("", 0.0)

  /** numpy's `argmax`: the first index holding the greatest value. */
  function ArgMax(xs: seq<real>): (i: nat)
    requires |xs| > 0
    ensures i < |xs|
    ensures forall j :: 0 <= j < |xs| ==> xs[j] <= xs[i]
    ensures forall j :: 0 <= j < i ==> xs[j] < xs[i]
    decreases |xs|
  {
    if |xs| == 1 then 0
    else
      var init := xs[..|xs| - 1];
      var k := ArgMax(init);
      assert forall j :: 0 <= j < |init| ==> init[j] == xs[j];
      if xs[|xs| - 1] > xs[k] then |xs| - 1 else k
  }

  /** No candidate has anything left once cleaned. */
  predicate AllBlank(stripUrls: UrlStripper, candidates: seq<string>) {
    forall i :: 0 <= i < |candidates| ==> Clean(stripUrls, candidates[i]) == []
  }

  /** `[clean_text(c.lower()) for c in candidates if clean_text(c)]`. */
  function CleanedCandidates(stripUrls: UrlStripper, candidates: seq<string>): (pool: seq<string>)
    ensures |pool| <= |candidates|
    ensures pool == [] <==> AllBlank(stripUrls, candidates)
    decreases |candidates|
  {
    if candidates == [] then []
    else
      var head := Clean(stripUrls, candidates[0]);
      var rest := CleanedCandidates(stripUrls, candidates[1..]);
      if head != [] then [Clean(stripUrls, Lower(candidates[0]))] + rest
      else
        AllBlankTail(stripUrls, candidates);
        rest
  }

  /** A pool entry is the cleaned, lower-cased form of a candidate that has something left once cleaned. */
  lemma {:induction false} CleanedCandidatesMembers(stripUrls: UrlStripper, candidates: seq<string>, p: string)
    ensures p in CleanedCandidates(stripUrls, candidates) <==>
      exists c :: c in candidates && Clean(stripUrls, c) != [] && p == Clean(stripUrls, Lower(c))
    decreases |candidates|
  {
    if candidates != [] {
      CleanedCandidatesMembers(stripUrls, candidates[1..], p);
      if exists c :: c in candidates && Clean(stripUrls, c) != [] && p == Clean(stripUrls, Lower(c)) {
        var c :| c in candidates && Clean(stripUrls, c) != [] && p == Clean(stripUrls, Lower(c));
        if c != candidates[0] {
          assert c in candidates[1..];
        }
      }
    }
  }

  /** The pool keeps the candidates' order: the pool of two lists in turn is the pool of each, in turn. */
  lemma {:induction false} CleanedCandidatesAppend(stripUrls: UrlStripper, a: seq<string>, b: seq<string>)
    ensures CleanedCandidates(stripUrls, a + b) == CleanedCandidates(stripUrls, a) + CleanedCandidates(stripUrls, b)
    decreases |a|
  {
    if a == [] {
      assert a + b == b;
    } else {
      assert (a + b)[0] == a[0];
      assert (a + b)[1..] == a[1..] + b;
      CleanedCandidatesAppend(stripUrls, a[1..], b);
    }
  }

  lemma AllBlankTail(stripUrls: UrlStripper, candidates: seq<string>)
    requires candidates != [] && Clean(stripUrls, candidates[0]) == []
    ensures AllBlank(stripUrls, candidates) <==> AllBlank(stripUrls, candidates[1..])
  {
    if AllBlank(stripUrls, candidates[1..]) {
      forall i | 1 <= i < |candidates|
        ensures Clean(stripUrls, candidates[i]) == []
      {
        assert candidates[i] == candidates[1..][i - 1];
      }
    }
  }

  /**
   * `safe_best_match(query, candidates)`. The score is always in [0, 1], the
   * text is `""` or one of the candidates as given, and each of the three
   * guarded cases answers `("", 0.0)`.
   */
  function SafeBestMatch(stripUrls: UrlStripper, vectorize: Vectorizer, query: string, candidates: seq<string>): (r: Match)
    ensures 0.0 <= r.score <= 1.0
    ensures r.text == "" || r.text in candidates
    ensures Clean(stripUrls, Lower(query)) == [] ==> r == NoMatch
    ensures AllBlank(stripUrls, candidates) ==> r == NoMatch
  {
    var q := Clean(stripUrls, Lower(query));
    var pool := CleanedCandidates(stripUrls, candidates);
    if q == [] || pool == [] then NoMatch
    else
      match vectorize(q, pool)
      case ValueError => NoMatch
      case Similarities(sims) =>
        assert Fits(vectorize(q, pool), |pool|);
        var i := ArgMax(sims);
        // the index ranges over the filtered pool but selects from the unfiltered list
        Match(candidates[i], sims[i])
  }

  /**
   * Past the guards, the score is the greatest similarity the oracle reports,
   * and the text is the candidate at the first position holding it, counted in
   * the original list; a `ValueError` gives `("", 0.0)`.
   */
  lemma SafeBestMatchPicksMaximum(stripUrls: UrlStripper, vectorize: Vectorizer, query: string, candidates: seq<string>)
    requires Clean(stripUrls, Lower(query)) != []
    requires CleanedCandidates(stripUrls, candidates) != []
    ensures var v := vectorize(Clean(stripUrls, Lower(query)), CleanedCandidates(stripUrls, candidates));
      var r := SafeBestMatch(stripUrls, vectorize, query, candidates);
      && (v.ValueError? ==> r == NoMatch)
      && (v.Similarities? ==>
            exists i :: 0 <= i < |v.sims| && i < |candidates|
              && r == Match(candidates[i], v.sims[i])
              && (forall j :: 0 <= j < |v.sims| ==> v.sims[j] <= v.sims[i])
              && (forall j :: 0 <= j < i ==> v.sims[j] < v.sims[i]))
  {
    var q := Clean(stripUrls, Lower(query));
    var pool := CleanedCandidates(stripUrls, candidates);
    var v := vectorize(q, pool);
    if v.Similarities? {
      assert Fits(v, |pool|);
      var i := ArgMax(v.sims);
      assert SafeBestMatch(stripUrls, vectorize, query, candidates) == Match(candidates[i], v.sims[i]);
    }
  }

  /** When the vectoriser raises on the cleaned corpus, the answer is `("", 0.0)`. */
  lemma RejectedCorpusGivesNoMatch(stripUrls: UrlStripper, vectorize: Vectorizer, query: string, candidates: seq<string>)
    requires vectorize(Clean(stripUrls, Lower(query)), CleanedCandidates(stripUrls, candidates)).ValueError?
    ensures SafeBestMatch(stripUrls, vectorize, query, candidates) == NoMatch
  {
  }

  /**
   * The position chosen in the filtered pool is used on the unfiltered list:
   * with candidates `["", word]` only `word` is scored, yet the text returned
   * is `""`, carrying the score that `word` earned.
   */
  lemma PickedTextNeedNotBeScored(stripUrls: UrlStripper, vectorize: Vectorizer, query: string, word: string)
    requires Clean(stripUrls, "") == []
    requires Clean(stripUrls, Lower(query)) != []
    requires Clean(stripUrls, word) != []
    requires vectorize(Clean(stripUrls, Lower(query)), [Clean(stripUrls, Lower(word))]).Similarities?
    ensures var r := SafeBestMatch(stripUrls, vectorize, query, ["", word]);
      && r.text == ""
      && r.score == vectorize(Clean(stripUrls, Lower(query)), [Clean(stripUrls, Lower(word))]).sims[0]
  {
    var candidates := ["", word];
    var pool := [Clean(stripUrls, Lower(word))];
    assert candidates[1..] == [word];
    assert CleanedCandidates(stripUrls, [word][1..]) == [];
    assert CleanedCandidates(stripUrls, [word]) == pool;
    assert CleanedCandidates(stripUrls, candidates) == pool;
    var v := vectorize(Clean(stripUrls, Lower(query)), pool);
    assert Fits(v, 1);
    assert ArgMax(v.sims) == 0;
  }
}
