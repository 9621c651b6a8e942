/**
 * The word-overlap comparison of src/main.py: `clean_text`, `compare_texts`
 * (the share of common words between a paragraph and each page text, the
 * best page text kept, and a four-band verdict), `generate_summary` and
 * `generate_summary_table`.
 */
module WordOverlap {
  import opened Wrappers
  import opened Text
  import opened Selection
  import opened Percentages

  /**
   * `clean_text` of src/main.py: every whitespace run becomes one space and the
   * ends are stripped. `None` stands for `None`, the only falsy non-string the
   * callers pass.
   */
  function CleanText(text: Option<string>): (r: string)
    ensures SingleSpaced(r) && NoEdgeSpace(r)
    ensures text.Some? ==> RemoveSpaces(r) == RemoveSpaces(text.value)
    ensures text.None? ==> r == ""
    ensures text.Some? ==> r == Join(Split(text.value))
  {
    match text
    case None => ""
    case Some(s) =>
      if s == "" then
        CollapseTrimIsJoin(s);
        ""
      else
        var collapsed := CollapseRuns(s);
        CollapseKeepsText(s);
        TrimKeepsText(collapsed);
        TrimKeepsSingleSpaced(collapsed);
        CollapseTrimIsJoin(s);
        Trim(collapsed)
  }

  /** Cleaning a cleaned text changes nothing. */
  lemma CleanTextIdempotent(text: Option<string>)
    ensures CleanText(Some(CleanText(text))) == CleanText(text)
  {
    var r := CleanText(text);
    if r != "" {
      CollapseFixed(r);
      TrimFixed(r);
    }
  }

  /** `set(text.lower().split())`: whitespace-free, non-empty words, none at all exactly for a blank text. */
  function Words(text: string): (ws: set<string>)
    ensures forall w :: w in ws ==> w != [] && NoSpace(w)
    ensures ws == {} <==> forall i :: 0 <= i < |text| ==> IsSpace(text[i])
    ensures ws == set w | w in Split(Lower(text))
  {
    var words := Split(Lower(text));
    SplitEmptyIffBlank(Lower(text));
    RemoveSpacesEmptyIff(Lower(text));
    LowerKeepsSpaces(text);
    var ws := set w | w in words;
    assert words != [] ==> words[0] in ws;
    assert (forall i :: 0 <= i < |text| ==> IsSpace(text[i])) <==>
      (forall i :: 0 <= i < |Lower(text)| ==> IsSpace(Lower(text)[i]));
    ws
  }

  function Larger(a: nat, b: nat): nat {
    if a >= b then a else b
  }

  /**
   * The share of common words, over the larger of the two word sets; `None`
   * when either text has no words, the case the inner loop `continue`s past.
   */
  function Overlap(doc: string, web: string): (r: Option<real>)
    ensures r.None? <==> Words(doc) == {} || Words(web) == {}
    ensures r.Some? ==> 0.0 <= r.value <= 1.0
  {
    var a, b := Words(doc), Words(web);
    if a == {} || b == {} then None
    else
      IntersectionSmaller(a, b);
      ShareAtMostOne(|a * b|, Larger(|a|, |b|));
      Some(|a * b| as real / Larger(|a|, |b|) as real)
  }

  lemma IntersectionSmaller<T>(a: set<T>, b: set<T>)
    ensures |a * b| <= |a| && |a * b| <= |b|
  {
    SubsetSmaller(a * b, a);
    SubsetSmaller(a * b, b);
  }

  lemma SubsetSmaller<T>(x: set<T>, y: set<T>)
    requires x <= y
    ensures |x| <= |y|
    ensures |x| == |y| ==> x == y
  {
    assert y == x + (y - x);
    if |x| == |y| {
      assert |y - x| == 0;
      assert y - x == {};
    }
  }

  /** The measure is symmetric: it does not matter which text is the paragraph. */
  lemma OverlapSymmetric(doc: string, web: string)
    ensures Overlap(doc, web) == Overlap(web, doc)
  {
    assert Words(doc) * Words(web) == Words(web) * Words(doc);
  }

  /** A pair of texts scores 1 exactly when they have the same, non-empty, set of words. */
  lemma OverlapOneIff(doc: string, web: string)
    ensures Overlap(doc, web) == Some(1.0) <==> Words(doc) == Words(web) && Words(doc) != {}
  {
    var a, b := Words(doc), Words(web);
    if a != {} && b != {} {
      var m := Larger(|a|, |b|);
      ShareIsOneIff(|a * b|, m);
      SubsetSmaller(a * b, a);
      SubsetSmaller(a * b, b);
      if a == b {
        assert a * b == a;
      }
    }
  }

  /** The overlap of the paragraph with each page text, in page order. */
  function Scores(doc: string, webs: seq<string>): (scores: seq<Option<real>>)
    ensures |scores| == |webs|
    ensures forall k :: 0 <= k < |webs| ==> scores[k] == Overlap(doc, webs[k])
    ensures forall k :: 0 <= k < |webs| && scores[k].Some? ==> 0.0 <= scores[k].value <= 1.0
  {
    seq(|webs|, k requires 0 <= k < |webs| => Overlap(doc, webs[k]))
  }

  /** What the report says about one paragraph. */
  datatype Comparison = Comparison(docText: string, webText: Option<string>, status: string, similarity: Option<real>)

  const NotFound := "N\U{00E3}o encontrado"

  /** The bands of src/main.py: lower bounds closed, below 0.5 nothing is found. */
  function Band(score: real): (status: string)
    ensures status == "Exato" <==> score >= 0.9
    ensures status == "Similar" <==> 0.7 <= score < 0.9
    ensures status == "Parcial" <==> 0.5 <= score < 0.7
    ensures status == NotFound <==> score < 0.5
  {
    if score >= 0.9 then "Exato"
    else if score >= 0.7 then "Similar"
    else if score >= 0.5 then "Parcial"
    else NotFound
  }

  /** The record built after the inner loop, from the pick it ended with. */
  function Judge(doc: string, webs: seq<string>, pick: Pick): (c: Comparison)
    requires pick.index.Some? ==> pick.index.value < |webs|
    ensures c.docText == doc
    ensures c.status == NotFound <==> pick.index.None? || pick.score < 0.5
    ensures c.status == NotFound ==> c.webText.None? && c.similarity.None?
    ensures c.status != NotFound ==>
      c.webText == Some(webs[pick.index.value]) && c.similarity == Some(pick.score) && c.status == Band(pick.score)
  {
    match pick.index
    case None => Comparison(doc, None, NotFound, None)
    case Some(k) =>
      if Band(pick.score) == NotFound then Comparison(doc, None, NotFound, None)
      else Comparison(doc, Some(webs[k]), Band(pick.score), Some(pick.score))
  }

  /**
   * `c` is the record for scores `scores` of the page texts: "not found"
   * exactly when no score reaches 0.5; otherwise it names the first page text
   * with the highest score, that score, and its band.
   */
  ghost predicate Describes(c: Comparison, doc: string, webs: seq<string>, scores: seq<Option<real>>)
    requires |scores| == |webs|
  {
    && c.docText == doc
    && (c.status == NotFound <==> forall k :: 0 <= k < |scores| && scores[k].Some? ==> scores[k].value < 0.5)
    && (c.status == NotFound ==> c.webText.None? && c.similarity.None?)
    && (c.status != NotFound ==>
         exists k :: 0 <= k < |webs| && c.webText == Some(webs[k]) && IsBestAt(scores, k, c))
  }

  /** Score `k` is the highest, no earlier score is as high, and `c` reports it with its band. */
  ghost predicate IsBestAt(scores: seq<Option<real>>, k: nat, c: Comparison)
    requires k < |scores|
  {
    && scores[k] == c.similarity
    && c.similarity.Some? && c.status == Band(c.similarity.value)
    && (forall j :: 0 <= j < |scores| && scores[j].Some? ==> scores[j].value <= c.similarity.value)
    && (forall j :: 0 <= j < k && scores[j].Some? ==> scores[j].value < c.similarity.value)
  }

  lemma JudgeDescribes(doc: string, webs: seq<string>, scores: seq<Option<real>>, pick: Pick)
    requires |scores| == |webs| && IsFirstBest(scores, 0.0, pick)
    ensures Describes(Judge(doc, webs, pick), doc, webs, scores)
  {
    var c := Judge(doc, webs, pick);
    if pick.index.Some? && c.status != NotFound {
      assert IsBestAt(scores, pick.index.value, c);
    }
  }

  /**
   * One iteration of the outer loop: the record for the overlap of the
   * paragraph with each page text, judged on the pick the inner loop ends with.
   */
  function Verdict(doc: string, webs: seq<string>): (c: Comparison)
    ensures Describes(c, doc, webs, Scores(doc, webs))
  {
    var scores := Scores(doc, webs);
    var pick := FirstBest(scores, 0.0);
    JudgeDescribes(doc, webs, scores, pick);
    Judge(doc, webs, pick)
  }

  /** A record for scores none of which exceeds 1 reports 1, as Exato, once some score is 1. */
  lemma TopScoreIsExato(c: Comparison, doc: string, webs: seq<string>, scores: seq<Option<real>>, k: nat)
    requires |scores| == |webs| && Describes(c, doc, webs, scores)
    requires forall j :: 0 <= j < |scores| && scores[j].Some? ==> scores[j].value <= 1.0
    requires k < |scores| && scores[k] == Some(1.0)
    ensures c.status == "Exato" && c.similarity == Some(1.0)
  {
    var i :| 0 <= i < |webs| && c.webText == Some(webs[i]) && IsBestAt(scores, i, c);
  }

  /** A page text with exactly the paragraph's (non-empty) words makes the paragraph Exato, at 1.0. */
  lemma SameWordsGiveExato(doc: string, webs: seq<string>, k: nat)
    requires k < |webs| && Words(webs[k]) == Words(doc) && Words(doc) != {}
    ensures Verdict(doc, webs).status == "Exato"
    ensures Verdict(doc, webs).similarity == Some(1.0)
  {
    OverlapOneIff(doc, webs[k]);
    TopScoreIsExato(Verdict(doc, webs), doc, webs, Scores(doc, webs), k);
  }

  /** The inner loop: the first page text with the strictly highest overlap above 0. */
  method BestCandidate(doc: string, webs: seq<string>) returns (best: Option<nat>, bestSimilarity: real)
    ensures Pick(best, bestSimilarity) == FirstBest(Scores(doc, webs), 0.0)
  {
    best, bestSimilarity := None, 0.0;
    ghost var scores := Scores(doc, webs);
    for j := 0 to |webs|
      invariant Pick(best, bestSimilarity) == FirstBest(scores[..j], 0.0)
    {
      assert scores[..j + 1][..j] == scores[..j];
      var docWords := Words(doc);
      var webWords := Words(webs[j]);
      if docWords == {} || webWords == {} {
        continue;
      }
      var similarity := Overlap(doc, webs[j]).value;
      if similarity > bestSimilarity {
        bestSimilarity := similarity;
        best := Some(j);
      }
    }
    assert scores[..|webs|] == scores;
  }

  /** `compare_texts(doc_texts, web_texts)` of src/main.py: one record per paragraph, in order. */
  method CompareTexts(docs: seq<string>, webs: seq<string>) returns (results: seq<Comparison>)
    ensures |results| == |docs|
    ensures forall i :: 0 <= i < |docs| ==> results[i] == Verdict(docs[i], webs)
  {
    results := [];
    for i := 0 to |docs|
      invariant |results| == i
      invariant forall p :: 0 <= p < i ==> results[p] == Verdict(docs[p], webs)
    {
      var best, bestSimilarity := BestCandidate(docs[i], webs);
      results := results + [Judge(docs[i], webs, Pick(best, bestSimilarity))];
    }
  }

  /** How many records carry `status`. */
  function CountStatus(results: seq<Comparison>, status: string): (n: nat)
    ensures n <= |results|
    decreases |results|
  {
    if results == [] then 0
    else (if results[0].status == status then 1 else 0) + CountStatus(results[1..], status)
  }

  /** The `counts` dictionary of `generate_summary`. */
  datatype Counts = Counts(exact: nat, similar: nat, partial: nat, missing: nat)

  /**
   * `generate_summary(comparison_results)`: Exato, Similar and Parcial are
   * counted by name and every other status, whatever it says, as missing.
   */
  function GenerateSummary(results: seq<Comparison>): (c: Counts)
    ensures c.exact + c.similar + c.partial + c.missing == |results|
    ensures c.exact == CountStatus(results, "Exato")
    ensures c.similar == CountStatus(results, "Similar")
    ensures c.partial == CountStatus(results, "Parcial")
    decreases |results|
  {
    if results == [] then Counts(0, 0, 0, 0)
    else
      var c := GenerateSummary(results[1..]);
      match results[0].status
      case "Exato" => c.(exact := c.exact + 1)
      case "Similar" => c.(similar := c.similar + 1)
      case "Parcial" => c.(partial := c.partial + 1)
      case _ => c.(missing := c.missing + 1)
  }

  /** The keys of the `counts` dictionary of `generate_summary_table`, in order. */
  const TableStatuses: seq<string> := ["Exato", "Similar", "Parcial", NotFound]

  /** One entry of the summary table. */
  datatype TableLine = TableLine(status: string, count: nat, percent: real)

  /** `counts[result["status"]] += 1` on a status that is not a key. */
  datatype TableError = KeyError(status: string)

  /** The four counts, in table order, or the first status that is not a key. */
  function TableCounts(results: seq<Comparison>): (r: Result<seq<nat>, TableError>)
    ensures r.Failure? <==> exists i :: 0 <= i < |results| && results[i].status !in TableStatuses
    ensures r.Success? ==> |r.value| == 4 && forall k :: 0 <= k < 4 ==> r.value[k] == CountStatus(results, TableStatuses[k])
    decreases |results|
  {
    if results == [] then Success([0, 0, 0, 0])
    else
      var status := results[0].status;
      var rest := TableCounts(results[1..]);
      assert forall i :: 1 <= i < |results| ==> results[1..][i - 1] == results[i];
      if status !in TableStatuses then Failure(KeyError(status))
      else if rest.Failure? then rest
      else
        var c := rest.value;
        Success(seq(4, k requires 0 <= k < 4 => if TableStatuses[k] == status then c[k] + 1 else c[k]))
  }

  /**
   * `generate_summary_table(comparison_results)`: the four statuses with count
   * and percentage, then TOTAL, whose percentage is 100 even with no records.
   */
  function GenerateSummaryTable(results: seq<Comparison>): (r: Result<seq<TableLine>, TableError>)
    ensures r.Failure? <==> exists i :: 0 <= i < |results| && results[i].status !in TableStatuses
    ensures r.Success? ==> |r.value| == 5 && r.value[4] == TableLine("TOTAL", |results|, 100.0)
    ensures r.Success? ==> forall k :: 0 <= k < 4 ==>
      && r.value[k].status == TableStatuses[k]
      && r.value[k].count == CountStatus(results, TableStatuses[k])
      && r.value[k].percent == Percent(r.value[k].count, |results|)
  {
    var counts :- TableCounts(results);
    var total := counts[0] + counts[1] + counts[2] + counts[3];
    CountsCoverKnownStatuses(results);
    Success(seq(4, k requires 0 <= k < 4 => TableLine(TableStatuses[k], counts[k], Percent(counts[k], total)))
            + [TableLine("TOTAL", total, 100.0)])
  }

  /** When every status is one of the four keys, the four counts add up to the number of records. */
  lemma {:induction false} CountsCoverKnownStatuses(results: seq<Comparison>)
    requires forall i :: 0 <= i < |results| ==> results[i].status in TableStatuses
    ensures CountStatus(results, "Exato") + CountStatus(results, "Similar") + CountStatus(results, "Parcial")
          + CountStatus(results, NotFound) == |results|
    decreases |results|
  {
    if results != [] {
      assert forall i :: 1 <= i < |results[1..]| ==> results[1..][i] == results[i + 1];
      CountsCoverKnownStatuses(results[1..]);
    }
  }

  /** Every record `CompareTexts` produces carries one of the table's statuses, so the table never raises. */
  lemma VerdictStatusIsKey(doc: string, webs: seq<string>)
    ensures Verdict(doc, webs).status in TableStatuses
  {
    var c := Verdict(doc, webs);
    if c.status != NotFound {
      var k :| 0 <= k < |webs| && c.webText == Some(webs[k]) && IsBestAt(Scores(doc, webs), k, c);
    }
  }

  lemma SummaryTableAcceptsComparisons(docs: seq<string>, webs: seq<string>, results: seq<Comparison>)
    requires |results| == |docs|
    requires forall i :: 0 <= i < |docs| ==> results[i] == Verdict(docs[i], webs)
    ensures GenerateSummaryTable(results).Success?
  {
    forall i | 0 <= i < |results|
      ensures results[i].status in TableStatuses
    {
      VerdictStatusIsKey(docs[i], webs);
    }
  }

  /**
   * The two summaries agree on records with known statuses: the table's first
   * three counts are the summary's, and its "not found" count is the summary's
   * missing count.
   */
  lemma SummariesAgree(results: seq<Comparison>)
    requires GenerateSummaryTable(results).Success?
    ensures var lines := GenerateSummaryTable(results).value;
      var c := GenerateSummary(results);
      lines[0].count == c.exact && lines[1].count == c.similar && lines[2].count == c.partial
      && lines[3].count == c.missing
  {
    CountsCoverKnownStatuses(results);
  }

  /** With at least one record, the four percentages add up to the TOTAL line's 100. */
  lemma TablePercentsAddUp(results: seq<Comparison>)
    requires GenerateSummaryTable(results).Success? && results != []
    ensures var lines := GenerateSummaryTable(results).value;
      lines[0].percent + lines[1].percent + lines[2].percent + lines[3].percent == lines[4].percent
  {
    CountsCoverKnownStatuses(results);
    var lines := GenerateSummaryTable(results).value;
    FourPercentsAddUp(lines[0].count, lines[1].count, lines[2].count, lines[3].count, |results|);
  }
}
