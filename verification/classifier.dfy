/**
 * `compare_texts` and `generate_summary` of render_deploy/src/utils/text_processing.py:
 * each document paragraph is skipped, matched against the alt-tag pool, matched
 * to a metadata field (exactly, then fuzzily) or matched against the page's text
 * blocks, and its score is mapped to a status through one threshold table.
 */
module Classifier {
  import opened Wrappers
  import opened Text
  import opened Cleaning
  import opened Selection
  import opened Matcher
  import opened Percentages

  datatype Status = Exact | Similar | Partial | Missing

  /** The threshold table used by all three matching branches; lower bounds are closed. */
  function StatusOf(score: real): (s: Status)
    ensures s == Exact <==> 0.85 <= score
    ensures s == Similar <==> 0.75 <= score < 0.85
    ensures s == Partial <==> 0.4 <= score < 0.75
    ensures s == Missing <==> score < 0.4
  {
    if score >= 0.85 then Exact
    else if score >= 0.75 then Similar
    else if score >= 0.4 then Partial
    else Missing
  }

  function Rank(s: Status): nat {
    match s
    case Missing => 0
    case Partial => 1
    case Similar => 2
    case Exact => 3
  }

  /** A higher score never earns a lower status. */
  lemma StatusMonotone(a: real, b: real)
    requires a <= b
    ensures Rank(StatusOf(a)) <= Rank(StatusOf(b))
  {
  }

  /** The label the status carries in the report. */
  function Label(s: Status): string {
    match s
    case Exact => "Exact"
    case Similar => "Similar"
    case Partial => "Partial"
    case Missing => "Missing"
  }

  /** One metadata entry; a sequence of them keeps the dictionary's insertion order. */
  datatype Field = Field(key: string, value: string)

  ghost predicate DistinctKeys(metadata: seq<Field>) {
    forall i, j :: 0 <= i < j < |metadata| ==> metadata[i].key != metadata[j].key
  }

  /** One result record: "Document Text", "Webpage Match", "Status" and "Similarity" (a percentage). */
  datatype Row = Row(documentText: string, webpageMatch: string, status: Status, similarity: real)

  /** The exceptions the source lets escape. */
  datatype Error =
    | IndexError  // `doc_text.split(":", 1)[1]` on a paragraph without a colon
    | KeyError    // `df["Status"]` on the column-less frame built from no rows

  /** The boilerplate prefixes, matched against the start of the cleaned paragraph. */
  const IgnorePrefixes: seq<string> := [
    "in dit artikel", "title tag:", "meta description:", "og title:", "og description:",
    "[alt text da imagem]", "alt tag :", "title tag", "meta description",
    "open graph title", "open graph description", "-- meta --", "en:", "be-fr:",
    "guide des races de chiens", "alt-tag:", "-- meta \U{2013}", "title tag"
  ]

  /** Some prefix of `prefixes` opens `s`: the `any(... startswith ...)` test. */
  predicate StartsWithAny(s: string, prefixes: seq<string>)
    decreases |prefixes|
  {
    prefixes != [] && (StartsWith(s, prefixes[0]) || StartsWithAny(s, prefixes[1..]))
  }

  lemma {:induction false} StartsWithAnyIff(s: string, prefixes: seq<string>)
    ensures StartsWithAny(s, prefixes) <==> exists i :: 0 <= i < |prefixes| && StartsWith(s, prefixes[i])
    decreases |prefixes|
  {
    if prefixes != [] {
      StartsWithAnyIff(s, prefixes[1..]);
      assert forall i :: 1 <= i < |prefixes| ==> prefixes[1..][i - 1] == prefixes[i];
    }
  }

  predicate Ignored(cleanDoc: string) {
    StartsWithAny(cleanDoc, IgnorePrefixes)
  }

  /** `clean_text(doc_text.strip().lower())`. */
  function CleanDoc(stripUrls: UrlStripper, doc: string): (r: string)
    ensures NoSpace(r)
  {
    Clean(stripUrls, Lower(Trim(doc)))
  }

  /** The paragraph produces no row: it is blank, or its cleaned text opens with a boilerplate prefix. */
  predicate Skipped(stripUrls: UrlStripper, doc: string) {
    Trim(doc) == [] || Ignored(CleanDoc(stripUrls, doc))
  }

  /** The paragraph reaches the alt-tag branch. */
  predicate AltTagged(stripUrls: UrlStripper, doc: string) {
    !Skipped(stripUrls, doc) && StartsWith(CleanDoc(stripUrls, doc), "alt-tag")
  }

  /** A row whose status is the table's verdict on its own similarity, which lies in [0, 100]. */
  ghost predicate Consistent(row: Row) {
    && 0.0 <= row.similarity <= 100.0
    && row.status == StatusOf(row.similarity / 100.0)
  }

  /** The row for a match: the status from the table, the score as a percentage. */
  function Rated(documentText: string, webpageMatch: string, score: real): (row: Row)
    requires 0.0 <= score <= 1.0
    ensures Consistent(row)
  {
    Row(documentText, webpageMatch, StatusOf(score), score * 100.0)
  }

  /** The metadata value equals the paragraph byte for byte once both are stripped; empty values never match. */
  predicate SameAsValue(field: Field, doc: string) {
    field.value != "" && Trim(doc) == Trim(field.value)
  }

  /** Position of the first field `SameAsValue` accepts: the exact-match `next(...)`. */
  function ExactField(metadata: seq<Field>, doc: string): (r: Option<nat>)
    ensures r.Some? ==> r.value < |metadata| && SameAsValue(metadata[r.value], doc)
    ensures r.Some? ==> forall j :: 0 <= j < r.value ==> !SameAsValue(metadata[j], doc)
    ensures r.None? ==> forall j :: 0 <= j < |metadata| ==> !SameAsValue(metadata[j], doc)
    decreases |metadata|
  {
    if metadata == [] then None
    else if SameAsValue(metadata[0], doc) then Some(0)
    else
      var rest := ExactField(metadata[1..], doc);
      assert forall j :: 1 <= j < |metadata| ==> metadata[1..][j - 1] == metadata[j];
      match rest
      case None => None
      case Some(k) => Some(k + 1)
  }

  /** The fuzzy loop's score for one field; fields whose value strips to nothing are skipped. */
  function FieldScore(stripUrls: UrlStripper, vectorize: Vectorizer, field: Field, doc: string): Option<real> {
    if Trim(field.value) == [] then None
    else Some(SafeBestMatch(stripUrls, vectorize, doc, [field.value]).score)
  }

  function FuzzyScores(stripUrls: UrlStripper, vectorize: Vectorizer, metadata: seq<Field>, doc: string): (scores: seq<Option<real>>)
    ensures |scores| == |metadata|
    ensures forall i :: 0 <= i < |metadata| ==> scores[i] == FieldScore(stripUrls, vectorize, metadata[i], doc)
    ensures forall i :: 0 <= i < |metadata| ==> (scores[i].None? <==> Trim(metadata[i].value) == [])
    ensures forall i :: 0 <= i < |metadata| && scores[i].Some? ==> 0.0 <= scores[i].value <= 1.0
  {
    seq(|metadata|, i requires 0 <= i < |metadata| => FieldScore(stripUrls, vectorize, metadata[i], doc))
  }

  /**
   * The field behind a truthy `meta_type`: the exact match if its key is
   * non-empty, otherwise the fuzzy winner when its score is strictly above 0.85.
   */
  function MetaChoice(stripUrls: UrlStripper, vectorize: Vectorizer, metadata: seq<Field>, doc: string): (r: Option<nat>)
    ensures r.Some? ==> r.value < |metadata| && metadata[r.value].key != ""
    ensures var exact := ExactField(metadata, doc);
      exact.Some? && metadata[exact.value].key != "" ==> r == exact
    ensures var scores := FuzzyScores(stripUrls, vectorize, metadata, doc);
      r.Some? && r != ExactField(metadata, doc) ==>
        && scores[r.value].Some? && scores[r.value].value > 0.85
        && (forall j :: 0 <= j < |scores| && scores[j].Some? ==> scores[j].value <= scores[r.value].value)
        && (forall j :: 0 <= j < r.value && scores[j].Some? ==> scores[j].value < scores[r.value].value)
    ensures var exact := ExactField(metadata, doc);
      var best := FirstBest(FuzzyScores(stripUrls, vectorize, metadata, doc), 0.0);
      !(exact.Some? && metadata[exact.value].key != "") ==>
        && (r.Some? <==> best.index.Some? && best.score > 0.85 && metadata[best.index.value].key != "")
        && (r.Some? ==> r == best.index)
  {
    var exact := ExactField(metadata, doc);
    if exact.Some? && metadata[exact.value].key != "" then exact
    else FuzzyChoice(FuzzyScores(stripUrls, vectorize, metadata, doc), metadata)
  }

  /** The fuzzy loop's winner, kept when its score is strictly above 0.85 and its key is truthy. */
  function FuzzyChoice(scores: seq<Option<real>>, metadata: seq<Field>): (r: Option<nat>)
    requires |scores| == |metadata|
    ensures r.Some? ==>
      && r.value < |metadata| && metadata[r.value].key != ""
      && scores[r.value].Some? && scores[r.value].value > 0.85
      && (forall j :: 0 <= j < |scores| && scores[j].Some? ==> scores[j].value <= scores[r.value].value)
      && (forall j :: 0 <= j < r.value && scores[j].Some? ==> scores[j].value < scores[r.value].value)
    ensures var best := FirstBest(scores, 0.0);
      && (r.Some? <==> best.index.Some? && best.score > 0.85 && metadata[best.index.value].key != "")
      && (r.Some? ==> r == best.index)
  {
    var best := FirstBest(scores, 0.0);
    match best.index
    case Some(k) => if best.score > 0.85 && metadata[k].key != "" then Some(k) else None
    case None => None
  }

  /** `metadata[key]`. */
  function Lookup(metadata: seq<Field>, key: string): (v: string)
    requires exists i :: 0 <= i < |metadata| && metadata[i].key == key
    ensures exists i :: 0 <= i < |metadata| && metadata[i].key == key && metadata[i].value == v
    decreases |metadata|
  {
    if metadata[0].key == key then metadata[0].value
    else
      assert forall i :: 1 <= i < |metadata| ==> metadata[1..][i - 1] == metadata[i];
      Lookup(metadata[1..], key)
  }

  /** With distinct keys, looking a field's key up gives that field's value. */
  lemma LookupDistinct(metadata: seq<Field>, k: nat)
    requires DistinctKeys(metadata) && k < |metadata|
    ensures Lookup(metadata, metadata[k].key) == metadata[k].value
  {
  }

  /** The body of the `for doc_text in docx_list` loop for one paragraph. */
  function Classify(stripUrls: UrlStripper, vectorize: Vectorizer, html: seq<string>, metadata: seq<Field>,
                    altTags: seq<string>, doc: string): (r: Result<Option<Row>, Error>)
    ensures r == Success(None) <==> Skipped(stripUrls, doc)
    ensures r.Failure? <==> AltTagged(stripUrls, doc) && ':' !in doc
    ensures r.Success? && r.value.Some? ==> Consistent(r.value.value)
  {
    if Skipped(stripUrls, doc) then Success(None)
    else if StartsWith(CleanDoc(stripUrls, doc), "alt-tag") then
      match PartitionAt(doc, ':')
      case None => Failure(IndexError)
      case Some((_, after)) =>
        var payload := Trim(after);
        var m := SafeBestMatch(stripUrls, vectorize, payload, altTags);
        Success(Some(Rated(payload, m.text, m.score)))
    else
      match MetaChoice(stripUrls, vectorize, metadata, doc)
      case Some(k) =>
        var value := Lookup(metadata, metadata[k].key);
        var score := SafeBestMatch(stripUrls, vectorize, doc, [value]).score;
        Success(Some(Rated(doc, value, score)))
      case None =>
        var m := if html != [] then SafeBestMatch(stripUrls, vectorize, doc, html) else NoMatch;
        Success(Some(Rated(doc, m.text, m.score)))
  }

  /** The loop body's outcome for one paragraph: an exception, no row, or a row. */
  type Step = string -> Result<Option<Row>, Error>

  /** The row list so far, with the next paragraph's outcome put in front: the first failure wins. */
  function Prepend(first: Result<Option<Row>, Error>, rest: Result<seq<Row>, Error>): Result<seq<Row>, Error> {
    if first.Failure? then Failure(first.error)
    else if rest.Failure? then Failure(rest.error)
    else Success((if first.value.Some? then [first.value.value] else []) + rest.value)
  }

  /** The `for doc_text in docx_list` loop, appending each row the body produces. */
  function RunSteps(step: Step, docs: seq<string>): (r: Result<seq<Row>, Error>)
    ensures r.Success? ==> |r.value| <= |docs|
    decreases |docs|
  {
    if docs == [] then Success([]) else Prepend(step(docs[0]), RunSteps(step, docs[1..]))
  }

  /** The loop raises exactly when the body raises on some paragraph. */
  lemma {:induction false} RunStepsFailsIff(step: Step, docs: seq<string>)
    ensures RunSteps(step, docs).Failure? <==> exists i :: 0 <= i < |docs| && step(docs[i]).Failure?
    decreases |docs|
  {
    if docs != [] {
      RunStepsFailsIff(step, docs[1..]);
      assert forall i :: 1 <= i < |docs| ==> docs[1..][i - 1] == docs[i];
    }
  }

  /** Every row of a finished loop is a row the body produced, and the rows keep paragraph order. */
  lemma {:induction false} RunStepsRows(step: Step, docs: seq<string>)
    requires RunSteps(step, docs).Success?
    ensures forall i :: 0 <= i < |docs| ==> step(docs[i]).Success?
    ensures RunSteps(step, docs).value == Produced(step, docs)
    decreases |docs|
  {
    if docs != [] {
      RunStepsRows(step, docs[1..]);
      assert forall i :: 1 <= i < |docs| ==> docs[1..][i - 1] == docs[i];
    }
  }

  /** The rows the body produces, paragraph by paragraph, ignoring failures. */
  function Produced(step: Step, docs: seq<string>): (rows: seq<Row>)
    ensures |rows| <= |docs|
    decreases |docs|
  {
    if docs == [] then []
    else
      var first := step(docs[0]);
      (if first.Success? && first.value.Some? then [first.value.value] else []) + Produced(step, docs[1..])
  }

  lemma {:induction false} RunStepsAppend(step: Step, a: seq<string>, b: seq<string>)
    ensures RunSteps(step, a + b) == (if RunSteps(step, a).Failure? then RunSteps(step, a)
                                      else if RunSteps(step, b).Failure? then RunSteps(step, b)
                                      else Success(RunSteps(step, a).value + RunSteps(step, b).value))
    decreases |a|
  {
    if a == [] {
      assert a + b == b;
      if RunSteps(step, b).Success? {
        assert [] + RunSteps(step, b).value == RunSteps(step, b).value;
      }
    } else {
      assert (a + b)[0] == a[0];
      assert (a + b)[1..] == a[1..] + b;
      RunStepsAppend(step, a[1..], b);
      var first := step(a[0]);
      assert RunSteps(step, a + b) == Prepend(first, RunSteps(step, a[1..] + b));
      assert RunSteps(step, a) == Prepend(first, RunSteps(step, a[1..]));
      if first.Success? && RunSteps(step, a[1..]).Success? && RunSteps(step, b).Success? {
        var head := if first.value.Some? then [first.value.value] else [];
        var ra, rb := RunSteps(step, a[1..]).value, RunSteps(step, b).value;
        assert head + (ra + rb) == (head + ra) + rb;
      }
    }
  }

  /** How many paragraphs satisfy `keep`. */
  function CountWhere(keep: string -> bool, docs: seq<string>): (n: nat)
    ensures n <= |docs|
    decreases |docs|
  {
    if docs == [] then 0
    else (if keep(docs[0]) then 1 else 0) + CountWhere(keep, docs[1..])
  }

  /** When the body never raises, there is one row for each paragraph on which it produces one. */
  lemma {:induction false} ProducedCount(step: Step, docs: seq<string>, keep: string -> bool)
    requires forall i :: 0 <= i < |docs| ==> step(docs[i]).Success? && (step(docs[i]).value.Some? <==> keep(docs[i]))
    ensures |Produced(step, docs)| == CountWhere(keep, docs)
    decreases |docs|
  {
    if docs != [] {
      assert forall i :: 1 <= i < |docs| ==> docs[1..][i - 1] == docs[i];
      ProducedCount(step, docs[1..], keep);
    }
  }

  /** Every row is the body's row for some paragraph. */
  lemma {:induction false} ProducedFrom(step: Step, docs: seq<string>)
    ensures forall row :: row in Produced(step, docs) ==> exists j :: 0 <= j < |docs| && step(docs[j]) == Success(Some(row))
    decreases |docs|
  {
    if docs != [] {
      ProducedFrom(step, docs[1..]);
      var first := step(docs[0]);
      var head := if first.Success? && first.value.Some? then [first.value.value] else [];
      var rest := Produced(step, docs[1..]);
      assert Produced(step, docs) == head + rest;
      forall row | row in Produced(step, docs)
        ensures exists j :: 0 <= j < |docs| && step(docs[j]) == Success(Some(row))
      {
        if row in head {
          assert step(docs[0]) == Success(Some(row));
        } else {
          assert row in rest;
          var j :| 0 <= j < |docs[1..]| && step(docs[1..][j]) == Success(Some(row));
          assert docs[1..][j] == docs[j + 1];
        }
      }
    }
  }

  /**
   * `compare_texts(docx_list, html_list, metadata, alt_tags)`: the loop over the
   * paragraphs with `Classify` as its body.
   */
  function CompareTexts(stripUrls: UrlStripper, vectorize: Vectorizer, docs: seq<string>, html: seq<string>,
                        metadata: seq<Field>, altTags: seq<string>): (r: Result<seq<Row>, Error>)
    ensures r.Success? ==> |r.value| <= |docs|
  {
    RunSteps(doc => Classify(stripUrls, vectorize, html, metadata, altTags, doc), docs)
  }

  /** The comparison fails exactly when some alt-tag paragraph has no colon. */
  lemma CompareTextsFailsIff(stripUrls: UrlStripper, vectorize: Vectorizer, docs: seq<string>,
                             html: seq<string>, metadata: seq<Field>, altTags: seq<string>)
    ensures CompareTexts(stripUrls, vectorize, docs, html, metadata, altTags).Failure?
        <==> exists i :: 0 <= i < |docs| && AltTagged(stripUrls, docs[i]) && ':' !in docs[i]
  {
    var step: Step := doc => Classify(stripUrls, vectorize, html, metadata, altTags, doc);
    RunStepsFailsIff(step, docs);
  }

  /**
   * A comparison that completes yields one row per paragraph that is not
   * skipped, in paragraph order, each with the status its similarity earns.
   */
  lemma CompareTextsRows(stripUrls: UrlStripper, vectorize: Vectorizer, docs: seq<string>,
                         html: seq<string>, metadata: seq<Field>, altTags: seq<string>)
    requires CompareTexts(stripUrls, vectorize, docs, html, metadata, altTags).Success?
    ensures var rows := CompareTexts(stripUrls, vectorize, docs, html, metadata, altTags).value;
      && |rows| == CountWhere(doc => !Skipped(stripUrls, doc), docs)
      && forall i :: 0 <= i < |rows| ==> Consistent(rows[i])
  {
    var step: Step := doc => Classify(stripUrls, vectorize, html, metadata, altTags, doc);
    var keep := doc => !Skipped(stripUrls, doc);
    RunStepsRows(step, docs);
    forall i | 0 <= i < |docs|
      ensures step(docs[i]).Success? && (step(docs[i]).value.Some? <==> keep(docs[i]))
    {
      var r := Classify(stripUrls, vectorize, html, metadata, altTags, docs[i]);
    }
    ProducedCount(step, docs, keep);
    ProducedFrom(step, docs);
    var rows := Produced(step, docs);
    forall i | 0 <= i < |rows|
      ensures Consistent(rows[i])
    {
      assert rows[i] in rows;
      var j :| 0 <= j < |docs| && step(docs[j]) == Success(Some(rows[i]));
      var r := Classify(stripUrls, vectorize, html, metadata, altTags, docs[j]);
    }
  }

  /** Rows come out in paragraph order: comparing two runs of paragraphs concatenates their rows. */
  lemma CompareTextsAppend(stripUrls: UrlStripper, vectorize: Vectorizer, a: seq<string>, b: seq<string>,
                           html: seq<string>, metadata: seq<Field>, altTags: seq<string>)
    requires CompareTexts(stripUrls, vectorize, a, html, metadata, altTags).Success?
    requires CompareTexts(stripUrls, vectorize, b, html, metadata, altTags).Success?
    ensures CompareTexts(stripUrls, vectorize, a + b, html, metadata, altTags)
         == Success(CompareTexts(stripUrls, vectorize, a, html, metadata, altTags).value
                    + CompareTexts(stripUrls, vectorize, b, html, metadata, altTags).value)
  {
    var step: Step := doc => Classify(stripUrls, vectorize, html, metadata, altTags, doc);
    RunStepsAppend(step, a, b);
  }

  /** When every other prefix is ruled out, only the three left can make the test succeed. */
  lemma StartsWithAnyOfThree(s: string, prefixes: seq<string>, a: nat, b: nat, c: nat)
    requires a < |prefixes| && b < |prefixes| && c < |prefixes|
    requires forall i :: 0 <= i < |prefixes| && i != a && i != b && i != c ==> !StartsWith(s, prefixes[i])
    ensures StartsWithAny(s, prefixes) <==> StartsWith(s, prefixes[a]) || StartsWith(s, prefixes[b]) || StartsWith(s, prefixes[c])
  {
    StartsWithAnyIff(s, prefixes);
  }

  /** Fifteen of the eighteen prefixes hold whitespace, so none of them opens a whitespace-free text. */
  lemma SpacedPrefixesNeverApply(c: string)
    requires NoSpace(c)
    ensures forall i :: 0 <= i < |IgnorePrefixes| && i != 12 && i != 13 && i != 15 ==> !StartsWith(c, IgnorePrefixes[i])
  {
    forall i | 0 <= i < |IgnorePrefixes| && i != 12 && i != 13 && i != 15
      ensures !StartsWith(c, IgnorePrefixes[i])
    {
      // the position of a whitespace character in each prefix
      var gap := [2, 5, 4, 2, 2, 4, 3, 5, 4, 4, 4, 2, 0, 0, 5, 0, 2, 5];
      SpacedPrefixNeverStarts(c, IgnorePrefixes[i], gap[i]);
    }
  }

  /** Of the prefixes, only the three without whitespace can open a whitespace-free text. */
  lemma OnlySpacelessPrefixesApply(c: string)
    requires NoSpace(c)
    ensures Ignored(c) <==> StartsWith(c, "en:") || StartsWith(c, "be-fr:") || StartsWith(c, "alt-tag:")
  {
    SpacedPrefixesNeverApply(c);
    StartsWithAnyOfThree(c, IgnorePrefixes, 12, 13, 15);
    assert IgnorePrefixes[12] == "en:" && IgnorePrefixes[13] == "be-fr:" && IgnorePrefixes[15] == "alt-tag:";
  }

  /**
   * Since cleaning deletes all whitespace, a paragraph is dropped as boilerplate
   * only when its cleaned text opens with "en:", "be-fr:" or "alt-tag:".
   */
  lemma IgnoredOnlyBySpacelessPrefixes(stripUrls: UrlStripper, doc: string)
    ensures var c := CleanDoc(stripUrls, doc);
      Ignored(c) <==> StartsWith(c, "en:") || StartsWith(c, "be-fr:") || StartsWith(c, "alt-tag:")
  {
    OnlySpacelessPrefixesApply(CleanDoc(stripUrls, doc));
  }

  /**
   * "alt-tag:" is itself a boilerplate prefix, so the alt-tag branch only sees
   * paragraphs whose cleaned text has something other than a colon right after
   * "alt-tag" (such as "alt-tag(hero):").
   */
  lemma AltTaggedIff(stripUrls: UrlStripper, doc: string)
    ensures var c := CleanDoc(stripUrls, doc);
      AltTagged(stripUrls, doc) <==> Trim(doc) != [] && StartsWith(c, "alt-tag") && !StartsWith(c, "alt-tag:")
  {
    var c := CleanDoc(stripUrls, doc);
    IgnoredOnlyBySpacelessPrefixes(stripUrls, doc);
    if StartsWith(c, "alt-tag") {
      assert c[..7][0] == c[0];
      if |c| >= 3 {
        assert c[..3][0] == c[0];
      }
      if |c| >= 6 {
        assert c[..6][0] == c[0];
      }
    }
  }

  /**
   * An alt-tag paragraph is matched against the alt-tag pool only, and its row
   * reports the stripped text after the first colon.
   */
  lemma AltTagRow(stripUrls: UrlStripper, vectorize: Vectorizer, html: seq<string>, metadata: seq<Field>,
                  altTags: seq<string>, doc: string)
    requires AltTagged(stripUrls, doc) && ':' in doc
    ensures var payload := Trim(PartitionAt(doc, ':').value.1);
      var m := SafeBestMatch(stripUrls, vectorize, payload, altTags);
      Classify(stripUrls, vectorize, html, metadata, altTags, doc) == Success(Some(Rated(payload, m.text, m.score)))
  {
  }

  /** What the text blocks and the metadata hold makes no difference to an alt-tag paragraph. */
  lemma AltTagIgnoresOtherPools(stripUrls: UrlStripper, vectorize: Vectorizer, html: seq<string>, metadata: seq<Field>,
                                html': seq<string>, metadata': seq<Field>, altTags: seq<string>, doc: string)
    requires AltTagged(stripUrls, doc)
    ensures Classify(stripUrls, vectorize, html, metadata, altTags, doc)
         == Classify(stripUrls, vectorize, html', metadata', altTags, doc)
  {
  }

  /**
   * An exact metadata match reports the matching value, with the status of a
   * fresh match against that value alone.
   */
  lemma ExactMetadataRow(stripUrls: UrlStripper, vectorize: Vectorizer, html: seq<string>, metadata: seq<Field>,
                         altTags: seq<string>, doc: string, k: nat)
    requires DistinctKeys(metadata)
    requires !Skipped(stripUrls, doc) && !StartsWith(CleanDoc(stripUrls, doc), "alt-tag")
    requires ExactField(metadata, doc) == Some(k) && metadata[k].key != ""
    ensures var value := metadata[k].value;
      && Trim(value) == Trim(doc)
      && Classify(stripUrls, vectorize, html, metadata, altTags, doc)
         == Success(Some(Rated(doc, value, SafeBestMatch(stripUrls, vectorize, doc, [value]).score)))
  {
    LookupDistinct(metadata, k);
  }

  /**
   * An exact metadata match is not enough for Exact: when the vectoriser
   * rejects the corpus the row is Missing, though it reports the matching value.
   */
  lemma ExactMetadataCanBeMissing(stripUrls: UrlStripper, vectorize: Vectorizer, html: seq<string>, metadata: seq<Field>,
                                  altTags: seq<string>, doc: string, k: nat)
    requires DistinctKeys(metadata)
    requires !Skipped(stripUrls, doc) && !StartsWith(CleanDoc(stripUrls, doc), "alt-tag")
    requires ExactField(metadata, doc) == Some(k) && metadata[k].key != ""
    requires vectorize(Clean(stripUrls, Lower(doc)), CleanedCandidates(stripUrls, [metadata[k].value])).ValueError?
    ensures Classify(stripUrls, vectorize, html, metadata, altTags, doc)
         == Success(Some(Row(doc, metadata[k].value, Missing, 0.0)))
  {
    var value := metadata[k].value;
    ExactMetadataRow(stripUrls, vectorize, html, metadata, altTags, doc, k);
    RejectedCorpusGivesNoMatch(stripUrls, vectorize, doc, [value]);
    assert Rated(doc, value, 0.0) == Row(doc, value, Missing, 0.0);
  }

  /**
   * A field chosen by the fuzzy pass always yields Exact: the report re-scores
   * the same paragraph against the same value, which scored above 0.85.
   */
  lemma FuzzyMetadataRowIsExact(stripUrls: UrlStripper, vectorize: Vectorizer, html: seq<string>, metadata: seq<Field>,
                                altTags: seq<string>, doc: string)
    requires DistinctKeys(metadata)
    requires !Skipped(stripUrls, doc) && !StartsWith(CleanDoc(stripUrls, doc), "alt-tag")
    requires var exact := ExactField(metadata, doc); !(exact.Some? && metadata[exact.value].key != "")
    requires MetaChoice(stripUrls, vectorize, metadata, doc).Some?
    ensures var k := MetaChoice(stripUrls, vectorize, metadata, doc).value;
      var r := Classify(stripUrls, vectorize, html, metadata, altTags, doc);
      && r.Success? && r.value.Some?
      && r.value.value.webpageMatch == metadata[k].value
      && r.value.value.status == Exact
      && r.value.value.similarity > 85.0
  {
    var k := MetaChoice(stripUrls, vectorize, metadata, doc).value;
    var scores := FuzzyScores(stripUrls, vectorize, metadata, doc);
    var best := FirstBest(scores, 0.0);
    assert best.index == Some(k) && best.score > 0.85;
    assert scores[k] == Some(best.score);
    LookupDistinct(metadata, k);
  }

  /** Without a metadata field, the paragraph is matched against the text blocks. */
  lemma HtmlFallbackRow(stripUrls: UrlStripper, vectorize: Vectorizer, html: seq<string>, metadata: seq<Field>,
                        altTags: seq<string>, doc: string)
    requires !Skipped(stripUrls, doc) && !StartsWith(CleanDoc(stripUrls, doc), "alt-tag")
    requires MetaChoice(stripUrls, vectorize, metadata, doc).None?
    ensures var m := SafeBestMatch(stripUrls, vectorize, doc, html);
      Classify(stripUrls, vectorize, html, metadata, altTags, doc) == Success(Some(Rated(doc, m.text, m.score)))
    ensures html == [] ==> Classify(stripUrls, vectorize, html, metadata, altTags, doc) == Success(Some(Row(doc, "", Missing, 0.0)))
  {
    if html == [] {
      assert AllBlank(stripUrls, html);
    }
  }

  /** The four statuses in the order the summary lists them. */
  const SummaryOrder: seq<Status> := [Exact, Similar, Partial, Missing]

  /** One line of the summary frame: "Status", "Quantidade", "Porcentagem". */
  datatype SummaryRow = SummaryRow(name: string, count: nat, percent: real)

  function CountStatus(rows: seq<Row>, s: Status): (n: nat)
    ensures n <= |rows|
    decreases |rows|
  {
    if rows == [] then 0
    else (if rows[0].status == s then 1 else 0) + CountStatus(rows[1..], s)
  }

  /** Every row has exactly one of the four statuses, so the four counts add up to the number of rows. */
  lemma {:induction false} CountsPartition(rows: seq<Row>)
    ensures CountStatus(rows, Exact) + CountStatus(rows, Similar) + CountStatus(rows, Partial)
          + CountStatus(rows, Missing) == |rows|
    decreases |rows|
  {
    if rows != [] {
      CountsPartition(rows[1..]);
    }
  }

  function Tally(rows: seq<Row>, s: Status): (line: SummaryRow)
    requires rows != []
  {
    var n := CountStatus(rows, s);
    SummaryRow(Label(s), n, Percent(n, |rows|))
  }

  /**
   * `generate_summary(df)`: the four statuses in fixed order with their counts
   * and percentages, then TOTAL. With no rows the frame has no "Status" column
   * and the call raises.
   */
  function GenerateSummary(rows: seq<Row>): (r: Result<seq<SummaryRow>, Error>)
    ensures r.Failure? <==> rows == []
    ensures r.Success? ==> |r.value| == 5 && r.value[4] == SummaryRow("TOTAL", |rows|, 100.0)
    ensures r.Success? ==> forall k :: 0 <= k < 4 ==>
      && r.value[k].name == Label(SummaryOrder[k])
      && r.value[k].count == CountStatus(rows, SummaryOrder[k])
      && r.value[k].percent == Percent(r.value[k].count, |rows|)
  {
    if rows == [] then Failure(KeyError)
    else Success([Tally(rows, Exact), Tally(rows, Similar), Tally(rows, Partial), Tally(rows, Missing),
                  SummaryRow("TOTAL", |rows|, 100.0)])
  }

  /** The four status lines account for every row: their counts sum to TOTAL and their percentages to 100. */
  lemma SummaryAddsUp(rows: seq<Row>)
    requires rows != []
    ensures var lines := GenerateSummary(rows).value;
      && lines[0].count + lines[1].count + lines[2].count + lines[3].count == lines[4].count
      && lines[0].percent + lines[1].percent + lines[2].percent + lines[3].percent == 100.0
  {
    CountsPartition(rows);
    var lines := GenerateSummary(rows).value;
    FourPercentsAddUp(lines[0].count, lines[1].count, lines[2].count, lines[3].count, |rows|);
  }
}
