# Text comparison core of webappqa, modelled in Dafny

webappqa checks a web page against the Word document it was built from. It
reads the document's paragraphs, scrapes the page's texts, headings, metadata
and image alt tags, then matches every paragraph to the page. Each paragraph
gets a status: Exact, Similar, Partial or Missing (in the older `src/main.py`:
Exato, Similar, Parcial or Não encontrado). The statuses are then tallied into a
summary table.

This project models that core as pure Dafny functions and proves what each
piece promises:

- **`Cleaning`**: `clean_text` of `render_deploy/src/utils/text_processing.py`
  and of `src/utils/web_scraper.py`. The two are identical.
- **`Matcher`**: `safe_best_match`, the guarded TF-IDF best match.
- **`Classifier`**: the paragraph-by-paragraph decision of `compare_texts` in
  `text_processing.py` (skip, alt-tag, exact metadata, fuzzy metadata, HTML
  fallback), and its `generate_summary`.
- **`WordOverlap`**: `src/main.py`:
  - its `clean_text`;
  - the word-overlap `compare_texts`;
  - `generate_summary` and `generate_summary_table`.
- **`Scraper`**: the list post-processing of `web_scraper.py`:
  - `collect_html_elements`;
  - the expansion of rating-table rows into texts;
  - the pagination filter on text blocks;
  - the keyword and table rating passes;
  - the default ratings.
- **Supporting modules:**
  - `Text`: Python's `str.isspace`, `lower`, `strip`, `split`, `in` and `split(":", 1)`.
  - `Selection`: the "first strictly better score" scan used by two loops.
  - `Percentages`: `count / total * 100`.
  - `Wrappers`: `Option` and `Result`.

Five behaviours of the code would surprise a reader of its comments and
output formats. The model follows the code each time:

- **Whitespace.** The comment on text_processing.py line 19 speaks of collapsing
  extra spaces, but `clean_text` does not collapse whitespace runs.
  `re.sub(r'(\s*)', '', text)` (text_processing.py line 18, web_scraper.py
  line 17) deletes every whitespace character. The collapse and strip that follow
  have nothing left to do (`Cleaning.CollapseAndStripAreNoOps`).
  - A consequence: only the space-free ignore prefixes "en:", "be-fr:" and
    "alt-tag:" can ever match (`Classifier.OnlySpacelessPrefixesApply`).
  - Another: of the eight veterinary-rating labels, only "Muda" can be found in
    the scraped texts (`Scraper.KeywordPassNeedsMuda`).
- **Match index.** `safe_best_match` takes the index of the best cleaned candidate,
  but looks it up in the unfiltered list. So it can return a text that was never
  scored (`Matcher.PickedTextNeedNotBeScored`).
- **Exact metadata.** A paragraph that equals a metadata value can still be rated
  Missing, because the value is re-scored (`Classifier.ExactMetadataCanBeMissing`).
- **Empty summary.** Line 145 writes a TOTAL of 0% for an empty frame, but
  `generate_summary` on zero rows never gets there. Indexing `"Status"` on the
  column-less frame (line 136) raises `KeyError` first.
- **Alt-tag branch.** A paragraph whose cleaned text starts with "alt-tag:" is
  skipped as boilerplate (`Classifier.AltTaggedIff`). One that reaches the
  alt-tag branch without any colon raises `IndexError`.

What cannot be computed here is a parameter:
- the link-removing regular expression (`UrlStripper`);
- the TF-IDF vectoriser with cosine similarity (`Vectorizer`: either a
  `ValueError` or one similarity in [0, 1] per candidate).

The parsed page comes in as the sequences BeautifulSoup would produce. Python
exceptions the code lets escape become `Failure` values.

## Model

| member | source | states |
|---|---|---|
| Cleaning.CleanText | render_deploy/src/utils/text_processing.py:6-21 | a non-string gives ""; a string gives its link-stripped text with every whitespace character deleted, whatever the collapse and strip steps would do |
| Cleaning.Clean | src/utils/web_scraper.py:5-20 | the scraper's identical `clean_text`, on a string, leaves no whitespace character at all |
| Cleaning.CollapseAndStripAreNoOps | render_deploy/src/utils/text_processing.py:18-21 | once whitespace is deleted, the run-collapsing substitution and the strip leave the text unchanged |
| Text.PartitionAt | render_deploy/src/utils/text_processing.py:63 | `split(":", 1)` fails exactly when there is no colon; otherwise the text is the part before, the colon, and the rest, and the part before has no colon |
| Text.SplitKeepsText | src/main.py:134-135 | the words of `str.split()` read back to back are the text without its whitespace |
| Text.Split | src/main.py:134-135 | `str.split()` gives non-empty, whitespace-free words; `SplitKeepsText`, `SplitJoin` and `CollapseTrimIsJoin` pin down which ones |
| Text.JoinEdges | src/main.py:30-31 | words joined by single spaces neither start nor end with whitespace, and are empty only when there are no words |
| Text.CollapseIsJoin | src/main.py:30 | on a text that does not open with whitespace, collapsing the whitespace runs gives its words joined by single spaces, plus one space when the text ends in whitespace |
| Text.CollapseTrimIsJoin | src/main.py:30-31 | `re.sub(r'\s+', ' ', s).strip()` is `' '.join(s.split())` for every string |
| Text.SplitJoin | src/main.py:134-135 | splitting words joined by single spaces gives back exactly those words |
| Text.SplitEmptyIffBlank | src/main.py:137 | `split()` gives no words exactly when the text is all whitespace |
| Matcher.CleanedCandidates | render_deploy/src/utils/text_processing.py:29 | the cleaned pool is no longer than the candidates, and it is empty exactly when every candidate cleans to nothing |
| Matcher.CleanedCandidatesMembers | render_deploy/src/utils/text_processing.py:29 | a text is in the pool exactly when some candidate cleans to something and the text is that candidate, lower-cased and cleaned |
| Matcher.CleanedCandidatesAppend | render_deploy/src/utils/text_processing.py:29 | the pool of two candidate lists in turn is the pool of each, in order |
| Matcher.ArgMax | render_deploy/src/utils/text_processing.py:38 | `argmax` returns an index whose value is at least every other and strictly above every earlier one |
| Matcher.SafeBestMatch | render_deploy/src/utils/text_processing.py:23-41 | the score lies in [0, 1]; the text is "" or one of the candidates; an empty cleaned query, or candidates that all clean to nothing, give `("", 0.0)` |
| Matcher.SafeBestMatchPicksMaximum | render_deploy/src/utils/text_processing.py:33-41 | with both guards passed, a vectoriser error gives `("", 0.0)`; otherwise the result is the candidate at the first greatest similarity, with that similarity |
| Matcher.RejectedCorpusGivesNoMatch | render_deploy/src/utils/text_processing.py:40-41 | a `ValueError` from the vectoriser gives `("", 0.0)` |
| Matcher.PickedTextNeedNotBeScored | render_deploy/src/utils/text_processing.py:29-39 | with candidates `["", word]`, the text returned is the unscored "" while the score is the score of `word` |
| Selection.FirstBest | render_deploy/src/utils/text_processing.py:83-91 | the scan keeps the first field whose score is strictly greater than every earlier one and at least every later one, and keeps the start value when no score beats it |
| Selection.FirstBestUnique | src/main.py:129-145 | the first-best description fixes the scan's result, so the loop and the fold agree |
| Percentages.ShareAtMostOne | src/main.py:141 | common words over the larger word count is a share in [0, 1] |
| Percentages.FourPercentsAddUp | render_deploy/src/utils/text_processing.py:139 | four counts that make up a non-empty total have percentages adding up to 100 |
| Classifier.StatusOf | render_deploy/src/utils/text_processing.py:65-72 | Exact from 0.85, Similar in [0.75, 0.85), Partial in [0.4, 0.75), Missing below 0.4; each band in both directions |
| Classifier.StatusMonotone | render_deploy/src/utils/text_processing.py:96-103 | a higher score never earns a lower status |
| Classifier.CleanDoc | render_deploy/src/utils/text_processing.py:52 | the cleaned, lower-cased paragraph holds no whitespace |
| Classifier.StartsWithAnyIff | render_deploy/src/utils/text_processing.py:59 | the `any(startswith)` test holds exactly when one of the prefixes opens the text |
| Classifier.OnlySpacelessPrefixesApply | render_deploy/src/utils/text_processing.py:52-60 | on a cleaned text, the 18 ignore prefixes come down to "en:", "be-fr:" and "alt-tag:" |
| Classifier.IgnoredOnlyBySpacelessPrefixes | render_deploy/src/utils/text_processing.py:52-60 | a paragraph is skipped as boilerplate exactly when its cleaned text starts with one of those three |
| Classifier.AltTaggedIff | render_deploy/src/utils/text_processing.py:59-62 | the alt-tag branch is reached exactly when the paragraph is not blank and its cleaned text starts with "alt-tag" but not with "alt-tag:" |
| Classifier.Rated | render_deploy/src/utils/text_processing.py:73-78 | a row built from a score in [0, 1] has a similarity in [0, 100] and the status the table gives that similarity |
| Classifier.ExactField | render_deploy/src/utils/text_processing.py:81 | the exact-match `next` finds the first field with a non-empty value equal to the paragraph after stripping, and `None` only when no field qualifies |
| Classifier.FuzzyScores | render_deploy/src/utils/text_processing.py:85-88 | one score per field; a field has no score exactly when its value strips to nothing; every score lies in [0, 1] |
| Classifier.MetaChoice | render_deploy/src/utils/text_processing.py:81-93 | the chosen field has a non-empty key; an exact match with a non-empty key is always the choice; without one, a field is chosen exactly when the first highest fuzzy score is above 0.85 and its field's key is non-empty, and then that field is the choice |
| Classifier.FuzzyChoice | render_deploy/src/utils/text_processing.py:84-93 | a field is chosen exactly when the first highest score is above 0.85 and its key is non-empty; the choice is that field, and no score is higher and no earlier score as high |
| Classifier.Lookup | render_deploy/src/utils/text_processing.py:95 | `metadata[key]` is the value of a field with that key |
| Classifier.LookupDistinct | render_deploy/src/utils/text_processing.py:106 | with distinct keys, `metadata[key]` is the value of the field chosen |
| Classifier.Classify | render_deploy/src/utils/text_processing.py:49-128 | a paragraph gives no row exactly when it is blank or boilerplate; it raises exactly when it reaches the alt-tag branch without a colon; every row it gives is consistent |
| Classifier.AltTagRow | render_deploy/src/utils/text_processing.py:62-79 | an alt-tag paragraph with a colon is rated on the stripped text after its first colon, against the alt-tag pool |
| Classifier.AltTagIgnoresOtherPools | render_deploy/src/utils/text_processing.py:62-79 | the alt-tag outcome does not depend on the HTML blocks or the metadata |
| Classifier.ExactMetadataRow | render_deploy/src/utils/text_processing.py:81-110 | an exact metadata match is reported with that field's value and the re-computed score against it |
| Classifier.ExactMetadataCanBeMissing | render_deploy/src/utils/text_processing.py:95-103 | if the vectoriser rejects that re-scoring, the exact match is reported as Missing at 0 |
| Classifier.FuzzyMetadataRowIsExact | render_deploy/src/utils/text_processing.py:82-110 | when the exact pass chooses nothing (no match, or a match with an empty key), a field chosen by the fuzzy pass is reported as Exact, above 85 |
| Classifier.HtmlFallbackRow | render_deploy/src/utils/text_processing.py:112-128 | with no metadata field chosen, the paragraph is rated against the HTML blocks, and without blocks it is Missing at 0 with no match |
| Classifier.RunStepsFailsIff | render_deploy/src/utils/text_processing.py:49-128 | the loop raises exactly when the body raises on some paragraph |
| Classifier.RunStepsRows | render_deploy/src/utils/text_processing.py:49-128 | when the loop completes, every paragraph's body completed and the rows are the produced rows in paragraph order |
| Classifier.RunStepsAppend | render_deploy/src/utils/text_processing.py:47-129 | running the loop over two lists in turn is running it over their concatenation, the first failure winning |
| Classifier.ProducedCount | render_deploy/src/utils/text_processing.py:49-60 | the number of rows is the number of paragraphs the body keeps |
| Classifier.ProducedFrom | render_deploy/src/utils/text_processing.py:73-128 | every row came from one of the paragraphs |
| Classifier.CompareTexts | render_deploy/src/utils/text_processing.py:43-129 | a completed comparison has at most one row per paragraph |
| Classifier.CompareTextsFailsIff | render_deploy/src/utils/text_processing.py:63 | `compare_texts` raises exactly when some paragraph reaches the alt-tag branch without a colon |
| Classifier.CompareTextsRows | render_deploy/src/utils/text_processing.py:43-129 | when it completes, there is one row per paragraph that is neither blank nor boilerplate, and every row is consistent |
| Classifier.CompareTextsAppend | render_deploy/src/utils/text_processing.py:47-129 | the rows of two documents read in turn are the rows of each, in order |
| Classifier.CountsPartition | render_deploy/src/utils/text_processing.py:136-138 | the four status counts add up to the number of rows |
| Classifier.GenerateSummary | render_deploy/src/utils/text_processing.py:131-146 | it fails exactly on zero rows; otherwise there are four lines in the order Exact, Similar, Partial, Missing, each with its count and percentage, then TOTAL with all rows at 100 |
| Classifier.SummaryAddsUp | render_deploy/src/utils/text_processing.py:135-145 | the four counts add up to the TOTAL count and the four percentages add up to 100 |
| WordOverlap.CleanText | src/main.py:26-32 | a missing text gives ""; otherwise the result is exactly the words of the text joined by single spaces, so it is single-spaced, has no edge whitespace and keeps all the visible text |
| WordOverlap.CleanTextIdempotent | src/main.py:26-32 | cleaning twice is cleaning once |
| WordOverlap.Words | src/main.py:134-135 | the set is exactly the words `split()` gives on the lower-cased text: each non-empty and free of whitespace, and none exactly when the text is all whitespace |
| WordOverlap.Overlap | src/main.py:134-141 | no score exactly when either text has no words; otherwise the score lies in [0, 1] |
| WordOverlap.OverlapSymmetric | src/main.py:140-141 | the score of doc against web is the score of web against doc |
| WordOverlap.OverlapOneIff | src/main.py:140-141 | the score is 1 exactly when both texts have the same non-empty word set |
| WordOverlap.Scores | src/main.py:132-141 | one overlap score per web text, in order, each in [0, 1] |
| WordOverlap.Band | src/main.py:148-155 | Exato from 0.9, Similar in [0.7, 0.9), Parcial in [0.5, 0.7), Não encontrado below 0.5; each band in both directions |
| WordOverlap.Judge | src/main.py:147-164 | the record keeps the paragraph; it is Não encontrado, with neither text nor score, exactly when there is no pick or the pick scores below 0.5; otherwise it names the picked web text, its score and that score's band |
| WordOverlap.JudgeDescribes | src/main.py:147-164 | from the loop's first best score, the verdict is Não encontrado, with neither text nor score, exactly when every score is below 0.5; otherwise it reports the first highest-scoring web text, its score and that score's band |
| WordOverlap.Verdict | src/main.py:128-164 | a paragraph is Não encontrado exactly when no web text scores 0.5; otherwise its verdict is the first highest-scoring web text with its score and band |
| WordOverlap.TopScoreIsExato | src/main.py:143-149 | if some web text scores 1, the verdict is Exato with similarity 1 |
| WordOverlap.SameWordsGiveExato | src/main.py:132-149 | a web text with the paragraph's exact word set makes the verdict Exato at 1 |
| WordOverlap.BestCandidate | src/main.py:129-145 | the inner loop ends holding the first strictly greatest positive score and its index, or nothing |
| WordOverlap.CompareTexts | src/main.py:124-166 | one result per paragraph, in order, each the paragraph's verdict |
| WordOverlap.GenerateSummary | src/main.py:168-187 | the four counts add up to the number of results; exact, similar and partial count their statuses, and missing counts everything else |
| WordOverlap.TableCounts | src/main.py:191-199 | counting fails exactly when some status is not one of the four keys; otherwise each key gets the number of results with that status |
| WordOverlap.GenerateSummaryTable | src/main.py:189-210 | `KeyError` exactly on an unknown status; otherwise four lines with counts and percentages, then TOTAL with all results at 100 |
| WordOverlap.CountsCoverKnownStatuses | src/main.py:198-201 | when every status is a known key, the four counts add up to the number of results |
| WordOverlap.VerdictStatusIsKey | src/main.py:148-155 | every status `compare_texts` assigns is one of the table's keys |
| WordOverlap.SummaryTableAcceptsComparisons | src/main.py:189-199 | the table never fails on the output of `compare_texts` |
| WordOverlap.SummariesAgree | src/main.py:168-210 | the table's counts are the summary's counts |
| WordOverlap.TablePercentsAddUp | src/main.py:201-208 | for a non-empty list, the four percentages add up to the TOTAL line's 100 |
| Scraper.CollectKind | src/utils/web_scraper.py:53-66 | every element collected for a kind has that kind and a non-empty, whitespace-free text |
| Scraper.CollectKindMembers | src/utils/web_scraper.py:53-66 | an element is collected for a kind exactly when some node outside the footer, with a matching tag name, cleans to its text |
| Scraper.HeadingsFrom | src/utils/web_scraper.py:52-56 | the headings come out by level, h1 before h2 and so on up to h6 |
| Scraper.KindsInOrder | src/utils/web_scraper.py:50-66 | headings, then bold, then italic keep the collection order |
| Scraper.CollectHtmlElements | src/utils/web_scraper.py:42-68 | the elements are ordered by kind (h1 to h6, then bold, then italic), and each has a non-empty, whitespace-free text |
| Scraper.CollectHtmlElementsMembers | src/utils/web_scraper.py:46-66 | an element is collected exactly when some node outside the first footer gives it as its kind |
| Scraper.AnchorsIgnored | src/utils/web_scraper.py:67-68 | inserting an `a` node anywhere leaves the collected elements unchanged |
| Scraper.RowPair | src/utils/web_scraper.py:159-162 | a row yields a key and value exactly when it has at least two cells and both of the first two clean to something; they are those cleaned cells, free of whitespace |
| Scraper.TableTextsMembers | src/utils/web_scraper.py:156-166 | a text comes out of the row loop exactly when some row with two non-empty cleaned cells has it as its `key: value` pair or as its key |
| Scraper.TableTexts | src/utils/web_scraper.py:156-166 | the row loop adds texts two at a time |
| Scraper.TableTextsAppend | src/utils/web_scraper.py:156-157 | the texts of rows read in turn are the texts of each, in row order |
| Scraper.CleanedTexts | src/utils/web_scraper.py:113-116 | every accordion text kept is non-empty and free of whitespace |
| Scraper.CleanedTextsMembers | src/utils/web_scraper.py:113-116 | a text is kept from the accordion titles exactly when some title cleans to it and it is not empty |
| Scraper.CleanedTextsAppend | src/utils/web_scraper.py:113-116 | the texts of two title lists in turn are the texts of each, in order |
| Scraper.BlockTexts | src/utils/web_scraper.py:180-187 | every block text kept is non-empty and free of whitespace |
| Scraper.BlockTextsMembers | src/utils/web_scraper.py:181-187 | a text comes from the block loop exactly when some block without "Previous Next" or "Anterior Siguiente" in its raw text cleans to it |
| Scraper.BlockTextsAppend | src/utils/web_scraper.py:180-181 | the texts of blocks read in turn are the texts of each, in order |
| Scraper.ContainsAnyIff | src/utils/web_scraper.py:200-202 | the `any(key in text)` test holds exactly when one of the labels occurs in the text |
| Scraper.KeywordRatings | src/utils/web_scraper.py:199-207 | every keyword rating comes from a text that names a label and holds a colon and a slash, and there are no more ratings than texts |
| Scraper.KeywordRatingsComplete | src/utils/web_scraper.py:199-207 | every qualifying text gives a rating |
| Scraper.TableRatings | src/utils/web_scraper.py:210-218 | the table pass yields rating entries only |
| Scraper.LiveRows | src/utils/web_scraper.py:46-48 | the rows left after the footer removal are exactly the rows outside the footer |
| Scraper.NoFooterKeepsRows | src/utils/web_scraper.py:46-48 | with no rating row in the removed footer, every row stays |
| Scraper.TableRatingsMatchRowTexts | src/utils/web_scraper.py:156-218 | the table pass rates exactly the `key: value` texts the row loop added for the rows outside the removed footer: two texts per rating, rating i is row text 2i, and row text 2i+1 is the key that opens it, followed by ": " |
| Scraper.VetRatings | src/utils/web_scraper.py:195-218 | the keyword pass's ratings when it finds any; otherwise, and only then, the table pass's |
| Scraper.PairSpacesFollowColons | src/utils/web_scraper.py:164 | in a `key: value` text built from cleaned parts, the only whitespace is the space after the colon |
| Scraper.SpacedKeyNeverContained | src/utils/web_scraper.py:200-202 | a label whose space follows a letter never occurs in a text whose spaces all follow colons |
| Scraper.OnlyMudaCanMatch | src/utils/web_scraper.py:200-203 | on such a text the keyword test is "contains Muda, a colon and a slash" |
| Scraper.TableTextsShape | src/utils/web_scraper.py:156-166 | every text the rating tables add has its spaces only after colons |
| Scraper.KeywordPassNeedsMuda | src/utils/web_scraper.py:199-207 | every rating the keyword pass finds among the scraped texts contains "Muda" |
| Scraper.RatingsInAppend | src/utils/web_scraper.py:221 | the ratings in a list extended by another are those of each part |
| Scraper.PostProcess | src/utils/web_scraper.py:221-239 | the texts are the scraped texts followed by the eight default texts when no rating was found and by nothing otherwise; the elements are the collected tags followed by exactly their rating entries, which are the ratings found, or the eight defaults when there are none |
| Scraper.DefaultsIffNothingFound | src/utils/web_scraper.py:224-239 | the default rating texts are appended exactly when neither pass found a rating |

## Left out

- Classifier.Rated: the similarity is `score * 100` unrounded. The source rounds it to one decimal (`round(score * 100, 1)`). With rounding, a score just below 0.85 can display as 85.0 and still be Similar. The unrounded value keeps the status consistent with the reported number.
- Classifier.GenerateSummary: the percentages are not rounded to one decimal (`.round(1)`). The TOTAL percentage, the string "100%" in the source, is the number 100. Its "0%" branch cannot be reached, because zero rows raise `KeyError` first.
- WordOverlap.GenerateSummaryTable: percentages are Dafny reals, not Python floats, so "add up to 100" is exact here. The source's floating-point sum may be off in the last digit.
- The link-removing regular expression of `clean_text` is a parameter (`UrlStripper`), not interpreted. Every property holds for any such function.
- TF-IDF vectorisation with English stop words, and cosine similarity (scikit-learn), are a parameter (`Vectorizer`). Only its contract is assumed: a `ValueError`, or one similarity in [0, 1] per candidate. numpy's `argmax` is modelled exactly.
- Text.LowerChar: `str.lower` is modelled for ASCII and Latin-1 capitals only. Other scripts are left as they are.
- pandas is replaced by sequences of records: DataFrame construction, `value_counts` and `reindex`.
- Page loading with Playwright and HTML parsing with BeautifulSoup are replaced by the sequences the parser would yield:
  - tag nodes in document order, each with its `get_text(" ", strip=True)` text and whether it lies in the first footer;
  - rating-table rows, each with whether it lies in that first footer. `collect_html_elements` (web_scraper.py line 192) removes the footer after the row loop (lines 156-166) and before the table pass (lines 210-218), so such a row adds texts but never a table rating (`Scraper.TableRatingsMatchRowTexts`);
  - text blocks;
  - accordion titles.
- The scraper's search for the rating tables (web_scraper.py lines 118-154) is not modelled; the rows of the tables it finds are an input. Also not modelled: `extract_metadata`, `extract_alt_tags`, the choice of the main container, the script removal and the page title.
- Scraper.KeywordRatings: the unused `key` and `value` computed at web_scraper.py lines 205-206 are not modelled. They cannot fail, because the text holds a colon.
- Not modelled, being file formats, I/O or web plumbing: DOCX paragraph extraction (`extract_docx_text`, `file_processing.py`), the Excel report (`create_excel_report`), the Flask routes, `load_url_text` of `src/main.py`, and the browser script `main.js`.
