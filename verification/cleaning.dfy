/**
 * `clean_text` as written in render_deploy/src/utils/text_processing.py and,
 * identically, in src/utils/web_scraper.py: link removal, then the deletion of
 * every whitespace character, then a run-collapsing substitution and a strip
 * that no longer have anything to act on.
 */
module Cleaning {
  import opened Wrappers
  import opened Text

  /**
   * The link-removing `re.sub` that opens `clean_text`. Its pattern is left
   * uninterpreted: the model holds for whatever it does to the text.
   */
  type UrlStripper = string -> string

  /**
   * What `clean_text` comes to on a `str`: the link-stripped text with every
   * whitespace character deleted. The rest of the model cleans through this form;
   * `CleanText` below follows the source step by step and is proved equal to it.
   */
  function Clean(stripUrls: UrlStripper, s: string): (r: string)
    ensures NoSpace(r)
  {
    RemoveSpaces(stripUrls(s))
  }

  /**
   * `clean_text(text)`, step by step; `None` stands for any value that is not a
   * `str`. A non-string gives `""`; otherwise the collapse-and-strip steps that
   * follow the whitespace deletion leave its result as it is.
   */
  function CleanText(stripUrls: UrlStripper, text: Option<string>): (r: string)
    ensures NoSpace(r)
    ensures text.None? ==> r == ""
    ensures text.Some? ==> r == Clean(stripUrls, text.value)
  {
    match text
    case None => ""
    case Some(s) =>
      var unlinked := stripUrls(s);
      var squeezed := RemoveSpaces(unlinked);
      CollapseAndStripAreNoOps(squeezed);
      Trim(CollapseRuns(squeezed))
  }

  /**
   * Once every whitespace character is gone, the substitution that turns each
   * whitespace run into one space, and the final strip, change nothing.
   */
  lemma CollapseAndStripAreNoOps(s: string)
    requires NoSpace(s)
    ensures Trim(CollapseRuns(s)) == s
  {
    CollapseFixed(s);
    TrimFixed(s);
  }
}
