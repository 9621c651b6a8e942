/**
 * The list post-processing of src/utils/web_scraper.py, with the parsed page
 * replaced by the sequences the parser would hand over: tag nodes in document
 * order, the rows of the veterinary-rating tables, the text blocks of the main
 * container and the accordion titles. Covers `collect_html_elements`, the
 * expansion of table rows into texts, the pagination filter on blocks, the
 * keyword and table rating passes, and the default ratings.
 */
module Scraper {
  import opened Wrappers
  import opened Text
  import opened Cleaning

  // ---------------------------------------------------------------------------
  // Elements

  /** The four kinds of entry in the elements list. */
  datatype Kind = Heading(level: nat) | Bold | Italic | Rating

  /**
   * One entry of the elements list: `[label, tag, text, '']`. A rating entry is
   * written with the label "Puntuación Veterinaria" and the tag "rating".
   */
  datatype Element = Element(kind: Kind, text: string)

  function HeadingTag(level: nat): string
    requires 1 <= level <= 6
  {
    ['h', ('0' as int + level) as char]
  }

  /** The tag names whose nodes are collected as `kind`. */
  function NamesOf(kind: Kind): set<string> {
    match kind
    case Heading(level) => if 1 <= level <= 6 then {HeadingTag(level)} else {}
    case Bold => {"strong", "b"}
    case Italic => {"em", "i"}
    case Rating => {}
  }

  /** Position of a kind in the collection order: h1 … h6, then bold, then italic. */
  function Rank(kind: Kind): nat {
    match kind
    case Heading(level) => level
    case Bold => 7
    case Italic => 8
    case Rating => 9
  }

  ghost predicate Ordered(es: seq<Element>) {
    forall i, j :: 0 <= i < j < |es| ==> Rank(es[i].kind) <= Rank(es[j].kind)
  }

  lemma OrderedAppend(a: seq<Element>, b: seq<Element>)
    requires Ordered(a) && Ordered(b)
    requires forall x, y :: x in a && y in b ==> Rank(x.kind) <= Rank(y.kind)
    ensures Ordered(a + b)
  {
    forall i, j | 0 <= i < j < |a + b|
      ensures Rank((a + b)[i].kind) <= Rank((a + b)[j].kind)
    {
      if i < |a| && j >= |a| {
        assert (a + b)[i] in a && (a + b)[j] in b;
      }
    }
  }

  /**
   * A tag of the main container: its name, its text as
   * `get_text(" ", strip=True)` gives it, and whether it lies inside the first
   * `footer`, which is removed before collecting.
   */
  datatype Node = Node(name: string, text: string, inFooter: bool)

  /** The node's entry as `kind`, if it is one: not in the footer, a matching name, and text left after cleaning. */
  function Entry(stripUrls: UrlStripper, node: Node, kind: Kind): Option<Element> {
    var text := Clean(stripUrls, node.text);
    if !node.inFooter && node.name in NamesOf(kind) && text != [] then Some(Element(kind, text)) else None
  }

  /** One `for tag in main.find_all(...)` loop: the entries of one kind, in document order. */
  function CollectKind(stripUrls: UrlStripper, nodes: seq<Node>, kind: Kind): (es: seq<Element>)
    ensures forall e :: e in es ==> e.kind == kind && e.text != [] && NoSpace(e.text)
    decreases |nodes|
  {
    if nodes == [] then []
    else
      var head := Entry(stripUrls, nodes[0], kind);
      (if head.Some? then [head.value] else []) + CollectKind(stripUrls, nodes[1..], kind)
  }

  /** An entry is collected as `kind` exactly when some node gives it. */
  lemma {:induction false} CollectKindMembers(stripUrls: UrlStripper, nodes: seq<Node>, kind: Kind, e: Element)
    ensures e in CollectKind(stripUrls, nodes, kind) <==> exists n :: n in nodes && Entry(stripUrls, n, kind) == Some(e)
    decreases |nodes|
  {
    if nodes != [] {
      CollectKindMembers(stripUrls, nodes[1..], kind, e);
      if exists n :: n in nodes && Entry(stripUrls, n, kind) == Some(e) {
        var n :| n in nodes && Entry(stripUrls, n, kind) == Some(e);
        if n != nodes[0] {
          assert n in nodes[1..];
        }
      }
    }
  }

  lemma {:induction false} CollectKindAppend(stripUrls: UrlStripper, a: seq<Node>, b: seq<Node>, kind: Kind)
    ensures CollectKind(stripUrls, a + b, kind) == CollectKind(stripUrls, a, kind) + CollectKind(stripUrls, b, kind)
    decreases |a|, 1
  {
    if a == [] {
      assert a + b == b;
    } else {
      CollectKindAppendStep(stripUrls, a, b, kind);
    }
  }

  /** The step of `CollectKindAppend`: the first node's entry, then the rest of `a` followed by `b`. */
  lemma {:induction false} CollectKindAppendStep(stripUrls: UrlStripper, a: seq<Node>, b: seq<Node>, kind: Kind)
    requires a != []
    ensures CollectKind(stripUrls, a + b, kind) == CollectKind(stripUrls, a, kind) + CollectKind(stripUrls, b, kind)
    decreases |a|, 0
  {
    var head := Entry(stripUrls, a[0], kind);
    var first: seq<Element> := if head.Some? then [head.value] else [];
    var restA, restB := CollectKind(stripUrls, a[1..], kind), CollectKind(stripUrls, b, kind);
    calc {
      CollectKind(stripUrls, a + b, kind);
      { assert (a + b)[0] == a[0] && (a + b)[1..] == a[1..] + b; }
      first + CollectKind(stripUrls, a[1..] + b, kind);
      { CollectKindAppend(stripUrls, a[1..], b, kind); }
      first + (restA + restB);
      (first + restA) + restB;
    }
  }

  /** The headings of levels `level` to 6, level by level. */
  function HeadingsFrom(stripUrls: UrlStripper, nodes: seq<Node>, level: nat): (es: seq<Element>)
    requires 1 <= level
    ensures Ordered(es)
    ensures forall e :: e in es ==> e.kind.Heading? && level <= e.kind.level <= 6
    decreases 7 - level
  {
    if level > 6 then []
    else
      var here := CollectKind(stripUrls, nodes, Heading(level));
      var rest := HeadingsFrom(stripUrls, nodes, level + 1);
      OrderedAppend(here, rest);
      here + rest
  }

  lemma KindsInOrder(headings: seq<Element>, bold: seq<Element>, italic: seq<Element>)
    requires Ordered(headings) && forall e :: e in headings ==> e.kind.Heading? && e.kind.level <= 6
    requires forall e :: e in bold ==> e.kind == Bold
    requires forall e :: e in italic ==> e.kind == Italic
    ensures Ordered(headings + bold + italic)
  {
    OrderedAppend(bold, italic);
    OrderedAppend(headings, bold + italic);
    assert headings + bold + italic == headings + (bold + italic);
  }

  /**
   * `collect_html_elements(main)`: headings h1 to h6 by level, then bold
   * (`strong`, `b`), then italic (`em`, `i`), each with non-empty cleaned
   * text; nothing from the footer and no other tag.
   */
  function CollectHtmlElements(stripUrls: UrlStripper, nodes: seq<Node>): (es: seq<Element>)
    ensures Ordered(es)
    ensures forall e :: e in es ==> e.text != [] && NoSpace(e.text) && Rank(e.kind) <= 8
  {
    var headings := HeadingsFrom(stripUrls, nodes, 1);
    var bold := CollectKind(stripUrls, nodes, Bold);
    var italic := CollectKind(stripUrls, nodes, Italic);
    KindsInOrder(headings, bold, italic);
    headings + bold + italic
  }

  lemma {:induction false} HeadingsFromMembers(stripUrls: UrlStripper, nodes: seq<Node>, level: nat, e: Element)
    requires 1 <= level
    ensures e in HeadingsFrom(stripUrls, nodes, level) <==>
      e.kind.Heading? && level <= e.kind.level && exists n :: n in nodes && Entry(stripUrls, n, e.kind) == Some(e)
    decreases 7 - level
  {
    if level <= 6 {
      CollectKindMembers(stripUrls, nodes, Heading(level), e);
      HeadingsFromMembers(stripUrls, nodes, level + 1, e);
    }
  }

  /** An element is collected exactly when some node outside the footer yields it as its kind. */
  lemma CollectHtmlElementsMembers(stripUrls: UrlStripper, nodes: seq<Node>, e: Element)
    ensures e in CollectHtmlElements(stripUrls, nodes) <==> exists n :: n in nodes && Entry(stripUrls, n, e.kind) == Some(e)
  {
    HeadingsFromMembers(stripUrls, nodes, 1, e);
    match e.kind
    case Heading(_) =>
    case Bold => CollectKindMembers(stripUrls, nodes, Bold, e);
    case Italic => CollectKindMembers(stripUrls, nodes, Italic, e);
    case Rating =>
      assert forall n :: Entry(stripUrls, n, Rating).None?;
  }

  /** A node whose name no kind collects changes nothing, wherever it sits. */
  lemma CollectKindSkips(stripUrls: UrlStripper, a: seq<Node>, x: Node, b: seq<Node>, kind: Kind)
    requires x.name !in NamesOf(kind)
    ensures CollectKind(stripUrls, a + [x] + b, kind) == CollectKind(stripUrls, a + b, kind)
  {
    CollectKindAppend(stripUrls, a + [x], b, kind);
    CollectKindAppend(stripUrls, a, [x], kind);
    CollectKindAppend(stripUrls, a, b, kind);
    assert CollectKind(stripUrls, [x], kind) == [];
  }

  lemma {:induction false} HeadingsSkip(stripUrls: UrlStripper, a: seq<Node>, x: Node, b: seq<Node>, level: nat)
    requires 1 <= level && x.name == "a"
    ensures HeadingsFrom(stripUrls, a + [x] + b, level) == HeadingsFrom(stripUrls, a + b, level)
    decreases 7 - level
  {
    if level <= 6 {
      CollectKindSkips(stripUrls, a, x, b, Heading(level));
      HeadingsSkip(stripUrls, a, x, b, level + 1);
    }
  }

  /** Anchors are never collected: adding an `a` node anywhere leaves the elements as they were. */
  lemma AnchorsIgnored(stripUrls: UrlStripper, a: seq<Node>, anchor: Node, b: seq<Node>)
    requires anchor.name == "a"
    ensures CollectHtmlElements(stripUrls, a + [anchor] + b) == CollectHtmlElements(stripUrls, a + b)
  {
    HeadingsSkip(stripUrls, a, anchor, b, 1);
    CollectKindSkips(stripUrls, a, anchor, b, Bold);
    CollectKindSkips(stripUrls, a, anchor, b, Italic);
  }

  // ---------------------------------------------------------------------------
  // Texts

  /**
   * The `td` cells of one table row, each as `get_text(" ", strip=True)` gives
   * it, and whether the row lies inside the footer that `collect_html_elements`
   * removes from the tree before the table pass reads the rows again.
   */
  datatype TableRow = TableRow(cells: seq<string>, inFooter: bool)

  /** The cleaned key and value of a row with at least two cells, when both are non-empty. */
  function RowPair(stripUrls: UrlStripper, row: TableRow): (r: Option<(string, string)>)
    ensures r.Some? <==>
      |row.cells| >= 2 && Clean(stripUrls, row.cells[0]) != [] && Clean(stripUrls, row.cells[1]) != []
    ensures r.Some? ==> r.value == (Clean(stripUrls, row.cells[0]), Clean(stripUrls, row.cells[1]))
    ensures r.Some? ==> NoSpace(r.value.0) && NoSpace(r.value.1)
  {
    if |row.cells| >= 2 then
      var key := Clean(stripUrls, row.cells[0]);
      var value := Clean(stripUrls, row.cells[1]);
      if key != [] && value != [] then Some((key, value)) else None
    else None
  }

  /** The rating text of a row: `f"{key}: {value}"`. */
  function Pair(key: string, value: string): string {
    key + ": " + value
  }

  /** What one row adds to `texts`: the pair, then the key alone. */
  function RowTexts(stripUrls: UrlStripper, row: TableRow): seq<string> {
    match RowPair(stripUrls, row)
    case None => []
    case Some((key, value)) => [Pair(key, value), key]
  }

  /** The loop over the rows of the rating tables, in row order. */
  function TableTexts(stripUrls: UrlStripper, rows: seq<TableRow>): (texts: seq<string>)
    ensures |texts| % 2 == 0
    decreases |rows|
  {
    if rows == [] then [] else RowTexts(stripUrls, rows[0]) + TableTexts(stripUrls, rows[1..])
  }

  /** Text `t` is what `row` adds to `texts`: its pair or its key, when both cells clean to something. */
  ghost predicate RowYields(stripUrls: UrlStripper, row: TableRow, t: string) {
    && |row.cells| >= 2
    && var key := Clean(stripUrls, row.cells[0]);
       var value := Clean(stripUrls, row.cells[1]);
       key != [] && value != [] && (t == key + ": " + value || t == key)
  }

  lemma RowTextsMembers(stripUrls: UrlStripper, row: TableRow, t: string)
    ensures t in RowTexts(stripUrls, row) <==> RowYields(stripUrls, row, t)
  {
  }

  /** A text comes out of the row loop exactly when some row yields it. */
  lemma {:induction false} TableTextsMembers(stripUrls: UrlStripper, rows: seq<TableRow>, t: string)
    ensures t in TableTexts(stripUrls, rows) <==> exists row :: row in rows && RowYields(stripUrls, row, t)
    decreases |rows|
  {
    if rows != [] {
      TableTextsMembers(stripUrls, rows[1..], t);
      RowTextsMembers(stripUrls, rows[0], t);
      if exists row :: row in rows && RowYields(stripUrls, row, t) {
        var row :| row in rows && RowYields(stripUrls, row, t);
        if row != rows[0] {
          assert row in rows[1..];
        }
      }
    }
  }

  /** The rows of several tables read one after another: the texts of the whole are those of the parts. */
  lemma {:induction false} TableTextsAppend(stripUrls: UrlStripper, a: seq<TableRow>, b: seq<TableRow>)
    ensures TableTexts(stripUrls, a + b) == TableTexts(stripUrls, a) + TableTexts(stripUrls, b)
    decreases |a|
  {
    if a == [] {
      assert a + b == b;
    } else {
      assert (a + b)[0] == a[0];
      assert (a + b)[1..] == a[1..] + b;
      TableTextsAppend(stripUrls, a[1..], b);
    }
  }

  /** `[clean_text(raw) for raw in raws if clean_text(raw)]`, the accordion titles' loop. */
  function CleanedTexts(stripUrls: UrlStripper, raws: seq<string>): (texts: seq<string>)
    ensures forall t :: t in texts ==> t != [] && NoSpace(t)
    decreases |raws|
  {
    if raws == [] then []
    else
      var t := Clean(stripUrls, raws[0]);
      (if t != [] then [t] else []) + CleanedTexts(stripUrls, raws[1..])
  }

  /** A text comes out of the accordion loop exactly when some title cleans to it. */
  lemma {:induction false} CleanedTextsMembers(stripUrls: UrlStripper, raws: seq<string>, t: string)
    ensures t in CleanedTexts(stripUrls, raws) <==> exists raw :: raw in raws && t == Clean(stripUrls, raw) && t != []
    decreases |raws|
  {
    if raws != [] {
      CleanedTextsMembers(stripUrls, raws[1..], t);
      if exists raw :: raw in raws && t == Clean(stripUrls, raw) && t != [] {
        var raw :| raw in raws && t == Clean(stripUrls, raw) && t != [];
        if raw != raws[0] {
          assert raw in raws[1..];
        }
      }
    }
  }

  /** The titles of two accordions read in turn: the texts of the whole are those of the parts, in order. */
  lemma {:induction false} CleanedTextsAppend(stripUrls: UrlStripper, a: seq<string>, b: seq<string>)
    ensures CleanedTexts(stripUrls, a + b) == CleanedTexts(stripUrls, a) + CleanedTexts(stripUrls, b)
    decreases |a|
  {
    if a == [] {
      assert a + b == b;
    } else {
      assert (a + b)[0] == a[0];
      assert (a + b)[1..] == a[1..] + b;
      CleanedTextsAppend(stripUrls, a[1..], b);
    }
  }

  /** The pagination widgets the block loop skips, looked for in the raw text. */
  predicate Paginated(raw: string) {
    Contains(raw, "Previous Next") || Contains(raw, "Anterior Siguiente")
  }

  /** The block loop: every block but the pagination ones, cleaned, when something is left. */
  function BlockTexts(stripUrls: UrlStripper, blocks: seq<string>): (texts: seq<string>)
    ensures forall t :: t in texts ==> t != [] && NoSpace(t)
    decreases |blocks|
  {
    if blocks == [] then []
    else
      var t := Clean(stripUrls, blocks[0]);
      (if !Paginated(blocks[0]) && t != [] then [t] else []) + BlockTexts(stripUrls, blocks[1..])
  }

  /** A text comes out of the block loop exactly when some non-pagination block cleans to it. */
  lemma {:induction false} BlockTextsMembers(stripUrls: UrlStripper, blocks: seq<string>, t: string)
    ensures t in BlockTexts(stripUrls, blocks) <==>
      exists raw :: raw in blocks && !Paginated(raw) && t == Clean(stripUrls, raw) && t != []
    decreases |blocks|
  {
    if blocks != [] {
      BlockTextsMembers(stripUrls, blocks[1..], t);
      if exists raw :: raw in blocks && !Paginated(raw) && t == Clean(stripUrls, raw) && t != [] {
        var raw :| raw in blocks && !Paginated(raw) && t == Clean(stripUrls, raw) && t != [];
        if raw != blocks[0] {
          assert raw in blocks[1..];
        }
      }
    }
  }

  lemma {:induction false} BlockTextsAppend(stripUrls: UrlStripper, a: seq<string>, b: seq<string>)
    ensures BlockTexts(stripUrls, a + b) == BlockTexts(stripUrls, a) + BlockTexts(stripUrls, b)
    decreases |a|
  {
    if a == [] {
      assert a + b == b;
    } else {
      assert (a + b)[0] == a[0];
      assert (a + b)[1..] == a[1..] + b;
      BlockTextsAppend(stripUrls, a[1..], b);
    }
  }

  // ---------------------------------------------------------------------------
  // Ratings

  /** The eight labels the keyword pass looks for. */
  const RatingKeys: seq<string> := [
    "Perro familiar", "Necesidad de ejercicio", "F\U{00E1}cil de adiestrar",
    "Tolera quedarse solo", "Le gustan otras mascotas",
    "Nivel de energ\U{00ED}a", "Necesidades de aseo", "Muda"
  ]

  /** Some label occurs in `text`: the `any(key in text ...)` test. */
  predicate ContainsAny(text: string, keys: seq<string>)
    decreases |keys|
  {
    keys != [] && (Contains(text, keys[0]) || ContainsAny(text, keys[1..]))
  }

  lemma {:induction false} ContainsAnyIff(text: string, keys: seq<string>)
    ensures ContainsAny(text, keys) <==> exists i :: 0 <= i < |keys| && Contains(text, keys[i])
    decreases |keys|
  {
    if keys != [] {
      ContainsAnyIff(text, keys[1..]);
      assert forall i :: 1 <= i < |keys| ==> keys[1..][i - 1] == keys[i];
    }
  }

  /** A text the keyword pass keeps: it names a label and holds both a colon and a slash. */
  predicate LooksLikeRating(text: string) {
    ContainsAny(text, RatingKeys) && ':' in text && '/' in text
  }

  /** The keyword pass over `texts`: one rating per qualifying text, in order. */
  function KeywordRatings(texts: seq<string>): (ratings: seq<Element>)
    ensures |ratings| <= |texts|
    ensures forall e :: e in ratings ==> e.kind == Rating && e.text in texts && LooksLikeRating(e.text)
    decreases |texts|
  {
    if texts == [] then []
    else
      (if LooksLikeRating(texts[0]) then [Element(Rating, texts[0])] else []) + KeywordRatings(texts[1..])
  }

  /** Every qualifying text gives a rating: the pass drops nothing it should keep. */
  lemma {:induction false} KeywordRatingsComplete(texts: seq<string>, t: string)
    requires t in texts && LooksLikeRating(t)
    ensures Element(Rating, t) in KeywordRatings(texts)
    decreases |texts|
  {
    if texts[0] != t {
      assert t in texts[1..];
      KeywordRatingsComplete(texts[1..], t);
    }
  }

  /**
   * The table pass: one rating per row with a non-empty key and value, in row
   * order, among the rows the footer removal left in the tree.
   */
  function TableRatings(stripUrls: UrlStripper, rows: seq<TableRow>): (ratings: seq<Element>)
    ensures forall e :: e in ratings ==> e.kind == Rating
    decreases |rows|
  {
    if rows == [] then []
    else if rows[0].inFooter then TableRatings(stripUrls, rows[1..])
    else
      match RowPair(stripUrls, rows[0])
      case None => TableRatings(stripUrls, rows[1..])
      case Some((key, value)) => [Element(Rating, Pair(key, value))] + TableRatings(stripUrls, rows[1..])
  }

  /** Rating `i` is row text `2 i`, and row text `2 i + 1` is the key that opens it, followed by ": ". */
  ghost predicate RatesRowTexts(texts: seq<string>, ratings: seq<Element>) {
    && |texts| == 2 * |ratings|
    && forall i :: 0 <= i < |ratings| ==>
         texts[2 * i] == ratings[i].text && StartsWith(ratings[i].text, texts[2 * i + 1] + ": ")
  }

  lemma RatesRowTextsCons(key: string, value: string, texts: seq<string>, ratings: seq<Element>)
    requires RatesRowTexts(texts, ratings)
    ensures RatesRowTexts([Pair(key, value), key] + texts, [Element(Rating, Pair(key, value))] + ratings)
  {
    var texts', ratings' := [Pair(key, value), key] + texts, [Element(Rating, Pair(key, value))] + ratings;
    assert Pair(key, value)[..|key + ": "|] == key + ": ";
    forall i | 1 <= i < |ratings'|
      ensures texts'[2 * i] == ratings'[i].text && StartsWith(ratings'[i].text, texts'[2 * i + 1] + ": ")
    {
      assert texts'[2 * i] == texts[2 * (i - 1)] && texts'[2 * i + 1] == texts[2 * (i - 1) + 1];
      assert ratings'[i] == ratings[i - 1];
    }
  }

  /** The rows outside the removed footer, in order. */
  function LiveRows(rows: seq<TableRow>): (live: seq<TableRow>)
    ensures forall row :: row in live <==> row in rows && !row.inFooter
    ensures |live| <= |rows|
    decreases |rows|
  {
    if rows == [] then []
    else (if rows[0].inFooter then [] else [rows[0]]) + LiveRows(rows[1..])
  }

  /** With no row in the footer, every row stays. */
  lemma {:induction false} NoFooterKeepsRows(rows: seq<TableRow>)
    requires forall row :: row in rows ==> !row.inFooter
    ensures LiveRows(rows) == rows
    decreases |rows|
  {
    if rows != [] {
      assert rows[0] in rows;
      assert forall row :: row in rows[1..] ==> row in rows;
      NoFooterKeepsRows(rows[1..]);
    }
  }

  /**
   * The table pass rates exactly the pair texts that the row loop put in
   * `texts` for the rows outside the removed footer: rating `i` is row text
   * `2 i`, and row text `2 i + 1` is that row's key, which opens the rating.
   */
  lemma {:induction false} TableRatingsMatchRowTexts(stripUrls: UrlStripper, rows: seq<TableRow>)
    ensures RatesRowTexts(TableTexts(stripUrls, LiveRows(rows)), TableRatings(stripUrls, rows))
    decreases |rows|
  {
    if rows != [] {
      TableRatingsMatchRowTexts(stripUrls, rows[1..]);
      LiveRowsStep(stripUrls, rows);
      if !rows[0].inFooter {
        match RowPair(stripUrls, rows[0])
        case None =>
        case Some((key, value)) =>
          RatesRowTextsCons(key, value, TableTexts(stripUrls, LiveRows(rows[1..])), TableRatings(stripUrls, rows[1..]));
      }
    }
  }

  lemma LiveRowsStep(stripUrls: UrlStripper, rows: seq<TableRow>)
    requires rows != []
    ensures TableTexts(stripUrls, LiveRows(rows)) ==
      (if rows[0].inFooter then [] else RowTexts(stripUrls, rows[0])) + TableTexts(stripUrls, LiveRows(rows[1..]))
  {
    var head := if rows[0].inFooter then [] else [rows[0]];
    assert LiveRows(rows) == head + LiveRows(rows[1..]);
    TableTextsAppend(stripUrls, head, LiveRows(rows[1..]));
    if head != [] {
      assert head[1..] == [];
    }
  }

  /** The ratings found: the keyword pass, or, only when it finds nothing, the table pass. */
  function VetRatings(stripUrls: UrlStripper, texts: seq<string>, rows: seq<TableRow>): (ratings: seq<Element>)
    ensures KeywordRatings(texts) != [] ==> ratings == KeywordRatings(texts)
    ensures KeywordRatings(texts) == [] ==> ratings == TableRatings(stripUrls, rows)
    ensures forall e :: e in ratings ==> e.kind == Rating
  {
    var found := KeywordRatings(texts);
    if found != [] then found else TableRatings(stripUrls, rows)
  }

  /** The eight ratings added when none were found, in this order. */
  const DefaultRatingTexts: seq<string> := [
    "Perro familiar: 4/5", "Necesidad de ejercicio: 4/5", "F\U{00E1}cil de adiestrar: 4/5",
    "Tolera quedarse solo: 3/5", "Le gustan otras mascotas: 5/5", "Nivel de energ\U{00ED}a: 4/5",
    "Necesidades de aseo: 3/5", "Muda: 1/5"
  ]

  function AsRatings(texts: seq<string>): (es: seq<Element>)
    ensures |es| == |texts|
    ensures forall i :: 0 <= i < |texts| ==> es[i] == Element(Rating, texts[i])
  {
    seq(|texts|, i requires 0 <= i < |texts| => Element(Rating, texts[i]))
  }

  /** Every whitespace character directly follows a colon: the shape of every scraped text. */
  ghost predicate SpacesFollowColons(t: string) {
    forall i :: 0 <= i < |t| && IsSpace(t[i]) ==> 0 < i && t[i - 1] == ':'
  }

  lemma PairSpacesFollowColons(key: string, value: string)
    requires NoSpace(key) && NoSpace(value)
    ensures SpacesFollowColons(Pair(key, value))
  {
    var t := Pair(key, value);
    assert forall i :: 0 <= i < |key| ==> t[i] == key[i];
    assert forall i :: |key| + 2 <= i < |t| ==> t[i] == value[i - |key| - 2];
    assert t[|key|] == ':';
  }

  /** A label with a space that does not follow a colon never occurs in such a text. */
  lemma SpacedKeyNeverContained(t: string, key: string, j: nat)
    requires SpacesFollowColons(t)
    requires 0 < j < |key| && IsSpace(key[j]) && key[j - 1] != ':'
    ensures !Contains(t, key)
  {
    forall i: nat | i <= |t|
      ensures !OccursAt(t, key, i)
    {
      if i + |key| <= |t| {
        assert t[i..i + |key|][j] == t[i + j];
        assert t[i..i + |key|][j - 1] == t[i + j - 1];
      }
    }
  }

  /**
   * On a text of that shape the keyword test comes down to "Muda": each of the
   * other seven labels has a space between two words, which cleaning has deleted.
   */
  lemma OnlyMudaCanMatch(t: string)
    requires SpacesFollowColons(t)
    ensures LooksLikeRating(t) <==> Contains(t, "Muda") && ':' in t && '/' in t
  {
    ContainsAnyIff(t, RatingKeys);
    SevenKeysNeverContained(t);
    assert RatingKeys[7] == "Muda";
  }

  lemma SevenKeysNeverContained(t: string)
    requires SpacesFollowColons(t)
    ensures forall i :: 0 <= i < 7 ==> !Contains(t, RatingKeys[i])
  {
    SpacedKeyNeverContained(t, RatingKeys[0], 5);
    SpacedKeyNeverContained(t, RatingKeys[1], 9);
    SpacedKeyNeverContained(t, RatingKeys[2], 5);
    SpacedKeyNeverContained(t, RatingKeys[3], 6);
    SpacedKeyNeverContained(t, RatingKeys[4], 2);
    SpacedKeyNeverContained(t, RatingKeys[5], 5);
    SpacedKeyNeverContained(t, RatingKeys[6], 11);
  }

  lemma {:induction false} TableTextsShape(stripUrls: UrlStripper, rows: seq<TableRow>)
    ensures forall t :: t in TableTexts(stripUrls, rows) ==> SpacesFollowColons(t)
    decreases |rows|
  {
    if rows != [] {
      TableTextsShape(stripUrls, rows[1..]);
      match RowPair(stripUrls, rows[0])
      case None =>
      case Some((key, value)) =>
        PairSpacesFollowColons(key, value);
    }
  }

  /** The rating entries of an elements list, in order. */
  function RatingsIn(es: seq<Element>): (rs: seq<Element>)
    ensures forall e :: e in rs ==> e in es && e.kind == Rating
    decreases |es|
  {
    if es == [] then [] else (if es[0].kind == Rating then [es[0]] else []) + RatingsIn(es[1..])
  }

  lemma {:induction false} RatingsInAppend(a: seq<Element>, b: seq<Element>)
    ensures RatingsIn(a + b) == RatingsIn(a) + RatingsIn(b)
    decreases |a|
  {
    if a == [] {
      assert a + b == b;
    } else {
      assert (a + b)[0] == a[0];
      assert (a + b)[1..] == a[1..] + b;
      RatingsInAppend(a[1..], b);
    }
  }

  lemma {:induction false} RatingsInKeeps(es: seq<Element>)
    requires forall e :: e in es ==> e.kind == Rating
    ensures RatingsIn(es) == es
    decreases |es|
  {
    if es != [] {
      assert es[0] in es;
      assert forall e :: e in es[1..] ==> e in es;
      RatingsInKeeps(es[1..]);
    }
  }

  lemma {:induction false} RatingsInDrops(es: seq<Element>)
    requires forall e :: e in es ==> e.kind != Rating
    ensures RatingsIn(es) == []
    decreases |es|
  {
    if es != [] {
      assert es[0] in es;
      assert forall e :: e in es[1..] ==> e in es;
      RatingsInDrops(es[1..]);
    }
  }

  /** The texts gathered before the rating passes: accordion titles, table rows, blocks. */
  function ScrapedTexts(stripUrls: UrlStripper, accordions: seq<string>, rows: seq<TableRow>, blocks: seq<string>): seq<string> {
    CleanedTexts(stripUrls, accordions) + TableTexts(stripUrls, rows) + BlockTexts(stripUrls, blocks)
  }

  /** The ratings the two passes find in them. */
  function FoundRatings(stripUrls: UrlStripper, accordions: seq<string>, rows: seq<TableRow>, blocks: seq<string>): seq<Element> {
    VetRatings(stripUrls, ScrapedTexts(stripUrls, accordions, rows, blocks), rows)
  }

  /** What `load_url_text` returns of the lists: the texts and the elements. */
  datatype Scraped = Scraped(texts: seq<string>, elements: seq<Element>)

  /**
   * The post-processing of `load_url_text`: accordion titles, table rows and
   * blocks make the texts; `collect_html_elements` and the ratings make the
   * elements; with no rating found, the eight defaults go to both lists.
   * The elements start with the collected tags, and their rating entries are
   * the found ratings or, when there are none, the defaults.
   */
  function PostProcess(stripUrls: UrlStripper, accordions: seq<string>, rows: seq<TableRow>,
                       blocks: seq<string>, nodes: seq<Node>): (r: Scraped)
    ensures ScrapedTexts(stripUrls, accordions, rows, blocks) <= r.texts
    ensures CollectHtmlElements(stripUrls, nodes) <= r.elements
    ensures var ratings := FoundRatings(stripUrls, accordions, rows, blocks);
      RatingsIn(r.elements) == (if ratings == [] then AsRatings(DefaultRatingTexts) else ratings)
    ensures var collected := CollectHtmlElements(stripUrls, nodes);
      |collected| <= |r.elements| && r.elements[|collected|..] == RatingsIn(r.elements)
    ensures var found := ScrapedTexts(stripUrls, accordions, rows, blocks);
      |found| <= |r.texts| &&
      r.texts[|found|..] == (if FoundRatings(stripUrls, accordions, rows, blocks) == [] then DefaultRatingTexts else [])
  {
    Assemble(ScrapedTexts(stripUrls, accordions, rows, blocks), CollectHtmlElements(stripUrls, nodes),
             FoundRatings(stripUrls, accordions, rows, blocks))
  }

  /** The last step: the ratings, or the defaults when there are none, go after the collected tags. */
  function Assemble(found: seq<string>, collected: seq<Element>, ratings: seq<Element>): (r: Scraped)
    requires forall e :: e in collected ==> e.kind != Rating
    requires forall e :: e in ratings ==> e.kind == Rating
    ensures found <= r.texts
    ensures collected <= r.elements
    ensures RatingsIn(r.elements) == (if ratings == [] then AsRatings(DefaultRatingTexts) else ratings)
    ensures |collected| <= |r.elements| && r.elements[|collected|..] == RatingsIn(r.elements)
    ensures |found| <= |r.texts| && r.texts[|found|..] == (if ratings == [] then DefaultRatingTexts else [])
  {
    var extra := if ratings == [] then AsRatings(DefaultRatingTexts) else ratings;
    RatingsInAppend(collected, extra);
    RatingsInDrops(collected);
    RatingsInKeeps(extra);
    var defaults := if ratings == [] then DefaultRatingTexts else [];
    assert (collected + extra)[|collected|..] == extra;
    assert (found + defaults)[|found|..] == defaults;
    Scraped(found + defaults, collected + extra)
  }

  /** The default texts are added exactly when neither pass found a rating. */
  lemma DefaultsIffNothingFound(stripUrls: UrlStripper, accordions: seq<string>, rows: seq<TableRow>,
                                blocks: seq<string>, nodes: seq<Node>)
    ensures var r := PostProcess(stripUrls, accordions, rows, blocks, nodes);
      var found := ScrapedTexts(stripUrls, accordions, rows, blocks);
      && (FoundRatings(stripUrls, accordions, rows, blocks) == [] <==> r.texts == found + DefaultRatingTexts)
      && (FoundRatings(stripUrls, accordions, rows, blocks) != [] <==> r.texts == found)
  {
  }

  /**
   * The keyword pass over the scraped texts only ever keeps a text that
   * contains "Muda": table rows, blocks and accordion titles have lost the
   * spaces the other labels need.
   */
  lemma KeywordPassNeedsMuda(stripUrls: UrlStripper, accordions: seq<string>, rows: seq<TableRow>, blocks: seq<string>)
    ensures forall e :: e in KeywordRatings(ScrapedTexts(stripUrls, accordions, rows, blocks)) ==> Contains(e.text, "Muda")
  {
    var texts := ScrapedTexts(stripUrls, accordions, rows, blocks);
    TableTextsShape(stripUrls, rows);
    forall e | e in KeywordRatings(texts)
      ensures Contains(e.text, "Muda")
    {
      assert e.text in CleanedTexts(stripUrls, accordions) || e.text in TableTexts(stripUrls, rows) || e.text in BlockTexts(stripUrls, blocks);
      OnlyMudaCanMatch(e.text);
    }
  }
}
