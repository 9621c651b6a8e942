/**
 * The pieces of Python's `str` and `re` behaviour the comparison code leans on:
 * what counts as whitespace, `str.lower`, `str.strip`, `str.split()`,
 * `re.sub(r'\s+', ' ', s)`, `str.startswith`, the `in` substring test and
 * `str.split(sep, 1)`.
 */
module Text {
  import opened Wrappers

  /** Python's `str.isspace` for one character; `\s`, `strip()` and `split()` use the same set. */
  predicate IsSpace(c: char) {
    var n := c as int;
    || 0x09 <= n <= 0x0D || 0x1C <= n <= 0x20 || n == 0x85 || n == 0xA0 || n == 0x1680
    || 0x2000 <= n <= 0x200A || n == 0x2028 || n == 0x2029 || n == 0x202F || n == 0x205F || n == 0x3000
  }

  predicate NoSpace(s: string) {
    forall i :: 0 <= i < |s| ==> !IsSpace(s[i])
  }

  /** Every whitespace character is a plain space, and none is followed by another. */
  ghost predicate SingleSpaced(s: string) {
    && (forall i :: 0 <= i < |s| && IsSpace(s[i]) ==> s[i] == ' ')
    && (forall i, j :: 0 <= i && j == i + 1 && j < |s| ==> !(IsSpace(s[i]) && IsSpace(s[j])))
  }

  /** Neither the first nor the last character is whitespace. */
  ghost predicate NoEdgeSpace(s: string) {
    s == [] || (!IsSpace(s[0]) && !IsSpace(s[|s| - 1]))
  }

  /** `str.lower` on one character, for ASCII and Latin-1 letters. */
  function LowerChar(c: char): char {
    var n := c as int;
    if 0x41 <= n <= 0x5A || (0xC0 <= n <= 0xDE && n != 0xD7) then (n + 32) as char else c
  }

  function Lower(s: string): (r: string)
    ensures |r| == |s|
    ensures forall i :: 0 <= i < |s| ==> r[i] == LowerChar(s[i])
  {
    seq(|s|, i requires 0 <= i < |s| => LowerChar(s[i]))
  }

  /** `re.sub(r'(\s*)', '', s)`: every whitespace character deleted. */
  function RemoveSpaces(s: string): (r: string)
    ensures NoSpace(r)
    decreases |s|
  {
    if s == [] then []
    else (if IsSpace(s[0]) then [] else [s[0]]) + RemoveSpaces(s[1..])
  }

  /** Deleting whitespace from a string that has none changes nothing. */
  lemma {:induction false} RemoveSpacesFixed(s: string)
    requires NoSpace(s)
    ensures RemoveSpaces(s) == s
    decreases |s|
  {
    if s != [] {
      RemoveSpacesFixed(s[1..]);
      assert s == [s[0]] + s[1..];
    }
  }

  lemma {:induction false} RemoveSpacesAppend(a: string, b: string)
    ensures RemoveSpaces(a + b) == RemoveSpaces(a) + RemoveSpaces(b)
    decreases |a|
  {
    if a == [] {
      assert a + b == b;
    } else {
      var head := if IsSpace(a[0]) then [] else [a[0]];
      assert (a + b)[0] == a[0];
      assert (a + b)[1..] == a[1..] + b;
      assert RemoveSpaces(a + b) == head + RemoveSpaces(a[1..] + b);
      RemoveSpacesAppend(a[1..], b);
      assert RemoveSpaces(a) == head + RemoveSpaces(a[1..]);
    }
  }

  /** A string of whitespace only has no visible text. */
  lemma {:induction false} RemoveSpacesAllSpace(s: string)
    requires forall i :: 0 <= i < |s| ==> IsSpace(s[i])
    ensures RemoveSpaces(s) == []
    decreases |s|
  {
    if s != [] {
      RemoveSpacesAllSpace(s[1..]);
    }
  }

  /** Deleting whitespace leaves nothing exactly when every character is whitespace. */
  lemma {:induction false} RemoveSpacesEmptyIff(s: string)
    ensures RemoveSpaces(s) == [] <==> forall i :: 0 <= i < |s| ==> IsSpace(s[i])
    decreases |s|
  {
    if s != [] {
      RemoveSpacesEmptyIff(s[1..]);
      assert forall i :: 1 <= i < |s| ==> s[1..][i - 1] == s[i];
    }
  }

  /** Lower-casing neither makes nor unmakes whitespace. */
  lemma {:induction false} LowerKeepsSpaces(s: string)
    ensures forall i :: 0 <= i < |s| ==> (IsSpace(Lower(s)[i]) <==> IsSpace(s[i]))
  {
  }

  /** How many whitespace characters open `s`. */
  function LeadingSpaces(s: string): (n: nat)
    ensures n <= |s|
    ensures forall i :: 0 <= i < n ==> IsSpace(s[i])
    ensures n == |s| || !IsSpace(s[n])
    decreases |s|
  {
    if s != [] && IsSpace(s[0]) then 1 + LeadingSpaces(s[1..]) else 0
  }

  /** How many whitespace characters close `s`. */
  function TrailingSpaces(s: string): (n: nat)
    ensures n <= |s|
    ensures forall i :: |s| - n <= i < |s| ==> IsSpace(s[i])
    ensures n == |s| || !IsSpace(s[|s| - 1 - n])
    decreases |s|
  {
    if s != [] && IsSpace(s[|s| - 1]) then 1 + TrailingSpaces(s[..|s| - 1]) else 0
  }

  /** `str.lstrip()`. */
  function TrimStart(s: string): (r: string)
    ensures |r| <= |s| && r == s[|s| - |r|..]
    ensures r == [] || !IsSpace(r[0])
    ensures forall i :: 0 <= i < |s| - |r| ==> IsSpace(s[i])
  {
    s[LeadingSpaces(s)..]
  }

  /** `str.rstrip()`. */
  function TrimEnd(s: string): (r: string)
    ensures |r| <= |s| && r == s[..|r|]
    ensures r == [] || !IsSpace(r[|r| - 1])
    ensures forall i :: |r| <= i < |s| ==> IsSpace(s[i])
  {
    s[..|s| - TrailingSpaces(s)]
  }

  /** `str.strip()`. */
  function Trim(s: string): (r: string)
    ensures NoEdgeSpace(r)
    ensures |r| <= |s|
  {
    TrimEnd(TrimStart(s))
  }

  /** Stripping only removes whitespace: the visible text is untouched. */
  lemma {:induction false} TrimStartKeepsText(s: string)
    ensures RemoveSpaces(TrimStart(s)) == RemoveSpaces(s)
  {
    var t := TrimStart(s);
    var lead := s[..|s| - |t|];
    assert s == lead + t;
    RemoveSpacesAppend(lead, t);
    RemoveSpacesAllSpace(lead);
  }

  lemma {:induction false} TrimEndKeepsText(s: string)
    ensures RemoveSpaces(TrimEnd(s)) == RemoveSpaces(s)
  {
    var u := TrimEnd(s);
    var trail := s[|u|..];
    assert s == u + trail;
    RemoveSpacesAppend(u, trail);
    RemoveSpacesAllSpace(trail);
  }

  lemma {:induction false} TrimKeepsText(s: string)
    ensures RemoveSpaces(Trim(s)) == RemoveSpaces(s)
  {
    TrimStartKeepsText(s);
    TrimEndKeepsText(TrimStart(s));
  }

  /** Stripping a string that has no edge whitespace changes nothing. */
  lemma {:induction false} TrimFixed(s: string)
    requires NoEdgeSpace(s)
    ensures Trim(s) == s
  {
  }

  lemma {:induction false} SingleSpacedSlice(s: string, i: nat, j: nat)
    requires i <= j <= |s|
    requires SingleSpaced(s)
    ensures SingleSpaced(s[i..j])
  {
    var t := s[i..j];
    assert forall k :: 0 <= k < |t| ==> t[k] == s[i + k];
  }

  lemma {:induction false} TrimKeepsSingleSpaced(s: string)
    requires SingleSpaced(s)
    ensures SingleSpaced(Trim(s))
  {
    var t := TrimStart(s);
    SingleSpacedSlice(s, |s| - |t|, |s|);
    SingleSpacedSlice(t, 0, |TrimEnd(t)|);
  }

  /** `re.sub(r'\s+', ' ', s)`: each maximal run of whitespace becomes one space. */
  function CollapseRuns(s: string): (r: string)
    ensures SingleSpaced(r)
    ensures r == [] <==> s == []
    ensures r != [] ==> (IsSpace(r[0]) <==> IsSpace(s[0]))
    decreases |s|
  {
    if s == [] then []
    else if IsSpace(s[0]) then " " + CollapseRuns(TrimStart(s))
    else [s[0]] + CollapseRuns(s[1..])
  }

  /** Collapsing a string that is already single-spaced changes nothing. */
  lemma {:induction false} CollapseFixed(s: string)
    requires SingleSpaced(s)
    ensures CollapseRuns(s) == s
    decreases |s|
  {
    if s != [] {
      SingleSpacedSlice(s, 1, |s|);
      CollapseFixed(s[1..]);
      if IsSpace(s[0]) {
        assert s[1..] == [] || !IsSpace(s[1]);
        assert TrimStart(s[1..]) == s[1..];
      }
    }
  }

  /** Collapsing only rewrites whitespace: the visible text is untouched. */
  lemma {:induction false} CollapseKeepsText(s: string)
    ensures RemoveSpaces(CollapseRuns(s)) == RemoveSpaces(s)
    decreases |s|
  {
    if s != [] {
      if IsSpace(s[0]) {
        var t := TrimStart(s);
        CollapseKeepsText(t);
        RemoveSpacesAppend(" ", CollapseRuns(t));
        TrimStartKeepsText(s);
      } else {
        CollapseKeepsText(s[1..]);
        RemoveSpacesAppend([s[0]], CollapseRuns(s[1..]));
      }
    }
  }

  /** Length of the leading run of non-whitespace characters. */
  function WordEnd(t: string): (n: nat)
    ensures n <= |t|
    ensures NoSpace(t[..n])
    ensures n == |t| || IsSpace(t[n])
    decreases |t|
  {
    if t == [] || IsSpace(t[0]) then 0 else 1 + WordEnd(t[1..])
  }

  /** `str.split()` with no separator: the maximal runs of non-whitespace characters. */
  function Split(s: string): (words: seq<string>)
    ensures forall i :: 0 <= i < |words| ==> words[i] != [] && NoSpace(words[i])
    decreases |s|
  {
    var t := TrimStart(s);
    if t == [] then []
    else
      var n := WordEnd(t);
      var rest := Split(t[n..]);
      WordsCons(t[..n], rest);
      [t[..n]] + rest
  }

  /** A word in front of words gives words. */
  lemma {:induction false} WordsCons(word: string, rest: seq<string>)
    requires word != [] && NoSpace(word)
    requires forall i :: 0 <= i < |rest| ==> rest[i] != [] && NoSpace(rest[i])
    ensures forall i :: 0 <= i < |[word] + rest| ==> ([word] + rest)[i] != [] && NoSpace(([word] + rest)[i])
  {
  }

  function Concat(words: seq<string>): string {
    if words == [] then [] else words[0] + Concat(words[1..])
  }

  /** The words of `s`, read back to back, are exactly its visible text. */
  lemma {:induction false} SplitKeepsText(s: string)
    ensures Concat(Split(s)) == RemoveSpaces(s)
    decreases |s|, 1
  {
    TrimStartKeepsText(s);
    if TrimStart(s) == [] {
      assert Split(s) == [];
    } else {
      SplitKeepsWords(s);
    }
  }

  /** The step of `SplitKeepsText`: the first word, then the words of the rest. */
  lemma {:induction false} SplitKeepsWords(s: string)
    requires TrimStart(s) != []
    ensures Concat(Split(s)) == RemoveSpaces(TrimStart(s))
    decreases |s|, 0
  {
    var t := TrimStart(s);
    var n := WordEnd(t);
    var word, rest := t[..n], t[n..];
    assert Split(s) == [word] + Split(rest);
    assert Concat([word] + Split(rest)) == word + Concat(Split(rest)) by {
      assert ([word] + Split(rest))[1..] == Split(rest);
    }
    SplitKeepsText(rest);
    assert t == word + rest;
    RemoveSpacesAppend(word, rest);
    RemoveSpacesFixed(word);
  }

  /** `" ".join(words)`: the words with one space between each two. */
  function Join(words: seq<string>): (r: string)
    decreases |words|
  {
    if words == [] then []
    else if |words| == 1 then words[0]
    else words[0] + " " + Join(words[1..])
  }

  /** Words as `split()` yields them: non-empty and free of whitespace. */
  ghost predicate AreWords(words: seq<string>) {
    forall i :: 0 <= i < |words| ==> words[i] != [] && NoSpace(words[i])
  }

  /** Joined words neither start nor end with whitespace, and are empty only when there are no words. */
  lemma {:induction false} JoinEdges(words: seq<string>)
    requires AreWords(words)
    ensures Join(words) == [] <==> words == []
    ensures words != [] ==> Join(words)[0] == words[0][0]
    ensures NoEdgeSpace(Join(words))
    decreases |words|
  {
    if |words| > 1 {
      assert AreWords(words[1..]) by {
        assert forall i :: 1 <= i < |words| ==> words[1..][i - 1] == words[i];
      }
      JoinEdges(words[1..]);
    }
  }

  /** A string with no leading whitespace is its own `lstrip()`. */
  lemma {:induction false} TrimStartFixed(t: string)
    requires t == [] || !IsSpace(t[0])
    ensures TrimStart(t) == t
  {
    assert LeadingSpaces(t) == 0;
  }

  /** Whitespace padding before a text that opens with a visible character is exactly its leading run. */
  lemma {:induction false} LeadingSpacesOf(a: string, m: string)
    requires forall i :: 0 <= i < |a| ==> IsSpace(a[i])
    requires m != [] && !IsSpace(m[0])
    ensures LeadingSpaces(a + m) == |a|
    decreases |a|
  {
    if a == [] {
      assert a + m == m;
    } else {
      assert (a + m)[1..] == a[1..] + m;
      LeadingSpacesOf(a[1..], m);
    }
  }

  /** Whitespace padding after a text that closes with a visible character is exactly its trailing run. */
  lemma {:induction false} TrailingSpacesOf(m: string, b: string)
    requires forall i :: 0 <= i < |b| ==> IsSpace(b[i])
    requires m != [] && !IsSpace(m[|m| - 1])
    ensures TrailingSpaces(m + b) == |b|
    decreases |b|
  {
    if b == [] {
      assert m + b == m;
    } else {
      var t := m + b;
      assert t[|t| - 1] == b[|b| - 1];
      assert t[..|t| - 1] == m + b[..|b| - 1];
      TrailingSpacesOf(m, b[..|b| - 1]);
    }
  }

  /** Stripping the whitespace padding around a text with visible edges gives back that text. */
  lemma {:induction false} TrimPadded(a: string, m: string, b: string)
    requires forall i :: 0 <= i < |a| ==> IsSpace(a[i])
    requires forall i :: 0 <= i < |b| ==> IsSpace(b[i])
    requires m != [] && NoEdgeSpace(m)
    ensures Trim(a + m + b) == m
  {
    assert a + m + b == a + (m + b);
    LeadingSpacesOf(a, m + b);
    assert TrimStart(a + m + b) == m + b;
    TrailingSpacesOf(m, b);
    assert TrimEnd(m + b) == m;
  }

  /** A word followed by nothing or by whitespace: `re.sub` copies the word and goes on after it. */
  lemma {:induction false} CollapseAfterWord(word: string, rest: string)
    requires NoSpace(word)
    requires rest == [] || IsSpace(rest[0])
    ensures CollapseRuns(word + rest) == word + CollapseRuns(rest)
    decreases |word|
  {
    if word == [] {
      assert word + rest == rest;
    } else {
      var t := word + rest;
      assert t[0] == word[0] && !IsSpace(t[0]);
      assert t[1..] == word[1..] + rest;
      assert CollapseRuns(t) == [word[0]] + CollapseRuns(word[1..] + rest);
      CollapseAfterWord(word[1..], rest);
      assert word == [word[0]] + word[1..];
      Regroup3([word[0]], word[1..], CollapseRuns(rest), CollapseRuns(t));
    }
  }

  /** One space when `t` ends in whitespace: what `re.sub` leaves of a trailing run. */
  function TrailingRun(t: string): string {
    if t != [] && IsSpace(t[|t| - 1]) then " " else ""
  }

  /** `split()` ignores leading whitespace. */
  lemma {:induction false} SplitSkipsLead(s: string)
    ensures Split(s) == Split(TrimStart(s))
  {
    TrimStartFixed(TrimStart(s));
  }

  /** A text that opens with a visible character: its first word, then the words of what follows. */
  lemma {:induction false} SplitCons(t: string)
    requires t != [] && !IsSpace(t[0])
    ensures WordEnd(t) > 0
    ensures Split(t) == [t[..WordEnd(t)]] + Split(t[WordEnd(t)..])
  {
    TrimStartFixed(t);
  }

  lemma {:induction false} JoinCons(word: string, words: seq<string>)
    requires words != []
    ensures Join([word] + words) == word + " " + Join(words)
  {
    assert ([word] + words)[1..] == words;
  }

  /** Reassociating `word + (" " + (words + run))`. */
  lemma {:induction false} Regroup(whole: string, rest: string, tail: string, word: string, words: string, run: string)
    requires whole == word + rest && rest == " " + tail && tail == words + run
    ensures whole == (word + " " + words) + run
  {
  }

  /** Collapsing a text that opens with a word gives its words joined, then one space for a trailing run. */
  lemma {:induction false} CollapseIsJoin(t: string)
    requires t == [] || !IsSpace(t[0])
    ensures CollapseRuns(t) == Join(Split(t)) + TrailingRun(t)
    decreases |t|, 1
  {
    if t == [] {
      CollapseNothing(t);
    } else if TrimStart(t[WordEnd(t)..]) == [] {
      CollapseLastWord(t);
    } else {
      CollapseWordThenMore(t);
    }
  }

  /** The empty text has no words and collapses to nothing. */
  lemma {:induction false} CollapseNothing(t: string)
    requires t == []
    ensures Split(t) == []
    ensures CollapseRuns(t) == Join(Split(t)) + TrailingRun(t)
  {
    TrimStartFixed(t);
    assert Split(t) == [];
  }

  /** The text is its last word, perhaps followed by a whitespace run. */
  lemma {:induction false} CollapseLastWord(t: string)
    requires t != [] && !IsSpace(t[0]) && TrimStart(t[WordEnd(t)..]) == []
    ensures CollapseRuns(t) == Join(Split(t)) + TrailingRun(t)
  {
    LastWordShape(t);
    var word, rest := t[..WordEnd(t)], t[WordEnd(t)..];
    CollapseAfterWord(word, rest);
    CollapseBlank(rest);
  }

  /** How a text made of one word and perhaps a whitespace run splits. */
  lemma {:induction false} LastWordShape(t: string)
    requires t != [] && !IsSpace(t[0]) && TrimStart(t[WordEnd(t)..]) == []
    ensures t == t[..WordEnd(t)] + t[WordEnd(t)..]
    ensures NoSpace(t[..WordEnd(t)])
    ensures t[WordEnd(t)..] == [] || IsSpace(t[WordEnd(t)..][0])
    ensures Split(t) == [t[..WordEnd(t)]] && Join(Split(t)) == t[..WordEnd(t)]
    ensures TrailingRun(t) == (if t[WordEnd(t)..] == [] then "" else " ")
  {
    var n := WordEnd(t);
    SliceJoin(t, n);
    SplitCons(t);
    var rest := t[n..];
    SplitSkipsLead(rest);
    CollapseNothing([]);
    if rest == [] {
      assert t[|t| - 1] == t[..n][n - 1];
    } else {
      assert IsSpace(rest[|rest| - 1]);
      assert t[|t| - 1] == rest[|rest| - 1];
    }
  }

  /** `re.sub` turns a text of whitespace only into one space, and the empty text into nothing. */
  lemma {:induction false} CollapseBlank(s: string)
    requires TrimStart(s) == []
    ensures CollapseRuns(s) == (if s == [] then "" else " ")
  {
    CollapseSkipsLead(s);
  }

  /** How a text opening with a word, a whitespace run and another word splits. */
  lemma {:induction false} WordThenMoreShape(t: string)
    requires t != [] && !IsSpace(t[0])
    requires TrimStart(t[WordEnd(t)..]) != []
    ensures t == t[..WordEnd(t)] + t[WordEnd(t)..]
    ensures NoSpace(t[..WordEnd(t)]) && IsSpace(t[WordEnd(t)..][0])
    ensures |TrimStart(t[WordEnd(t)..])| < |t| && !IsSpace(TrimStart(t[WordEnd(t)..])[0])
    ensures Split(t) == [t[..WordEnd(t)]] + Split(TrimStart(t[WordEnd(t)..]))
    ensures Split(TrimStart(t[WordEnd(t)..])) != []
  {
    SliceJoin(t, WordEnd(t));
    SplitCons(t);
    var rest := t[WordEnd(t)..];
    SplitSkipsLead(rest);
    SplitCons(TrimStart(rest));
  }

  lemma {:induction false} SliceJoin(t: string, n: nat)
    requires n <= |t|
    ensures t == t[..n] + t[n..]
  {
  }

  /** What follows the first word, stripped on the left, ends where the text ends. */
  lemma {:induction false} TrailingRunAfterWord(t: string)
    requires TrimStart(t[WordEnd(t)..]) != []
    ensures TrailingRun(TrimStart(t[WordEnd(t)..])) == TrailingRun(t)
  {
    var n := WordEnd(t);
    var rest := t[n..];
    var r2 := TrimStart(rest);
    SuffixOfSuffix(t, n, |rest| - |r2|);
    TrailingRunOfSuffix(t, n + |rest| - |r2|);
  }

  lemma {:induction false} SuffixOfSuffix(t: string, n: nat, k: nat)
    requires n <= |t| && k <= |t| - n
    ensures t[n..][k..] == t[n + k..]
  {
  }

  /** A non-empty suffix ends where the text ends. */
  lemma {:induction false} TrailingRunOfSuffix(t: string, k: nat)
    requires k < |t|
    ensures TrailingRun(t[k..]) == TrailingRun(t)
  {
    assert t[k..][|t| - k - 1] == t[|t| - 1];
  }

  /** `re.sub` turns a leading whitespace run into one space. */
  lemma {:induction false} CollapseLeadingRun(s: string)
    requires s != [] && IsSpace(s[0])
    ensures CollapseRuns(s) == " " + CollapseRuns(TrimStart(s))
  {
  }

  /** The text is a word, a whitespace run, and a text that opens with the next word. */
  lemma {:induction false} CollapseWordThenMore(t: string)
    requires t != [] && !IsSpace(t[0])
    requires TrimStart(t[WordEnd(t)..]) != []
    ensures CollapseRuns(t) == Join(Split(t)) + TrailingRun(t)
    decreases |t|, 0
  {
    WordThenMoreShape(t);
    var word, rest := t[..WordEnd(t)], t[WordEnd(t)..];
    var r2 := TrimStart(rest);
    TrailingRunAfterWord(t);
    CollapseIsJoin(r2);
    CollapseAfterWord(word, rest);
    CollapseLeadingRun(rest);
    JoinCons(word, Split(r2));
    Regroup(CollapseRuns(t), CollapseRuns(rest), CollapseRuns(r2), word, Join(Split(r2)), TrailingRun(t));
  }

  /** One space when `s` opens with whitespace: what `re.sub` leaves of a leading run. */
  function LeadingRun(s: string): string {
    if s != [] && IsSpace(s[0]) then " " else ""
  }

  lemma {:induction false} CollapseSkipsLead(s: string)
    ensures CollapseRuns(s) == LeadingRun(s) + CollapseRuns(TrimStart(s))
  {
    if s != [] && !IsSpace(s[0]) {
      TrimStartFixed(s);
    }
  }

  /** Stripping a text that is all whitespace leaves nothing. */
  lemma {:induction false} TrimBlank(s: string)
    requires forall i :: 0 <= i < |s| ==> IsSpace(s[i])
    ensures Trim(s) == []
  {
    assert LeadingSpaces(s) == |s|;
  }

  lemma {:induction false} Regroup3(a: string, m: string, b: string, whole: string)
    requires whole == a + (m + b)
    ensures whole == a + m + b
  {
  }

  /**
   * `re.sub(r'\s+', ' ', s).strip()` is `" ".join(s.split())`: collapsing the
   * whitespace runs and stripping the ends leaves exactly the words of `s`, one
   * space apart.
   */
  lemma {:induction false} CollapseTrimIsJoin(s: string)
    ensures Trim(CollapseRuns(s)) == Join(Split(s))
  {
    if TrimStart(s) == [] {
      CollapseTrimBlank(s);
    } else {
      CollapseTrimWords(s);
    }
  }

  lemma {:induction false} CollapseTrimBlank(s: string)
    requires TrimStart(s) == []
    ensures Trim(CollapseRuns(s)) == Join(Split(s))
  {
    var t := TrimStart(s);
    SplitSkipsLead(s);
    CollapseSkipsLead(s);
    CollapseNothing(t);
    assert Join(Split(t)) == [];
    TrimBlank(LeadingRun(s));
    assert CollapseRuns(s) == LeadingRun(s);
  }

  /** The runs `re.sub` leaves are whitespace. */
  lemma {:induction false} RunsAreSpace(s: string)
    ensures forall i :: 0 <= i < |LeadingRun(s)| ==> IsSpace(LeadingRun(s)[i])
    ensures forall i :: 0 <= i < |TrailingRun(s)| ==> IsSpace(TrailingRun(s)[i])
  {
  }

  lemma {:induction false} CollapseTrimWords(s: string)
    requires TrimStart(s) != []
    ensures Trim(CollapseRuns(s)) == Join(Split(s))
  {
    var t := TrimStart(s);
    SplitSkipsLead(s);
    CollapseIsJoin(t);
    CollapseSkipsLead(s);
    SplitCons(t);
    var words := Split(t);
    assert AreWords(words);
    JoinEdges(words);
    RunsAreSpace(s);
    RunsAreSpace(t);
    Regroup3(LeadingRun(s), Join(words), TrailingRun(t), CollapseRuns(s));
    TrimPadded(LeadingRun(s), Join(words), TrailingRun(t));
  }

  /** `split()` undoes `" ".join`: the words of joined words are those words. */
  lemma {:induction false} SplitJoin(words: seq<string>)
    requires AreWords(words)
    ensures Split(Join(words)) == words
    decreases |words|
  {
    if words == [] {
      CollapseNothing([]);
    } else if |words| == 1 {
      SplitOneWord(words[0]);
    } else {
      var rest := words[1..];
      assert AreWords(rest) by {
        assert forall i :: 1 <= i < |words| ==> rest[i - 1] == words[i];
      }
      SplitJoin(rest);
      SplitWordThenJoin(words[0], rest);
    }
  }

  lemma {:induction false} SplitOneWord(w: string)
    requires w != [] && NoSpace(w)
    ensures Split(w) == [w]
  {
    WordEndOf(w, []);
    assert w + [] == w;
    SplitCons(w);
    CollapseNothing([]);
  }

  lemma {:induction false} SplitWordThenJoin(w: string, rest: seq<string>)
    requires w != [] && NoSpace(w)
    requires AreWords(rest) && rest != []
    ensures Split(w + " " + Join(rest)) == [w] + Split(Join(rest))
  {
    JoinEdges(rest);
    var j := Join(rest);
    JoinedShape(w, j);
    SplitCons(w + " " + j);
    SplitSkipsLead(" " + j);
  }

  /** A word, one space and a text that opens with a visible character. */
  lemma {:induction false} JoinedShape(w: string, j: string)
    requires w != [] && NoSpace(w)
    requires j != [] && !IsSpace(j[0])
    ensures var whole := w + " " + j;
      && !IsSpace(whole[0]) && WordEnd(whole) == |w|
      && whole[..|w|] == w && whole[|w|..] == " " + j
      && TrimStart(" " + j) == j
  {
    var whole := w + " " + j;
    assert whole == w + (" " + j);
    WordEndOf(w, " " + j);
    LeadingSpacesOf(" ", j);
  }

  lemma {:induction false} WordEndOf(w: string, rest: string)
    requires NoSpace(w)
    requires rest == [] || IsSpace(rest[0])
    ensures WordEnd(w + rest) == |w|
    decreases |w|
  {
    if w != [] {
      assert (w + rest)[1..] == w[1..] + rest;
      WordEndOf(w[1..], rest);
    }
  }

  /** A string has no words exactly when it is blank. */
  lemma {:induction false} SplitEmptyIffBlank(s: string)
    ensures Split(s) == [] <==> RemoveSpaces(s) == []
  {
    SplitKeepsText(s);
    var w := Split(s);
    if w != [] {
      assert |Concat(w)| >= |w[0]| > 0;
    }
  }

  predicate StartsWith(s: string, prefix: string) {
    |prefix| <= |s| && s[..|prefix|] == prefix
  }

  /** A prefix with whitespace in it can never open a whitespace-free text. */
  lemma {:induction false} SpacedPrefixNeverStarts(s: string, prefix: string, k: nat)
    requires NoSpace(s)
    requires k < |prefix| && IsSpace(prefix[k])
    ensures !StartsWith(s, prefix)
  {
    if |prefix| <= |s| {
      assert s[..|prefix|][k] == s[k];
    }
  }

  predicate OccursAt(s: string, sub: string, i: nat) {
    i + |sub| <= |s| && s[i..i + |sub|] == sub
  }

  /** Python's `sub in s`. */
  predicate Contains(s: string, sub: string) {
    exists i: nat :: i <= |s| && OccursAt(s, sub, i)
  }

  /** `s.split(sep, 1)`: the text before and after the first `sep`, if there is one. */
  function PartitionAt(s: string, sep: char): (r: Option<(string, string)>)
    ensures r.None? <==> sep !in s
    ensures r.Some? ==> s == r.value.0 + [sep] + r.value.1 && sep !in r.value.0
    decreases |s|
  {
    if s == [] then None
    else if s[0] == sep then Some(([], s[1..]))
    else match PartitionAt(s[1..], sep)
      case None => None
      case Some((before, after)) => Some(([s[0]] + before, after))
  }
}
