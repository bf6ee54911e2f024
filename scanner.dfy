/**
 * The number pattern of find_largest_number.py and its `findall` scan.
 *
 * The pattern is the alternation of two grammars, compiled without flags.
 * Grammar A (word suffix) is a literal (an optional minus sign, digits, and
 * optionally a dot and more digits), then optionally whitespace, one of the
 * words million, billion, thousand, trillion and a plural s; only the
 * literal and the word are captured. Grammar B (currency letter) is a
 * literal just after a dollar sign, then blanks and one of the letters M,
 * B, T, which is captured.
 * At every position the regex engine tries A first, then B; `findall`
 * reports the leftmost match, resumes at its end, and yields the captured
 * literal and the captured unit word ("" when absent).
 */
module Scanner {
  import opened Wrappers

  /** One match: where it starts and ends, the captured literal and the captured unit. */
  datatype Token = Token(start: nat, end: nat, literal: string, suffix: string)

  predicate IsDigit(c: char) { '0' <= c <= '9' }

  /** The characters Python's `\s` accepts in a str pattern. */
  predicate IsSpace(c: char) {
    c in {' ', '\t', '\n', '\r', '\U{0B}', '\U{0C}', '\U{1C}', '\U{1D}', '\U{1E}', '\U{1F}',
          '\U{85}', '\U{A0}', '\U{1680}', '\U{2000}', '\U{2001}', '\U{2002}', '\U{2003}',
          '\U{2004}', '\U{2005}', '\U{2006}', '\U{2007}', '\U{2008}', '\U{2009}', '\U{200A}',
          '\U{2028}', '\U{2029}', '\U{202F}', '\U{205F}', '\U{3000}'}
  }

  /** The unit words of grammar A, in the order of the alternation. */
  const SuffixWords: seq<string> := ["million", "billion", "thousand", "trillion"]

  /** An unsigned literal: a digit first, then digits with at most one dot. */
  predicate IsUnsignedLiteral(l: string) {
    |l| > 0 && IsDigit(l[0]) &&
    (forall k :: 0 <= k < |l| ==> IsDigit(l[k]) || l[k] == '.') &&
    (forall a, b :: 0 <= a < b < |l| && l[a] == '.' ==> l[b] != '.')
  }

  /** A literal: an unsigned literal, optionally after one minus sign. */
  predicate IsLiteral(l: string) {
    IsUnsignedLiteral(l) || (|l| > 1 && l[0] == '-' && IsUnsignedLiteral(l[1..]))
  }

  /** The end of the longest run of digits starting at i (greedy `\d*`). */
  function DigitsEnd(s: string, i: nat): (j: nat)
    requires i <= |s|
    ensures i <= j <= |s|
    ensures forall k :: i <= k < j ==> IsDigit(s[k])
    ensures j < |s| ==> !IsDigit(s[j])
    decreases |s| - i
  {
    if i < |s| && IsDigit(s[i]) then DigitsEnd(s, i + 1) else i
  }

  /** The end of the longest run of whitespace starting at i (greedy `\s*`). */
  function SpacesEnd(s: string, i: nat): (j: nat)
    requires i <= |s|
    ensures i <= j <= |s|
    ensures forall k :: i <= k < j ==> IsSpace(s[k])
    ensures j < |s| ==> !IsSpace(s[j])
    decreases |s| - i
  {
    if i < |s| && IsSpace(s[i]) then SpacesEnd(s, i + 1) else i
  }

  /** The end of the longest run of blanks starting at i (greedy ` *` of grammar B). */
  function BlanksEnd(s: string, i: nat): (j: nat)
    requires i <= |s|
    ensures i <= j <= |s|
    ensures forall k :: i <= k < j ==> s[k] == ' '
    ensures j < |s| ==> s[j] != ' '
    decreases |s| - i
  {
    if i < |s| && s[i] == ' ' then BlanksEnd(s, i + 1) else i
  }

  /** A literal can start at i: a digit, or a minus sign followed by a digit. */
  predicate LiteralAt(s: string, i: nat) {
    i < |s| && (IsDigit(s[i]) || (s[i] == '-' && i + 1 < |s| && IsDigit(s[i + 1])))
  }

  /**
   * The end of the greedy literal that starts at i: what it spans is a
   * literal, and it cannot be extended, since the next character is no digit,
   * and is a dot only when the literal already holds one.
   */
  function LiteralEnd(s: string, i: nat): (e: nat)
    requires LiteralAt(s, i)
    ensures i < e <= |s|
    ensures IsLiteral(s[i..e])
    ensures e < |s| ==> !IsDigit(s[e]) && (s[e] == '.' ==> '.' in s[i..e])
  {
    var d := if s[i] == '-' then i + 1 else i;
    var e1 := DigitsEnd(s, d);
    var e := if e1 < |s| && s[e1] == '.' then DigitsEnd(s, e1 + 1) else e1;
    DigitsDotDigitsIsUnsigned(s, d, e1, e);
    assert s[i] == '-' ==> s[i..e][1..] == s[d..e];
    assert e1 < |s| && s[e1] == '.' ==> s[i..e][e1 - i] == '.';
    e
  }

  /** Greedy digits, then an optional dot and greedy digits, spell an unsigned literal. */
  lemma DigitsDotDigitsIsUnsigned(s: string, d: nat, e1: nat, e: nat)
    requires d < |s| && IsDigit(s[d]) && e1 == DigitsEnd(s, d)
    requires e == if e1 < |s| && s[e1] == '.' then DigitsEnd(s, e1 + 1) else e1
    ensures d < e <= |s| && IsUnsignedLiteral(s[d..e])
  {
    var u := s[d..e];
    assert forall k :: 0 <= k < |u| ==> u[k] == s[d + k];
    assert forall k :: 0 <= k < |u| && u[k] == '.' ==> k == e1 - d;
  }

  /** `s[j..]` starts with w. */
  predicate WordAt(s: string, j: nat, w: string) {
    j + |w| <= |s| && s[j..j + |w|] == w
  }

  /** The unit word of grammar A that starts at j, or "" when none does. */
  function UnitAt(s: string, j: nat): (w: string)
    requires j <= |s|
    ensures w == "" || (w in SuffixWords && WordAt(s, j, w))
    ensures w == "" ==> forall v :: v in SuffixWords ==> !WordAt(s, j, v)
  {
    if WordAt(s, j, "million") then "million"
    else if WordAt(s, j, "billion") then "billion"
    else if WordAt(s, j, "thousand") then "thousand"
    else if WordAt(s, j, "trillion") then "trillion"
    else ""
  }

  /** After a unit word ending at k, the match takes one plural `s` when one follows. */
  function PluralEnd(s: string, k: nat): nat
    requires k <= |s|
  {
    if k < |s| && s[k] == 's' then k + 1 else k
  }

  /** Grammar A at position i: the literal, then (after optional whitespace) an optional unit word and plural `s`. */
  function GrammarA(s: string, i: nat): (t: Option<Token>)
    requires i <= |s|
    ensures t.Some? <==> LiteralAt(s, i)
    ensures t.Some? ==> t.value.start == i < t.value.end <= |s|
    ensures t.Some? ==> IsLiteral(t.value.literal) && i + |t.value.literal| <= t.value.end
    ensures t.Some? ==> s[i..i + |t.value.literal|] == t.value.literal
    ensures t.Some? ==> t.value.suffix == "" || t.value.suffix in SuffixWords
  {
    if !LiteralAt(s, i) then None
    else
      var e := LiteralEnd(s, i);
      var j := SpacesEnd(s, e);
      var w := UnitAt(s, j);
      if w == "" then Some(Token(i, e, s[i..e], ""))
      else
        Some(Token(i, PluralEnd(s, j + |w|), s[i..e], w))
  }

  /**
   * Grammar A is greedy: its literal is the longest one at i; its unit is
   * the unit word found after the whitespace that follows the literal, if
   * any; and the match ends after the literal when there is no unit, and
   * otherwise after the unit word and one plural `s` when one follows it.
   */
  lemma GrammarAIsGreedy(s: string, i: nat)
    requires LiteralAt(s, i)
    ensures GrammarA(s, i).Some?
    ensures i + |GrammarA(s, i).value.literal| == LiteralEnd(s, i)
    ensures GrammarA(s, i).value.suffix == UnitAt(s, SpacesEnd(s, LiteralEnd(s, i)))
    ensures GrammarA(s, i).value.suffix == "" ==> GrammarA(s, i).value.end == LiteralEnd(s, i)
    ensures GrammarA(s, i).value.suffix != "" ==>
      WordAt(s, SpacesEnd(s, LiteralEnd(s, i)), GrammarA(s, i).value.suffix) &&
      GrammarA(s, i).value.end == PluralEnd(s, SpacesEnd(s, LiteralEnd(s, i)) + |GrammarA(s, i).value.suffix|)
  {
    var e := LiteralEnd(s, i);
    var j := SpacesEnd(s, e);
    var w := UnitAt(s, j);
    assert GrammarA(s, i) == Some(Token(i, if w == "" then e else PluralEnd(s, j + |w|), s[i..e], w));
  }

  /** Grammar B at position i: a `$` just before i, the literal, blanks, then one of `M`, `B`, `T`. */
  function GrammarB(s: string, i: nat): (t: Option<Token>)
    requires i <= |s|
    ensures t.Some? ==> i > 0 && s[i - 1] == '$' && LiteralAt(s, i)
    ensures t.Some? ==> t.value.suffix in ["M", "B", "T"]
  {
    if i == 0 || s[i - 1] != '$' || !LiteralAt(s, i) then None
    else
      var e := LiteralEnd(s, i);
      var j := BlanksEnd(s, e);
      if j < |s| && s[j] in {'M', 'B', 'T'} then Some(Token(i, j + 1, s[i..e], [s[j]])) else None
  }

  /** The combined pattern at position i: grammar A if it matches, otherwise grammar B. */
  function MatchAt(s: string, i: nat): Option<Token>
    requires i <= |s|
  {
    var a := GrammarA(s, i);
    if a.Some? then a else GrammarB(s, i)
  }

  /** Matches appear left to right and do not overlap. */
  predicate Ordered(ts: seq<Token>) {
    forall k :: 0 <= k < |ts| - 1 ==> ts[k].end <= ts[k + 1].start
  }

  /** Neither grammar of the pattern matches at any position of [lo, hi). */
  predicate NoMatchIn(s: string, lo: nat, hi: nat)
    requires hi <= |s|
  {
    forall p :: lo <= p < hi ==> MatchAt(s, p).None?
  }

  /** The whole of `findall` from position i on. */
  function ScanFrom(s: string, i: nat): (ts: seq<Token>)
    requires i <= |s|
    ensures forall k :: 0 <= k < |ts| ==> i <= ts[k].start < ts[k].end <= |s|
    ensures Ordered(ts)
    decreases |s| - i
  {
    if i == |s| then []
    else if GrammarA(s, i).Some? then
      var t := GrammarA(s, i).value;
      [t] + ScanFrom(s, t.end)
    else
      ScanFrom(s, i + 1)
  }

  /** Each token is what grammar A matches at the token's start. */
  predicate AreGrammarAMatches(s: string, ts: seq<Token>) {
    forall k :: 0 <= k < |ts| ==> ts[k].start <= |s| && GrammarA(s, ts[k].start) == Some(ts[k])
  }

  lemma {:induction false} ScanFromMatches(s: string, i: nat)
    requires i <= |s|
    ensures AreGrammarAMatches(s, ScanFrom(s, i))
    decreases |s| - i
  {
    if i < |s| {
      match GrammarA(s, i)
      case Some(t) =>
        ScanFromMatches(s, t.end);
        ConsMatches(s, t, ScanFrom(s, t.end));
      case None =>
        ScanFromMatches(s, i + 1);
    }
  }

  lemma ConsMatches(s: string, t: Token, rest: seq<Token>)
    requires t.start <= |s| && GrammarA(s, t.start) == Some(t) && AreGrammarAMatches(s, rest)
    ensures AreGrammarAMatches(s, [t] + rest)
  {
    var ts := [t] + rest;
    forall k | 0 <= k < |ts| ensures ts[k].start <= |s| && GrammarA(s, ts[k].start) == Some(ts[k]) {
      if k > 0 {
        assert ts[k] == rest[k - 1];
      }
    }
  }

  /** The combined pattern matches exactly where grammar A does: B needs A's literal at the same place. */
  lemma MatchAtIsGrammarA(s: string, i: nat)
    requires i <= |s|
    ensures MatchAt(s, i) == GrammarA(s, i)
    ensures MatchAt(s, i).None? <==> !LiteralAt(s, i)
  {
  }

  /** No literal starts at any position of [lo, hi). */
  predicate NoLiteralIn(s: string, lo: nat, hi: nat)
    requires hi <= |s|
  {
    forall p :: lo <= p < hi ==> !LiteralAt(s, p)
  }

  /** The end of the gap that follows the k-th token (the start of the next one, or the end of the text). */
  function GapEnd(s: string, ts: seq<Token>, k: int): nat
    requires -1 <= k < |ts|
  {
    if k + 1 < |ts| then ts[k + 1].start else |s|
  }

  /** The gaps of a scan from i: before the first token, and after each one up to the next. */
  predicate GapsHaveNoLiteral(s: string, i: nat, ts: seq<Token>)
    requires i <= |s|
    requires forall k :: 0 <= k < |ts| ==> ts[k].end <= |s| && ts[k].start <= |s|
  {
    NoLiteralIn(s, i, GapEnd(s, ts, -1)) &&
    forall k :: 0 <= k < |ts| ==> NoLiteralIn(s, ts[k].end, GapEnd(s, ts, k))
  }

  /** The same, for both grammars of the pattern. */
  predicate GapsHaveNoMatch(s: string, i: nat, ts: seq<Token>)
    requires i <= |s|
    requires forall k :: 0 <= k < |ts| ==> ts[k].end <= |s| && ts[k].start <= |s|
  {
    NoMatchIn(s, i, GapEnd(s, ts, -1)) &&
    forall k :: 0 <= k < |ts| ==> NoMatchIn(s, ts[k].end, GapEnd(s, ts, k))
  }

  lemma {:induction false} ScanFromSkipsNoLiteral(s: string, i: nat)
    requires i <= |s|
    ensures GapsHaveNoLiteral(s, i, ScanFrom(s, i))
    decreases |s| - i
  {
    var ts := ScanFrom(s, i);
    if i == |s| {
    } else if GrammarA(s, i).Some? {
      var t := GrammarA(s, i).value;
      var rest := ScanFrom(s, t.end);
      ScanFromSkipsNoLiteral(s, t.end);
      assert ts == [t] + rest;
      ConsSkipsNoLiteral(s, i, t, rest);
    } else {
      assert ts == ScanFrom(s, i + 1);
      ScanFromSkipsNoLiteral(s, i + 1);
    }
  }

  lemma ConsSkipsNoLiteral(s: string, i: nat, t: Token, rest: seq<Token>)
    requires i == t.start < t.end <= |s|
    requires forall k :: 0 <= k < |rest| ==> t.end <= rest[k].start < rest[k].end <= |s|
    requires GapsHaveNoLiteral(s, t.end, rest)
    ensures GapsHaveNoLiteral(s, i, [t] + rest)
  {
    var ts := [t] + rest;
    forall k | 0 <= k < |ts|
      ensures NoLiteralIn(s, ts[k].end, GapEnd(s, ts, k))
    {
      if k > 0 {
        assert ts[k] == rest[k - 1];
        assert GapEnd(s, ts, k) == GapEnd(s, rest, k - 1);
      }
    }
  }

  /**
   * Leftmost-first scanning: no match of either grammar starts before the
   * first match, between two consecutive matches, or after the last one.
   */
  lemma ScanFromIsLeftmost(s: string, i: nat)
    requires i <= |s|
    ensures GapsHaveNoMatch(s, i, ScanFrom(s, i))
  {
    ScanFromSkipsNoLiteral(s, i);
    forall p: nat | p <= |s| ensures MatchAt(s, p).None? <==> !LiteralAt(s, p) {
      MatchAtIsGrammarA(s, p);
    }
  }

  /** Each token holds a literal of the pattern and either no unit or one of the unit words. */
  predicate AreNumberTokens(ts: seq<Token>) {
    forall k :: 0 <= k < |ts| ==> IsLiteral(ts[k].literal) && (ts[k].suffix == "" || ts[k].suffix in SuffixWords)
  }

  /** `NUMBERS_WITH_SUFFIXES.findall(s)`, with the position of each match kept. */
  function FindAll(s: string): (ts: seq<Token>)
    ensures AreNumberTokens(ts)
  {
    ScanFromMatches(s, 0);
    ScanFrom(s, 0)
  }

  /**
   * The matches lie in the text in order without overlapping, and the
   * literal of each is the text at the match's start.
   */
  lemma FindAllLiteralsAreInText(s: string)
    ensures Ordered(FindAll(s))
    ensures forall k :: 0 <= k < |FindAll(s)| ==> FindAll(s)[k].start + |FindAll(s)[k].literal| <= FindAll(s)[k].end <= |s|
    ensures forall k :: 0 <= k < |FindAll(s)| ==>
      s[FindAll(s)[k].start..FindAll(s)[k].start + |FindAll(s)[k].literal|] == FindAll(s)[k].literal
  {
    ScanFromMatches(s, 0);
  }

  /**
   * `findall` exactly: each token is the greedy grammar-A match at its
   * start, and no match of the pattern is skipped between tokens.
   */
  lemma FindAllIsLeftmostGreedy(s: string)
    ensures AreGrammarAMatches(s, FindAll(s))
    ensures GapsHaveNoMatch(s, 0, FindAll(s))
  {
    ScanFromMatches(s, 0);
    ScanFromIsLeftmost(s, 0);
  }

  /**
   * The currency-letter alternative never contributes: wherever it could
   * match, grammar A matches first, and its unit (if any) is a word, not a letter.
   */
  lemma CurrencyAlternativeNeverWins(s: string, i: nat)
    requires i <= |s|
    requires GrammarB(s, i).Some?
    ensures MatchAt(s, i) == GrammarA(s, i) != GrammarB(s, i)
    ensures MatchAt(s, i).value.literal == GrammarB(s, i).value.literal
  {
  }

  /** Text that holds exactly one unit word from j on yields that word. */
  lemma UnitAtWord(s: string, j: nat, w: string)
    requires j <= |s| && w in SuffixWords && s[j..] == w
    ensures UnitAt(s, j) == w
  {
    assert s[j..j + |w|] == w;
    assert s[j] == w[0] && s[j + 1] == w[1];
  }

  /** A run of digits from i that stops at j is the run DigitsEnd finds. */
  lemma DigitsEndIs(s: string, i: nat, j: nat)
    requires i <= j <= |s|
    requires forall k :: i <= k < j ==> IsDigit(s[k])
    requires j < |s| ==> !IsDigit(s[j])
    ensures DigitsEnd(s, i) == j
  {
  }

  /** Text that is one literal and nothing else scans to that literal alone. */
  lemma LiteralAloneScans(s: string)
    requires LiteralAt(s, 0) && LiteralEnd(s, 0) == |s|
    ensures FindAll(s) == [Token(0, |s|, s, "")]
  {
    assert SpacesEnd(s, |s|) == |s|;
    assert UnitAt(s, |s|) == "";
    assert s[0..|s|] == s;
    assert GrammarA(s, 0) == Some(Token(0, |s|, s, ""));
    assert ScanFrom(s, 0) == [Token(0, |s|, s, "")] + ScanFrom(s, |s|);
  }

  /** Every unit word starts with a letter, never with whitespace. */
  lemma SuffixWordsStartWithLetter()
    ensures forall v :: v in SuffixWords ==> |v| >= 1 && !IsSpace(v[0])
  {
  }

  /** One blank followed by a non-space is a run of whitespace of length one. */
  lemma SpacesEndAfterBlank(s: string, e: nat)
    requires e + 1 < |s| && IsSpace(s[e]) && !IsSpace(s[e + 1])
    ensures SpacesEnd(s, e) == e + 1
  {
    assert SpacesEnd(s, e + 1) == e + 1;
  }

  /** On a literal, one blank and a unit word, grammar A matches all of the text. */
  lemma LiteralWordMatch(s: string, e: nat, w: string)
    requires LiteralAt(s, 0) && LiteralEnd(s, 0) == e
    requires e < |s| && s[e] == ' ' && w in SuffixWords && s[e + 1..] == w
    ensures GrammarA(s, 0) == Some(Token(0, |s|, s[..e], w))
  {
    SuffixWordsStartWithLetter();
    assert |w| >= 1 && s[e + 1] == w[0];
    SpacesEndAfterBlank(s, e);
    UnitAtWord(s, e + 1, w);
    GrammarAIsGreedy(s, 0);
    var t := GrammarA(s, 0).value;
    assert e + 1 + |w| == |s|;
    assert t.suffix == w && t.end == |s|;
    assert t.literal == s[..e];
  }

  /** Text that is a literal, one blank and a unit word scans to one match spanning all of it. */
  lemma LiteralWordScans(s: string, e: nat, w: string)
    requires LiteralAt(s, 0) && LiteralEnd(s, 0) == e
    requires e < |s| && s[e] == ' ' && w in SuffixWords && s[e + 1..] == w
    ensures FindAll(s) == [Token(0, |s|, s[..e], w)]
  {
    LiteralWordMatch(s, e, w);
    assert ScanFrom(s, 0) == [Token(0, |s|, s[..e], w)] + ScanFrom(s, |s|);
  }
}
