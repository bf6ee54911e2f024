/**
 * The third pass of `find_largest_number_in_pdf`, for a page without a
 * detected table: the page text is split into lines, the header phrases of
 * the first three lines give the page multipliers, and when there is
 * exactly one, the numbers without a unit word on the remaining lines are
 * built with it. Those numbers are never compared with the page maximum.
 */
module Fallback {
  import opened Wrappers
  import opened Scanner
  import opened Units
  import opened Normalizer

  /** The index of the first line break of s at or after j, or |s| when there is none. */
  function NewlineFrom(s: string, j: nat): (i: nat)
    requires j <= |s|
    ensures j <= i <= |s|
    decreases |s| - j
  {
    if j == |s| || s[j] == '\n' then j else NewlineFrom(s, j + 1)
  }

  /** The index of the first line break of s, or |s| when it has none. */
  function NewlineIndex(s: string): (i: nat)
    ensures i <= |s|
  {
    NewlineFrom(s, 0)
  }

  lemma {:induction false} NewlineFromFinds(s: string, j: nat)
    requires j <= |s|
    ensures NewlineFrom(s, j) < |s| ==> s[NewlineFrom(s, j)] == '\n'
    ensures forall k :: j <= k < NewlineFrom(s, j) ==> s[k] != '\n'
    decreases |s| - j
  {
    if j < |s| && s[j] != '\n' {
      NewlineFromFinds(s, j + 1);
    }
  }

  /** The index found holds a line break, unless it is the end, and none comes before it. */
  lemma NewlineIndexFinds(s: string)
    ensures NewlineIndex(s) < |s| ==> s[NewlineIndex(s)] == '\n'
    ensures forall k :: 0 <= k < NewlineIndex(s) ==> s[k] != '\n'
  {
    NewlineFromFinds(s, 0);
  }

  lemma {:induction false} NewlineFromIs(s: string, j: nat, i: nat)
    requires j <= i < |s| && s[i] == '\n'
    requires forall k :: j <= k < i ==> s[k] != '\n'
    ensures NewlineFrom(s, j) == i
    decreases i - j
  {
    if j < i {
      NewlineFromIs(s, j + 1, i);
    }
  }

  /** The first line break is the one with none before it. */
  lemma NewlineIndexIs(s: string, i: nat)
    requires i < |s| && s[i] == '\n'
    requires forall k :: 0 <= k < i ==> s[k] != '\n'
    ensures NewlineIndex(s) == i
  {
    NewlineFromIs(s, 0, i);
  }

  /** Splitting at every line break: the pieces between line breaks; at least one, possibly empty. */
  function SplitLines(s: string): (lines: seq<string>)
    ensures |lines| >= 1
    decreases |s|
  {
    var i := NewlineIndex(s);
    if i == |s| then [s] else [s[..i]] + SplitLines(s[i + 1..])
  }

  /** The lines joined back with a line break between each two. */
  function JoinLines(lines: seq<string>): string
    requires |lines| >= 1
    decreases |lines|
  {
    if |lines| == 1 then lines[0] else lines[0] + "\n" + JoinLines(lines[1..])
  }

  predicate NoLineBreaks(lines: seq<string>) {
    forall k, c :: 0 <= k < |lines| && 0 <= c < |lines[k]| ==> lines[k][c] != '\n'
  }

  lemma SplitLinesStep(s: string, i: nat)
    requires i == NewlineIndex(s) && i < |s|
    ensures SplitLines(s) == [s[..i]] + SplitLines(s[i + 1..])
  {
  }

  lemma AroundBreak(s: string, i: nat)
    requires i < |s| && s[i] == '\n'
    ensures s == s[..i] + "\n" + s[i + 1..]
  {
  }

  lemma ConsNoLineBreaks(line: string, rest: seq<string>)
    requires forall c :: 0 <= c < |line| ==> line[c] != '\n'
    requires NoLineBreaks(rest)
    ensures NoLineBreaks([line] + rest)
  {
    var lines := [line] + rest;
    forall k, c | 0 <= k < |lines| && 0 <= c < |lines[k]|
      ensures lines[k][c] != '\n'
    {
      if k > 0 {
        assert lines[k] == rest[k - 1];
      }
    }
  }

  lemma JoinLinesCons(line: string, rest: seq<string>)
    requires |rest| >= 1
    ensures JoinLines([line] + rest) == line + "\n" + JoinLines(rest)
  {
    assert ([line] + rest)[1..] == rest;
  }

  /** No piece of the split holds a line break. */
  lemma {:induction false} SplitLinesHaveNoBreaks(s: string)
    ensures NoLineBreaks(SplitLines(s))
    decreases |s|
  {
    var i := NewlineIndex(s);
    NewlineIndexFinds(s);
    if i < |s| {
      SplitLinesHaveNoBreaks(s[i + 1..]);
      SplitLinesStep(s, i);
      ConsNoLineBreaks(s[..i], SplitLines(s[i + 1..]));
    }
  }

  lemma {:induction false} SplitLinesJoinBack(s: string)
    ensures JoinLines(SplitLines(s)) == s
    decreases |s|
  {
    var i := NewlineIndex(s);
    if i < |s| {
      NewlineIndexFinds(s);
      SplitLinesJoinBack(s[i + 1..]);
      SplitLinesStep(s, i);
      JoinLinesCons(s[..i], SplitLines(s[i + 1..]));
      AroundBreak(s, i);
    }
  }

  /** No piece of the split holds a line break, and joining the pieces gives the text back. */
  lemma SplitLinesJoins(s: string)
    ensures NoLineBreaks(SplitLines(s))
    ensures JoinLines(SplitLines(s)) == s
  {
    SplitLinesHaveNoBreaks(s);
    SplitLinesJoinBack(s);
  }

  /** A join of two or more lines breaks first just after the first line. */
  lemma JoinLinesHead(lines: seq<string>)
    requires |lines| >= 2 && NoLineBreaks(lines)
    ensures NewlineIndex(JoinLines(lines)) == |lines[0]|
    ensures JoinLines(lines)[..|lines[0]|] == lines[0]
    ensures JoinLines(lines)[|lines[0]| + 1..] == JoinLines(lines[1..])
  {
    var s := JoinLines(lines);
    assert s == lines[0] + "\n" + JoinLines(lines[1..]);
    assert forall c :: 0 <= c < |lines[0]| ==> s[c] == lines[0][c];
    NewlineIndexIs(s, |lines[0]|);
  }

  lemma NoLineBreaksTail(lines: seq<string>)
    requires |lines| >= 1 && NoLineBreaks(lines)
    ensures NoLineBreaks(lines[1..])
  {
    forall k, c | 0 <= k < |lines[1..]| && 0 <= c < |lines[1..][k]| ensures lines[1..][k][c] != '\n' {
      assert lines[1..][k] == lines[k + 1];
    }
  }

  /** Splitting a join of lines without line breaks gives the lines back. */
  lemma {:induction false} JoinLinesSplits(lines: seq<string>)
    requires |lines| >= 1 && NoLineBreaks(lines)
    ensures SplitLines(JoinLines(lines)) == lines
    decreases |lines|
  {
    if |lines| == 1 {
      var s := JoinLines(lines);
      assert forall c :: 0 <= c < |s| ==> s[c] != '\n';
      NewlineIndexFinds(s);
    } else {
      JoinLinesHead(lines);
      NoLineBreaksTail(lines);
      JoinLinesSplits(lines[1..]);
      assert lines == [lines[0]] + lines[1..];
    }
  }

  /** The multipliers of the header matches of one line, in order. */
  function MatchMultipliers(ms: seq<HeaderMatch>): (vs: seq<int>)
    requires forall k :: 0 <= k < |ms| ==> ms[k].phrase < |HeaderPhrases|
    ensures |vs| == |ms|
    ensures forall k :: 0 <= k < |ms| ==> vs[k] == HeaderMultiplier(ms[k])
  {
    seq(|ms|, k requires 0 <= k < |ms| => HeaderMultiplier(ms[k]))
  }

  /** Every header match of a text belongs to the header table. */
  lemma HeaderMatchesHaveMultipliers(s: string)
    ensures forall k :: 0 <= k < |HeaderFindAll(s)| ==> HeaderFindAll(s)[k].phrase < |HeaderPhrases|
  {
  }

  /** `page_multipliers` after the first n lines: one entry per header match, in order. */
  function PageMultipliers(lines: seq<string>, n: nat): seq<int>
    requires n <= |lines|
  {
    if n == 0 then []
    else
      HeaderMatchesHaveMultipliers(lines[n - 1]);
      PageMultipliers(lines, n - 1) + MatchMultipliers(HeaderFindAll(lines[n - 1]))
  }

  /** Every page multiplier is one the header table gives. */
  lemma {:induction false} PageMultipliersAreHeaderValues(lines: seq<string>, n: nat)
    requires n <= |lines|
    ensures forall k :: 0 <= k < |PageMultipliers(lines, n)| ==> PageMultipliers(lines, n)[k] in {1, 1_000, 1_000_000}
  {
    if n > 0 {
      PageMultipliersAreHeaderValues(lines, n - 1);
      HeaderMatchesHaveMultipliers(lines[n - 1]);
      var a := PageMultipliers(lines, n - 1);
      var b := MatchMultipliers(HeaderFindAll(lines[n - 1]));
      assert PageMultipliers(lines, n) == a + b;
      assert forall k :: |a| <= k < |a + b| ==> (a + b)[k] == b[k - |a|];
    }
  }

  /** The numbers built from lines 3 .. n-1, each scaled by mult. */
  function LineCandidates(lines: seq<string>, n: nat, mult: int, page: nat): seq<RecognizedNumber>
    requires 3 <= n <= |lines|
  {
    if n == 3 then []
    else LineCandidates(lines, n - 1, mult, page) + ScaledUnsuffixed(FindAll(lines[n - 1]), |FindAll(lines[n - 1])|, mult, page)
  }

  /**
   * The numbers the third pass builds for a page: none when the page has
   * a table, fewer than four lines, or not exactly one page multiplier.
   */
  function FallbackCandidates(text: string, tableCount: nat, page: nat): seq<RecognizedNumber> {
    var lines := SplitLines(text);
    if tableCount != 0 || |lines| < 4 then []
    else
      var pms := PageMultipliers(lines, 3);
      if |pms| != 1 then [] else LineCandidates(lines, |lines|, pms[0], page)
  }

  lemma {:induction false} LineCandidatesAreScaled(lines: seq<string>, n: nat, mult: int, page: nat)
    requires 3 <= n <= |lines|
    ensures AllScaledLiterals(LineCandidates(lines, n, mult, page), mult, page)
  {
    if n > 3 {
      LineCandidatesAreScaled(lines, n - 1, mult, page);
      ScaledUnsuffixedAreScaledLiterals(FindAll(lines[n - 1]), |FindAll(lines[n - 1])|, mult, page);
      AppendScaledLiterals(LineCandidates(lines, n - 1, mult, page),
        ScaledUnsuffixed(FindAll(lines[n - 1]), |FindAll(lines[n - 1])|, mult, page), mult, page);
    }
  }

  /**
   * The third pass builds numbers only on a page without tables, with at
   * least four lines and exactly one header phrase in its first three; each
   * is a bare literal of that page scaled by that one header's multiplier.
   */
  lemma FallbackCandidatesShape(text: string, tableCount: nat, page: nat)
    ensures FallbackCandidates(text, tableCount, page) != [] ==>
      tableCount == 0 && |SplitLines(text)| >= 4 && |PageMultipliers(SplitLines(text), 3)| == 1 &&
      PageMultipliers(SplitLines(text), 3)[0] in {1, 1_000, 1_000_000} &&
      AllScaledLiterals(FallbackCandidates(text, tableCount, page), PageMultipliers(SplitLines(text), 3)[0], page)
  {
    var lines := SplitLines(text);
    if tableCount == 0 && |lines| >= 4 && |PageMultipliers(lines, 3)| == 1 {
      PageMultipliersAreHeaderValues(lines, 3);
      LineCandidatesAreScaled(lines, |lines|, PageMultipliers(lines, 3)[0], page);
    }
  }

  /** x is built from one of lines 3 .. n-1: one of its matches without a unit word, parsed and scaled by mult. */
  ghost predicate FromLine(x: RecognizedNumber, lines: seq<string>, n: nat, mult: int, page: nat) {
    exists li :: 3 <= li < n && li < |lines| && IsBareNumberOf(x, lines[li], mult, page)
  }

  /** x is built from lines 3 .. n-1 exactly when it is a number of one of those lines. */
  lemma {:induction false} LineCandidatesMembers(x: RecognizedNumber, lines: seq<string>, n: nat, mult: int, page: nat)
    requires 3 <= n <= |lines|
    ensures x in LineCandidates(lines, n, mult, page) <==> FromLine(x, lines, n, mult, page)
  {
    if n > 3 {
      LineCandidatesMembers(x, lines, n - 1, mult, page);
      BareNumbersOf(lines[n - 1], mult, page);
      if IsBareNumberOf(x, lines[n - 1], mult, page) {
        assert 3 <= n - 1 < n && n - 1 < |lines| && IsBareNumberOf(x, lines[n - 1], mult, page);
      }
      if FromLine(x, lines, n, mult, page) && !IsBareNumberOf(x, lines[n - 1], mult, page) {
        var li :| 3 <= li < n && li < |lines| && IsBareNumberOf(x, lines[li], mult, page);
        assert FromLine(x, lines, n - 1, mult, page);
      }
    }
  }

  /**
   * x is a number the third pass builds exactly when the page has no table,
   * at least four lines and exactly one header phrase in its first three,
   * and x is a match without a unit word on line 3 or later, scaled by that
   * phrase's multiplier.
   */
  lemma FallbackCandidatesMembers(x: RecognizedNumber, text: string, tableCount: nat, page: nat)
    ensures x in FallbackCandidates(text, tableCount, page) <==>
      tableCount == 0 && |SplitLines(text)| >= 4 && |PageMultipliers(SplitLines(text), 3)| == 1 &&
      FromLine(x, SplitLines(text), |SplitLines(text)|, PageMultipliers(SplitLines(text), 3)[0], page)
  {
    var lines := SplitLines(text);
    if tableCount == 0 && |lines| >= 4 && |PageMultipliers(lines, 3)| == 1 {
      LineCandidatesMembers(x, lines, |lines|, PageMultipliers(lines, 3)[0], page);
    }
  }

  /** `page_multipliers`: the multipliers of the header matches of the first three lines, in order. */
  method CollectPageMultipliers(lines: seq<string>) returns (multipliers: seq<int>)
    requires |lines| >= 3
    ensures multipliers == PageMultipliers(lines, 3)
  {
    multipliers := [];
    for li := 0 to 3
      invariant multipliers == PageMultipliers(lines, li)
    {
      var modifiers := HeaderFindAll(lines[li]);
      HeaderMatchesHaveMultipliers(lines[li]);
      for j := 0 to |modifiers|
        invariant multipliers == PageMultipliers(lines, li) + MatchMultipliers(modifiers[..j])
      {
        assert modifiers[..j + 1] == modifiers[..j] + [modifiers[j]];
        multipliers := multipliers + [HeaderMultiplier(modifiers[j])];
      }
      assert modifiers[..|modifiers|] == modifiers;
    }
  }

  /** The matches of one line without a unit word, each parsed and scaled by mult. */
  method BuildLineNumbers(numbers: seq<Token>, mult: int, page: nat) returns (built: seq<RecognizedNumber>)
    requires AreNumberTokens(numbers)
    ensures built == ScaledUnsuffixed(numbers, |numbers|, mult, page)
  {
    built := [];
    for j := 0 to |numbers|
      invariant built == ScaledUnsuffixed(numbers, j, mult, page)
    {
      ScaledUnsuffixedStep(numbers, j, mult, page);
      if numbers[j].suffix == "" {
        var rn := ParseNumber(numbers[j].literal, "", page);
        rn := Scale(rn, mult);
        built := built + [rn];
      }
    }
  }

  /** The numbers of lines 3 onward, each line scaled by mult. */
  method BuildRemainingLines(lines: seq<string>, mult: int, page: nat) returns (built: seq<RecognizedNumber>)
    requires |lines| >= 3
    ensures built == LineCandidates(lines, |lines|, mult, page)
  {
    built := [];
    for li := 3 to |lines|
      invariant built == LineCandidates(lines, li, mult, page)
    {
      var numbers := FindAll(lines[li]);
      var lineBuilt := BuildLineNumbers(numbers, mult, page);
      built := built + lineBuilt;
    }
  }

  /**
   * The third pass as the page loop runs it: it gathers the page
   * multipliers of the first three lines and, when there is exactly one,
   * builds the numbers of the remaining lines with it. It returns what it
   * built; the caller discards it.
   */
  method FallbackPass(text: string, tableCount: nat, page: nat) returns (built: seq<RecognizedNumber>)
    ensures built == FallbackCandidates(text, tableCount, page)
  {
    built := [];
    var lines := SplitLines(text);
    if tableCount == 0 && |lines| >= 4 {
      var multipliers := CollectPageMultipliers(lines);
      if |multipliers| == 1 {
        built := BuildRemainingLines(lines, multipliers[0], page);
      }
    }
  }
}
