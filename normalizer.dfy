/**
 * `RecognizedNumber` and `parse_number` of find_largest_number.py: the
 * value of a literal, scaled by its unit word, and the text kept for
 * display. Values are exact reals.
 */
module Normalizer {
  import opened Wrappers
  import opened Scanner
  import opened Units

  /** A recognized number: the text shown for it, its value, and the zero-based page it was found on. */
  datatype RecognizedNumber = RecognizedNumber(rawText: string, value: real, page: nat)

  function DigitValue(c: char): nat
    requires IsDigit(c)
  {
    c as int - '0' as int
  }

  predicate AllDigits(ds: string) {
    forall k :: 0 <= k < |ds| ==> IsDigit(ds[k])
  }

  /** The natural number a digit string denotes. */
  function NaturalValue(ds: string): nat
    requires AllDigits(ds)
  {
    if ds == [] then 0 else NaturalValue(ds[..|ds| - 1]) * 10 + DigitValue(ds[|ds| - 1])
  }

  /** The position of the dot of a literal, or its length when it has none. */
  function DotIndex(l: string): (d: nat)
    ensures d <= |l|
    ensures d < |l| ==> l[d] == '.'
    ensures forall k :: 0 <= k < d ==> l[k] != '.'
  {
    if l == [] then 0
    else if l[0] == '.' then 0
    else 1 + DotIndex(l[1..])
  }

  /** The digits before the dot. */
  function IntegerDigits(l: string): (ds: string)
    requires IsUnsignedLiteral(l)
    ensures AllDigits(ds) && |ds| > 0
  {
    l[..DotIndex(l)]
  }

  /** The digits after the dot ("" when there is no dot, or nothing follows it). */
  function FractionDigits(l: string): (ds: string)
    requires IsUnsignedLiteral(l)
    ensures AllDigits(ds)
  {
    var d := DotIndex(l);
    if d < |l| then
      assert forall k :: d < k < |l| ==> l[k] != '.';
      l[d + 1..]
    else ""
  }

  /** The value of the digits after a decimal point: 0.d1d2... */
  function FractionValue(ds: string): (v: real)
    requires AllDigits(ds)
    ensures 0.0 <= v < 1.0
  {
    if ds == [] then 0.0 else (DigitValue(ds[0]) as real + FractionValue(ds[1..])) / 10.0
  }

  /** The value of an unsigned literal: its integer digits plus its fraction digits. */
  function UnsignedValue(l: string): real
    requires IsUnsignedLiteral(l)
  {
    NaturalValue(IntegerDigits(l)) as real + FractionValue(FractionDigits(l))
  }

  /** The exact decimal value of a literal, negated when it starts with a minus sign (the float conversion without rounding). */
  function DecimalValue(l: string): real
    requires IsLiteral(l)
  {
    if l[0] == '-' then -UnsignedValue(l[1..]) else UnsignedValue(l)
  }

  /** The value of an unsigned literal lies within one of the number its integer digits denote. */
  lemma UnsignedValueBounds(u: string)
    requires IsUnsignedLiteral(u)
    ensures NaturalValue(IntegerDigits(u)) as real <= UnsignedValue(u) < NaturalValue(IntegerDigits(u)) as real + 1.0
  {
  }

  /**
   * The value of a literal: with a minus sign it is the negated value of
   * the rest, and either way its magnitude is its integer digits plus a
   * fraction below one.
   */
  lemma DecimalValueBounds(l: string)
    requires IsLiteral(l)
    ensures l[0] != '-' ==>
              IsUnsignedLiteral(l) &&
              NaturalValue(IntegerDigits(l)) as real <= DecimalValue(l) < NaturalValue(IntegerDigits(l)) as real + 1.0
    ensures l[0] == '-' ==>
              IsUnsignedLiteral(l[1..]) &&
              -(NaturalValue(IntegerDigits(l[1..])) as real + 1.0) < DecimalValue(l) <= -(NaturalValue(IntegerDigits(l[1..])) as real)
  {
    if l[0] == '-' {
      UnsignedValueBounds(l[1..]);
    } else {
      UnsignedValueBounds(l);
    }
  }

  /** A value times an integer multiplier. */
  function Times(x: real, mult: int): real {
    x * mult as real
  }

  /** `parse_number`: the pair (literal, unit) of one match, found on page `page`. */
  function ParseNumber(literal: string, suffix: string, page: nat): RecognizedNumber
    requires IsLiteral(literal)
    requires suffix == "" || Lower(suffix) in SuffixTable
  {
    if suffix == "" then RecognizedNumber(literal, DecimalValue(literal), page)
    else RecognizedNumber(literal + " " + suffix, Times(DecimalValue(literal), SuffixMultiplier(suffix)), page)
  }

  /** `parse_number(match, page)` for one match of the number pattern: its literal and its unit word, if any. */
  function ParseToken(t: Token, page: nat): RecognizedNumber
    requires IsLiteral(t.literal) && (t.suffix == "" || t.suffix in SuffixWords)
  {
    assert t.suffix == "" || Lower(t.suffix) in SuffixTable by {
      if t.suffix != "" { SuffixLookupHits(t.suffix); }
    }
    ParseNumber(t.literal, t.suffix, page)
  }

  /** Each token can be given to `parse_number`: its unit, if any, is in the suffix table. */
  predicate AreParsable(ts: seq<Token>) {
    forall k :: 0 <= k < |ts| ==> IsLiteral(ts[k].literal) && (ts[k].suffix == "" || Lower(ts[k].suffix) in SuffixTable)
  }

  /** Every unit the scanner captures is found by the suffix lookup of `parse_number`. */
  lemma ScannedSuffixesHit(ts: seq<Token>)
    requires AreNumberTokens(ts)
    ensures AreParsable(ts)
  {
    forall k | 0 <= k < |ts| && ts[k].suffix != "" ensures Lower(ts[k].suffix) in SuffixTable {
      SuffixLookupHits(ts[k].suffix);
    }
  }

  /**
   * The multiplier of each unit word of the number pattern, looked up in the
   * suffix table, and the value of a number written with that word.
   */
  lemma ThousandScale(literal: string, page: nat)
    requires IsLiteral(literal)
    ensures Lower("thousand") in SuffixTable && SuffixMultiplier("thousand") == 1_000
    ensures ParseNumber(literal, "thousand", page).value == DecimalValue(literal) * 1_000.0
  {
    LowerKeepsLowerCase("thousand");
  }

  lemma MillionScale(literal: string, page: nat)
    requires IsLiteral(literal)
    ensures Lower("million") in SuffixTable && SuffixMultiplier("million") == 1_000_000
    ensures ParseNumber(literal, "million", page).value == DecimalValue(literal) * 1_000_000.0
  {
    LowerKeepsLowerCase("million");
  }

  lemma BillionScale(literal: string, page: nat)
    requires IsLiteral(literal)
    ensures Lower("billion") in SuffixTable && SuffixMultiplier("billion") == 1_000_000_000
    ensures ParseNumber(literal, "billion", page).value == DecimalValue(literal) * 1_000_000_000.0
  {
    LowerKeepsLowerCase("billion");
  }

  lemma TrillionScale(literal: string, page: nat)
    requires IsLiteral(literal)
    ensures Lower("trillion") in SuffixTable && SuffixMultiplier("trillion") == 1_000_000_000_000
    ensures ParseNumber(literal, "trillion", page).value == DecimalValue(literal) * 1_000_000_000_000.0
  {
    LowerKeepsLowerCase("trillion");
    assert "trillion"[1] != "thousand"[1];
  }

  /**
   * A number carries exactly one multiplier: 1 without a unit word, and the
   * thousand, million, billion or trillion its word names with one.
   */
  lemma ParseNumberAppliesOneMultiplier(literal: string, suffix: string, page: nat)
    requires IsLiteral(literal)
    requires suffix == "" || suffix in SuffixWords
    ensures suffix == "" || Lower(suffix) in SuffixTable
    ensures suffix == "" ==> ParseNumber(literal, suffix, page).value == DecimalValue(literal)
    ensures suffix == "thousand" ==> ParseNumber(literal, suffix, page).value == DecimalValue(literal) * 1_000.0
    ensures suffix == "million" ==> ParseNumber(literal, suffix, page).value == DecimalValue(literal) * 1_000_000.0
    ensures suffix == "billion" ==> ParseNumber(literal, suffix, page).value == DecimalValue(literal) * 1_000_000_000.0
    ensures suffix == "trillion" ==> ParseNumber(literal, suffix, page).value == DecimalValue(literal) * 1_000_000_000_000.0
  {
    if suffix == "thousand" {
      ThousandScale(literal, page);
    } else if suffix == "million" {
      MillionScale(literal, page);
    } else if suffix == "billion" {
      BillionScale(literal, page);
    } else if suffix == "trillion" {
      TrillionScale(literal, page);
    }
  }

  /**
   * The literal at the start of s is lit when s begins with lit and goes on
   * with neither a digit nor a dot (greedy `\d+` and `\.\d*` stop there).
   */
  lemma LiteralEndOfLiteral(s: string, lit: string)
    requires IsLiteral(lit) && |lit| <= |s| && s[..|lit|] == lit
    requires |lit| < |s| ==> !IsDigit(s[|lit|]) && s[|lit|] != '.'
    ensures LiteralAt(s, 0) && LiteralEnd(s, 0) == |lit|
  {
    var d := if lit[0] == '-' then 1 else 0;
    assert s[d..|lit|] == lit[d..];
    UnsignedEndOfLiteral(s, d, lit[d..]);
  }

  /** The same for the unsigned part u of a literal, found at d. */
  lemma UnsignedEndOfLiteral(s: string, d: nat, u: string)
    requires IsUnsignedLiteral(u) && d + |u| <= |s| && s[d..d + |u|] == u
    requires d + |u| < |s| ==> !IsDigit(s[d + |u|]) && s[d + |u|] != '.'
    ensures DigitsEnd(s, d) < |s| && s[DigitsEnd(s, d)] == '.' ==> DigitsEnd(s, DigitsEnd(s, d) + 1) == d + |u|
    ensures !(DigitsEnd(s, d) < |s| && s[DigitsEnd(s, d)] == '.') ==> DigitsEnd(s, d) == d + |u|
  {
    assert forall k :: d <= k < d + |u| ==> s[k] == u[k - d];
    var di := DotIndex(u);
    assert forall k :: d <= k < d + di ==> IsDigit(s[k]);
    if di < |u| {
      assert forall k :: di < k < |u| ==> u[k] != '.';
      DigitsEndIs(s, d, d + di);
      DigitsEndIs(s, d + di + 1, d + |u|);
    } else {
      DigitsEndIs(s, d, d + |u|);
    }
  }

  /**
   * The text kept for a number scans back to that number: `findall` over
   * the raw text finds one match, spanning all of it, with the same literal
   * and unit word.
   */
  lemma RawTextScansBack(literal: string, suffix: string, page: nat)
    requires IsLiteral(literal)
    requires suffix == "" || suffix in SuffixWords
    ensures suffix == "" || Lower(suffix) in SuffixTable
    ensures FindAll(ParseNumber(literal, suffix, page).rawText) ==
            [Token(0, |ParseNumber(literal, suffix, page).rawText|, literal, suffix)]
  {
    ParseNumberAppliesOneMultiplier(literal, suffix, page);
    var raw := ParseNumber(literal, suffix, page).rawText;
    assert raw[..|literal|] == literal;
    LiteralEndOfLiteral(raw, literal);
    if suffix == "" {
      LiteralAloneScans(raw);
    } else {
      assert raw[|literal| + 1..] == suffix;
      LiteralWordScans(raw, |literal|, suffix);
    }
  }

  /** The first n matches, each made a RecognizedNumber of page `page` (the text pass). */
  function ParsedMatches(ts: seq<Token>, n: nat, page: nat): seq<RecognizedNumber>
    requires n <= |ts| && AreNumberTokens(ts)
  {
    seq(n, k requires 0 <= k < n => ParseToken(ts[k], page))
  }

  /** A sequence one longer than `front`, agreeing with it and ending in `x`, is `front + [x]`. */
  lemma SnocOf<T>(all: seq<T>, front: seq<T>, x: T)
    requires |all| == |front| + 1 && all[|front|] == x
    requires forall k :: 0 <= k < |front| ==> all[k] == front[k]
    ensures all == front + [x]
  {
    assert all == all[..|front|] + [x];
    assert all[..|front|] == front;
  }

  /** The text pass keeps one number per match, in match order: the k-th is the k-th match, parsed. */
  lemma ParsedMatchesAre(ts: seq<Token>, n: nat, page: nat)
    requires n <= |ts| && AreNumberTokens(ts)
    ensures |ParsedMatches(ts, n, page)| == n
    ensures forall k :: 0 <= k < n ==> ParsedMatches(ts, n, page)[k] == ParseToken(ts[k], page)
  {
  }

  /** The number with its value multiplied by a column or page multiplier, its text and page unchanged. */
  function Scale(r: RecognizedNumber, mult: int): RecognizedNumber {
    r.(value := Times(r.value, mult))
  }

  /**
   * The numbers the table and fallback passes build from the first n
   * matches: only matches without a unit word, each scaled by mult.
   */
  function ScaledUnsuffixed(ts: seq<Token>, n: nat, mult: int, page: nat): seq<RecognizedNumber>
    requires n <= |ts| && AreNumberTokens(ts)
  {
    if n == 0 then []
    else
      ScaledUnsuffixed(ts, n - 1, mult, page) +
        (if ts[n - 1].suffix == "" then [Scale(ParseNumber(ts[n - 1].literal, "", page), mult)] else [])
  }

  /** One more match of the text pass is one more parsed number. */
  lemma ParsedMatchesStep(ts: seq<Token>, j: nat, page: nat)
    requires j < |ts| && AreNumberTokens(ts)
    ensures ParsedMatches(ts, j + 1, page) == ParsedMatches(ts, j, page) + [ParseToken(ts[j], page)]
  {
    ParsedMatchesAre(ts, j, page);
    ParsedMatchesAre(ts, j + 1, page);
    SnocOf(ParsedMatches(ts, j + 1, page), ParsedMatches(ts, j, page), ParseToken(ts[j], page));
  }

  /** One more match of a table cell or line adds its scaled number exactly when it has no unit word. */
  lemma ScaledUnsuffixedStep(ts: seq<Token>, j: nat, mult: int, page: nat)
    requires j < |ts| && AreNumberTokens(ts)
    ensures ts[j].suffix == "" ==>
      ScaledUnsuffixed(ts, j + 1, mult, page) == ScaledUnsuffixed(ts, j, mult, page) + [Scale(ParseNumber(ts[j].literal, "", page), mult)]
    ensures ts[j].suffix != "" ==> ScaledUnsuffixed(ts, j + 1, mult, page) == ScaledUnsuffixed(ts, j, mult, page)
  {
  }

  /** A number built from a bare literal and scaled by exactly one multiplier. */
  predicate IsScaledLiteral(r: RecognizedNumber, mult: int, page: nat) {
    r.page == page && IsLiteral(r.rawText) && r.value == Times(DecimalValue(r.rawText), mult)
  }

  predicate AllScaledLiterals(rs: seq<RecognizedNumber>, mult: int, page: nat) {
    forall k :: 0 <= k < |rs| ==> IsScaledLiteral(rs[k], mult, page)
  }

  /** The scaled numbers are bare literals, each its decimal value times the given multiplier and no other. */
  lemma {:induction false} ScaledUnsuffixedAreScaledLiterals(ts: seq<Token>, n: nat, mult: int, page: nat)
    requires n <= |ts| && AreNumberTokens(ts)
    ensures AllScaledLiterals(ScaledUnsuffixed(ts, n, mult, page), mult, page)
  {
    if n > 0 {
      ScaledUnsuffixedAreScaledLiterals(ts, n - 1, mult, page);
      var t := ts[n - 1];
      var prev := ScaledUnsuffixed(ts, n - 1, mult, page);
      var last := if t.suffix == "" then [Scale(ParseNumber(t.literal, "", page), mult)] else [];
      assert ScaledUnsuffixed(ts, n, mult, page) == prev + last;
      if t.suffix == "" {
        BareLiteralScaled(t.literal, mult, page);
      }
      AppendScaledLiterals(prev, last, mult, page);
    }
  }

  /** A bare literal, parsed and scaled, keeps its text and is its decimal value times the multiplier. */
  lemma BareLiteralScaled(literal: string, mult: int, page: nat)
    requires IsLiteral(literal)
    ensures AllScaledLiterals([Scale(ParseNumber(literal, "", page), mult)], mult, page)
  {
    var r := Scale(ParseNumber(literal, "", page), mult);
    assert r == RecognizedNumber(literal, Times(DecimalValue(literal), mult), page);
  }

  lemma AppendScaledLiterals(a: seq<RecognizedNumber>, b: seq<RecognizedNumber>, mult: int, page: nat)
    requires AllScaledLiterals(a, mult, page) && AllScaledLiterals(b, mult, page)
    ensures AllScaledLiterals(a + b, mult, page)
  {
    assert forall k :: |a| <= k < |a + b| ==> (a + b)[k] == b[k - |a|];
  }

  /**
   * x is what the table and third passes build from one of the first n
   * matches that has no unit word: its literal, parsed and scaled by mult.
   */
  predicate IsBareMatchNumber(x: RecognizedNumber, ts: seq<Token>, n: nat, mult: int, page: nat)
    requires n <= |ts| && AreNumberTokens(ts)
  {
    exists j :: 0 <= j < n && ts[j].suffix == "" && x == Scale(ParseNumber(ts[j].literal, "", page), mult)
  }

  /**
   * The numbers built from the first n matches are exactly those of the
   * matches without a unit word: every such match gives one, and a match
   * with a unit word gives none.
   */
  lemma {:induction false} ScaledUnsuffixedMembers(ts: seq<Token>, n: nat, mult: int, page: nat)
    requires n <= |ts| && AreNumberTokens(ts)
    ensures forall x :: x in ScaledUnsuffixed(ts, n, mult, page) <==> IsBareMatchNumber(x, ts, n, mult, page)
  {
    if n > 0 {
      ScaledUnsuffixedMembers(ts, n - 1, mult, page);
      var prev := ScaledUnsuffixed(ts, n - 1, mult, page);
      var last := if ts[n - 1].suffix == "" then [Scale(ParseNumber(ts[n - 1].literal, "", page), mult)] else [];
      assert ScaledUnsuffixed(ts, n, mult, page) == prev + last;
      forall x
        ensures x in prev + last <==> IsBareMatchNumber(x, ts, n, mult, page)
      {
        if IsBareMatchNumber(x, ts, n, mult, page) {
          BareMatchSplits(x, ts, n, mult, page);
        }
        if x in prev {
          BareMatchWidens(x, ts, n, mult, page);
        }
        if x in last {
          BareMatchLast(x, ts, n, mult, page);
        }
      }
    }
  }

  /** A number from the first n-1 matches is one from the first n. */
  lemma BareMatchWidens(x: RecognizedNumber, ts: seq<Token>, n: nat, mult: int, page: nat)
    requires 0 < n <= |ts| && AreNumberTokens(ts) && IsBareMatchNumber(x, ts, n - 1, mult, page)
    ensures IsBareMatchNumber(x, ts, n, mult, page)
  {
    var j :| 0 <= j < n - 1 && ts[j].suffix == "" && x == Scale(ParseNumber(ts[j].literal, "", page), mult);
  }

  /** The number of match n-1, when it has no unit word, is one from the first n. */
  lemma BareMatchLast(x: RecognizedNumber, ts: seq<Token>, n: nat, mult: int, page: nat)
    requires 0 < n <= |ts| && AreNumberTokens(ts)
    requires ts[n - 1].suffix == "" && x == Scale(ParseNumber(ts[n - 1].literal, "", page), mult)
    ensures IsBareMatchNumber(x, ts, n, mult, page)
  {
  }

  /** A number from the first n matches comes from the first n-1, or from match n-1 when it has no unit word. */
  lemma BareMatchSplits(x: RecognizedNumber, ts: seq<Token>, n: nat, mult: int, page: nat)
    requires 0 < n <= |ts| && AreNumberTokens(ts) && IsBareMatchNumber(x, ts, n, mult, page)
    ensures IsBareMatchNumber(x, ts, n - 1, mult, page) ||
      (ts[n - 1].suffix == "" && x == Scale(ParseNumber(ts[n - 1].literal, "", page), mult))
  {
    var j :| 0 <= j < n && ts[j].suffix == "" && x == Scale(ParseNumber(ts[j].literal, "", page), mult);
    if j < n - 1 {
      assert IsBareMatchNumber(x, ts, n - 1, mult, page);
    }
  }

  /** x is what match j of s gives when it has no unit word: its literal parsed and scaled by mult. */
  predicate MatchNumber(x: RecognizedNumber, s: string, j: nat, mult: int, page: nat) {
    j < |FindAll(s)| && FindAll(s)[j].suffix == "" && x == Scale(ParseNumber(FindAll(s)[j].literal, "", page), mult)
  }

  /** x is built from a match of s without a unit word, its literal parsed and scaled by mult. */
  predicate IsBareNumberOf(x: RecognizedNumber, s: string, mult: int, page: nat) {
    exists j :: 0 <= j < |FindAll(s)| && MatchNumber(x, s, j, mult, page)
  }

  /** The numbers a cell's or a line's text gives are exactly those of its matches without a unit word. */
  lemma BareNumbersOf(s: string, mult: int, page: nat)
    ensures forall x :: x in ScaledUnsuffixed(FindAll(s), |FindAll(s)|, mult, page) <==> IsBareNumberOf(x, s, mult, page)
  {
    var ts := FindAll(s);
    ScaledUnsuffixedMembers(ts, |ts|, mult, page);
    forall x | IsBareNumberOf(x, s, mult, page)
      ensures IsBareMatchNumber(x, ts, |ts|, mult, page)
    {
      var j :| 0 <= j < |FindAll(s)| && MatchNumber(x, s, j, mult, page);
    }
    forall x | IsBareMatchNumber(x, ts, |ts|, mult, page)
      ensures IsBareNumberOf(x, s, mult, page)
    {
      var j :| 0 <= j < |ts| && ts[j].suffix == "" && x == Scale(ParseNumber(ts[j].literal, "", page), mult);
      assert MatchNumber(x, s, j, mult, page);
    }
  }
}
