/**
 * The two lookup tables of find_largest_number.py, the `TABLE_HEADERS`
 * header-phrase matcher, and the lower-casing that the lookups apply.
 */
module Units {
  import opened Wrappers
  import Scanner

  /** `SUFFIXES_TO_NUMBERS` */
  const SuffixTable: map<string, int> := map[
    "thousand" := 1_000,
    "million" := 1_000_000,
    "m" := 1_000_000,
    "billion" := 1_000_000_000,
    "b" := 1_000_000_000,
    "trillion" := 1_000_000_000_000,
    "t" := 1_000_000_000_000]

  /** `TABLE_HEADERS_TO_NUMBERS` */
  const HeaderTable: map<string, int> := map[
    "$m" := 1_000_000,
    "($m)" := 1_000_000,
    "$ millions" := 1_000_000,
    "in millions" := 1_000_000,
    "in thousands" := 1_000,
    "($)" := 1,
    "(millions)" := 1_000_000]

  /**
   * Python's `str.lower` on one character. Exact for ASCII and for the
   * characters a case-insensitive header match can contain (see
   * CaselessMatch); other non-ASCII characters are left as they are.
   */
  function LowerChar(c: char): string {
    if 'A' <= c <= 'Z' then [(c as int + 32) as char]
    else if c == '\U{130}' then "i\U{307}"  // LATIN CAPITAL LETTER I WITH DOT ABOVE lowers to two characters
    else if c == '\U{212A}' then "k"  // KELVIN SIGN
    else [c]
  }

  /** `str.lower` */
  function Lower(s: string): string {
    if s == [] then [] else LowerChar(s[0]) + Lower(s[1..])
  }

  /** The multiplier of a unit word, looked up by its lower-cased form. */
  function SuffixMultiplier(suffix: string): int
    requires Lower(suffix) in SuffixTable
  {
    SuffixTable[Lower(suffix)]
  }

  /** Every unit word of the number pattern is already lower case and is a key of the suffix table. */
  lemma SuffixLookupHits(w: string)
    requires w in Scanner.SuffixWords
    ensures Lower(w) == w && w in SuffixTable
  {
    LowerKeepsLowerCase(w);
  }

  /** `str.lower` leaves text without upper-case ASCII letters, U+0130 or the Kelvin sign as it is. */
  lemma {:induction false} LowerKeepsLowerCase(s: string)
    requires forall k :: 0 <= k < |s| ==> !('A' <= s[k] <= 'Z') && s[k] != '\U{130}' && s[k] != '\U{212A}'
    ensures Lower(s) == s
  {
    if s != [] {
      LowerKeepsLowerCase(s[1..]);
      assert s == [s[0]] + s[1..];
    }
  }

  /**
   * One character of a `re.IGNORECASE` match against the lower-case
   * pattern character p. Python folds the character to lower case and also
   * treats dotless i (U+0131) as `i` and long s (U+017F) as `s`; U+0130
   * lowers to `i` and the Kelvin sign to `k`.
   */
  predicate CaselessMatch(c: char, p: char) {
    if 'a' <= p <= 'z' then
      c == p || c as int == p as int - 32
      || (p == 'i' && (c == '\U{130}' || c == '\U{131}'))
      || (p == 's' && c == '\U{17F}')
      || (p == 'k' && c == '\U{212A}')
    else c == p
  }

  /** The header alternatives after the first, in pattern order, spelled in lower case. */
  const HeaderPhrases: seq<string> := ["($m)", "$ millions", "in millions", "in thousands", "($)", "(millions)"]

  /** The phrase ph matches, ignoring case, at position i. */
  predicate PhraseAt(s: string, i: nat, ph: string) {
    i + |ph| <= |s| && forall k :: 0 <= k < |ph| ==> CaselessMatch(s[i + k], ph[k])
  }

  /**
   * The first alternative, `$M`: `$` is an anchor (end of the text, or just
   * before a final newline), so an `m` would have to follow the end.
   */
  predicate DollarMAt(s: string, i: nat) {
    (i == |s| || (i + 1 == |s| && s[i] == '\n')) && i < |s| && CaselessMatch(s[i], 'm')
  }

  /** The `$M` alternative can never match, so the matcher starts with the second alternative. */
  lemma DollarMAlternativeDead(s: string, i: nat)
    ensures !DollarMAt(s, i)
  {
  }

  /*
   * The scan below works for any alternation of literal phrases; the
   * header pattern is the one whose phrases are HeaderPhrases.
   */

  /** The first of the alternatives from the k-th on that matches at i. */
  function PhraseFrom(phrases: seq<string>, s: string, i: nat, k: nat): (r: Option<nat>)
    requires k <= |phrases|
    ensures r.Some? ==> k <= r.value < |phrases| && PhraseAt(s, i, phrases[r.value])
    decreases |phrases| - k
  {
    if k == |phrases| then None
    else if PhraseAt(s, i, phrases[k]) then Some(k)
    else PhraseFrom(phrases, s, i, k + 1)
  }

  /** The alternative chosen is the first that matches: none before it does, and none at all when there is no choice. */
  lemma {:induction false} PhraseFromIsFirst(phrases: seq<string>, s: string, i: nat, k: nat)
    requires k <= |phrases|
    ensures PhraseFrom(phrases, s, i, k).Some? ==>
      forall j :: k <= j < PhraseFrom(phrases, s, i, k).value ==> !PhraseAt(s, i, phrases[j])
    ensures PhraseFrom(phrases, s, i, k).None? ==> forall j :: k <= j < |phrases| ==> !PhraseAt(s, i, phrases[j])
    decreases |phrases| - k
  {
    if k < |phrases| && !PhraseAt(s, i, phrases[k]) {
      PhraseFromIsFirst(phrases, s, i, k + 1);
    }
  }

  /** One match: where it starts, which alternative matched, and the matched text. */
  datatype HeaderMatch = HeaderMatch(start: nat, phrase: nat, text: string)

  /** m is a match of alternative m.phrase at m.start, and m.text is the text it covers. */
  predicate IsPhraseMatch(phrases: seq<string>, s: string, m: HeaderMatch) {
    m.phrase < |phrases| && PhraseAt(s, m.start, phrases[m.phrase]) &&
    m.text == s[m.start..m.start + |phrases[m.phrase]|]
  }

  /** m is a match of one of the header alternatives. */
  predicate IsHeaderMatch(s: string, m: HeaderMatch) {
    IsPhraseMatch(HeaderPhrases, s, m)
  }

  predicate NonEmptyPhrases(phrases: seq<string>) {
    forall k :: 0 <= k < |phrases| ==> |phrases[k]| >= 1
  }

  lemma PhrasesNonEmpty()
    ensures NonEmptyPhrases(HeaderPhrases)
  {
  }

  /** The match the scan finds at i: the first alternative that fits there, if any. */
  function PhraseMatchAt(phrases: seq<string>, s: string, i: nat): (r: Option<HeaderMatch>)
    requires i < |s| && NonEmptyPhrases(phrases)
    ensures r.Some? ==> r.value.start == i && IsPhraseMatch(phrases, s, r.value)
    ensures r.Some? ==> 1 <= |r.value.text| && i + |r.value.text| <= |s|
  {
    match PhraseFrom(phrases, s, i, 0)
    case Some(k) => Some(HeaderMatch(i, k, s[i..i + |phrases[k]|]))
    case None => None
  }

  /** `findall` of the alternation from position i on: leftmost first, then past the match. */
  function PhraseScanFrom(phrases: seq<string>, s: string, i: nat): (ms: seq<HeaderMatch>)
    requires i <= |s| && NonEmptyPhrases(phrases)
    ensures forall k :: 0 <= k < |ms| ==> ms[k].phrase < |phrases|
    decreases |s| - i
  {
    if i == |s| then []
    else match PhraseMatchAt(phrases, s, i)
      case Some(m) => [m] + PhraseScanFrom(phrases, s, i + |m.text|)
      case None => PhraseScanFrom(phrases, s, i + 1)
  }

  /**
   * Each match is a match of its alternative, starting no earlier than
   * where the one before it ended (the first no earlier than i).
   */
  predicate ArePhraseMatchesFrom(phrases: seq<string>, s: string, i: nat, ms: seq<HeaderMatch>)
    decreases |ms|
  {
    ms == [] ||
    (i <= ms[0].start && IsPhraseMatch(phrases, s, ms[0]) &&
     ArePhraseMatchesFrom(phrases, s, ms[0].start + |ms[0].text|, ms[1..]))
  }

  /** The scan yields matches of the alternatives, in order and without overlap. */
  lemma {:induction false} PhraseScanFromMatches(phrases: seq<string>, s: string, i: nat)
    requires i <= |s| && NonEmptyPhrases(phrases)
    ensures ArePhraseMatchesFrom(phrases, s, i, PhraseScanFrom(phrases, s, i))
    decreases |s| - i
  {
    if i < |s| {
      match PhraseMatchAt(phrases, s, i)
      case Some(m) =>
        var rest := PhraseScanFrom(phrases, s, i + |m.text|);
        PhraseScanFromMatches(phrases, s, i + |m.text|);
        assert ([m] + rest)[1..] == rest;
      case None =>
        PhraseScanFromMatches(phrases, s, i + 1);
    }
  }

  /** The same, match by match: each is a match at or after i, and ends no later than the next begins. */
  lemma {:induction false} PhraseMatchesAreMatches(phrases: seq<string>, s: string, i: nat, ms: seq<HeaderMatch>)
    requires ArePhraseMatchesFrom(phrases, s, i, ms)
    ensures forall k :: 0 <= k < |ms| ==> i <= ms[k].start && IsPhraseMatch(phrases, s, ms[k])
    ensures forall k :: 0 <= k < |ms| - 1 ==> ms[k].start + |ms[k].text| <= ms[k + 1].start
    decreases |ms|
  {
    if ms != [] {
      PhraseMatchesAreMatches(phrases, s, ms[0].start + |ms[0].text|, ms[1..]);
      assert forall k :: 0 < k < |ms| ==> ms[k] == ms[1..][k - 1];
    }
  }

  /** No alternative matches at any position of [lo, hi). */
  predicate NoPhraseIn(phrases: seq<string>, s: string, lo: nat, hi: nat) {
    forall p: nat, k :: lo <= p < hi && 0 <= k < |phrases| ==> !PhraseAt(s, p, phrases[k])
  }

  /**
   * The gaps a scan from i leaves (before the first match, between two
   * consecutive matches, after the last one) hold no match of any alternative.
   */
  predicate PhraseGapsFrom(phrases: seq<string>, s: string, i: nat, ms: seq<HeaderMatch>)
    decreases |ms|
  {
    if ms == [] then NoPhraseIn(phrases, s, i, |s|)
    else NoPhraseIn(phrases, s, i, ms[0].start) && PhraseGapsFrom(phrases, s, ms[0].start + |ms[0].text|, ms[1..])
  }

  /** A position where nothing matches can join the gap that follows it. */
  lemma GapWidens(phrases: seq<string>, s: string, i: nat, ms: seq<HeaderMatch>)
    requires forall k :: 0 <= k < |phrases| ==> !PhraseAt(s, i, phrases[k])
    requires PhraseGapsFrom(phrases, s, i + 1, ms)
    ensures PhraseGapsFrom(phrases, s, i, ms)
  {
  }

  /** Leftmost-first scanning: the scan skips no match of any alternative. */
  lemma {:induction false} PhraseScanFromIsLeftmost(phrases: seq<string>, s: string, i: nat)
    requires i <= |s| && NonEmptyPhrases(phrases)
    ensures PhraseGapsFrom(phrases, s, i, PhraseScanFrom(phrases, s, i))
    decreases |s| - i
  {
    if i < |s| {
      match PhraseMatchAt(phrases, s, i)
      case Some(m) =>
        var rest := PhraseScanFrom(phrases, s, i + |m.text|);
        PhraseScanFromIsLeftmost(phrases, s, i + |m.text|);
        assert ([m] + rest)[1..] == rest;
      case None =>
        PhraseFromIsFirst(phrases, s, i, 0);
        PhraseScanFromIsLeftmost(phrases, s, i + 1);
        GapWidens(phrases, s, i, PhraseScanFrom(phrases, s, i + 1));
    }
  }

  /** No alternative earlier in pattern order than the one that matched also matches at the match's start. */
  predicate IsFirstAlternative(phrases: seq<string>, s: string, m: HeaderMatch) {
    forall j :: 0 <= j < m.phrase && j < |phrases| ==> !PhraseAt(s, m.start, phrases[j])
  }

  /** Every match of the scan is of the first alternative that fits at its start. */
  lemma {:induction false} PhraseScanFromFirstAlternative(phrases: seq<string>, s: string, i: nat)
    requires i <= |s| && NonEmptyPhrases(phrases)
    ensures forall n :: 0 <= n < |PhraseScanFrom(phrases, s, i)| ==> IsFirstAlternative(phrases, s, PhraseScanFrom(phrases, s, i)[n])
    decreases |s| - i
  {
    if i < |s| {
      match PhraseMatchAt(phrases, s, i)
      case Some(m) =>
        var rest := PhraseScanFrom(phrases, s, i + |m.text|);
        PhraseFromIsFirst(phrases, s, i, 0);
        PhraseScanFromFirstAlternative(phrases, s, i + |m.text|);
        assert forall n :: 0 < n < |[m] + rest| ==> ([m] + rest)[n] == rest[n - 1];
      case None =>
        PhraseScanFromFirstAlternative(phrases, s, i + 1);
    }
  }

  /**
   * The first occurrence of the alternation in s: alternative k matches at
   * p, nothing matches before p, and no earlier alternative matches at p.
   */
  predicate IsFirstOccurrence(phrases: seq<string>, s: string, p: nat, k: nat) {
    k < |phrases| && PhraseAt(s, p, phrases[k]) && NoPhraseIn(phrases, s, 0, p) &&
    forall j :: 0 <= j < k ==> !PhraseAt(s, p, phrases[j])
  }

  /** There is at most one first occurrence. */
  lemma FirstOccurrenceIsUnique(phrases: seq<string>, s: string, p: nat, k: nat, p': nat, k': nat)
    requires IsFirstOccurrence(phrases, s, p, k) && IsFirstOccurrence(phrases, s, p', k')
    ensures p == p' && k == k'
  {
  }

  /**
   * The scan is complete: it finds nothing exactly when no alternative
   * occurs anywhere in s, and otherwise its first match is the first occurrence.
   */
  lemma PhraseScanIsComplete(phrases: seq<string>, s: string)
    requires NonEmptyPhrases(phrases)
    ensures PhraseScanFrom(phrases, s, 0) == [] <==> NoPhraseIn(phrases, s, 0, |s|)
    ensures PhraseScanFrom(phrases, s, 0) != [] ==>
      IsFirstOccurrence(phrases, s, PhraseScanFrom(phrases, s, 0)[0].start, PhraseScanFrom(phrases, s, 0)[0].phrase)
    ensures PhraseGapsFrom(phrases, s, 0, PhraseScanFrom(phrases, s, 0))
  {
    var ms := PhraseScanFrom(phrases, s, 0);
    PhraseScanFromIsLeftmost(phrases, s, 0);
    if ms != [] {
      PhraseScanFromMatches(phrases, s, 0);
      PhraseScanFromFirstAlternative(phrases, s, 0);
      assert IsFirstAlternative(phrases, s, ms[0]);
      var m := ms[0];
      assert PhraseAt(s, m.start, phrases[m.phrase]);
    }
  }

  /** `TABLE_HEADERS.findall(s)` */
  function HeaderFindAll(s: string): (ms: seq<HeaderMatch>)
    ensures forall k :: 0 <= k < |ms| ==> ms[k].phrase < |HeaderPhrases|
  {
    PhrasesNonEmpty();
    PhraseScanFrom(HeaderPhrases, s, 0)
  }

  /**
   * Every header match found in s is a match of its alternative at its
   * start, and the matches follow one another without overlapping.
   */
  lemma HeaderFindAllMatches(s: string)
    ensures forall k :: 0 <= k < |HeaderFindAll(s)| ==> IsHeaderMatch(s, HeaderFindAll(s)[k])
    ensures forall k :: 0 <= k < |HeaderFindAll(s)| - 1 ==>
      HeaderFindAll(s)[k].start + |HeaderFindAll(s)[k].text| <= HeaderFindAll(s)[k + 1].start
  {
    PhrasesNonEmpty();
    PhraseScanFromMatches(HeaderPhrases, s, 0);
    PhraseMatchesAreMatches(HeaderPhrases, s, 0, HeaderFindAll(s));
  }

  /**
   * `TABLE_HEADERS.findall` misses nothing: it finds no match exactly when
   * no header phrase occurs in s, ignoring case.
   */
  lemma HeaderFindAllEmptyIff(s: string)
    ensures HeaderFindAll(s) == [] <==> NoPhraseIn(HeaderPhrases, s, 0, |s|)
  {
    PhrasesNonEmpty();
    PhraseScanIsComplete(HeaderPhrases, s);
  }

  /**
   * The first header match is the first occurrence of the alternation: the
   * leftmost position where a phrase matches, and there the phrase listed
   * first in the pattern.
   */
  lemma HeaderFindAllFirst(s: string)
    ensures HeaderFindAll(s) != [] ==>
      IsFirstOccurrence(HeaderPhrases, s, HeaderFindAll(s)[0].start, HeaderFindAll(s)[0].phrase)
  {
    PhrasesNonEmpty();
    PhraseScanIsComplete(HeaderPhrases, s);
  }

  /** No header phrase occurs in the gaps around the header matches. */
  lemma HeaderFindAllGaps(s: string)
    ensures PhraseGapsFrom(HeaderPhrases, s, 0, HeaderFindAll(s))
  {
    PhrasesNonEmpty();
    PhraseScanIsComplete(HeaderPhrases, s);
  }

  /** The multiplier of the k-th header alternative: its entry in the header table, which every alternative has. */
  function PhraseMultiplier(k: nat): (v: int)
    requires k < |HeaderPhrases|
    ensures HeaderPhrases[k] in HeaderTable && v == HeaderTable[HeaderPhrases[k]]
    ensures v in {1, 1_000, 1_000_000}
  {
    HeaderTable[HeaderPhrases[k]]
  }

  /** The multiplier of a header match, looked up by the alternative that matched. */
  function HeaderMultiplier(m: HeaderMatch): (v: int)
    requires m.phrase < |HeaderPhrases|
    ensures HeaderPhrases[m.phrase] in HeaderTable && v == HeaderTable[HeaderPhrases[m.phrase]]
    ensures v in {1, 1_000, 1_000_000}
  {
    PhraseMultiplier(m.phrase)
  }

  /** As written: the header table looked up by the lower-cased matched text, None standing for the missing key. */
  function HeaderLookupAsWritten(text: string): Option<int> {
    var key := Lower(text);
    if key in HeaderTable then Some(HeaderTable[key]) else None
  }

  predicate IsAscii(s: string) {
    forall k :: 0 <= k < |s| ==> s[k] < '\U{80}'
  }

  /** A pattern character: a lower-case letter or one of the symbols of the phrases. */
  predicate IsPatternChar(p: char) {
    ('a' <= p <= 'z') || p in {'(', ')', '$', ' '}
  }

  lemma {:induction false} LowerOfAsciiMatch(text: string, ph: string)
    requires |text| == |ph| && IsAscii(text)
    requires forall k :: 0 <= k < |ph| ==> IsPatternChar(ph[k]) && CaselessMatch(text[k], ph[k])
    ensures Lower(text) == ph
    decreases |text|
  {
    if text != [] {
      LowerOfAsciiMatch(text[1..], ph[1..]);
      assert LowerChar(text[0]) == [ph[0]];
      assert ph == [ph[0]] + ph[1..];
    }
  }

  /**
   * Where the matched text is ASCII, the lookup as written hits the table
   * and gives the multiplier of the alternative that matched.
   */
  lemma HeaderLookupAgreesOnAscii(s: string, m: HeaderMatch)
    requires IsHeaderMatch(s, m) && IsAscii(m.text)
    ensures HeaderLookupAsWritten(m.text) == Some(HeaderMultiplier(m))
  {
    var ph := HeaderPhrases[m.phrase];
    assert forall k :: 0 <= k < |ph| ==> IsPatternChar(ph[k]);
    assert forall k :: 0 <= k < |ph| ==> m.text[k] == s[m.start + k];
    LowerOfAsciiMatch(m.text, ph);
  }

  /** The text "(million" + long s + ")" matches the `(millions)` alternative once, as a whole. */
  lemma LongSMatchesMillions()
    ensures HeaderFindAll("(million\U{17F})") == [HeaderMatch(0, 5, "(million\U{17F})")]
  {
    var s := "(million\U{17F})";
    assert PhraseAt(s, 0, HeaderPhrases[5]);
    assert !CaselessMatch(s[1], HeaderPhrases[0][1]) && !CaselessMatch(s[0], HeaderPhrases[1][0]);
    assert !CaselessMatch(s[0], HeaderPhrases[2][0]) && !CaselessMatch(s[0], HeaderPhrases[3][0]);
    assert !CaselessMatch(s[1], HeaderPhrases[4][1]);
    assert PhraseFrom(HeaderPhrases, s, 0, 0) == Some(5);
    PhrasesNonEmpty();
    assert PhraseScanFrom(HeaderPhrases, s, 10) == [];
    assert PhraseScanFrom(HeaderPhrases, s, 0) == [HeaderMatch(0, 5, s[0..10])] + PhraseScanFrom(HeaderPhrases, s, 10);
    assert s[0..10] == s;
  }

  lemma TenCharsNoKey(s: string)
    requires |s| == 10 && s[0] == '(' && s[8] != 's'
    ensures s !in HeaderTable
  {
    assert s != "$ millions" by { assert s[0] != "$ millions"[0]; }
    assert s != "(millions)" by { assert s[8] != "(millions)"[8]; }
  }

  /**
   * The header cell "(million" followed by a long s and ")" matches the
   * `(millions)` alternative, but its lower-cased text is no key of the
   * table: the lookup as written raises KeyError.
   */
  lemma HeaderLookupMissesLongS()
    ensures HeaderFindAll("(million\U{17F})") == [HeaderMatch(0, 5, "(million\U{17F})")]
    ensures HeaderLookupAsWritten("(million\U{17F})") == None
  {
    LongSMatchesMillions();
    LongSLookupMisses();
  }

  lemma LongSLookupMisses()
    ensures HeaderLookupAsWritten("(million\U{17F})") == None
  {
    var s := "(million\U{17F})";
    LowerKeepsLowerCase(s);
    TenCharsNoKey(s);
  }
}
