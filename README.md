# Largest number in a PDF — a Dafny model

`find_largest_number.py` reads a PDF page by page and reports the number of
greatest value it recognizes, with the text it was read from and the page it
was found on. A number is a literal such as `-12.5`, optionally followed by a
unit word (`thousand`, `million`, `billion`, `trillion`, with an optional
plural `s`) that scales it. For each page the program:

- runs a **text pass**: every match of the number pattern in the page text,
  parsed, updates the page maximum;
- runs a **table pass**: for each extracted table of at least three rows, it
  infers per-column multipliers from header phrases such as `(millions)` or
  `in thousands` in rows 0-2. The multiplier map is replaced when a table
  names a header and carried on from the previous table of the page when it
  does not. Every bare number of rows 2 onward, scaled by its column's
  multiplier, updates the page maximum. Numbers with a unit word in a cell
  are skipped;
- runs a **third pass** for pages without tables. It looks for exactly one
  header phrase in the first three lines and scales the bare numbers of the
  remaining lines. The numbers it builds are never compared with anything;
- then updates the document maximum with the page maximum.

Both maxima replace the running value only on a strictly greater value, so
the first of equal candidates wins.

The model has eight modules:

- `Scanner`: the number pattern and its `findall`, as a hand-written
  leftmost-first, greedy, non-overlapping scanner.
- `Units`: the two lookup tables, `str.lower`, and the case-insensitive
  header-phrase matcher `TABLE_HEADERS`.
- `Normalizer`: `RecognizedNumber`, the exact decimal value of a literal,
  and `parse_number`.
- `Reduce`: the page-maximum and document-maximum updates and their folds.
- `Tables`: header inference, the carried multiplier map, and the numbers
  of the table pass.
- `Fallback`: line splitting and the third pass.
- `LargestNumber`: the page and document specifications, and the driver
  `FindLargestNumberInPdf` with its loops. Each loop is proved against a
  fold specification.
- `Wrappers`: the `Option` type.

Values are exact reals. The page list is the input: each page is its
text and its tables (rows of optional cell strings), as the PDF reader
would give them.

The model follows the code, including these consequences of it:

- `$2.5M` gives 2.5, not 2.5 million. The currency-letter alternative of
  the pattern can never win, because the word alternative is tried first at
  the same position and matches the same literal.
- A `$M` column header never matches. In that alternative `$` is an end
  anchor. Such a header sets no multiplier, and its column reads the map
  in force for the table. When another column of the table names a header
  that is the fresh map, where the column reads 1. Otherwise it is the map
  carried from the earlier tables of the page, which gives the column the
  multiplier an earlier header set for it, or 1.
- The third pass abstains when its first three lines hold anything other
  than exactly one header match. It counts matches, so two identical
  phrases also make it abstain.
- The third pass's numbers are discarded. The page maximum is the text pass
  followed by the table pass, whatever the third pass finds.

## Model

| member | source | states |
|---|---|---|
| Scanner.DigitsEnd | find_largest_number.py:12 | greedy `\d*`: every character up to the result is a digit and the one at the result is not |
| Scanner.LiteralEnd | find_largest_number.py:12 | the greedy literal starting at a position (optional minus, digits, optional dot and digits) ends after it, spells a literal of that form, and cannot be extended: the next character is no digit, and is a dot only when the literal already has one |
| Scanner.DigitsDotDigitsIsUnsigned | find_largest_number.py:12 | greedy digits, an optional dot and greedy digits always spell an unsigned literal with at most one dot |
| Scanner.UnitAt | find_largest_number.py:12 | the unit found is one of the four unit words and is present in the text, and "" only when no unit word starts there |
| Scanner.GrammarA | find_largest_number.py:12 | the word alternative matches exactly where a literal starts; its literal is the text at the start, and its unit is "" or a unit word |
| Scanner.GrammarAIsGreedy | find_largest_number.py:12 | the word alternative's match is the longest: its literal runs to the end of the greedy literal, its unit is the unit word after any whitespace, and the match ends after that word and one plural `s` when one follows, or right after the literal when there is no unit |
| Scanner.GrammarB | find_largest_number.py:13 | the currency alternative matches only just after a `$` and on a literal, with unit `M`, `B` or `T` |
| Scanner.ScanFrom | find_largest_number.py:15 | the scan's matches lie within the text, in order and without overlap |
| Scanner.ScanFromMatches | find_largest_number.py:11-15 | every match the scan reports is the greedy word-alternative match at its start |
| Scanner.MatchAtIsGrammarA | find_largest_number.py:11-15 | the combined pattern matches exactly where the word alternative does, with the same match |
| Scanner.ScanFromSkipsNoLiteral | find_largest_number.py:15 | no literal starts in any gap the scan skips |
| Scanner.ScanFromIsLeftmost | find_largest_number.py:11-15 | leftmost-first: neither alternative matches anywhere in the gaps before, between or after the matches |
| Scanner.FindAll | find_largest_number.py:15 | `findall` yields literals of the form `-?\d+(\.\d*)?` with unit "" or one of the four unit words |
| Scanner.FindAllLiteralsAreInText | find_largest_number.py:11-15 | the matches are in increasing position and do not overlap; each literal is the text at its match's start |
| Scanner.FindAllIsLeftmostGreedy | find_largest_number.py:11-15 | each match is the greedy match at its start, and no match of the pattern is skipped |
| Scanner.CurrencyAlternativeNeverWins | find_largest_number.py:13-15 | wherever the currency alternative could match, the word alternative wins with the same literal, so no `M`/`B`/`T` unit is ever reported |
| Scanner.UnitAtWord | find_largest_number.py:12 | a unit word alone after a position is the unit found there |
| Scanner.LiteralAloneScans | find_largest_number.py:12-15 | a text that is one literal scans to that literal alone, with no unit |
| Scanner.LiteralWordScans | find_largest_number.py:12-15 | a literal, a blank and a unit word scan to one match with that literal and that unit |
| Units.SuffixLookupHits | find_largest_number.py:31-39 | every unit word the pattern captures is already lower case and is a key of the suffix table |
| Units.LowerKeepsLowerCase | find_largest_number.py:55 | `str.lower` leaves unchanged any text without ASCII capitals, U+0130 or the Kelvin sign |
| Units.DollarMAlternativeDead | find_largest_number.py:17 | the `$M` header alternative matches nowhere |
| Units.PhraseFrom | find_largest_number.py:17 | the alternative chosen at a position is one that matches there, case-insensitively |
| Units.PhraseFromIsFirst | find_largest_number.py:17 | it is the first alternative in pattern order that matches, and none is chosen only when none matches |
| Units.PhraseMatchAt | find_largest_number.py:17 | a header match found at a position starts there, covers the matched text and is non-empty |
| Units.PhraseScanFromMatches | find_largest_number.py:17 | the header scan yields matches of their alternatives, in order, each starting where the previous one ended or later |
| Units.PhraseMatchesAreMatches | find_largest_number.py:17 | the same, match by match: each is a real match, and consecutive matches do not overlap |
| Units.HeaderFindAllMatches | find_largest_number.py:17 | soundness: each header match is a case-insensitive match of its alternative at its start; the matches do not overlap |
| Units.PhraseScanFromIsLeftmost | find_largest_number.py:17 | leftmost-first: no alternative matches anywhere in the gaps the scan leaves before, between or after its matches |
| Units.PhraseScanFromFirstAlternative | find_largest_number.py:17 | at each match's start, no alternative listed before the one reported also matches |
| Units.PhraseScanIsComplete | find_largest_number.py:17 | the scan is empty exactly when no alternative occurs anywhere; otherwise its first match is the first occurrence, and no alternative occurs in the gaps |
| Units.HeaderFindAllEmptyIff | find_largest_number.py:17 | completeness: `TABLE_HEADERS.findall` finds nothing exactly when no header phrase occurs in the text, ignoring case |
| Units.HeaderFindAllFirst | find_largest_number.py:17 | the first header match is the first occurrence: the leftmost position where a phrase matches, and there the phrase listed first |
| Units.HeaderFindAllGaps | find_largest_number.py:17 | no header phrase occurs in the gaps around the header matches |
| Units.HeaderMultiplier | find_largest_number.py:22-30 | the multiplier of a header match is the table entry of the alternative that matched (never a miss), and is 1, 1,000 or 1,000,000 |
| Units.LowerOfAsciiMatch | find_largest_number.py:88 | lower-casing ASCII text that matches a phrase case-insensitively gives the phrase |
| Units.HeaderLookupAgreesOnAscii | find_largest_number.py:86-88 | for ASCII header text, the lookup as written hits the table and agrees with the multiplier of the matched alternative |
| Units.LongSMatchesMillions | find_largest_number.py:17 | the cell text `(millionſ)` is one whole match of the `(millions)` alternative |
| Units.HeaderLookupMissesLongS | find_largest_number.py:86-88 | that match, lower-cased, is not a key of the header table, so the lookup as written raises KeyError |
| Normalizer.DotIndex | find_largest_number.py:51 | the position found holds the literal's dot, and no dot comes before it |
| Normalizer.FractionValue | find_largest_number.py:51 | the digits after a decimal point denote a value in [0, 1) |
| Normalizer.UnsignedValueBounds | find_largest_number.py:51 | an unsigned literal's value is its integer digits plus a fraction below one |
| Normalizer.DecimalValueBounds | find_largest_number.py:51 | `float(literal)`: with a minus sign the value is the negated unsigned value; either way its magnitude is within one of its integer digits |
| Normalizer.ScannedSuffixesHit | find_largest_number.py:55 | `SUFFIXES_TO_NUMBERS[suffix.lower()]` never misses for a unit the scanner captures |
| Normalizer.ThousandScale | find_largest_number.py:31-39 | `thousand` multiplies the literal's value by 1,000 |
| Normalizer.MillionScale | find_largest_number.py:31-39 | `million` multiplies the literal's value by 1,000,000 |
| Normalizer.BillionScale | find_largest_number.py:31-39 | `billion` multiplies the literal's value by 10^9 |
| Normalizer.TrillionScale | find_largest_number.py:31-39 | `trillion` multiplies the literal's value by 10^12 |
| Normalizer.ParseNumberAppliesOneMultiplier | find_largest_number.py:46-57 | without a unit the value is the literal's decimal value; with one it is that value times exactly the multiplier its word names |
| Normalizer.RawTextScansBack | find_largest_number.py:50-56 | the raw text kept for a number scans back to one match with the same literal and unit |
| Normalizer.ScaledUnsuffixedAreScaledLiterals | find_largest_number.py:99-105 | the numbers built from a cell's or line's matches are bare literals, and each is its decimal value times the one multiplier given; matches with a unit never appear |
| Normalizer.ScaledUnsuffixedMembers | find_largest_number.py:99-105 | a number is built from the first n matches exactly when one of them has no unit word and the number is that match's literal, parsed and scaled by the multiplier; matches with a unit word give nothing |
| Normalizer.BareNumbersOf | find_largest_number.py:99-105 | the numbers built from all matches of a text are exactly its matches without a unit word, each parsed and scaled by the multiplier |
| Reduce.Better | find_largest_number.py:70-71 | the update keeps a present value that is no smaller than both, and replaces the running maximum exactly when it is absent or strictly smaller |
| Reduce.FoldMaxAppend | find_largest_number.py:68-107 | folding the text candidates and then the table candidates is folding their concatenation |
| Reduce.MaxOfIsEarliestMax | find_largest_number.py:70-71 | the page maximum is None exactly when there is no candidate, else the first candidate of greatest value |
| Reduce.DocStep | find_largest_number.py:149-152 | the document update keeps the maximum when the page has none, and otherwise makes the page update with the page maximum |
| Reduce.FoldMaxIsDocStep | find_largest_number.py:149-152 | folding a page's candidates onto the running maximum is one document update with that page's maximum |
| Reduce.DocFoldOfBlockMaxes | find_largest_number.py:149-153 | a maximum per page, then across pages, is one maximum over all candidates in document order |
| Reduce.DocFoldIsNoneWhenAllNone | find_largest_number.py:149-153 | the document maximum is None exactly when every page maximum is |
| Reduce.DocFoldIsEarliestGreatest | find_largest_number.py:149-153 | otherwise it is the maximum of the earliest page whose maximum is greatest |
| Tables.CellHeaderIsFirstPhrase | find_largest_number.py:84-88 | a header cell names a multiplier exactly when it has text in which some header phrase occurs, ignoring case; the multiplier is then the table entry of the phrase at the first occurrence (leftmost, then first in pattern order) |
| Tables.HeaderRowFromWrites | find_largest_number.py:84-89 | scanning a row writes each named header into its column, overwriting, leaves other columns alone, and sets the flag exactly when some cell names one |
| Tables.HeaderRowsIsLastHeader | find_largest_number.py:81-89 | after rows 0-2 each column holds the header of the last row naming one, and the flag is set exactly when some column has one |
| Tables.CarryForwardRule | find_largest_number.py:78-91 | after a table with a header in rows 0-2, the map is the fresh one (1 where no header, no merge with the carried map); otherwise the carried map is unchanged |
| Tables.LastHeaderIsValid | find_largest_number.py:88 | every inferred header is 1, 1,000 or 1,000,000 |
| Tables.NextMultipliersValid | find_largest_number.py:78-91 | the carried map only ever holds multipliers of the header table |
| Tables.TableMapsAt | find_largest_number.py:76-91 | the map in force for a table is the map carried to it, updated by that table's own header rows, and it is the map carried past it |
| Tables.ShortTableIsSkipped | find_largest_number.py:80 | a table of fewer than three rows adds no candidate and leaves the carried map untouched |
| Tables.CellCandidatesScaled | find_largest_number.py:97-105 | an empty data cell gives nothing; a number comes from a filled cell exactly when it is one of the cell's matches without a unit word, parsed and scaled by the multiplier the cell is read with; each is a bare literal of the page times that multiplier |
| Tables.RowCandidatesFromColumns | find_largest_number.py:97-105 | a number comes from a data row exactly when some filled cell of the row has a match without a unit word that, parsed and scaled by that cell's own column multiplier, gives it |
| Tables.DataRowCandidatesFromCells | find_largest_number.py:94-105 | a number comes from rows 2 onward exactly when it is a match without a unit word of a filled cell of one of those rows, parsed and scaled by that cell's column multiplier |
| Tables.TablePassCandidatesFromCells | find_largest_number.py:74-105 | a number is a table-pass candidate exactly when it is a match without a unit word of a filled data cell (row 2 onward) of a table of at least three rows, parsed and scaled by that column's multiplier in the map in force for that table |
| Tables.UnitlessTableMatchIsCandidate | find_largest_number.py:94-105 | every match without a unit word in a filled data cell of a table of at least three rows, parsed and scaled by its column's multiplier in that table's map, is a table-pass candidate |
| Tables.CarriedAfterValid | find_largest_number.py:74-91 | the map, reset at the start of the page, stays valid across the page's tables |
| Tables.TablePassCandidatesAreTableNumbers | find_largest_number.py:74-105 | every table-pass candidate is a bare literal of the page scaled by 1, 1,000 or 1,000,000 |
| Fallback.NewlineIndex | find_largest_number.py:125 | the first line break is within the text, or at its end when there is none |
| Fallback.NewlineIndexFinds | find_largest_number.py:125 | the index found holds a line break unless it is the end, and no line break comes before it |
| Fallback.NewlineIndexIs | find_largest_number.py:125 | a line break with none before it is the one found |
| Fallback.SplitLines | find_largest_number.py:125 | `split("\n")` gives at least one line |
| Fallback.SplitLinesJoins | find_largest_number.py:125 | no line holds a line break, and joining the lines with line breaks gives the text back |
| Fallback.JoinLinesSplits | find_largest_number.py:125 | splitting a join of lines without line breaks gives the lines back |
| Fallback.PageMultipliersAreHeaderValues | find_largest_number.py:126-132 | every page multiplier is 1, 1,000 or 1,000,000 |
| Fallback.LineCandidatesAreScaled | find_largest_number.py:139-148 | the numbers built from lines 3 onward are bare literals scaled by the one page multiplier |
| Fallback.LineCandidatesMembers | find_largest_number.py:139-148 | a number is built from lines 3 onward exactly when it is a match without a unit word of one of those lines, parsed and scaled by the page multiplier |
| Fallback.FallbackCandidatesMembers | find_largest_number.py:124-148 | a number is built by the third pass exactly when the page has no table, at least four lines and exactly one header match in lines 0-2, and the number is a match without a unit word of line 3 or later, scaled by that header's multiplier |
| Fallback.FallbackCandidatesShape | find_largest_number.py:124-148 | the third pass builds numbers only for a page with no table, at least four lines and exactly one header match in lines 0-2; all are bare literals scaled by that match's multiplier |
| Fallback.CollectPageMultipliers | find_largest_number.py:126-132 | the loop appends the multipliers of the header matches of lines 0-2, in order |
| Fallback.BuildLineNumbers | find_largest_number.py:140-148 | the loop builds, in order, the scaled numbers of a line's matches without a unit |
| Fallback.BuildRemainingLines | find_largest_number.py:139-148 | the loop builds the numbers of lines 3 onward |
| Fallback.FallbackPass | find_largest_number.py:124-148 | the third pass builds exactly the numbers of its specification |
| LargestNumber.TextCandidatesRoundTrip | find_largest_number.py:46-69 | the text pass makes one candidate per match of the page text, in order; each records the page's index, and its raw text scans back to exactly one match with the literal and unit word of the match it came from |
| LargestNumber.TextCandidatesMembers | find_largest_number.py:66-69 | a number is a text-pass candidate exactly when it is some match of the page text, parsed |
| LargestNumber.PageCandidatesOnPage | find_largest_number.py:63-107 | every candidate of a page records that page's index; those after the text candidates are bare literals scaled by a header multiplier |
| LargestNumber.PageCandidatesFromCells | find_largest_number.py:63-107 | a number is a candidate of a page exactly when it is a match of the page text, parsed, or a match without a unit word of one of its table data cells, scaled by its column's multiplier; every candidate after the text pass's comes from the tables |
| LargestNumber.PageMaxIsEarliestMax | find_largest_number.py:63-107 | the page maximum is None exactly when the page has no candidate, else the first candidate of greatest value, on that page |
| LargestNumber.DocumentMaxIsGlobalMax | find_largest_number.py:61-153 | the result is the strict-`<` maximum over every candidate of the document in order |
| LargestNumber.DocumentMaxIsEarliestGreatestPage | find_largest_number.py:149-153 | the result is None exactly when no page has a candidate, else the maximum of the earliest page whose maximum is greatest, recording that page's index |
| LargestNumber.DollarLetterIsNotAMultiplier | find_largest_number.py:11-15 | `$2.5M` yields one match, the literal 2.5 with no unit, and the text pass reads it as the number 2.5 |
| LargestNumber.TextPass | find_largest_number.py:67-71 | the first pass's loop ends with the page maximum of the text candidates |
| LargestNumber.ScanHeaderRows | find_largest_number.py:78-89 | the header loops end with the fresh map and flag of header inference over rows 0-2 |
| LargestNumber.ScanDataCell | find_largest_number.py:98-107 | one data cell's bare numbers, scaled, update the page maximum in order |
| LargestNumber.ScanDataRows | find_largest_number.py:94-107 | the data-row loops fold the numbers of rows 2 onward into the page maximum |
| LargestNumber.TablePass | find_largest_number.py:74-107 | the table loop carries the map from table to table and folds every table-pass candidate into the page maximum |
| LargestNumber.PageMaximum | find_largest_number.py:63-148 | one page: the result is the page maximum of its specification, whatever the third pass does |
| LargestNumber.FindLargestNumberInPdf | find_largest_number.py:59-153 | the page loop returns the document maximum of its specification |

## Left out

- Opening the PDF and extracting text and tables is not part of this model. The page list, with each page's text and tables, is the input. A page whose text extraction returns None is not modelled.
- The command-line script after the function is not modelled. It is argument handling and printing.
- IEEE double rounding in `float(...)` and in `*=` is not modelled. Values are exact reals, so two literals that round to the same double may compare differently here.
- The `DATES` pattern is not modelled. It is never used.
- `\d` is modelled as the ASCII digits only. Python's `\d` also accepts other Unicode decimal digits, which `float` would also read.
- Units.Lower: `str.lower` is exact for ASCII, U+0130 and the Kelvin sign. Other non-ASCII characters are left unchanged. That is enough for every character a header match can hold.
- General `re` semantics are not modelled. Only the two fixed patterns are hand-written.
- Tables.CellHeader and Fallback.PageMultipliers use the corrected, phrase-keyed lookup. The program as written raises KeyError there for non-ASCII header text (see Findings). That abort is shown by `Units.HeaderLookupMissesLongS`, but the page loop does not model it.
- Reading a column missing from the `defaultdict` inserts it with value 1. The model reads 1 without inserting. No later read can tell the two apart.
- In the table and third passes the source changes `parsed_number` in place after parsing. The model builds the scaled number as a new value, because the parsed number is not shared.

## Findings

| source | as written | input that shows it | evidently intended | confidence | as-written member | corrected member |
|---|---|---|---|---|---|---|
| find_largest_number.py:17, 86-88, 129-132 | header matches are found case-insensitively with Unicode folding, then looked up by `match.lower()` | the cell or line `(millionſ)` (long s, U+017F) matches `(millions)`, but its lower case is `(millionſ)`, not a key of the table, so KeyError | look up the multiplier of the alternative that matched | not executed | Units.HeaderLookupMissesLongS | Units.HeaderMultiplier |
