/**
 * `find_largest_number_in_pdf`: for each page, the text pass and the table
 * pass update the page maximum, the third pass runs for its own sake, and
 * the page maximum then updates the document maximum.
 */
module LargestNumber {
  import opened Wrappers
  import opened Scanner
  import opened Units
  import opened Normalizer
  import opened Reduce
  import opened Tables
  import opened Fallback

  /** What the PDF reader gives for one page: its text and its tables. */
  datatype Page = Page(text: string, tables: seq<Table>)

  /** The numbers of the text pass of page `page`, one per match, in order. */
  function TextCandidates(text: string, page: nat): seq<RecognizedNumber> {
    ParsedMatches(FindAll(text), |FindAll(text)|, page)
  }

  /** Every number that updates the page maximum, in the order the two passes meet them. */
  function PageCandidates(p: Page, page: nat): seq<RecognizedNumber> {
    TextCandidates(p.text, page) + TablePassCandidates(p.tables, |p.tables|, page)
  }

  /** `page_max` once the table pass is over. */
  function PageMax(p: Page, page: nat): Option<RecognizedNumber> {
    MaxOf(PageCandidates(p, page))
  }

  /** The page maximum of every page, in page order. */
  function PageMaxes(pages: seq<Page>): (pms: seq<Option<RecognizedNumber>>)
    ensures |pms| == |pages|
    ensures forall i :: 0 <= i < |pages| ==> pms[i] == PageMax(pages[i], i)
  {
    seq(|pages|, i requires 0 <= i < |pages| => PageMax(pages[i], i))
  }

  /** The value `find_largest_number_in_pdf` returns. */
  function DocumentMax(pages: seq<Page>): Option<RecognizedNumber> {
    DocFold(PageMaxes(pages))
  }

  /** The candidates of every page, page by page. */
  function AllCandidates(pages: seq<Page>): (blocks: seq<seq<RecognizedNumber>>)
    ensures |blocks| == |pages|
    ensures forall i :: 0 <= i < |pages| ==> blocks[i] == PageCandidates(pages[i], i)
  {
    seq(|pages|, i requires 0 <= i < |pages| => PageCandidates(pages[i], i))
  }

  // What the page and document maxima are.

  /** The text pass yields exactly one number per match of the page text, in order: the match parsed. */
  lemma TextCandidatesAreParsedMatches(text: string, page: nat)
    ensures |TextCandidates(text, page)| == |FindAll(text)|
    ensures forall k :: 0 <= k < |FindAll(text)| ==> TextCandidates(text, page)[k] == ParseToken(FindAll(text)[k], page)
  {
    ParsedMatchesAre(FindAll(text), |FindAll(text)|, page);
  }

  /**
   * Every candidate of a page is recorded with that page's index; those
   * after the text candidates come from tables and are bare literals scaled
   * by 1, 1,000 or 1,000,000.
   */
  lemma PageCandidatesOnPage(p: Page, page: nat)
    ensures forall k :: 0 <= k < |PageCandidates(p, page)| ==> PageCandidates(p, page)[k].page == page
    ensures forall k :: |TextCandidates(p.text, page)| <= k < |PageCandidates(p, page)| ==>
      IsTableNumber(PageCandidates(p, page)[k], page)
  {
    TextCandidatesOnPage(p.text, page);
    TablePassCandidatesAreTableNumbers(p.tables, |p.tables|, page);
    AppendOnPage(TextCandidates(p.text, page), TablePassCandidates(p.tables, |p.tables|, page), page);
  }

  lemma TextCandidatesOnPage(text: string, page: nat)
    ensures forall k :: 0 <= k < |TextCandidates(text, page)| ==> TextCandidates(text, page)[k].page == page
  {
    TextCandidatesAreParsedMatches(text, page);
  }

  lemma AppendOnPage(a: seq<RecognizedNumber>, b: seq<RecognizedNumber>, page: nat)
    requires forall k :: 0 <= k < |a| ==> a[k].page == page
    requires AllTableNumbers(b, page)
    ensures forall k :: 0 <= k < |a + b| ==> (a + b)[k].page == page
    ensures forall k :: |a| <= k < |a + b| ==> IsTableNumber((a + b)[k], page)
  {
    assert forall k :: |a| <= k < |a + b| ==> (a + b)[k] == b[k - |a|];
  }

  /** x is the number the text pass makes of one match of text: the match parsed. */
  predicate IsTextNumber(x: RecognizedNumber, text: string, page: nat) {
    exists j :: 0 <= j < |FindAll(text)| && x == ParseToken(FindAll(text)[j], page)
  }

  /**
   * The candidates of a page are exactly the numbers of the matches of its
   * text and the numbers of the data cells of its tables, each scaled by
   * its own column's multiplier; those after the text pass's all come from
   * the tables.
   */
  lemma PageCandidatesFromCells(p: Page, page: nat)
    ensures forall x :: x in PageCandidates(p, page) <==>
      IsTextNumber(x, p.text, page) || FromTableCell(x, p.tables, |p.tables|, page)
    ensures forall k :: |TextCandidates(p.text, page)| <= k < |PageCandidates(p, page)| ==>
      FromTableCell(PageCandidates(p, page)[k], p.tables, |p.tables|, page)
  {
    var a := TextCandidates(p.text, page);
    var b := TablePassCandidates(p.tables, |p.tables|, page);
    assert PageCandidates(p, page) == a + b;
    TextCandidatesMembers(p.text, page);
    forall x
      ensures x in a + b <==> IsTextNumber(x, p.text, page) || FromTableCell(x, p.tables, |p.tables|, page)
    {
      TablePassCandidatesFromCells(x, p.tables, |p.tables|, page);
    }
    forall k | |a| <= k < |a + b|
      ensures FromTableCell((a + b)[k], p.tables, |p.tables|, page)
    {
      assert (a + b)[k] == b[k - |a|];
      TablePassCandidatesFromCells(b[k - |a|], p.tables, |p.tables|, page);
    }
  }

  /** The text candidates are exactly the numbers of the text's matches. */
  lemma TextCandidatesMembers(text: string, page: nat)
    ensures forall x :: x in TextCandidates(text, page) <==> IsTextNumber(x, text, page)
  {
    var tc := TextCandidates(text, page);
    TextCandidatesAreParsedMatches(text, page);
    forall x
      ensures x in tc <==> IsTextNumber(x, text, page)
    {
      if x in tc {
        var j :| 0 <= j < |tc| && tc[j] == x;
        assert x == ParseToken(FindAll(text)[j], page);
      }
      if IsTextNumber(x, text, page) {
        var j :| 0 <= j < |FindAll(text)| && x == ParseToken(FindAll(text)[j], page);
        assert tc[j] == x;
      }
    }
  }

  /**
   * The text pass makes one candidate per match of the page text, in order;
   * each is recorded with the page's index, and its raw text scans back to
   * exactly one match, with the same literal and unit as the match it came from.
   */
  lemma TextCandidatesRoundTrip(text: string, page: nat)
    ensures |TextCandidates(text, page)| == |FindAll(text)|
    ensures forall k :: 0 <= k < |FindAll(text)| ==>
      TextCandidates(text, page)[k].page == page &&
      FindAll(TextCandidates(text, page)[k].rawText) ==
        [Token(0, |TextCandidates(text, page)[k].rawText|, FindAll(text)[k].literal, FindAll(text)[k].suffix)]
  {
    var ts := FindAll(text);
    var tc := TextCandidates(text, page);
    TextCandidatesAreParsedMatches(text, page);
    forall k | 0 <= k < |ts|
      ensures tc[k].page == page && FindAll(tc[k].rawText) == [Token(0, |tc[k].rawText|, ts[k].literal, ts[k].suffix)]
    {
      RawTextScansBack(ts[k].literal, ts[k].suffix, page);
      assert tc[k] == ParseNumber(ts[k].literal, ts[k].suffix, page);
    }
  }

  /**
   * The page maximum is `None` exactly when the page has no candidate;
   * otherwise it is the first candidate of greatest value, on that page.
   */
  lemma PageMaxIsEarliestMax(p: Page, page: nat)
    ensures PageMax(p, page).None? <==> PageCandidates(p, page) == []
    ensures PageMax(p, page).Some? ==>
      PageMax(p, page).value.page == page &&
      exists k :: IsEarliestMax(PageCandidates(p, page), k) && PageMax(p, page) == Some(PageCandidates(p, page)[k])
  {
    MaxOfIsEarliestMax(PageCandidates(p, page));
    PageCandidatesOnPage(p, page);
  }

  /** Keeping a maximum per page and then across pages is one maximum over every candidate of the document in order. */
  lemma DocumentMaxIsGlobalMax(pages: seq<Page>)
    ensures DocumentMax(pages) == MaxOf(Flatten(AllCandidates(pages)))
  {
    assert BlockMaxes(AllCandidates(pages)) == PageMaxes(pages);
    DocFoldOfBlockMaxes(AllCandidates(pages));
  }

  /**
   * The document maximum is `None` exactly when no page has a candidate;
   * otherwise it is the maximum of the earliest page whose maximum is
   * greatest, and it records that page's index.
   */
  lemma DocumentMaxIsEarliestGreatestPage(pages: seq<Page>)
    ensures DocumentMax(pages).None? <==> forall i :: 0 <= i < |pages| ==> PageCandidates(pages[i], i) == []
    ensures DocumentMax(pages).Some? ==>
      exists p :: IsEarliestGreatest(PageMaxes(pages), p) &&
        DocumentMax(pages) == PageMax(pages[p], p) && DocumentMax(pages).value.page == p
  {
    var pms := PageMaxes(pages);
    DocFoldIsNoneWhenAllNone(pms);
    DocFoldIsEarliestGreatest(pms);
    forall i | 0 <= i < |pages|
      ensures pms[i].None? <==> PageCandidates(pages[i], i) == []
    {
      PageMaxIsEarliestMax(pages[i], i);
    }
    if DocumentMax(pages).Some? {
      var p :| IsEarliestGreatest(pms, p) && DocFold(pms) == pms[p];
      PageMaxIsEarliestMax(pages[p], p);
    }
  }

  /**
   * "$2.5M" is read as the bare number 2.5: grammar A matches "2.5" at the
   * digit and, with no unit word after it, the `M` is left unread.
   */
  lemma DollarLetterIsNotAMultiplier(page: nat)
    ensures FindAll("$2.5M") == [Token(1, 4, "2.5", "")]
    ensures TextCandidates("$2.5M", page) == [RecognizedNumber("2.5", 2.5, page)]
  {
    DollarLetterScan();
    TwoPointFiveValue();
    TextCandidatesAreParsedMatches("$2.5M", page);
  }

  lemma DollarLetterScan()
    ensures FindAll("$2.5M") == [Token(1, 4, "2.5", "")]
  {
    var s := "$2.5M";
    assert !LiteralAt(s, 0) && !LiteralAt(s, 4);
    assert DigitsEnd(s, 2) == 2;
    assert DigitsEnd(s, 1) == 2;
    assert DigitsEnd(s, 4) == 4;
    assert DigitsEnd(s, 3) == 4;
    assert LiteralEnd(s, 1) == 4;
    assert SpacesEnd(s, 4) == 4;
    assert UnitAt(s, 4) == "";
    assert s[1..4] == "2.5";
    var t := Token(1, 4, "2.5", "");
    assert GrammarA(s, 1) == Some(t);
    assert ScanFrom(s, 4) == ScanFrom(s, 5) == [];
    assert ScanFrom(s, 1) == [t] + ScanFrom(s, 4);
    assert ScanFrom(s, 0) == ScanFrom(s, 1);
  }

  lemma TwoPointFiveValue()
    ensures IsLiteral("2.5") && DecimalValue("2.5") == 2.5
  {
    var l := "2.5";
    assert DotIndex(l[1..]) == 0;
    assert DotIndex(l) == 1;
    assert IntegerDigits(l) == "2" && FractionDigits(l) == "5";
    assert NaturalValue("2") == 2;
    assert FractionValue("5"[1..]) == 0.0;
  }

  // The passes, as the page loop runs them.

  lemma TextPassStep(ts: seq<Token>, i: nat, page: nat, pm: Option<RecognizedNumber>)
    requires i < |ts| && AreNumberTokens(ts)
    requires pm == FoldMax(None, ParsedMatches(ts, i, page))
    ensures FoldMax(None, ParsedMatches(ts, i + 1, page)) == Better(pm, ParseToken(ts[i], page))
  {
    ParsedMatchesStep(ts, i, page);
    FoldMaxSnoc(None, ParsedMatches(ts, i, page), ParseToken(ts[i], page));
  }

  lemma CellStep(ts: seq<Token>, j: nat, mult: int, page: nat, pm0: Option<RecognizedNumber>)
    requires j < |ts| && AreNumberTokens(ts)
    ensures ts[j].suffix == "" ==>
      FoldMax(pm0, ScaledUnsuffixed(ts, j + 1, mult, page)) ==
      Better(FoldMax(pm0, ScaledUnsuffixed(ts, j, mult, page)), Scale(ParseNumber(ts[j].literal, "", page), mult))
    ensures ts[j].suffix != "" ==>
      FoldMax(pm0, ScaledUnsuffixed(ts, j + 1, mult, page)) == FoldMax(pm0, ScaledUnsuffixed(ts, j, mult, page))
  {
    ScaledUnsuffixedStep(ts, j, mult, page);
    if ts[j].suffix == "" {
      FoldMaxSnoc(pm0, ScaledUnsuffixed(ts, j, mult, page), Scale(ParseNumber(ts[j].literal, "", page), mult));
    }
  }

  /** The first pass: every match of the page text, parsed, updates the page maximum. */
  method TextPass(text: string, page: nat) returns (pm: Option<RecognizedNumber>)
    ensures pm == MaxOf(TextCandidates(text, page))
  {
    pm := None;
    var matches := FindAll(text);
    for i := 0 to |matches|
      invariant pm == FoldMax(None, ParsedMatches(matches, i, page))
    {
      var rn := ParseToken(matches[i], page);
      TextPassStep(matches, i, page, pm);
      if pm.None? || pm.value.value < rn.value {
        pm := Some(rn);
      }
    }
  }

  /** Header inference over rows 0-2 of a table of at least three rows. */
  method ScanHeaderRows(table: Table) returns (current: Multipliers, found: bool)
    requires |table| >= 3
    ensures HeaderState(current, found) == HeaderRows(HeaderGrid(table), 3)
  {
    ghost var grid := HeaderGrid(table);
    current, found := map[], false;
    for r := 0 to 3
      invariant HeaderState(current, found) == HeaderRows(grid, r)
    {
      var row := table[r];
      ghost var start := HeaderRows(grid, r);
      for c := 0 to |row|
        invariant HeaderState(current, found) == HeaderRowFrom(start, grid[r], c)
      {
        var item := row[c];
        assert grid[r][c] == CellHeader(item);
        if item.Some? && item.value != "" {
          var multipliers := HeaderFindAll(item.value);
          if multipliers != [] {
            current := current[c := HeaderMultiplier(multipliers[0])];
            found := true;
          }
        }
      }
    }
  }

  /** The numbers of one data cell, without a unit word and scaled by mult, update the page maximum. */
  method ScanDataCell(item: Cell, mult: int, page: nat, pm0: Option<RecognizedNumber>) returns (pm: Option<RecognizedNumber>)
    ensures pm == FoldMax(pm0, CellCandidates(item, mult, page))
  {
    pm := pm0;
    if item.Some? && item.value != "" {
      var numbers := FindAll(item.value);
      for j := 0 to |numbers|
        invariant pm == FoldMax(pm0, ScaledUnsuffixed(numbers, j, mult, page))
      {
        CellStep(numbers, j, mult, page, pm0);
        if numbers[j].suffix == "" {
          var rn := ParseNumber(numbers[j].literal, "", page);
          rn := Scale(rn, mult);
          if pm.None? || pm.value.value < rn.value {
            pm := Some(rn);
          }
        }
      }
    }
  }

  /** Rows 2 onward of a table, each cell scaled by its column's multiplier in m. */
  method ScanDataRows(table: Table, m: Multipliers, page: nat, pm0: Option<RecognizedNumber>) returns (pm: Option<RecognizedNumber>)
    requires |table| >= 3
    ensures pm == FoldMax(pm0, DataRowCandidates(table, |table|, m, page))
  {
    pm := pm0;
    for r := 2 to |table|
      invariant pm == FoldMax(pm0, DataRowCandidates(table, r, m, page))
    {
      var row := table[r];
      ghost var rowStart := pm;
      for c := 0 to |row|
        invariant pm == FoldMax(rowStart, RowCandidates(row, c, m, page))
      {
        pm := ScanDataCell(row[c], Multiplier(m, c), page, pm);
        FoldMaxAppend(rowStart, RowCandidates(row, c, m, page), CellCandidates(row[c], Multiplier(m, c), page));
      }
      FoldMaxAppend(pm0, DataRowCandidates(table, r, m, page), RowCandidates(row, |row|, m, page));
    }
  }

  /** The second pass: the tables of the page in order, with the multiplier map carried between them. */
  method TablePass(tables: seq<Table>, page: nat, pm0: Option<RecognizedNumber>) returns (pm: Option<RecognizedNumber>)
    ensures pm == FoldMax(pm0, TablePassCandidates(tables, |tables|, page))
  {
    pm := pm0;
    var carried: Multipliers := map[];
    for t := 0 to |tables|
      invariant carried == CarriedAfter(tables, t)
      invariant pm == FoldMax(pm0, TablePassCandidates(tables, t, page))
    {
      var table := tables[t];
      ghost var tableStart := pm;
      if |table| >= 3 {
        var current, found := ScanHeaderRows(table);
        if found {
          carried := current;
        }
        pm := ScanDataRows(table, carried, page, pm);
      }
      FoldMaxAppend(pm0, TablePassCandidates(tables, t, page), TableCandidates(CarriedAfter(tables, t), table, page));
    }
  }

  /** One page: the text pass, then the table pass; the third pass builds numbers that are then dropped. */
  method PageMaximum(p: Page, page: nat) returns (pm: Option<RecognizedNumber>)
    ensures pm == PageMax(p, page)
  {
    pm := TextPass(p.text, page);
    pm := TablePass(p.tables, page, pm);
    FoldMaxAppend(None, TextCandidates(p.text, page), TablePassCandidates(p.tables, |p.tables|, page));
    var unused := FallbackPass(p.text, |p.tables|, page);
  }

  /** `find_largest_number_in_pdf` over the pages the reader gives. */
  method FindLargestNumberInPdf(pages: seq<Page>) returns (maximum: Option<RecognizedNumber>)
    ensures maximum == DocumentMax(pages)
  {
    ghost var pms := PageMaxes(pages);
    maximum := None;
    for idx := 0 to |pages|
      invariant maximum == DocFold(pms[..idx])
    {
      var pageMax := PageMaximum(pages[idx], idx);
      DocFoldStep(pms, idx);
      if maximum.None? {
        maximum := pageMax;
      } else if pageMax.Some? && maximum.value.value < pageMax.value.value {
        maximum := pageMax;
      }
    }
    assert pms[..|pages|] == pms;
  }
}
