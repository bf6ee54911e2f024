/**
 * The table pass of `find_largest_number_in_pdf`: header inference over
 * the first three rows of each table, the per-column multiplier map carried
 * from table to table on a page, and the numbers built from the data rows.
 */
module Tables {
  import opened Wrappers
  import opened Scanner
  import opened Units
  import opened Normalizer

  /** A cell as the table extractor gives it: text, or `None` for an empty cell. */
  type Cell = Option<string>
  type Row = seq<Cell>
  type Table = seq<Row>

  /** A cell counts as filled when it has text and the text is not empty. */
  predicate NonEmpty(c: Cell) {
    c.Some? && c.value != ""
  }

  /** A per-column multiplier map; a column it does not hold reads as 1, as in `defaultdict(lambda: 1)`. */
  type Multipliers = map<nat, int>

  function Multiplier(m: Multipliers, col: nat): (v: int)
    ensures col in m ==> v == m[col]
    ensures col !in m ==> v == 1
  {
    if col in m then m[col] else 1
  }

  /** Every multiplier in the map is one the header table can give. */
  predicate ValidMultipliers(m: Multipliers) {
    forall col: nat :: col in m ==> m[col] in {1, 1_000, 1_000_000}
  }

  /** The multiplier a header cell names: that of its first header match, when it has text and a match. */
  function CellHeader(c: Cell): (r: Option<int>)
    ensures r.Some? <==> NonEmpty(c) && HeaderFindAll(c.value) != []
    ensures r.Some? ==> r.value == HeaderMultiplier(HeaderFindAll(c.value)[0]) && r.value in {1, 1_000, 1_000_000}
  {
    if NonEmpty(c) && HeaderFindAll(c.value) != [] then Some(HeaderMultiplier(HeaderFindAll(c.value)[0])) else None
  }

  /**
   * A header cell names a multiplier exactly when it has text in which a
   * header phrase occurs, ignoring case, and then it is the multiplier of
   * the phrase's first occurrence (leftmost, and first in pattern order there).
   */
  lemma CellHeaderIsFirstPhrase(c: Cell)
    ensures CellHeader(c).Some? <==> NonEmpty(c) && !NoPhraseIn(HeaderPhrases, c.value, 0, |c.value|)
    ensures forall p: nat, k: nat :: NonEmpty(c) && IsFirstOccurrence(HeaderPhrases, c.value, p, k) ==>
      CellHeader(c) == Some(PhraseMultiplier(k))
  {
    if NonEmpty(c) {
      var s := c.value;
      HeaderFindAllEmptyIff(s);
      HeaderFindAllFirst(s);
      forall p: nat, k: nat | IsFirstOccurrence(HeaderPhrases, s, p, k)
        ensures CellHeader(c) == Some(PhraseMultiplier(k))
      {
        var m := HeaderFindAll(s)[0];
        FirstOccurrenceIsUnique(HeaderPhrases, s, p, k, m.start, m.phrase);
      }
    }
  }

  /** `current_multipliers` and `found_new_headers` while the header rows are scanned. */
  datatype HeaderState = HeaderState(current: Multipliers, found: bool)

  /** The header each cell of a row names. */
  function RowHeaders(row: Row): (hs: seq<Option<int>>)
    ensures |hs| == |row|
    ensures forall col :: 0 <= col < |row| ==> hs[col] == CellHeader(row[col])
  {
    seq(|row|, col requires 0 <= col < |row| => CellHeader(row[col]))
  }

  /** The header state after the first n cells of a row whose cells name the headers hs, starting from st. */
  function HeaderRowFrom(st: HeaderState, hs: seq<Option<int>>, n: nat): HeaderState
    requires n <= |hs|
    decreases n
  {
    if n == 0 then st
    else
      var prev := HeaderRowFrom(st, hs, n - 1);
      if hs[n - 1].Some? then HeaderState(prev.current[n - 1 := hs[n - 1].value], true) else prev
  }

  /**
   * Each named header is written into its column, overwriting what st held
   * there; other columns keep st's entry; a header is found exactly when st
   * had one or some cell names one.
   */
  lemma {:induction false} HeaderRowFromWrites(st: HeaderState, hs: seq<Option<int>>, n: nat)
    requires n <= |hs|
    ensures forall col: nat :: col in HeaderRowFrom(st, hs, n).current <==> col in st.current || (col < n && hs[col].Some?)
    ensures forall col: nat :: col < n && hs[col].Some? ==> HeaderRowFrom(st, hs, n).current[col] == hs[col].value
    ensures forall col: nat :: col in st.current && !(col < n && hs[col].Some?) ==> HeaderRowFrom(st, hs, n).current[col] == st.current[col]
    ensures HeaderRowFrom(st, hs, n).found <==> st.found || exists col: nat :: col < n && hs[col].Some?
    decreases n
  {
    if n > 0 {
      HeaderRowFromWrites(st, hs, n - 1);
    }
  }

  /** The headers named by each of the first three rows of a table (header rows 0-2). */
  function HeaderGrid(table: Table): (grid: seq<seq<Option<int>>>)
    requires |table| >= 3
    ensures |grid| == 3
    ensures forall r :: 0 <= r < 3 ==> grid[r] == RowHeaders(table[r])
  {
    [RowHeaders(table[0]), RowHeaders(table[1]), RowHeaders(table[2])]
  }

  /** The header row r of the grid names for column col, if the row has that column. */
  function HeaderAt(grid: seq<seq<Option<int>>>, r: nat, col: nat): Option<int>
    requires r < |grid|
  {
    if col < |grid[r]| then grid[r][col] else None
  }

  /** The header the last of rows 0 .. r-1 that names one gives column col: later rows overwrite earlier ones. */
  function LastHeader(grid: seq<seq<Option<int>>>, r: nat, col: nat): Option<int>
    requires r <= |grid|
  {
    if r == 0 then None
    else if HeaderAt(grid, r - 1, col).Some? then HeaderAt(grid, r - 1, col)
    else LastHeader(grid, r - 1, col)
  }

  /** The header state after rows 0 .. r-1 of the grid. */
  function HeaderRows(grid: seq<seq<Option<int>>>, r: nat): HeaderState
    requires r <= |grid|
  {
    if r == 0 then HeaderState(map[], false)
    else HeaderRowFrom(HeaderRows(grid, r - 1), grid[r - 1], |grid[r - 1]|)
  }

  /**
   * After rows 0 .. r-1, the current map holds, for each column, the header
   * of the last row that names one, and a header was found exactly when
   * some column has one.
   */
  lemma {:induction false} HeaderRowsIsLastHeader(grid: seq<seq<Option<int>>>, r: nat)
    requires r <= |grid|
    ensures forall col: nat :: col in HeaderRows(grid, r).current <==> LastHeader(grid, r, col).Some?
    ensures forall col: nat :: col in HeaderRows(grid, r).current ==> HeaderRows(grid, r).current[col] == LastHeader(grid, r, col).value
    ensures HeaderRows(grid, r).found <==> exists col: nat :: LastHeader(grid, r, col).Some?
  {
    if r > 0 {
      var k := r - 1;
      var prev := HeaderRows(grid, k);
      var hs := grid[k];
      var st := HeaderRows(grid, r);
      HeaderRowsIsLastHeader(grid, k);
      HeaderRowFromWrites(prev, hs, |hs|);
      assert st == HeaderRowFrom(prev, hs, |hs|);
      assert st.found ==> exists col: nat :: LastHeader(grid, r, col).Some? by {
        if st.found && prev.found {
          var col: nat :| LastHeader(grid, k, col).Some?;
          assert LastHeader(grid, r, col).Some?;
        } else if st.found {
          var col: nat :| col < |hs| && hs[col].Some?;
          assert HeaderAt(grid, k, col).Some?;
          assert LastHeader(grid, r, col).Some?;
        }
      }
      assert (exists col: nat :: LastHeader(grid, r, col).Some?) ==> st.found by {
        if exists col: nat :: LastHeader(grid, r, col).Some? {
          var col: nat :| LastHeader(grid, r, col).Some?;
          if HeaderAt(grid, k, col).None? {
            assert LastHeader(grid, k, col).Some?;
            assert exists c: nat :: LastHeader(grid, k, c).Some?;
            assert prev.found;
          } else {
            assert col < |hs| && hs[col].Some?;
          }
        }
      }
    }
  }

  lemma HeaderFoundByWitness(grid: seq<seq<Option<int>>>, r: nat, col: nat)
    requires r <= |grid| && LastHeader(grid, r, col).Some?
    ensures HeaderRows(grid, r).found
  {
    HeaderRowsIsLastHeader(grid, r);
  }

  /**
   * The carried map after one table: a table of fewer than three rows
   * leaves it alone; otherwise the fresh map of rows 0-2 replaces it when a
   * header was found there, and it is kept when none was.
   */
  function NextMultipliers(carried: Multipliers, table: Table): Multipliers {
    if |table| < 3 then carried
    else
      var st := HeaderRows(HeaderGrid(table), 3);
      if st.found then st.current else carried
  }

  /**
   * The carry-forward rule: after a table with a header in its first three
   * rows, each column reads as the header of the last of those rows naming
   * one, and 1 elsewhere, whatever was carried before (no merge); after any
   * other table, the carried map is unchanged.
   */
  lemma CarryForwardRule(carried: Multipliers, table: Table, col: nat)
    requires |table| >= 3
    ensures (exists c: nat :: LastHeader(HeaderGrid(table), 3, c).Some?) ==>
              Multiplier(NextMultipliers(carried, table), col) ==
              (if LastHeader(HeaderGrid(table), 3, col).Some? then LastHeader(HeaderGrid(table), 3, col).value else 1)
    ensures !(exists c: nat :: LastHeader(HeaderGrid(table), 3, c).Some?) ==> NextMultipliers(carried, table) == carried
  {
    var grid := HeaderGrid(table);
    var st := HeaderRows(grid, 3);
    HeaderRowsIsLastHeader(grid, 3);
    if exists c: nat :: LastHeader(grid, 3, c).Some? {
      var c: nat :| LastHeader(grid, 3, c).Some?;
      HeaderFoundByWitness(grid, 3, c);
      assert NextMultipliers(carried, table) == st.current;
      if col in st.current {
        assert LastHeader(grid, 3, col).Some?;
        assert st.current[col] == LastHeader(grid, 3, col).value;
        assert Multiplier(st.current, col) == st.current[col];
      } else {
        assert LastHeader(grid, 3, col).None?;
        assert Multiplier(st.current, col) == 1;
      }
    } else {
      assert !st.found;
    }
  }

  /** A cell in column col of header row r names a header exactly when the grid says so. */
  lemma HeaderGridAgrees(table: Table, r: nat, col: nat)
    requires |table| >= 3 && r < 3
    ensures HeaderAt(HeaderGrid(table), r, col) == (if col < |table[r]| then CellHeader(table[r][col]) else None)
  {
  }

  /** The carried map only ever holds multipliers of the header table. */
  lemma {:induction false} LastHeaderIsValid(table: Table, r: nat, col: nat)
    requires |table| >= 3 && r <= 3
    ensures LastHeader(HeaderGrid(table), r, col).Some? ==> LastHeader(HeaderGrid(table), r, col).value in {1, 1_000, 1_000_000}
  {
    if r > 0 {
      LastHeaderIsValid(table, r - 1, col);
      HeaderGridAgrees(table, r - 1, col);
    }
  }

  lemma NextMultipliersValid(carried: Multipliers, table: Table)
    requires ValidMultipliers(carried)
    ensures ValidMultipliers(NextMultipliers(carried, table))
  {
    if |table| >= 3 {
      HeaderRowsIsLastHeader(HeaderGrid(table), 3);
      forall col: nat | LastHeader(HeaderGrid(table), 3, col).Some?
        ensures LastHeader(HeaderGrid(table), 3, col).value in {1, 1_000, 1_000_000}
      {
        LastHeaderIsValid(table, 3, col);
      }
    }
  }

  /** The numbers one data cell gives: none when it is empty, else its matches without a unit word, scaled by mult. */
  function CellCandidates(c: Cell, mult: int, page: nat): seq<RecognizedNumber> {
    if NonEmpty(c) then ScaledUnsuffixed(FindAll(c.value), |FindAll(c.value)|, mult, page) else []
  }

  /** The numbers of the first n cells of a data row, each cell scaled by its column's multiplier. */
  function RowCandidates(row: Row, n: nat, m: Multipliers, page: nat): seq<RecognizedNumber>
    requires n <= |row|
  {
    if n == 0 then []
    else RowCandidates(row, n - 1, m, page) + CellCandidates(row[n - 1], Multiplier(m, n - 1), page)
  }

  /** The numbers of data rows 2 .. r-1; the first two rows are never read as data. */
  function DataRowCandidates(table: Table, r: nat, m: Multipliers, page: nat): seq<RecognizedNumber>
    requires 2 <= r <= |table|
  {
    if r == 2 then []
    else DataRowCandidates(table, r - 1, m, page) + RowCandidates(table[r - 1], |table[r - 1]|, m, page)
  }

  /** The numbers one table gives, read with the map it leaves behind; none for a table of fewer than three rows. */
  function TableCandidates(carried: Multipliers, table: Table, page: nat): seq<RecognizedNumber> {
    if |table| < 3 then []
    else DataRowCandidates(table, |table|, NextMultipliers(carried, table), page)
  }

  /** A table of fewer than three rows gives no number and leaves the carried map as it was. */
  lemma ShortTableIsSkipped(carried: Multipliers, table: Table, page: nat)
    requires |table| < 3
    ensures NextMultipliers(carried, table) == carried
    ensures TableCandidates(carried, table, page) == []
  {
  }

  /** The carried map after the first n tables of a page; it starts empty (all 1) on every page. */
  function CarriedAfter(tables: seq<Table>, n: nat): Multipliers
    requires n <= |tables|
  {
    if n == 0 then map[] else NextMultipliers(CarriedAfter(tables, n - 1), tables[n - 1])
  }

  /** The table-pass numbers of the first n tables of a page, in the order the pass meets them. */
  function TablePassCandidates(tables: seq<Table>, n: nat, page: nat): seq<RecognizedNumber>
    requires n <= |tables|
  {
    if n == 0 then []
    else TablePassCandidates(tables, n - 1, page) + TableCandidates(CarriedAfter(tables, n - 1), tables[n - 1], page)
  }

  /** A table-pass number: a bare literal of this page scaled by a multiplier the header table can give. */
  predicate IsTableNumber(r: RecognizedNumber, page: nat) {
    IsScaledLiteral(r, 1, page) || IsScaledLiteral(r, 1_000, page) || IsScaledLiteral(r, 1_000_000, page)
  }

  predicate AllTableNumbers(rs: seq<RecognizedNumber>, page: nat) {
    forall k :: 0 <= k < |rs| ==> IsTableNumber(rs[k], page)
  }

  lemma AppendTableNumbers(a: seq<RecognizedNumber>, b: seq<RecognizedNumber>, page: nat)
    requires AllTableNumbers(a, page) && AllTableNumbers(b, page)
    ensures AllTableNumbers(a + b, page)
  {
    assert forall k :: |a| <= k < |a + b| ==> (a + b)[k] == b[k - |a|];
  }

  lemma CellCandidatesAreTableNumbers(c: Cell, mult: int, page: nat)
    requires mult in {1, 1_000, 1_000_000}
    ensures AllTableNumbers(CellCandidates(c, mult, page), page)
  {
    if NonEmpty(c) {
      ScaledUnsuffixedAreScaledLiterals(FindAll(c.value), |FindAll(c.value)|, mult, page);
    }
  }

  lemma {:induction false} RowCandidatesAreTableNumbers(row: Row, n: nat, m: Multipliers, page: nat)
    requires n <= |row| && ValidMultipliers(m)
    ensures AllTableNumbers(RowCandidates(row, n, m, page), page)
  {
    if n > 0 {
      RowCandidatesAreTableNumbers(row, n - 1, m, page);
      CellCandidatesAreTableNumbers(row[n - 1], Multiplier(m, n - 1), page);
      AppendTableNumbers(RowCandidates(row, n - 1, m, page), CellCandidates(row[n - 1], Multiplier(m, n - 1), page), page);
    }
  }

  lemma {:induction false} DataRowCandidatesAreTableNumbers(table: Table, r: nat, m: Multipliers, page: nat)
    requires 2 <= r <= |table| && ValidMultipliers(m)
    ensures AllTableNumbers(DataRowCandidates(table, r, m, page), page)
  {
    if r > 2 {
      DataRowCandidatesAreTableNumbers(table, r - 1, m, page);
      RowCandidatesAreTableNumbers(table[r - 1], |table[r - 1]|, m, page);
      AppendTableNumbers(DataRowCandidates(table, r - 1, m, page), RowCandidates(table[r - 1], |table[r - 1]|, m, page), page);
    }
  }

  /** The carried map is valid after every table of the page. */
  lemma {:induction false} CarriedAfterValid(tables: seq<Table>, n: nat)
    requires n <= |tables|
    ensures ValidMultipliers(CarriedAfter(tables, n))
  {
    if n > 0 {
      CarriedAfterValid(tables, n - 1);
      NextMultipliersValid(CarriedAfter(tables, n - 1), tables[n - 1]);
    }
  }

  /** Every table-pass number is a bare literal of this page, scaled by 1, 1,000 or 1,000,000. */
  lemma {:induction false} TablePassCandidatesAreTableNumbers(tables: seq<Table>, n: nat, page: nat)
    requires n <= |tables|
    ensures AllTableNumbers(TablePassCandidates(tables, n, page), page)
  {
    if n > 0 {
      TablePassCandidatesAreTableNumbers(tables, n - 1, page);
      var t := tables[n - 1];
      var carried := CarriedAfter(tables, n - 1);
      if |t| >= 3 {
        CarriedAfterValid(tables, n - 1);
        NextMultipliersValid(carried, t);
        DataRowCandidatesAreTableNumbers(t, |t|, NextMultipliers(carried, t), page);
      }
      AppendTableNumbers(TablePassCandidates(tables, n - 1, page), TableCandidates(carried, t, page), page);
    }
  }

  /** x is a number of a non-empty cell c: one of its matches without a unit word, parsed and scaled by mult. */
  predicate IsCellNumber(x: RecognizedNumber, c: Cell, mult: int, page: nat) {
    NonEmpty(c) && IsBareNumberOf(x, c.value, mult, page)
  }

  /**
   * The numbers of a data cell are exactly its matches without a unit word,
   * parsed and scaled by the multiplier the cell is read with; an empty cell
   * gives none, and each number is a bare literal times that multiplier.
   */
  lemma CellCandidatesScaled(c: Cell, mult: int, page: nat)
    ensures !NonEmpty(c) ==> CellCandidates(c, mult, page) == []
    ensures AllScaledLiterals(CellCandidates(c, mult, page), mult, page)
    ensures forall x :: x in CellCandidates(c, mult, page) <==> IsCellNumber(x, c, mult, page)
  {
    if NonEmpty(c) {
      ScaledUnsuffixedAreScaledLiterals(FindAll(c.value), |FindAll(c.value)|, mult, page);
      BareNumbersOf(c.value, mult, page);
    }
  }

  /**
   * The table pass below is restated generically in how a data cell is read,
   * so that membership can be argued once without unfolding the scanner; the
   * lemmas ending in Read show that the pass reads cells with PageReader.
   */
  type CellReader = (Cell, int) -> seq<RecognizedNumber>

  /** The table pass's reading of a data cell on a page. */
  function PageReader(page: nat): CellReader {
    (c: Cell, mult: int) => CellCandidates(c, mult, page)
  }

  function RowRead(read: CellReader, row: Row, n: nat, m: Multipliers): seq<RecognizedNumber>
    requires n <= |row|
  {
    if n == 0 then [] else RowRead(read, row, n - 1, m) + read(row[n - 1], Multiplier(m, n - 1))
  }

  function DataRowsRead(read: CellReader, table: Table, r: nat, m: Multipliers): seq<RecognizedNumber>
    requires 2 <= r <= |table|
  {
    if r == 2 then [] else DataRowsRead(read, table, r - 1, m) + RowRead(read, table[r - 1], |table[r - 1]|, m)
  }

  /** The numbers of the first n tables, table t read with maps[t]; tables of fewer than three rows give none. */
  function TablesRead(read: CellReader, tables: seq<Table>, maps: seq<Multipliers>, n: nat): seq<RecognizedNumber>
    requires n <= |tables| == |maps|
  {
    if n == 0 then []
    else if |tables[n - 1]| < 3 then TablesRead(read, tables, maps, n - 1)
    else TablesRead(read, tables, maps, n - 1) + DataRowsRead(read, tables[n - 1], |tables[n - 1]|, maps[n - 1])
  }

  /** The map in force for each table of a page: the one carried to it, updated by its own header rows. */
  function TableMaps(tables: seq<Table>): (maps: seq<Multipliers>)
    ensures |maps| == |tables|
  {
    seq(|tables|, t requires 0 <= t < |tables| => CarriedAfter(tables, t + 1))
  }

  /** The map in force for table t is the carried map updated by that table, and it is the one carried past it. */
  lemma TableMapsAt(tables: seq<Table>, t: nat)
    requires t < |tables|
    ensures TableMaps(tables)[t] == NextMultipliers(CarriedAfter(tables, t), tables[t]) == CarriedAfter(tables, t + 1)
  {
  }

  lemma {:induction false} RowCandidatesRead(row: Row, n: nat, m: Multipliers, page: nat)
    requires n <= |row|
    ensures RowCandidates(row, n, m, page) == RowRead(PageReader(page), row, n, m)
  {
    if n > 0 {
      RowCandidatesRead(row, n - 1, m, page);
    }
  }

  lemma {:induction false} DataRowCandidatesRead(table: Table, r: nat, m: Multipliers, page: nat)
    requires 2 <= r <= |table|
    ensures DataRowCandidates(table, r, m, page) == DataRowsRead(PageReader(page), table, r, m)
  {
    if r > 2 {
      DataRowCandidatesRead(table, r - 1, m, page);
      RowCandidatesRead(table[r - 1], |table[r - 1]|, m, page);
    }
  }

  lemma {:induction false} TablePassCandidatesRead(tables: seq<Table>, n: nat, page: nat)
    requires n <= |tables|
    ensures TablePassCandidates(tables, n, page) == TablesRead(PageReader(page), tables, TableMaps(tables), n)
  {
    if n > 0 {
      TablePassCandidatesRead(tables, n - 1, page);
      var table := tables[n - 1];
      TableMapsAt(tables, n - 1);
      if |table| >= 3 {
        DataRowCandidatesRead(table, |table|, TableMaps(tables)[n - 1], page);
      }
    }
  }

  lemma {:induction false} RowReadMembers(read: CellReader, x: RecognizedNumber, row: Row, n: nat, m: Multipliers)
    requires n <= |row|
    ensures x in RowRead(read, row, n, m) <==> exists col :: 0 <= col < n && x in read(row[col], Multiplier(m, col))
  {
    if n > 0 {
      RowReadMembers(read, x, row, n - 1, m);
      if x in read(row[n - 1], Multiplier(m, n - 1)) {
      }
    }
  }

  lemma {:induction false} DataRowsReadMembers(read: CellReader, x: RecognizedNumber, table: Table, r: nat, m: Multipliers)
    requires 2 <= r <= |table|
    ensures x in DataRowsRead(read, table, r, m) <==>
      exists ri, col :: 2 <= ri < r && 0 <= col < |table[ri]| && x in read(table[ri][col], Multiplier(m, col))
  {
    if r > 2 {
      var row := table[r - 1];
      DataRowsReadMembers(read, x, table, r - 1, m);
      RowReadMembers(read, x, row, |row|, m);
      if x in RowRead(read, row, |row|, m) {
        var col :| 0 <= col < |row| && x in read(row[col], Multiplier(m, col));
        assert 2 <= r - 1 < r && 0 <= col < |table[r - 1]| && x in read(table[r - 1][col], Multiplier(m, col));
      }
    }
  }

  /** x is a number of a data cell of one of the first n tables, table t read with maps[t]. */
  ghost predicate InTableCells(read: CellReader, x: RecognizedNumber, tables: seq<Table>, maps: seq<Multipliers>, n: nat)
    requires n <= |tables| == |maps|
  {
    exists t, ri, col :: 0 <= t < n && 2 <= ri < |tables[t]| && 0 <= col < |tables[t][ri]| &&
      x in read(tables[t][ri][col], Multiplier(maps[t], col))
  }

  lemma {:induction false} TablesReadMembers(read: CellReader, x: RecognizedNumber, tables: seq<Table>, maps: seq<Multipliers>, n: nat)
    requires n <= |tables| == |maps|
    ensures x in TablesRead(read, tables, maps, n) <==> InTableCells(read, x, tables, maps, n)
  {
    if n > 0 {
      var table := tables[n - 1];
      TablesReadMembers(read, x, tables, maps, n - 1);
      assert x in TablesRead(read, tables, maps, n) ==> InTableCells(read, x, tables, maps, n) by {
        if x in TablesRead(read, tables, maps, n - 1) {
          var t, ri, col :| 0 <= t < n - 1 && 2 <= ri < |tables[t]| && 0 <= col < |tables[t][ri]| &&
            x in read(tables[t][ri][col], Multiplier(maps[t], col));
          assert 0 <= t < n;
        } else if x in TablesRead(read, tables, maps, n) {
          DataRowsReadMembers(read, x, table, |table|, maps[n - 1]);
          var ri, col :| 2 <= ri < |table| && 0 <= col < |table[ri]| && x in read(table[ri][col], Multiplier(maps[n - 1], col));
          assert 0 <= n - 1 < n && 2 <= ri < |tables[n - 1]| && 0 <= col < |tables[n - 1][ri]| &&
            x in read(tables[n - 1][ri][col], Multiplier(maps[n - 1], col));
        }
      }
      assert InTableCells(read, x, tables, maps, n) ==> x in TablesRead(read, tables, maps, n) by {
        if InTableCells(read, x, tables, maps, n) {
          var t, ri, col :| 0 <= t < n && 2 <= ri < |tables[t]| && 0 <= col < |tables[t][ri]| &&
            x in read(tables[t][ri][col], Multiplier(maps[t], col));
          if t < n - 1 {
            assert InTableCells(read, x, tables, maps, n - 1);
          } else {
            DataRowsReadMembers(read, x, table, |table|, maps[n - 1]);
            assert 2 <= ri < |table| && 0 <= col < |table[ri]| && x in read(table[ri][col], Multiplier(maps[n - 1], col));
          }
        }
      }
    }
  }

  /**
   * x is a number of one of the first n cells of row: a match without a
   * unit word in that non-empty cell, scaled by its column's multiplier.
   */
  ghost predicate FromColumn(x: RecognizedNumber, row: Row, n: nat, m: Multipliers, page: nat) {
    exists col :: 0 <= col < n && col < |row| && IsCellNumber(x, row[col], Multiplier(m, col), page)
  }

  /**
   * x is a number of the first n cells of a row exactly when it is a number
   * of one of those cells, read with the multiplier of its own column.
   */
  lemma RowCandidatesFromColumns(x: RecognizedNumber, row: Row, n: nat, m: Multipliers, page: nat)
    requires n <= |row|
    ensures x in RowCandidates(row, n, m, page) <==> FromColumn(x, row, n, m, page)
  {
    RowCandidatesRead(row, n, m, page);
    RowReadMembers(PageReader(page), x, row, n, m);
    if x in RowCandidates(row, n, m, page) {
      var col :| 0 <= col < n && x in PageReader(page)(row[col], Multiplier(m, col));
      CellCandidatesScaled(row[col], Multiplier(m, col), page);
      assert IsCellNumber(x, row[col], Multiplier(m, col), page);
    }
    if FromColumn(x, row, n, m, page) {
      var col :| 0 <= col < n && col < |row| && IsCellNumber(x, row[col], Multiplier(m, col), page);
      CellCandidatesScaled(row[col], Multiplier(m, col), page);
      assert x in PageReader(page)(row[col], Multiplier(m, col));
    }
  }

  /** x is a number of a cell of one of the data rows 2 .. r-1 of table, read with that cell's column multiplier. */
  ghost predicate FromDataCell(x: RecognizedNumber, table: Table, r: nat, m: Multipliers, page: nat)
    requires r <= |table|
  {
    exists ri, col :: 2 <= ri < r && 0 <= col < |table[ri]| && IsCellNumber(x, table[ri][col], Multiplier(m, col), page)
  }

  /** x is a number of the data rows exactly when it is a number of one of their cells, read with its column's multiplier. */
  lemma DataRowCandidatesFromCells(x: RecognizedNumber, table: Table, r: nat, m: Multipliers, page: nat)
    requires 2 <= r <= |table|
    ensures x in DataRowCandidates(table, r, m, page) <==> FromDataCell(x, table, r, m, page)
  {
    DataRowCandidatesRead(table, r, m, page);
    DataRowsReadMembers(PageReader(page), x, table, r, m);
    if x in DataRowCandidates(table, r, m, page) {
      var ri, col :| 2 <= ri < r && 0 <= col < |table[ri]| && x in PageReader(page)(table[ri][col], Multiplier(m, col));
      CellCandidatesScaled(table[ri][col], Multiplier(m, col), page);
      assert IsCellNumber(x, table[ri][col], Multiplier(m, col), page);
    }
    if FromDataCell(x, table, r, m, page) {
      var ri, col :| 2 <= ri < r && 0 <= col < |table[ri]| && IsCellNumber(x, table[ri][col], Multiplier(m, col), page);
      CellCandidatesScaled(table[ri][col], Multiplier(m, col), page);
      assert x in PageReader(page)(table[ri][col], Multiplier(m, col));
    }
  }

  /**
   * x is a number of a data cell of one of the first n tables of a page
   * (only tables of three or more rows have data rows), read with that
   * cell's column multiplier in the map in force for its table.
   */
  ghost predicate FromTableCell(x: RecognizedNumber, tables: seq<Table>, n: nat, page: nat)
    requires n <= |tables|
  {
    exists t, ri, col :: 0 <= t < n && 2 <= ri < |tables[t]| && 0 <= col < |tables[t][ri]| &&
      IsCellNumber(x, tables[t][ri][col], Multiplier(TableMaps(tables)[t], col), page)
  }

  /**
   * x is a table-pass number exactly when it is a number of a data cell of
   * a table of three or more rows, read with its column's multiplier in the
   * map in force for its table.
   */
  lemma TablePassCandidatesFromCells(x: RecognizedNumber, tables: seq<Table>, n: nat, page: nat)
    requires n <= |tables|
    ensures x in TablePassCandidates(tables, n, page) <==> FromTableCell(x, tables, n, page)
  {
    var maps := TableMaps(tables);
    TablePassCandidatesRead(tables, n, page);
    TablesReadMembers(PageReader(page), x, tables, maps, n);
    if x in TablePassCandidates(tables, n, page) {
      var t, ri, col :| 0 <= t < n && 2 <= ri < |tables[t]| && 0 <= col < |tables[t][ri]| &&
        x in PageReader(page)(tables[t][ri][col], Multiplier(maps[t], col));
      CellCandidatesScaled(tables[t][ri][col], Multiplier(maps[t], col), page);
      assert IsCellNumber(x, tables[t][ri][col], Multiplier(maps[t], col), page);
    }
    if FromTableCell(x, tables, n, page) {
      var t, ri, col :| 0 <= t < n && 2 <= ri < |tables[t]| && 0 <= col < |tables[t][ri]| &&
        IsCellNumber(x, tables[t][ri][col], Multiplier(maps[t], col), page);
      CellCandidatesScaled(tables[t][ri][col], Multiplier(maps[t], col), page);
      assert x in PageReader(page)(tables[t][ri][col], Multiplier(maps[t], col));
      assert InTableCells(PageReader(page), x, tables, maps, n);
    }
  }

  /**
   * Every match without a unit word in a data cell of a table of three or
   * more rows is a table-pass number, scaled by its column's multiplier in
   * the map in force for that table.
   */
  lemma UnitlessTableMatchIsCandidate(tables: seq<Table>, t: nat, ri: nat, col: nat, j: nat, page: nat)
    requires t < |tables| && 2 <= ri < |tables[t]| && col < |tables[t][ri]|
    requires NonEmpty(tables[t][ri][col])
    requires j < |FindAll(tables[t][ri][col].value)| && FindAll(tables[t][ri][col].value)[j].suffix == ""
    ensures Scale(ParseNumber(FindAll(tables[t][ri][col].value)[j].literal, "", page),
                  Multiplier(TableMaps(tables)[t], col))
            in TablePassCandidates(tables, |tables|, page)
  {
    var c := tables[t][ri][col];
    var mult := Multiplier(TableMaps(tables)[t], col);
    var x := Scale(ParseNumber(FindAll(c.value)[j].literal, "", page), mult);
    assert MatchNumber(x, c.value, j, mult, page);
    TablePassCandidatesFromCells(x, tables, |tables|, page);
    assert FromTableCell(x, tables, |tables|, page);
  }
}
