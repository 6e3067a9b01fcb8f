/**
 * The per-file extractor: one spreadsheet and its file name in, either the
 * failure signal or the CSV mirror's name and the table of population
 * records out.
 */
module Extractor {
  import opened Wrappers
  import opened Decimal
  import opened FileNames
  import opened Cells
  import opened Filtering

  /** A sheet row projected to its region (column 0), total (column 1) and 65+ (fourth from last) cells. */
  datatype Row = Row(region: Cell, total: Cell, elderly: Cell)

  /** The outcome of reading a spreadsheet: unreadable, or its rows below the header. */
  datatype Sheet = Unreadable | Sheet(rows: seq<Row>)

  /** One normalized output row: year, region, total population, 65+ population. */
  datatype Record = Record(year: int, region: string, total: nat, elderly: nat)

  /** What a successful extraction produces: the mirror CSV's file name and the records. */
  datatype Extraction = Extraction(mirror: string, records: seq<Record>)

  /** The region label names a county (縣) or a city (市). */
  predicate HasAdminMarker(s: string)
    ensures HasAdminMarker(s) <==> exists i :: 0 <= i < |s| && (s[i] == '縣' || s[i] == '市')
  {
    '縣' in s || '市' in s
  }

  /** The row yields a record: a text region with a county or city marker, and both counts present. */
  predicate Qualifies(row: Row) {
    row.region.Str? && HasAdminMarker(row.region.s) && !row.total.Missing? && !row.elderly.Missing?
  }

  /**
   * A qualifying row whose counts this model converts: both are digit
   * strings once commas are removed, and the total is not zero (it divides
   * the aging ratio). On a qualifying row with a zero total, or with text
   * that `int(float(...))` rejects, `process_excel` raises.
   */
  predicate RowConverts(row: Row) {
    Qualifies(row) ==> IsCount(row.total) && IsCount(row.elderly) && CountValue(row.total) > 0
  }

  predicate RowsConvert(rows: seq<Row>) {
    forall i :: 0 <= i < |rows| ==> RowConverts(rows[i])
  }

  /** The record a qualifying row yields in a file of the given year. */
  function RecordOf(year: int, row: Row): Record
    requires row.region.Str?
  {
    Record(year, row.region.s, CountValue(row.total), CountValue(row.elderly))
  }

  /** The records a file of the given year yields, one per qualifying row, in row order. */
  function Records(year: int, rows: seq<Row>): (rs: seq<Record>)
    ensures |rs| <= |rows|
  {
    if rows == [] then []
    else
      var last := rows[|rows| - 1];
      Records(year, rows[..|rows| - 1]) + (if Qualifies(last) then [RecordOf(year, last)] else [])
  }

  /** The indices of the qualifying rows, in increasing order. */
  function QualifyingIndices(rows: seq<Row>): (q: seq<nat>)
    ensures |q| <= |rows|
  {
    Positions(rows, Qualifies)
  }

  /** Exactly the qualifying rows are listed, each once, in row order. */
  lemma QualifyingIndicesSpec(rows: seq<Row>)
    ensures forall k :: 0 <= k < |QualifyingIndices(rows)| ==>
      QualifyingIndices(rows)[k] < |rows| && Qualifies(rows[QualifyingIndices(rows)[k]])
    ensures forall k, l :: 0 <= k < l < |QualifyingIndices(rows)| ==>
      QualifyingIndices(rows)[k] < QualifyingIndices(rows)[l]
    ensures forall i :: 0 <= i < |rows| && Qualifies(rows[i]) ==> i in QualifyingIndices(rows)
  {
    PositionsSpec(rows, Qualifies);
  }

  /**
   * The k-th record is the record of the k-th qualifying row: every record
   * carries the file's year and its row's region and counts, no qualifying
   * row is dropped, and row order is kept.
   */
  lemma {:induction false} RecordsByIndex(year: int, rows: seq<Row>)
    ensures |Records(year, rows)| == |QualifyingIndices(rows)|
    ensures forall k :: 0 <= k < |Records(year, rows)| ==>
      QualifyingIndices(rows)[k] < |rows| &&
      (var row := rows[QualifyingIndices(rows)[k]];
       Qualifies(row) &&
       Records(year, rows)[k] == Record(year, row.region.s, CountValue(row.total), CountValue(row.elderly)))
  {
    QualifyingIndicesSpec(rows);
    if rows != [] {
      var n := |rows| - 1;
      RecordsByIndex(year, rows[..n]);
      var q, rs := QualifyingIndices(rows[..n]), Records(year, rows[..n]);
      forall k | 0 <= k < |rs| ensures rows[q[k]] == rows[..n][q[k]] {
      }
    }
  }

  /** Every record of a file carries that file's year. */
  lemma RecordsHaveFileYear(year: int, rows: seq<Row>)
    ensures forall rec :: rec in Records(year, rows) ==> rec.year == year
  {
    RecordsByIndex(year, rows);
  }

  /** A row yields a record exactly when it qualifies. */
  lemma {:induction false} RecordsOfOneRow(year: int, row: Row)
    ensures Records(year, [row]) == if Qualifies(row) then [RecordOf(year, row)] else []
  {
    assert [row][..0] == [];
  }

  /** Rows are processed independently and in order: the records of a + b are those of a, then of b. */
  lemma {:induction false} RecordsAppend(year: int, a: seq<Row>, b: seq<Row>)
    ensures Records(year, a + b) == Records(year, a) + Records(year, b)
    decreases |b|
  {
    if b == [] {
      assert a + b == a;
    } else {
      var n := |b| - 1;
      assert (a + b)[..|a + b| - 1] == a + b[..n];
      RecordsAppend(year, a, b[..n]);
    }
  }

  /** When every qualifying row converts, every record has a positive total. */
  lemma RecordsHavePositiveTotals(year: int, rows: seq<Row>)
    requires RowsConvert(rows)
    ensures forall k :: 0 <= k < |Records(year, rows)| ==> Records(year, rows)[k].total > 0
  {
    RecordsByIndex(year, rows);
    QualifyingIndicesSpec(rows);
  }

  /**
   * The aging ratio elderly * 100 / total as an exact rational; `process_excel`
   * rounds a binary double to two decimals, which is not modelled.
   */
  function AgingRatio(rec: Record): (ratio: real)
    requires rec.total > 0
    ensures ratio >= 0.0
    ensures rec.elderly <= rec.total ==> ratio <= 100.0
  {
    (rec.elderly as real) * 100.0 / (rec.total as real)
  }

  /** 20 people of 65 or over among 100 is an aging ratio of exactly 20 percent. */
  lemma AgingRatioExample(year: int, region: string)
    ensures AgingRatio(Record(year, region, 100, 20)) == 20.0
  {
  }

  /** The extractor's result, as a function of the file name and the sheet. */
  function Extracted(name: string, sheet: Sheet): Option<Extraction> {
    if sheet.Unreadable? then None
    else
      match ParseYear(name)
      case None => None
      case Some(year) => Some(Extraction(MirrorName(name), Records(year, sheet.rows)))
  }

  /** The extractor fails exactly when the sheet cannot be read or the name holds no year token. */
  lemma ExtractedFailsIff(name: string, sheet: Sheet)
    ensures Extracted(name, sheet).None? <==>
      sheet.Unreadable? || forall i :: !YearTokenAt(name, i)
  {
  }

  /**
   * Extract one spreadsheet. An unreadable sheet fails before the name is
   * looked at; a name without a year token fails before the mirror is
   * written; otherwise the mirror is named after the file and the rows
   * are filtered into records one at a time.
   */
  method ProcessExcel(name: string, sheet: Sheet) returns (out: Option<Extraction>)
    requires sheet.Sheet? && ParseYear(name).Some? ==> RowsConvert(sheet.rows)
    ensures sheet.Unreadable? ==> out.None?
    ensures sheet.Sheet? && ParseYear(name).None? ==> out.None?
    ensures sheet.Sheet? && ParseYear(name).Some? ==>
      out == Some(Extraction(MirrorName(name), Records(ParseYear(name).value, sheet.rows)))
    ensures out == Extracted(name, sheet)
    ensures out.Some? ==> forall k :: 0 <= k < |out.value.records| ==> out.value.records[k].total > 0
  {
    if sheet.Unreadable? {
      return None;
    }
    var yearMatch := ParseYear(name);
    if yearMatch.None? {
      return None;
    }
    var year := yearMatch.value;
    var csvName := MirrorName(name);
    var rows := sheet.rows;
    var result: seq<Record> := [];
    for i := 0 to |rows|
      invariant result == Records(year, rows[..i])
    {
      var row := rows[i];
      assert rows[..i + 1][..i] == rows[..i];
      if row.region.Str? && HasAdminMarker(row.region.s) {
        if !row.total.Missing? && !row.elderly.Missing? {
          var total := CountValue(row.total);
          var elderly := CountValue(row.elderly);
          result := result + [Record(year, row.region.s, total, elderly)];
        }
      }
    }
    assert rows[..|rows|] == rows;
    RecordsHavePositiveTotals(year, rows);
    return Some(Extraction(csvName, result));
  }
}
