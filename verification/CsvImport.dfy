/**
 Reading an upload row by row, with a cap on the records used and on the
 errors reported. Turning one row into a record is a parameter.
 */
module CsvImport {
  import opened Sequences
  import opened CsvRecords
  import opened CsvExport

  const MAX_ERRORS := 50

  datatype ImportError =
    | Refused(error: CsvError)
    | FormatError(lineNumber: nat)
    | TooManyErrors(reported: nat)

  /** A row as wide as the header is unescaped and decoded; any other fails. */
  function DecodeRow<T>(header: Row, row: Row, decode: (Row, Row) -> Option<T>): Option<T> {
    if |row| != |header| then None else decode(header, MapCells(row, UnescapeFormula))
  }

  /** The records of the rows that decode, in order. */
  function Decoded<T>(header: Row, rows: seq<Row>, decode: (Row, Row) -> Option<T>): seq<T> {
    if rows == [] then []
    else
      var n := |rows| - 1;
      Decoded(header, rows[..n], decode)
      + match DecodeRow(header, rows[n], decode) case None => [] case Some(t) => [t]
  }

  /** The lines of the rows that do not; the header is line one. */
  function FailedLines<T>(header: Row, rows: seq<Row>, decode: (Row, Row) -> Option<T>): seq<nat> {
    if rows == [] then []
    else
      var n := |rows| - 1;
      FailedLines(header, rows[..n], decode)
      + if DecodeRow(header, rows[n], decode).None? then [n + 2] else []
  }

  /** Reading stops at the end, at the record cap, or one error past the cap. */
  predicate Stops<T>(header: Row, rows: seq<Row>, decode: (Row, Row) -> Option<T>, maxRecords: nat, n: nat)
    requires n <= |rows|
  {
    || n == |rows|
    || |Decoded(header, rows[..n], decode)| >= maxRecords
    || |FailedLines(header, rows[..n], decode)| > MAX_ERRORS
  }

  function FormatErrors(lines: seq<nat>): (r: seq<ImportError>)
    ensures |r| == |lines|
  {
    seq(|lines|, k requires 0 <= k < |lines| => FormatError(lines[k]))
  }

  /** All records when every row read decodes, and otherwise the failing lines,
      cut off with a marker at the cap. */
  function Report<T>(header: Row, rows: seq<Row>, decode: (Row, Row) -> Option<T>):
    (r: Result<seq<T>, seq<ImportError>>)
  {
    var failed := FailedLines(header, rows, decode);
    if failed == [] then Ok(Decoded(header, rows, decode))
    else if |failed| <= MAX_ERRORS then Err(FormatErrors(failed))
    else Err(FormatErrors(failed[..MAX_ERRORS]) + [TooManyErrors(MAX_ERRORS)])
  }

  /** Reports on the shortest prefix of rows at which reading stops. */
  ghost predicate ReportsOnStop<T>(header: Row, rows: seq<Row>, decode: (Row, Row) -> Option<T>, maxRecords: nat,
                                      r: Result<seq<T>, seq<ImportError>>)
  {
    exists n ::
      && 0 <= n <= |rows| && Stops(header, rows, decode, maxRecords, n)
      && (forall m :: 0 <= m < n ==> !Stops(header, rows, decode, maxRecords, m))
      && r == Report(header, rows[..n], decode)
  }

  method FromBytes<T>(data: seq<Byte>, maxRecords: nat, decode: (Row, Row) -> Option<T>)
    returns (r: Result<seq<T>, seq<ImportError>>)
    ensures match ReadRecords(data)
            case Err(error) => r == Err([Refused(error)])
            case Ok(all) => if all == [] then r == Ok([])
                            else ReportsOnStop(all[0], all[1..], decode, maxRecords, r)
    ensures r.Ok? ==> |r.value| <= maxRecords
    ensures r.Err? ==> |r.error| <= MAX_ERRORS + 1
  {
    hide Verdict, Rows;
    var d := DetectDelimiter(data);
    var offence := ScanRecords(StripBom(data), d);
    if offence.Some? {
      return Err([Refused(offence.value)]);
    }
    var all := MapRows(Rows(StripBom(data), 0, d), Trim);
    if all == [] {
      return Ok([]);
    }
    r := ReadRows(all[0], all[1..], maxRecords, decode);
  }

  lemma NoRows<T>(header: Row, decode: (Row, Row) -> Option<T>)
    ensures Decoded(header, [], decode) == [] && FailedLines(header, [], decode) == []
  {}

  lemma NextRow<T>(header: Row, rows: seq<Row>, n: nat, decode: (Row, Row) -> Option<T>)
    requires n < |rows|
    ensures var res := DecodeRow(header, rows[n], decode);
            && Decoded(header, rows[..n + 1], decode)
               == Decoded(header, rows[..n], decode) + (if res.Some? then [res.value] else [])
            && FailedLines(header, rows[..n + 1], decode)
               == FailedLines(header, rows[..n], decode) + (if res.None? then [n + 2] else [])
  {
    assert rows[..n + 1][..n] == rows[..n];
  }

  method ReadRows<T>(header: Row, rows: seq<Row>, maxRecords: nat, decode: (Row, Row) -> Option<T>)
    returns (r: Result<seq<T>, seq<ImportError>>)
    ensures ReportsOnStop(header, rows, decode, maxRecords, r)
    ensures r.Ok? ==> |r.value| <= maxRecords
    ensures r.Err? ==> |r.error| <= MAX_ERRORS + 1
  {
    hide Decoded, FailedLines, DecodeRow;
    assert rows[..0] == [];
    NoRows(header, decode);
    var records: seq<T>, errors: seq<ImportError> := [], [];
    var index := 0;
    while |records| < maxRecords && index < |rows|
      invariant 0 <= index <= |rows|
      invariant records == Decoded(header, rows[..index], decode) && |records| <= maxRecords
      invariant |FailedLines(header, rows[..index], decode)| <= MAX_ERRORS
      invariant errors == FormatErrors(FailedLines(header, rows[..index], decode))
      invariant forall m :: 0 <= m < index ==> !Stops(header, rows, decode, maxRecords, m)
    {
      NextRow(header, rows, index, decode);
      assert !Stops(header, rows, decode, maxRecords, index);
      var res := DecodeRow(header, rows[index], decode);
      index := index + 1;
      match res
      case Some(record) => records := records + [record];
      case None =>
        if |errors| == MAX_ERRORS {
          errors := errors + [TooManyErrors(MAX_ERRORS)];
          break;
        }
        errors := errors + [FormatError(index + 1)];
    }
    assert Stops(header, rows, decode, maxRecords, index);
    return if errors == [] then Ok(records) else Err(errors);
  }

  /** A decoder that keeps the row as it is. */
  function KeepRow(header: Row, row: Row): Option<Row> {
    Some(row)
  }

  lemma {:induction false} KeptRowsDecode(header: Row, rows: seq<Row>)
    requires forall k :: 0 <= k < |rows| ==> |rows[k]| == |header|
    ensures Decoded(header, rows, KeepRow) == MapRows(rows, UnescapeFormula)
    ensures FailedLines(header, rows, KeepRow) == []
  {
    if rows == [] {
    } else {
      var n := |rows| - 1;
      KeptRowsDecode(header, rows[..n]);
      assert MapRows(rows, UnescapeFormula)
          == MapRows(rows[..n], UnescapeFormula) + [MapCells(rows[n], UnescapeFormula)];
    }
  }

  lemma KeptRowsAreReported(header: Row, rows: seq<Row>, maxRecords: nat, r: Result<seq<Row>, seq<ImportError>>)
    requires forall k :: 0 <= k < |rows| ==> |rows[k]| == |header|
    requires |rows| <= maxRecords && ReportsOnStop(header, rows, KeepRow, maxRecords, r)
    ensures r == Ok(MapRows(rows, UnescapeFormula))
  {
    hide UnescapeFormula, Decoded, FailedLines;
    var n :| && 0 <= n <= |rows| && Stops(header, rows, KeepRow, maxRecords, n)
             && r == Report(header, rows[..n], KeepRow);
    KeptRowsDecode(header, rows[..n]);
    assert n == |rows|;
    assert rows[..n] == rows;
    assert Report(header, rows[..n], KeepRow) == Ok(Decoded(header, rows[..n], KeepRow));
  }

  /** What reading an export hands to the row loop. */
  lemma ExportedRowsAreRead(header: Row, rows: seq<Row>)
    requires IsHeaderRow(header) && HeaderFits(header)
    requires forall k :: 0 <= k < |rows| ==> |rows[k]| == |header| && !LosesMark(rows[k])
    requires forall k, c :: 0 <= k < |rows| && 0 <= c < |rows[k]| ==> Trim(rows[k][c]) == rows[k][c]
    ensures ReadRecords(Export(header, rows)).Ok?
    ensures var all := ReadRecords(Export(header, rows)).value;
            && |all| == |rows| + 1
            && (forall k :: 0 <= k < |all| ==> |all[k]| == |header|)
            && MapRows(all[1..], UnescapeFormula) == rows
  {
    hide Trim, Export, ReadRecords, HeaderFits, LosesMark, UnescapeFormula, EscapeFormula;
    ReadBack(header, rows);
    ExportImportRoundTrip(header, rows);
    var all := ReadRecords(Export(header, rows)).value;
    assert all[0] == MapCells(header, Trim);
    assert MapRows(all[1..], UnescapeFormula) == rows;
    forall k | 1 <= k < |all| ensures |all[k]| == |header| {
      assert all[1..][k - 1] == all[k];
      assert MapCells(all[k], UnescapeFormula) == rows[k - 1];
    }
  }

  /** An export that round-trips, given to the import with room for its rows,
      comes back as exactly those rows. */
  method ImportExported(header: Row, rows: seq<Row>, maxRecords: nat) returns (r: Result<seq<Row>, seq<ImportError>>)
    requires IsHeaderRow(header) && HeaderFits(header) && |rows| <= maxRecords
    requires forall k :: 0 <= k < |rows| ==> |rows[k]| == |header| && !LosesMark(rows[k])
    requires forall k, c :: 0 <= k < |rows| && 0 <= c < |rows[k]| ==> Trim(rows[k][c]) == rows[k][c]
    ensures r == Ok(rows)
  {
    hide Trim, Export, ReadRecords, HeaderFits, LosesMark, ReportsOnStop, MapRows;
    ExportedRowsAreRead(header, rows);
    r := FromBytes(Export(header, rows), maxRecords, KeepRow);
    ghost var all := ReadRecords(Export(header, rows)).value;
    KeptRowsAreReported(all[0], all[1..], maxRecords, r);
  }

  // ----- the lines that errors name

  /** A row fails when it is not as wide as the header, or when its cells, freed of
      their escapes, do not decode. */
  ghost predicate Fails<T>(header: Row, row: Row, decode: (Row, Row) -> Option<T>) {
    |row| != |header| || exists cells: Row ::
      && |cells| == |row| && (forall c :: 0 <= c < |row| ==> cells[c] == UnescapeFormula(row[c]))
      && decode(header, cells).None?
  }

  lemma DecodeRowMeans<T>(header: Row, row: Row, decode: (Row, Row) -> Option<T>)
    ensures DecodeRow(header, row, decode).None? <==> Fails(header, row, decode)
  {
    hide UnescapeFormula;
    var unescaped := MapCells(row, UnescapeFormula);
    assert |unescaped| == |row| && forall c :: 0 <= c < |row| ==> unescaped[c] == UnescapeFormula(row[c]);
    if |row| == |header| && Fails(header, row, decode) {
      var cells: Row :| && |cells| == |row| && (forall c :: 0 <= c < |row| ==> cells[c] == UnescapeFormula(row[c]))
                        && decode(header, cells).None?;
      assert cells == unescaped;
    }
  }

  /** A failed row is reported by its ordinal, counting the header and from one. */
  lemma {:induction false} FailedLinesMeans<T>(header: Row, rows: seq<Row>, decode: (Row, Row) -> Option<T>, l: nat)
    ensures l in FailedLines(header, rows, decode)
            <==> 2 <= l < |rows| + 2 && Fails(header, rows[l - 2], decode)
  {
    hide DecodeRow, Fails;
    if rows == [] {
    } else {
      var n := |rows| - 1;
      FailedLinesMeans(header, rows[..n], decode, l);
      DecodeRowMeans(header, rows[n], decode);
    }
  }

  lemma {:induction false} AllDecoded<T>(header: Row, rows: seq<Row>, decode: (Row, Row) -> Option<T>)
    requires FailedLines(header, rows, decode) == []
    ensures |Decoded(header, rows, decode)| == |rows|
    ensures forall k :: 0 <= k < |rows| ==> DecodeRow(header, rows[k], decode) == Some(Decoded(header, rows, decode)[k])
  {
    hide DecodeRow;
    if rows == [] {
    } else {
      var n := |rows| - 1;
      AllDecoded(header, rows[..n], decode);
      assert forall k :: 0 <= k < n ==> rows[..n][k] == rows[k];
    }
  }

  /** A report is a success exactly when no row fails, and then holds what each row
      decodes to, in order. */
  lemma ReportMeans<T>(header: Row, rows: seq<Row>, decode: (Row, Row) -> Option<T>)
    ensures Report(header, rows, decode).Ok? <==> forall k :: 0 <= k < |rows| ==> !Fails(header, rows[k], decode)
    ensures var r := Report(header, rows, decode);
            r.Ok? ==> && |r.value| == |rows|
                      && forall k :: 0 <= k < |rows| ==>
                           decode(header, MapCells(rows[k], UnescapeFormula)) == Some(r.value[k])
  {
    var failed := FailedLines(header, rows, decode);
    if failed == [] {
      AllDecoded(header, rows, decode);
      hide FailedLines, Fails, UnescapeFormula, Decoded;
      forall k | 0 <= k < |rows| ensures !Fails(header, rows[k], decode) {
        FailedLinesMeans(header, rows, decode, k + 2);
      }
    } else {
      hide FailedLines, Fails, Decoded;
      FailedLinesMeans(header, rows, decode, failed[0]);
    }
  }

  /** The number of records that are not blank before the one at `m`. */
  function RowsBefore(rs: seq<Record>, m: nat): nat
    requires m <= |rs|
  {
    if m == 0 then 0 else (if Blank(rs[0]) then 0 else 1) + RowsBefore(rs[1..], m - 1)
  }

  /** Rows are the records that are not blank, in order. */
  lemma {:induction false} RowIsRecord(s: seq<Byte>, i: nat, d: Byte, m: nat)
    requires i <= |s| && m < |Records(s, i, d)| && !Blank(Records(s, i, d)[m])
    ensures var rs, k := Records(s, i, d), RowsBefore(Records(s, i, d), m);
            k < |Rows(s, i, d)| && Rows(s, i, d)[k] == Fields(s, rs[m].start, d)
    decreases m
  {
    hide RecordEnd, Separators, Fields, Records, Rows, Verdict;
    RecordsStep(s, i, d, false);
    RowsUnfold(s, i, d);
    if m == 0 {
    } else {
      var e := RecordEnd(s, i, d);
      RowIsRecord(s, e + 1, d, m - 1);
      assert Records(s, i, d)[1..] == Records(s, e + 1, d);
    }
  }

  lemma RowsUnfold(s: seq<Byte>, i: nat, d: Byte)
    requires i <= |s|
    ensures var e := RecordEnd(s, i, d);
            Rows(s, i, d) == (if e == i then [] else [Fields(s, i, d)]) + if e < |s| then Rows(s, e + 1, d) else []
  {
    hide RecordEnd, Fields;
  }

  /** The line feeds from `lo` to `hi`. */
  function FeedsIn(s: seq<Byte>, lo: nat, hi: nat): int
    requires lo <= |s| && hi <= |s|
  {
    LineFeeds(s, hi) - LineFeeds(s, lo)
  }

  /** How many lines a record with its end takes beyond the one a row is counted
      for, which a blank record is not. */
  function Surplus(s: seq<Byte>, r: Record): int
    requires r.start <= r.end < |s|
  {
    FeedsIn(s, r.start, r.end + 1) - if Blank(r) then 0 else 1
  }

  predicate Fits(s: seq<Byte>, rs: seq<Record>) {
    && (forall k :: 0 <= k < |rs| ==> rs[k].start <= rs[k].end <= |s|)
    && Tiles(s, rs)
  }

  function TotalSurplus(s: seq<Byte>, rs: seq<Record>, m: nat): int
    requires m < |rs| && Fits(s, rs)
  {
    if m == 0 then 0
    else
      TailFits(s, rs);
      Surplus(s, rs[0]) + TotalSurplus(s, rs[1..], m - 1)
  }

  lemma TailFits(s: seq<Byte>, rs: seq<Record>)
    requires |rs| > 1 && Fits(s, rs)
    ensures Fits(s, rs[1..]) && rs[0].end < |s| && rs[1].start == rs[0].end + 1
    ensures s[rs[0].end] == LF || s[rs[0].end] == CR
  {
    assert forall k :: 0 <= k < |rs[1..]| ==> rs[1..][k] == rs[k + 1];
  }

  lemma {:induction false} LinesAndRows(s: seq<Byte>, rs: seq<Record>, m: nat)
    requires m < |rs| && Fits(s, rs)
    ensures FeedsIn(s, rs[0].start, rs[m].start) == RowsBefore(rs, m) + TotalSurplus(s, rs, m)
  {
    hide LineFeeds;
    if m == 0 {
    } else {
      TailFits(s, rs);
      hide Fits;
      LinesAndRows(s, rs[1..], m - 1);
    }
  }

  /** The line a record starts on, as the bounds check reports it. */
  function StartLine(s: seq<Byte>, r: Record): nat
    requires r.start <= |s|
  {
    1 + LineFeeds(s, r.start)
  }

  /** The line a row that fails to decode is reported under. */
  function ReportedLine(rs: seq<Record>, m: nat): nat
    requires m < |rs|
  {
    RowsBefore(rs, m) + 1
  }

  /** The two line numbers of a record agree exactly when the records before it take
      as many lines as there are rows among them. */
  lemma LinesAgreeWhenBalanced(s: seq<Byte>, d: Byte, m: nat)
    requires m < |Records(s, 0, d)|
    ensures var rs := Records(s, 0, d);
            Fits(s, rs) && (ReportedLine(rs, m) == StartLine(s, rs[m]) <==> TotalSurplus(s, rs, m) == 0)
  {
    RecordsFit(s, d);
    assert LineFeeds(s, 0) == 0;
    hide Records, Fits, LineFeeds, TotalSurplus, RowsBefore;
    LinesAndRows(s, Records(s, 0, d), m);
  }

  lemma RecordsFit(s: seq<Byte>, d: Byte)
    ensures Fits(s, Records(s, 0, d)) && Records(s, 0, d)[0].start == 0
  {
    hide Tiles;
    RecordsTile(s, 0, d);
  }

  /** Not blank, and all on one line. */
  predicate IsOneLine(s: seq<Byte>, r: Record)
    requires r.start <= r.end <= |s|
  {
    !Blank(r) && FeedsIn(s, r.start, r.end) == 0
  }

  lemma {:induction false} FeedsGrow(s: seq<Byte>, lo: nat, hi: nat)
    requires lo <= hi <= |s|
    ensures FeedsIn(s, lo, hi) >= 0
  {
    if hi == lo {
    } else {
      FeedsGrow(s, lo, hi - 1);
    }
  }

  lemma SurplusOf(s: seq<Byte>, r: Record)
    requires r.start <= r.end < |s| && s[r.end] == LF
    ensures Surplus(s, r) >= 0 && (Surplus(s, r) == 0 <==> IsOneLine(s, r))
  {
    FeedsGrow(s, r.start, r.end);
  }

  predicate AllOneLine(s: seq<Byte>, rs: seq<Record>, m: nat)
    requires m < |rs| && Fits(s, rs)
  {
    forall k :: 0 <= k < m ==> IsOneLine(s, rs[k])
  }

  lemma AllOneLineStep(s: seq<Byte>, rs: seq<Record>, m: nat)
    requires 0 < m < |rs| && Fits(s, rs) && Fits(s, rs[1..])
    ensures AllOneLine(s, rs, m) <==> IsOneLine(s, rs[0]) && AllOneLine(s, rs[1..], m - 1)
  {
    hide IsOneLine;
    assert forall k :: 0 <= k < m - 1 ==> rs[1..][k] == rs[k + 1];
    if IsOneLine(s, rs[0]) && AllOneLine(s, rs[1..], m - 1) {
      forall k | 0 <= k < m ensures IsOneLine(s, rs[k]) {
        assert k > 0 ==> rs[1..][k - 1] == rs[k];
      }
    }
  }

  lemma {:induction false} NoSurplusMeansOneLine(s: seq<Byte>, rs: seq<Record>, m: nat)
    requires m < |rs| && Fits(s, rs) && CR !in s
    ensures TotalSurplus(s, rs, m) >= 0
    ensures TotalSurplus(s, rs, m) == 0 <==> AllOneLine(s, rs, m)
  {
    if m == 0 {
    } else {
      TailFits(s, rs);
      hide Fits, Surplus, AllOneLine, IsOneLine;
      NoSurplusMeansOneLine(s, rs[1..], m - 1);
      SurplusOf(s, rs[0]);
      AllOneLineStep(s, rs, m);
    }
  }

  /** In a file whose lines end in a line feed alone, the two agree on a record
      exactly when no blank line and no quoted line break comes before it. */
  lemma LinesAgreeWithoutSurprises(s: seq<Byte>, d: Byte, m: nat)
    requires m < |Records(s, 0, d)| && CR !in s
    ensures var rs := Records(s, 0, d);
            Fits(s, rs) && (ReportedLine(rs, m) == StartLine(s, rs[m]) <==> AllOneLine(s, rs, m))
  {
    hide Records, Fits, AllOneLine, TotalSurplus;
    LinesAgreeWhenBalanced(s, d, m);
    NoSurplusMeansOneLine(s, Records(s, 0, d), m);
  }

  /** A record, a blank line and another record. */
  const WITH_BLANK_LINE: seq<Byte> := [97, LF, LF, 98]

  lemma RecordsWithBlankLine()
    ensures Records(WITH_BLANK_LINE, 0, COMMA) == [Record(0, 1, 0), Record(2, 2, 0), Record(3, 4, 0)]
  {
    var s, d := WITH_BLANK_LINE, COMMA;
    assert FieldEnd(s, 0, d) == 1 && FieldEnd(s, 2, d) == 2 && FieldEnd(s, 3, d) == 4 by {
      assert SkipPlain(s, 1, d) == 1 && SkipPlain(s, 4, d) == 4;
    }
    hide FieldEnd;
    assert RecordEnd(s, 0, d) == 1 && RecordEnd(s, 2, d) == 2 && RecordEnd(s, 3, d) == 4;
    assert Separators(s, 0, d) == 0 && Separators(s, 2, d) == 0 && Separators(s, 3, d) == 0;
    hide RecordEnd, Separators, Records, Verdict;
    RecordsStep(s, 0, d, false);
    RecordsStep(s, 2, d, false);
    RecordsStep(s, 3, d, false);
  }

  /** The record on the third line is reported under the second. */
  lemma BlankLineShows()
    ensures var rs := Records(WITH_BLANK_LINE, 0, COMMA);
            |rs| == 3 && ReportedLine(rs, 2) == 2 && StartLine(WITH_BLANK_LINE, rs[2]) == 3
  {
    hide Records;
    RecordsWithBlankLine();
    var rs := [Record(0, 1, 0), Record(2, 2, 0), Record(3, 4, 0)];
    assert rs[1..][1..] == [Record(3, 4, 0)] && RowsBefore(rs[1..][1..], 0) == 0;
    assert RowsBefore(rs[1..], 1) == 0 && RowsBefore(rs, 2) == 1;
    FeedsBefore(WITH_BLANK_LINE);
  }

  lemma FeedsBefore(s: seq<Byte>)
    requires |s| >= 3
    ensures LineFeeds(s, 3)
            == (if s[0] == LF then 1 else 0) + (if s[1] == LF then 1 else 0) + if s[2] == LF then 1 else 0
  {
    assert LineFeeds(s, 1) == LineFeeds(s, 0) + if s[0] == LF then 1 else 0;
    assert LineFeeds(s, 2) == LineFeeds(s, 1) + if s[1] == LF then 1 else 0;
    assert LineFeeds(s, 3) == LineFeeds(s, 2) + if s[2] == LF then 1 else 0;
  }
}
