/**
 Logical CSV records: the grammar of section 2 of RFC 4180 with either line
 break as a record end and blank lines skipped, and the single-pass bounds
 check that runs over an upload before any field of it is materialised.
 */
module CsvRecords {
  import opened Sequences

  type Byte = b: int | 0 <= b < 256

  const LF: Byte := 10
  const CR: Byte := 13
  const QUOTE: Byte := 34
  const COMMA: Byte := 44
  const SEMICOLON: Byte := 59

  const UTF8_BOM: seq<Byte> := [0xEF, 0xBB, 0xBF]

  const MAX_HEADER_LINE_BYTES := 4096
  const MAX_HEADER_FIELDS := 64

  datatype CsvError = HeaderTooLarge | RecordTooWide(lineNumber: nat)

  predicate IsLineBreak(b: Byte) {
    b == LF || b == CR
  }

  function StripBom(data: seq<Byte>): seq<Byte> {
    if UTF8_BOM <= data then data[|UTF8_BOM|..] else data
  }

  // ----- the record grammar, by position

  /** Where quoted text ends: just past the next lone quote. */
  function SkipQuoted(s: seq<Byte>, i: nat): (e: nat)
    requires i <= |s|
    ensures i <= e <= |s|
    decreases |s| - i
  {
    if i == |s| then i
    else if s[i] != QUOTE then SkipQuoted(s, i + 1)
    else if i + 1 < |s| && s[i + 1] == QUOTE then SkipQuoted(s, i + 2)
    else i + 1
  }

  /** Where unquoted text ends: at a separator, a line break or the end. */
  function SkipPlain(s: seq<Byte>, i: nat, d: Byte): (e: nat)
    requires i <= |s|
    ensures i <= e <= |s|
    ensures e < |s| ==> s[e] == d || IsLineBreak(s[e])
    decreases |s| - i
  {
    if i == |s| || s[i] == d || IsLineBreak(s[i]) then i else SkipPlain(s, i + 1, d)
  }

  /** A field is optional quoted text followed by unquoted text. */
  function FieldEnd(s: seq<Byte>, i: nat, d: Byte): (e: nat)
    requires i <= |s|
    ensures i <= e <= |s|
    ensures e < |s| ==> s[e] == d || IsLineBreak(s[e])
  {
    SkipPlain(s, if i < |s| && s[i] == QUOTE then SkipQuoted(s, i + 1) else i, d)
  }

  /** Whether another field of the same record follows the one ending at `e`. */
  predicate Continues(s: seq<Byte>, e: nat) {
    e < |s| && !IsLineBreak(s[e])
  }

  function RecordEnd(s: seq<Byte>, i: nat, d: Byte): (e: nat)
    requires i <= |s|
    ensures i <= e <= |s|
    ensures e < |s| ==> IsLineBreak(s[e])
    decreases |s| - i
  {
    var e := FieldEnd(s, i, d);
    if Continues(s, e) then RecordEnd(s, e + 1, d) else e
  }

  function Separators(s: seq<Byte>, i: nat, d: Byte): nat
    requires i <= |s|
    decreases |s| - i
  {
    var e := FieldEnd(s, i, d);
    if Continues(s, e) then 1 + Separators(s, e + 1, d) else 0
  }

  datatype Record = Record(start: nat, end: nat, separators: nat)

  predicate Blank(r: Record) {
    r.start == r.end
  }

  /** The logical records from position `i` on, blank ones included. */
  function Records(s: seq<Byte>, i: nat, d: Byte): (rs: seq<Record>)
    requires i <= |s|
    ensures rs != [] && rs[0].start == i
    ensures forall k :: 0 <= k < |rs| ==> rs[k].start <= rs[k].end <= |s|
    decreases |s| - i
  {
    var e := RecordEnd(s, i, d);
    [Record(i, e, Separators(s, i, d))] + if e < |s| then Records(s, e + 1, d) else []
  }

  /** The header is the first record that is not blank. */
  predicate IsHeader(rs: seq<Record>, k: nat)
    requires k < |rs|
  {
    !Blank(rs[k]) && forall j :: 0 <= j < k ==> Blank(rs[j])
  }

  /** `mayBeHeader` tells whether no record before `rs` was a header. */
  predicate Offends(rs: seq<Record>, k: nat, mayBeHeader: bool)
    requires k < |rs|
  {
    || rs[k].separators >= MAX_HEADER_FIELDS
    || (mayBeHeader && IsHeader(rs, k) && rs[k].end - rs[k].start > MAX_HEADER_LINE_BYTES)
  }

  /** The number of line feeds among the first `n` bytes. */
  function LineFeeds(s: seq<Byte>, n: nat): nat
    requires n <= |s|
  {
    if n == 0 then 0 else LineFeeds(s, n - 1) + if s[n - 1] == LF then 1 else 0
  }

  function OffenceOf(s: seq<Byte>, rs: seq<Record>, k: nat, mayBeHeader: bool): CsvError
    requires k < |rs| && rs[k].start <= |s|
  {
    if mayBeHeader && IsHeader(rs, k) then HeaderTooLarge
    else RecordTooWide(1 + LineFeeds(s, rs[k].start))
  }

  // ----- the records tile the data

  lemma {:induction false} RecordsTile(s: seq<Byte>, i: nat, d: Byte)
    requires i <= |s|
    ensures var rs := Records(s, i, d); rs[|rs| - 1].end == |s| && Tiles(s, rs)
    decreases |s| - i
  {
    hide RecordEnd, Separators, Tiles, Records, Verdict, LineFeeds;
    var e := RecordEnd(s, i, d);
    var first := Record(i, e, Separators(s, i, d));
    RecordsStep(s, i, d, true);
    if e == |s| {
      OneTile(s, first);
      assert Records(s, i, d) == [first];
    } else {
      RecordsTile(s, e + 1, d);
      TileOnTop(s, first, Records(s, e + 1, d));
    }
  }

  /** Consecutive records are one line break apart. */
  predicate Tiles(s: seq<Byte>, rs: seq<Record>) {
    forall k :: 0 <= k < |rs| - 1 ==>
      rs[k].end < |s| && IsLineBreak(s[rs[k].end]) && rs[k + 1].start == rs[k].end + 1
  }

  lemma OneTile(s: seq<Byte>, r: Record)
    ensures Tiles(s, [r])
  {}

  lemma TileOnTop(s: seq<Byte>, r: Record, rest: seq<Record>)
    requires rest != [] && Tiles(s, rest)
    requires r.end < |s| && IsLineBreak(s[r.end]) && rest[0].start == r.end + 1
    ensures Tiles(s, [r] + rest)
  {
    var rs := [r] + rest;
    forall k | 0 <= k < |rs| - 1
      ensures rs[k].end < |s| && IsLineBreak(s[rs[k].end]) && rs[k + 1].start == rs[k].end + 1
    {
      assert rs[k + 1] == rest[k] && (k > 0 ==> rs[k] == rest[k - 1]);
    }
  }

  // ----- the bounds check

  /** The check record by record. */
  function Verdict(s: seq<Byte>, i: nat, d: Byte, mayBeHeader: bool): Option<CsvError>
    requires i <= |s|
    decreases |s| - i
  {
    var e := RecordEnd(s, i, d);
    if Separators(s, i, d) >= MAX_HEADER_FIELDS then Some(TooWide(mayBeHeader, 1 + LineFeeds(s, i)))
    else if mayBeHeader && e - i > MAX_HEADER_LINE_BYTES then Some(HeaderTooLarge)
    else if e < |s| then Verdict(s, e + 1, d, mayBeHeader && e == i)
    else None
  }

  function TooWide(isHeader: bool, lineNumber: nat): CsvError {
    if isHeader then HeaderTooLarge else RecordTooWide(lineNumber)
  }

  /** What a verdict promises about the records from `i` on. */
  predicate VerdictMeans(s: seq<Byte>, rs: seq<Record>, mayBeHeader: bool, v: Option<CsvError>)
    requires forall k :: 0 <= k < |rs| ==> rs[k].start <= |s|
  {
    match v
    case None => forall k :: 0 <= k < |rs| ==> !Offends(rs, k, mayBeHeader)
    case Some(error) =>
      exists k ::
        && 0 <= k < |rs| && Offends(rs, k, mayBeHeader)
        && (forall j :: 0 <= j < k ==> !Offends(rs, j, mayBeHeader))
        && error == OffenceOf(s, rs, k, mayBeHeader)
  }

  lemma SeparatorsNeedBytes(s: seq<Byte>, i: nat, d: Byte)
    requires i <= |s| && Separators(s, i, d) > 0
    ensures RecordEnd(s, i, d) > i
  {}

  lemma OffendsShift(r: Record, rest: seq<Record>, k: nat, mayBeHeader: bool)
    requires k < |rest|
    ensures Offends([r] + rest, k + 1, mayBeHeader) <==> Offends(rest, k, mayBeHeader && Blank(r))
    ensures mayBeHeader && IsHeader([r] + rest, k + 1) <==> mayBeHeader && Blank(r) && IsHeader(rest, k)
  {
    var rs := [r] + rest;
    assert forall j :: 0 <= j < |rest| ==> rs[j + 1] == rest[j];
    assert rs[0] == r;
    if mayBeHeader && Blank(r) && IsHeader(rest, k) {
      forall j | 0 <= j < k + 1 ensures Blank(rs[j]) {
        assert j > 0 ==> rs[j] == rest[j - 1];
      }
    }
    if IsHeader(rs, k + 1) {
      forall j | 0 <= j < k ensures Blank(rest[j]) {
        assert rest[j] == rs[j + 1];
      }
    }
  }

  lemma ShiftVerdict(s: seq<Byte>, r: Record, rest: seq<Record>, mayBeHeader: bool, v: Option<CsvError>)
    requires !Offends([r] + rest, 0, mayBeHeader)
    requires forall k :: 0 <= k < |rest| ==> rest[k].start <= |s|
    requires r.start <= |s|
    requires VerdictMeans(s, rest, mayBeHeader && Blank(r), v)
    ensures VerdictMeans(s, [r] + rest, mayBeHeader, v)
  {
    var rs, inner := [r] + rest, mayBeHeader && Blank(r);
    forall k | 1 <= k < |rs|
      ensures Offends(rs, k, mayBeHeader) <==> Offends(rest, k - 1, inner)
      ensures OffenceOf(s, rs, k, mayBeHeader) == OffenceOf(s, rest, k - 1, inner)
    {
      OffendsShift(r, rest, k - 1, mayBeHeader);
    }
    if v.Some? {
      var k :| && 0 <= k < |rest| && Offends(rest, k, inner)
               && (forall j :: 0 <= j < k ==> !Offends(rest, j, inner))
               && v.value == OffenceOf(s, rest, k, inner);
      assert Offends(rs, k + 1, mayBeHeader);
    }
  }

  lemma FirstOffends(s: seq<Byte>, rs: seq<Record>, mayBeHeader: bool)
    requires rs != [] && (forall k :: 0 <= k < |rs| ==> rs[k].start <= |s|) && Offends(rs, 0, mayBeHeader)
    ensures VerdictMeans(s, rs, mayBeHeader, Some(OffenceOf(s, rs, 0, mayBeHeader)))
  {}

  lemma {:induction false} VerdictMeaning(s: seq<Byte>, i: nat, d: Byte, mayBeHeader: bool)
    requires i <= |s|
    ensures VerdictMeans(s, Records(s, i, d), mayBeHeader, Verdict(s, i, d, mayBeHeader))
    decreases |s| - i
  {
    hide RecordEnd, Separators, LineFeeds, Records, Verdict, VerdictMeans;
    var e, n := RecordEnd(s, i, d), Separators(s, i, d);
    var first, rs := Record(i, e, n), Records(s, i, d);
    RecordsStep(s, i, d, mayBeHeader);
    if n > 0 {
      SeparatorsNeedBytes(s, i, d);
    }
    if n >= MAX_HEADER_FIELDS || (mayBeHeader && e - i > MAX_HEADER_LINE_BYTES) {
      FirstOffends(s, rs, mayBeHeader);
    } else if e < |s| {
      VerdictMeaning(s, e + 1, d, mayBeHeader && e == i);
      ShiftVerdict(s, first, Records(s, e + 1, d), mayBeHeader, Verdict(s, e + 1, d, mayBeHeader && e == i));
    } else {
      assert rs == [first];
      NothingOffends(s, first, mayBeHeader);
    }
  }

  lemma RecordsStep(s: seq<Byte>, i: nat, d: Byte, mayBeHeader: bool)
    requires i <= |s|
    ensures var e, n := RecordEnd(s, i, d), Separators(s, i, d);
            && Records(s, i, d) == [Record(i, e, n)] + (if e < |s| then Records(s, e + 1, d) else [])
            && Verdict(s, i, d, mayBeHeader)
               == if n >= MAX_HEADER_FIELDS then Some(TooWide(mayBeHeader, 1 + LineFeeds(s, i)))
                  else if mayBeHeader && e - i > MAX_HEADER_LINE_BYTES then Some(HeaderTooLarge)
                  else if e < |s| then Verdict(s, e + 1, d, mayBeHeader && e == i)
                  else None
  {
    hide RecordEnd, Separators, LineFeeds;
  }

  lemma NothingOffends(s: seq<Byte>, r: Record, mayBeHeader: bool)
    requires r.start <= |s| && !Offends([r], 0, mayBeHeader)
    ensures VerdictMeans(s, [r], mayBeHeader, None)
  {}

  // ----- the scanner, one byte at a time

  /** Where the field being scanned ends, from the scanner's own state. */
  function ScanFieldEnd(s: seq<Byte>, i: nat, d: Byte, quoted: bool, atFieldStart: bool): (e: nat)
    requires i <= |s|
    ensures i <= e <= |s|
  {
    if quoted then SkipPlain(s, SkipQuoted(s, i), d)
    else if atFieldStart then FieldEnd(s, i, d)
    else SkipPlain(s, i, d)
  }

  /** The scanner is inside the record at `start` and has counted `separators`
      of its separators; the field it is in ends at `e`. */
  predicate InRecord(s: seq<Byte>, d: Byte, start: nat, separators: nat, e: nat)
    requires start <= |s| && e <= |s|
  {
    && RecordEnd(s, start, d) == (if Continues(s, e) then RecordEnd(s, e + 1, d) else e)
    && Separators(s, start, d) == separators + (if Continues(s, e) then 1 + Separators(s, e + 1, d) else 0)
  }

  predicate Scanned(s: seq<Byte>, d: Byte, i: nat, start: nat, separators: nat,
                    quoted: bool, atFieldStart: bool, isHeader: bool)
  {
    && start <= i <= |s|
    && separators < MAX_HEADER_FIELDS
    && (quoted ==> !atFieldStart)
    && InRecord(s, d, start, separators, ScanFieldEnd(s, i, d, quoted, atFieldStart))
    && Verdict(s, 0, d, true) == Verdict(s, start, d, isHeader)
  }

  lemma ScanStart(s: seq<Byte>, d: Byte)
    ensures Scanned(s, d, 0, 0, 0, false, true, true)
  {}

  /** Text inside quotes: a doubled quote counts as text, a lone one closes. */
  lemma ScanQuoted(s: seq<Byte>, d: Byte, i: nat, start: nat, separators: nat, isHeader: bool)
    requires i < |s| && Scanned(s, d, i, start, separators, true, false, isHeader)
    ensures var doubled := i + 1 < |s| && s[i + 1] == QUOTE;
            if s[i] == QUOTE && doubled then Scanned(s, d, i + 2, start, separators, true, false, isHeader)
            else Scanned(s, d, i + 1, start, separators, s[i] != QUOTE, false, isHeader)
  {
    var doubled := i + 1 < |s| && s[i + 1] == QUOTE;
    if s[i] == QUOTE && doubled {
      assert ScanFieldEnd(s, i + 2, d, true, false) == ScanFieldEnd(s, i, d, true, false);
    } else {
      assert ScanFieldEnd(s, i + 1, d, s[i] != QUOTE, false) == ScanFieldEnd(s, i, d, true, false);
    }
  }

  lemma ScanOpenQuote(s: seq<Byte>, d: Byte, i: nat, start: nat, separators: nat, isHeader: bool)
    requires i < |s| && Scanned(s, d, i, start, separators, false, true, isHeader) && s[i] == QUOTE
    ensures Scanned(s, d, i + 1, start, separators, true, false, isHeader)
  {
    assert ScanFieldEnd(s, i + 1, d, true, false) == ScanFieldEnd(s, i, d, false, true);
  }

  lemma ScanPlain(s: seq<Byte>, d: Byte, i: nat, start: nat, separators: nat, atFieldStart: bool, isHeader: bool)
    requires i < |s| && Scanned(s, d, i, start, separators, false, atFieldStart, isHeader)
    requires !IsLineBreak(s[i]) && s[i] != d && !(s[i] == QUOTE && atFieldStart)
    ensures Scanned(s, d, i + 1, start, separators, false, false, isHeader)
  {
    assert ScanFieldEnd(s, i + 1, d, false, false) == ScanFieldEnd(s, i, d, false, atFieldStart);
  }

  lemma FieldEndsHere(s: seq<Byte>, i: nat, d: Byte, atFieldStart: bool)
    requires i < |s| && (s[i] == d || IsLineBreak(s[i])) && !(s[i] == QUOTE && atFieldStart)
    ensures ScanFieldEnd(s, i, d, false, atFieldStart) == i
  {}

  lemma ScanSeparator(s: seq<Byte>, d: Byte, i: nat, start: nat, separators: nat, atFieldStart: bool, isHeader: bool)
    requires i < |s| && Scanned(s, d, i, start, separators, false, atFieldStart, isHeader)
    requires !IsLineBreak(s[i]) && s[i] == d && !(s[i] == QUOTE && atFieldStart)
    ensures separators + 1 < MAX_HEADER_FIELDS ==> Scanned(s, d, i + 1, start, separators + 1, false, true, isHeader)
    ensures separators + 1 == MAX_HEADER_FIELDS ==>
              Verdict(s, 0, d, true) == Some(TooWide(isHeader, 1 + LineFeeds(s, start)))
  {
    hide ScanFieldEnd, FieldEnd, RecordEnd, Separators, LineFeeds, Verdict;
    FieldEndsHere(s, i, d, atFieldStart);
    assert RecordEnd(s, start, d) == RecordEnd(s, i + 1, d);
    assert Separators(s, start, d) == separators + 1 + Separators(s, i + 1, d);
    hide InRecord;
    NextField(s, d, start, separators, i);
    TooManySeparators(s, start, d, isHeader);
  }

  /** Past a separator the record goes on with its next field. */
  lemma NextField(s: seq<Byte>, d: Byte, start: nat, separators: nat, i: nat)
    requires start <= i < |s|
    requires RecordEnd(s, start, d) == RecordEnd(s, i + 1, d)
    requires Separators(s, start, d) == separators + 1 + Separators(s, i + 1, d)
    ensures InRecord(s, d, start, separators + 1, ScanFieldEnd(s, i + 1, d, false, true))
  {
    NextRecordStarts(s, d, i + 1);
    hide RecordEnd, Separators, ScanFieldEnd;
  }

  lemma TooManySeparators(s: seq<Byte>, start: nat, d: Byte, isHeader: bool)
    requires start <= |s|
    ensures Separators(s, start, d) >= MAX_HEADER_FIELDS ==>
              Verdict(s, start, d, isHeader) == Some(TooWide(isHeader, 1 + LineFeeds(s, start)))
  {
    hide RecordEnd, Separators, LineFeeds;
  }

  lemma ScanLineBreak(s: seq<Byte>, d: Byte, i: nat, start: nat, separators: nat, atFieldStart: bool, isHeader: bool)
    requires i < |s| && Scanned(s, d, i, start, separators, false, atFieldStart, isHeader)
    requires IsLineBreak(s[i])
    ensures if isHeader && i - start > MAX_HEADER_LINE_BYTES then Verdict(s, 0, d, true) == Some(HeaderTooLarge)
            else Scanned(s, d, i + 1, i + 1, 0, false, true, isHeader && i == start)
  {
    hide FieldEnd, ScanFieldEnd, RecordEnd, Separators, LineFeeds;
    FieldEndsHere(s, i, d, atFieldStart);
    assert RecordEnd(s, start, d) == i && Separators(s, start, d) == separators;
    NextRecordStarts(s, d, i + 1);
  }

  lemma NextRecordStarts(s: seq<Byte>, d: Byte, start: nat)
    requires start <= |s|
    ensures InRecord(s, d, start, 0, ScanFieldEnd(s, start, d, false, true))
  {}

  lemma ScanEnd(s: seq<Byte>, d: Byte, start: nat, separators: nat, quoted: bool, atFieldStart: bool, isHeader: bool)
    requires Scanned(s, d, |s|, start, separators, quoted, atFieldStart, isHeader)
    ensures Verdict(s, 0, d, true)
            == if isHeader && |s| - start > MAX_HEADER_LINE_BYTES then Some(HeaderTooLarge) else None
  {
    assert RecordEnd(s, start, d) == |s| && Separators(s, start, d) == separators;
  }

  /** Accepts exactly when no record offends, and otherwise reports the first
      offending record: the header for its width or length, any other record
      for its width, with the line it starts on. */
  method CheckRecordBounds(bytes: seq<Byte>, delimiter: Byte) returns (offence: Option<CsvError>)
    ensures VerdictMeans(StripBom(bytes), Records(StripBom(bytes), 0, delimiter), true, offence)
  {
    var data := StripBom(bytes);
    offence := ScanRecords(data, delimiter);
    VerdictMeaning(data, 0, delimiter, true);
  }

  /** The single pass over the bytes. */
  method ScanRecords(data: seq<Byte>, delimiter: Byte) returns (offence: Option<CsvError>)
    ensures offence == Verdict(data, 0, delimiter, true)
  {
    hide InRecord, Verdict, RecordEnd, Separators, ScanFieldEnd;
    ScanStart(data, delimiter);
    var isHeader, lineNumber, recordLine, recordStart, separators := true, 1, 1, 0, 0;
    var quoted, atFieldStart := false, true;
    var index := 0;
    while index < |data|
      invariant Scanned(data, delimiter, index, recordStart, separators, quoted, atFieldStart, isHeader)
      invariant lineNumber == 1 + LineFeeds(data, index)
      invariant recordLine == 1 + LineFeeds(data, recordStart)
    {
      var byte := data[index];
      index := index + 1;
      if byte == LF {
        lineNumber := lineNumber + 1;
      }
      if quoted {
        ScanQuoted(data, delimiter, index - 1, recordStart, separators, isHeader);
        if byte == QUOTE {
          if index < |data| && data[index] == QUOTE {
            index := index + 1;
          } else {
            quoted := false;
          }
        }
        continue;
      }
      var at := index - 1;
      if byte == QUOTE && atFieldStart {
        ScanOpenQuote(data, delimiter, at, recordStart, separators, isHeader);
        quoted := true;
        atFieldStart := false;
      } else if IsLineBreak(byte) {
        ScanLineBreak(data, delimiter, at, recordStart, separators, atFieldStart, isHeader);
        var empty := at == recordStart;
        if isHeader && !empty {
          if at - recordStart > MAX_HEADER_LINE_BYTES {
            return Some(HeaderTooLarge);
          }
          isHeader := false;
        }
        recordLine := lineNumber;
        recordStart := at + 1;
        separators := 0;
        atFieldStart := true;
      } else if byte == delimiter {
        ScanSeparator(data, delimiter, at, recordStart, separators, atFieldStart, isHeader);
        separators := separators + 1;
        if separators >= MAX_HEADER_FIELDS {
          return Some(TooWide(isHeader, recordLine));
        }
        atFieldStart := true;
      } else {
        ScanPlain(data, delimiter, at, recordStart, separators, atFieldStart, isHeader);
        atFieldStart := false;
      }
    }
    ScanEnd(data, delimiter, recordStart, separators, quoted, atFieldStart, isHeader);
    if isHeader && |data| - recordStart > MAX_HEADER_LINE_BYTES {
      return Some(HeaderTooLarge);
    }
    return None;
  }
}
