/**
 Exporting rows as CSV and reading them back: formula escaping, quoting,
 delimiter detection, parsing, trimming and unescaping.
 */
module CsvExport {
  import opened Sequences
  import opened CsvRecords

  type Cell = seq<Byte>
  type Row = seq<Cell>

  const APOSTROPHE: Byte := 39

  // ----- formula escaping

  /** The first bytes a spreadsheet evaluates as a formula. */
  const FORMULA_STARTS: set<Byte> := {61, 43, 45, 64, 9, 13}

  predicate StartsWithFormulaTrigger(cell: Cell) {
    cell != [] && (cell[0] in FORMULA_STARTS || cell[0] == APOSTROPHE)
  }

  function EscapeFormula(cell: Cell): (r: Cell)
    ensures r != [] ==> r[0] !in FORMULA_STARTS
  {
    if StartsWithFormulaTrigger(cell) then [APOSTROPHE] + cell else cell
  }

  function UnescapeFormula(cell: Cell): Cell {
    if cell != [] && cell[0] == APOSTROPHE && StartsWithFormulaTrigger(cell[1..]) then cell[1..] else cell
  }

  /** Import undoes export on every cell, also one that starts with a quote. */
  lemma UnescapeUndoesEscape(cell: Cell)
    ensures UnescapeFormula(EscapeFormula(cell)) == cell
  {
    assert ([APOSTROPHE] + cell)[1..] == cell;
  }

  /** What an escape with an apostrophe gives, for some cell that needs one. */
  ghost predicate IsEscaped(cell: Cell) {
    exists plain: Cell :: EscapeFormula(plain) == cell && EscapeFormula(plain) != plain
  }

  /** Import strips an apostrophe exactly where export would have put it, so one
      typed by hand before any other character stays. */
  lemma UnescapeStripsOnlyEscapes(cell: Cell)
    ensures UnescapeFormula(cell) != cell <==> IsEscaped(cell)
    ensures UnescapeFormula(cell) != cell ==> EscapeFormula(UnescapeFormula(cell)) == cell
  {
    if UnescapeFormula(cell) != cell {
      assert cell == [cell[0]] + cell[1..];
      assert EscapeFormula(cell[1..]) == cell;
    }
    if IsEscaped(cell) {
      var plain: Cell :| EscapeFormula(plain) == cell && EscapeFormula(plain) != plain;
      UnescapeUndoesEscape(plain);
    }
  }

  /** No exported cell starts with =, +, -, @, a tab or a carriage return; nothing
      else is escaped but an apostrophe. */
  lemma EscapedIsNoFormula(cell: Cell)
    ensures EscapeFormula(cell) == [] || EscapeFormula(cell)[0] !in {61, 43, 45, 64, 9, 13}
    ensures EscapeFormula(cell) != cell ==> cell != [] && cell[0] in {61, 43, 45, 64, 9, 13, 39}
    ensures EscapeFormula(cell) != cell ==> EscapeFormula(cell) == [39] + cell
  {}

  /** The name of a town that is written with an apostrophe comes in as it is. */
  lemma TownKeepsItsApostrophe(rest: Cell)
    ensures UnescapeFormula([39, 115] + rest) == [39, 115] + rest
  {
    var cell := [39, 115] + rest;
    assert cell[1] == 115 && cell[1..][0] == 115;
  }

  // ----- trimming, on the UTF-8 encodings of white space

  predicate IsSpace(x: seq<Byte>) {
    || (|x| == 1 && (9 <= x[0] <= 13 || x[0] == 32))
    || (|x| == 2 && x[0] == 0xC2 && (x[1] == 0x85 || x[1] == 0xA0))
    || (|x| == 3 && x == [0xE1, 0x9A, 0x80])
    || (|x| == 3 && x[0] == 0xE2 && x[1] == 0x80
        && (0x80 <= x[2] <= 0x8A || x[2] == 0xA8 || x[2] == 0xA9 || x[2] == 0xAF))
    || (|x| == 3 && x == [0xE2, 0x81, 0x9F])
    || (|x| == 3 && x == [0xE3, 0x80, 0x80])
  }

  function LeadingSpace(s: seq<Byte>): (n: nat)
    ensures n <= |s|
  {
    if |s| >= 1 && IsSpace(s[..1]) then 1
    else if |s| >= 2 && IsSpace(s[..2]) then 2
    else if |s| >= 3 && IsSpace(s[..3]) then 3
    else 0
  }

  function TrailingSpace(s: seq<Byte>): (n: nat)
    ensures n <= |s|
  {
    if |s| >= 1 && IsSpace(s[|s| - 1..]) then 1
    else if |s| >= 2 && IsSpace(s[|s| - 2..]) then 2
    else if |s| >= 3 && IsSpace(s[|s| - 3..]) then 3
    else 0
  }

  function TrimStart(s: seq<Byte>): (r: seq<Byte>)
    ensures |r| <= |s| && (LeadingSpace(s) > 0 ==> |r| < |s|)
  {
    var n := LeadingSpace(s);
    if n == 0 then s else TrimStart(s[n..])
  }

  function TrimEnd(s: seq<Byte>): (r: seq<Byte>)
    ensures |r| <= |s| && (TrailingSpace(s) > 0 ==> |r| < |s|)
  {
    var n := TrailingSpace(s);
    if n == 0 then s else TrimEnd(s[..|s| - n])
  }

  function Trim(s: seq<Byte>): (r: seq<Byte>)
    ensures |r| <= |s|
  {
    TrimEnd(TrimStart(s))
  }

  /** A run of white space. */
  predicate IsSpaces(s: seq<Byte>) {
    s == [] || exists n :: 1 <= n <= |s| && IsSpace(s[..n]) && IsSpaces(s[n..])
  }

  lemma SpaceInFront(x: seq<Byte>, s: seq<Byte>)
    requires IsSpace(x) && IsSpaces(s)
    ensures IsSpaces(x + s)
  {
    hide IsSpace;
    assert (x + s)[..|x|] == x && (x + s)[|x|..] == s;
    assert |x| >= 1 by {
      SpaceIsSomething(x);
    }
  }

  lemma SpaceIsSomething(x: seq<Byte>)
    requires IsSpace(x)
    ensures 1 <= |x| <= 3
  {}

  lemma {:induction false} SpaceBehind(s: seq<Byte>, x: seq<Byte>)
    requires IsSpace(x) && IsSpaces(s)
    ensures IsSpaces(s + x)
    decreases |s|
  {
    hide IsSpace;
    if s == [] {
      SpaceInFront(x, []);
      assert s + x == x + [];
    } else {
      var n :| 1 <= n <= |s| && IsSpace(s[..n]) && IsSpaces(s[n..]);
      SpaceBehind(s[n..], x);
      SpaceInFront(s[..n], s[n..] + x);
      assert s + x == s[..n] + (s[n..] + x);
    }
  }

  lemma SpaceIsFound(s: seq<Byte>)
    ensures LeadingSpace(s) > 0 ==> IsSpace(s[..LeadingSpace(s)])
    ensures TrailingSpace(s) > 0 ==> IsSpace(s[|s| - TrailingSpace(s)..])
  {
    hide IsSpace;
  }

  lemma TrimSteps(s: seq<Byte>)
    ensures TrimStart(s) == if LeadingSpace(s) == 0 then s else TrimStart(s[LeadingSpace(s)..])
    ensures TrimEnd(s) == if TrailingSpace(s) == 0 then s else TrimEnd(s[..|s| - TrailingSpace(s)])
  {
    hide LeadingSpace, TrailingSpace;
  }

  lemma NoSpaces()
    ensures IsSpaces([])
  {}

  lemma {:induction false} TrimStartMeans(s: seq<Byte>) returns (a: seq<Byte>)
    ensures IsSpaces(a) && s == a + TrimStart(s)
    ensures LeadingSpace(TrimStart(s)) == 0
    decreases |s|
  {
    hide IsSpace, IsSpaces, LeadingSpace, TrailingSpace, TrimStart, TrimEnd;
    TrimSteps(s);
    var n := LeadingSpace(s);
    if n == 0 {
      NoSpaces();
      a := [];
    } else {
      SpaceIsFound(s);
      var rest := TrimStartMeans(s[n..]);
      SpaceInFront(s[..n], rest);
      a := s[..n] + rest;
      Regroup(s[..n], rest, TrimStart(s));
      assert s == s[..n] + s[n..];
    }
  }

  lemma Regroup(a: seq<Byte>, b: seq<Byte>, c: seq<Byte>)
    ensures a + (b + c) == (a + b) + c
  {}

  lemma {:induction false} TrimEndMeans(s: seq<Byte>) returns (b: seq<Byte>)
    ensures IsSpaces(b) && s == TrimEnd(s) + b
    ensures TrailingSpace(TrimEnd(s)) == 0
    decreases |s|
  {
    hide IsSpace, IsSpaces, LeadingSpace, TrailingSpace, TrimStart, TrimEnd;
    TrimSteps(s);
    var n := TrailingSpace(s);
    if n == 0 {
      NoSpaces();
      b := [];
    } else {
      SpaceIsFound(s);
      var front, x := s[..|s| - n], s[|s| - n..];
      var rest := TrimEndMeans(front);
      SpaceBehind(rest, x);
      b := rest + x;
      Regroup(TrimEnd(s), rest, x);
      assert s == front + x;
    }
  }

  lemma TrimEndKeepsStart(s: seq<Byte>, r: seq<Byte>)
    requires r <= s && LeadingSpace(s) == 0
    ensures LeadingSpace(r) == 0
  {
    hide IsSpace;
    assert |r| >= 1 ==> r[..1] == s[..1];
    assert |r| >= 2 ==> r[..2] == s[..2];
    assert |r| >= 3 ==> r[..3] == s[..3];
  }

  /** Trimming takes white space off both ends, all of it and nothing else. */
  lemma TrimMeans(s: seq<Byte>)
    ensures exists a, b :: IsSpaces(a) && IsSpaces(b) && s == a + Trim(s) + b
    ensures LeadingSpace(Trim(s)) == 0 && TrailingSpace(Trim(s)) == 0
  {
    hide IsSpace, IsSpaces, TrimStart, TrimEnd, LeadingSpace, TrailingSpace;
    var a := TrimStartMeans(s);
    var t := TrimStart(s);
    var b := TrimEndMeans(t);
    TrimEndKeepsStart(t, TrimEnd(t));
    Regroup(a, Trim(s), b);
    assert s == a + Trim(s) + b;
  }

  lemma TrimmedHasNoSpace(s: seq<Byte>)
    ensures Trim(s) == s <==> LeadingSpace(s) == 0 && TrailingSpace(s) == 0
  {
    hide IsSpace, LeadingSpace, TrailingSpace;
  }

  lemma ApostropheIsNoSpace(x: seq<Byte>)
    requires x != [] && x[0] == APOSTROPHE
    ensures !IsSpace(x)
  {}

  lemma NoSpaceBeforeApostrophe(e: Cell)
    requires e != [] && e[0] == APOSTROPHE
    ensures LeadingSpace(e) == 0
  {
    hide IsSpace;
    ApostropheIsNoSpace(e[..1]);
    if |e| >= 2 { ApostropheIsNoSpace(e[..2]); }
    if |e| >= 3 { ApostropheIsNoSpace(e[..3]); }
  }

  /** The last `n` bytes are not a space; stands for either outcome when there
      are fewer. */
  predicate NoSpaceAtEnd(s: Cell, n: nat) {
    n <= |s| ==> !IsSpace(s[|s| - n..])
  }

  lemma NoTrailingSpaceMeans(s: Cell)
    ensures TrailingSpace(s) == 0 <==> NoSpaceAtEnd(s, 1) && NoSpaceAtEnd(s, 2) && NoSpaceAtEnd(s, 3)
  {
    hide IsSpace;
  }

  lemma ApostropheAddsNoSpace(cell: Cell, n: nat)
    requires NoSpaceAtEnd(cell, n)
    ensures NoSpaceAtEnd([APOSTROPHE] + cell, n) || n == 0
  {
    hide IsSpace;
    var e := [APOSTROPHE] + cell;
    if 0 < n <= |cell| {
      assert e[|e| - n..] == cell[|cell| - n..];
    } else if n == |e| {
      assert e[|e| - n..] == e;
      ApostropheIsNoSpace(e);
    }
  }

  /** A trimmed cell stays trimmed when it is escaped. */
  lemma EscapedStaysTrimmed(cell: Cell)
    requires Trim(cell) == cell
    ensures Trim(EscapeFormula(cell)) == EscapeFormula(cell)
  {
    hide Trim, LeadingSpace, TrailingSpace, NoSpaceAtEnd;
    var e := [APOSTROPHE] + cell;
    TrimmedHasNoSpace(cell);
    TrimmedHasNoSpace(e);
    NoSpaceBeforeApostrophe(e);
    NoTrailingSpaceMeans(cell);
    NoTrailingSpaceMeans(e);
    ApostropheAddsNoSpace(cell, 1);
    ApostropheAddsNoSpace(cell, 2);
    ApostropheAddsNoSpace(cell, 3);
  }

  // ----- parsing: the text of the fields of a record

  function QuotedText(s: seq<Byte>, i: nat): Cell
    requires i <= |s|
    decreases |s| - i
  {
    if i == |s| then []
    else if s[i] != QUOTE then [s[i]] + QuotedText(s, i + 1)
    else if i + 1 < |s| && s[i + 1] == QUOTE then [QUOTE] + QuotedText(s, i + 2)
    else []
  }

  function FieldText(s: seq<Byte>, i: nat, d: Byte): Cell
    requires i <= |s|
  {
    var e := FieldEnd(s, i, d);
    if i < |s| && s[i] == QUOTE then QuotedText(s, i + 1) + s[SkipQuoted(s, i + 1)..e] else s[i..e]
  }

  function Fields(s: seq<Byte>, i: nat, d: Byte): (row: Row)
    requires i <= |s|
    ensures row != []
    decreases |s| - i
  {
    var e := FieldEnd(s, i, d);
    [FieldText(s, i, d)] + if Continues(s, e) then Fields(s, e + 1, d) else []
  }

  /** The fields of every record that is not blank. */
  function Rows(s: seq<Byte>, i: nat, d: Byte): (rows: seq<Row>)
    requires i <= |s|
    ensures forall k :: 0 <= k < |rows| ==> rows[k] != []
    decreases |s| - i
  {
    var e := RecordEnd(s, i, d);
    (if e == i then [] else [Fields(s, i, d)]) + if e < |s| then Rows(s, e + 1, d) else []
  }

  // ----- printing

  predicate IsSpecial(b: Byte, d: Byte) {
    b == d || b == QUOTE || IsLineBreak(b)
  }

  predicate NeedsQuotes(cell: Cell, d: Byte) {
    exists k :: 0 <= k < |cell| && IsSpecial(cell[k], d)
  }

  function Doubled(cell: Cell): seq<Byte> {
    if cell == [] then []
    else (if cell[0] == QUOTE then [QUOTE, QUOTE] else [cell[0]]) + Doubled(cell[1..])
  }

  function PrintField(cell: Cell, d: Byte): seq<Byte> {
    if NeedsQuotes(cell, d) then [QUOTE] + Doubled(cell) + [QUOTE] else cell
  }

  function PrintFields(row: Row, d: Byte): seq<Byte>
    requires row != []
  {
    if |row| == 1 then PrintField(row[0], d)
    else PrintField(row[0], d) + [d] + PrintFields(row[1..], d)
  }

  /** A record of one empty field is printed as a pair of quotes, since an
      empty line would not be a record. */
  function PrintRecord(row: Row, d: Byte): seq<Byte>
    requires row != []
  {
    (if row == [[]] then [QUOTE, QUOTE] else PrintFields(row, d)) + [LF]
  }

  function PrintRecords(rows: seq<Row>, d: Byte): seq<Byte>
    requires forall k :: 0 <= k < |rows| ==> rows[k] != []
  {
    if rows == [] then [] else PrintRecord(rows[0], d) + PrintRecords(rows[1..], d)
  }

  // ----- parsing what was printed

  /** `text` stands in `s` at position `i`. */
  predicate At(s: seq<Byte>, i: nat, text: seq<Byte>) {
    i + |text| <= |s| && s[i..i + |text|] == text
  }

  predicate FieldStops(s: seq<Byte>, e: nat, d: Byte) {
    e <= |s| && (e < |s| ==> s[e] == d || IsLineBreak(s[e]))
  }

  predicate IsSeparator(d: Byte) {
    d != QUOTE && !IsLineBreak(d)
  }

  lemma AtSplit(s: seq<Byte>, i: nat, a: seq<Byte>, b: seq<Byte>)
    ensures At(s, i, a + b) <==> At(s, i, a) && At(s, i + |a|, b)
  {
    if At(s, i, a + b) {
      assert s[i..i + |a|] == (a + b)[..|a|];
      assert s[i + |a|..i + |a| + |b|] == (a + b)[|a|..];
    }
    if At(s, i, a) && At(s, i + |a|, b) {
      assert s[i..i + |a + b|] == s[i..i + |a|] + s[i + |a|..i + |a| + |b|];
    }
  }

  lemma AtByte(s: seq<Byte>, i: nat, b: Byte)
    ensures At(s, i, [b]) <==> i < |s| && s[i] == b
  {}

  lemma AtFits(s: seq<Byte>, i: nat, text: seq<Byte>)
    requires At(s, i, text)
    ensures i + |text| <= |s|
  {}

  lemma {:induction false} PlainTextIsSkipped(s: seq<Byte>, i: nat, cell: Cell, d: Byte)
    requires At(s, i, cell) && !NeedsQuotes(cell, d) && FieldStops(s, i + |cell|, d)
    ensures SkipPlain(s, i, d) == i + |cell|
    decreases |cell|
  {
    if cell == [] {
    } else {
      assert s[i] == cell[0] && !IsSpecial(cell[0], d);
      assert forall k :: 0 <= k < |cell[1..]| ==> cell[1..][k] == cell[k + 1];
      AtSplit(s, i, cell[..1], cell[1..]);
      assert cell == cell[..1] + cell[1..];
      PlainTextIsSkipped(s, i + 1, cell[1..], d);
    }
  }

  lemma QuotedStep(s: seq<Byte>, i: nat)
    requires i < |s|
    ensures s[i] != QUOTE ==> SkipQuoted(s, i) == SkipQuoted(s, i + 1)
                              && QuotedText(s, i) == [s[i]] + QuotedText(s, i + 1)
    ensures s[i] == QUOTE ==>
              if i + 1 < |s| && s[i + 1] == QUOTE
              then SkipQuoted(s, i) == SkipQuoted(s, i + 2) && QuotedText(s, i) == [QUOTE] + QuotedText(s, i + 2)
              else SkipQuoted(s, i) == i + 1 && QuotedText(s, i) == []
  {}

  lemma DoubledStep(cell: Cell)
    requires cell != []
    ensures Doubled(cell) == (if cell[0] == QUOTE then [QUOTE, QUOTE] else [cell[0]]) + Doubled(cell[1..])
  {}

  /** The first byte of a doubled text, and where the rest of it starts. */
  lemma DoubledAt(s: seq<Byte>, i: nat, cell: Cell)
    requires cell != [] && At(s, i, Doubled(cell))
    ensures var n := if cell[0] == QUOTE then 2 else 1;
            && |Doubled(cell)| == n + |Doubled(cell[1..])|
            && i + n <= |s| && s[i] == cell[0] && (n == 2 ==> s[i + 1] == QUOTE)
            && At(s, i + n, Doubled(cell[1..]))
  {
    hide At, Doubled;
    var b, rest := cell[0], Doubled(cell[1..]);
    DoubledStep(cell);
    AtByte(s, i, b);
    if b == QUOTE {
      AtSplit(s, i, [QUOTE, QUOTE], rest);
      assert [QUOTE, QUOTE] == [QUOTE] + [QUOTE];
      AtSplit(s, i, [QUOTE], [QUOTE]);
      AtByte(s, i + 1, b);
    } else {
      AtSplit(s, i, [b], rest);
    }
  }

  lemma {:induction false} QuotedTextIsRead(s: seq<Byte>, i: nat, cell: Cell)
    requires At(s, i, Doubled(cell)) && At(s, i + |Doubled(cell)|, [QUOTE])
    requires var e := i + |Doubled(cell)| + 1; e < |s| ==> s[e] != QUOTE
    ensures i <= |s| && SkipQuoted(s, i) == i + |Doubled(cell)| + 1
    ensures QuotedText(s, i) == cell
    decreases |cell|
  {
    hide At, Doubled, SkipQuoted, QuotedText;
    AtByte(s, i + |Doubled(cell)|, QUOTE);
    QuotedStep(s, i);
    if cell == [] {
      NothingDoubled(cell);
    } else {
      DoubledAt(s, i, cell);
      QuotedTextIsRead(s, if cell[0] == QUOTE then i + 2 else i + 1, cell[1..]);
      HeadAndTail(cell);
    }
  }

  lemma NothingDoubled(cell: Cell)
    requires cell == []
    ensures Doubled(cell) == []
  {}

  lemma StopsHere(s: seq<Byte>, e: nat, d: Byte)
    requires FieldStops(s, e, d)
    ensures SkipPlain(s, e, d) == e
  {}

  lemma QuotedFieldIsRead(s: seq<Byte>, i: nat, cell: Cell, d: Byte)
    requires At(s, i, [QUOTE] + Doubled(cell) + [QUOTE]) && FieldStops(s, i + |Doubled(cell)| + 2, d)
    requires IsSeparator(d)
    ensures i <= |s| && FieldEnd(s, i, d) == i + |Doubled(cell)| + 2 && FieldText(s, i, d) == cell
  {
    hide At, Doubled, SkipQuoted, SkipPlain, QuotedText;
    var e := i + |Doubled(cell)| + 2;
    AtSplit(s, i, [QUOTE] + Doubled(cell), [QUOTE]);
    AtSplit(s, i, [QUOTE], Doubled(cell));
    AtByte(s, i, QUOTE);
    QuotedTextIsRead(s, i + 1, cell);
    StopsHere(s, e, d);
    assert s[e..e] == [];
  }

  /** Text between a closing quote and the end of the field belongs to the field. */
  lemma TextBehindQuotesIsRead(s: seq<Byte>, i: nat, cell: Cell, behind: Cell, d: Byte)
    requires IsSeparator(d) && !NeedsQuotes(behind, d)
    requires At(s, i, ([QUOTE] + Doubled(cell) + [QUOTE]) + behind)
    requires FieldStops(s, i + |Doubled(cell)| + 2 + |behind|, d)
    ensures i <= |s| && FieldEnd(s, i, d) == i + |Doubled(cell)| + 2 + |behind|
    ensures FieldText(s, i, d) == cell + behind
  {
    hide Doubled, SkipQuoted, SkipPlain, QuotedText;
    var e := i + |Doubled(cell)| + 2;
    AtSplit(s, i, [QUOTE] + Doubled(cell) + [QUOTE], behind);
    AtSplit(s, i, [QUOTE] + Doubled(cell), [QUOTE]);
    AtSplit(s, i, [QUOTE], Doubled(cell));
    AtByte(s, i, QUOTE);
    assert e < |s| ==> s[e] != QUOTE by {
      if behind != [] {
        assert s[e] == behind[0] && !IsSpecial(behind[0], d);
      }
    }
    PlainTextIsSkipped(s, e, behind, d);
    assert s[e..e + |behind|] == behind;
    hide At;
    QuotedTextIsRead(s, i + 1, cell);
  }

  lemma PlainFieldIsRead(s: seq<Byte>, i: nat, cell: Cell, d: Byte)
    requires At(s, i, cell) && !NeedsQuotes(cell, d) && FieldStops(s, i + |cell|, d)
    requires IsSeparator(d)
    ensures FieldEnd(s, i, d) == i + |cell| && FieldText(s, i, d) == cell
  {
    PlainTextIsSkipped(s, i, cell, d);
    hide SkipPlain, SkipQuoted, QuotedText;
    assert s[i..i + |cell|] == cell;
    if cell != [] {
      assert s[i] == cell[0] && !IsSpecial(cell[0], d);
    }
  }

  /** A printed field is read back whatever it contains. */
  lemma PrintedFieldIsRead(s: seq<Byte>, i: nat, cell: Cell, d: Byte)
    requires IsSeparator(d)
    requires At(s, i, PrintField(cell, d)) && FieldStops(s, i + |PrintField(cell, d)|, d)
    ensures FieldEnd(s, i, d) == i + |PrintField(cell, d)|
    ensures FieldText(s, i, d) == cell
  {
    hide At, FieldStops, FieldEnd, FieldText, Doubled, NeedsQuotes;
    if NeedsQuotes(cell, d) {
      QuotedFieldIsRead(s, i, cell, d);
    } else {
      PlainFieldIsRead(s, i, cell, d);
    }
  }

  /** One field of a record at a time. */
  lemma RecordStep(s: seq<Byte>, i: nat, d: Byte)
    requires i <= |s|
    ensures var e := FieldEnd(s, i, d);
            if Continues(s, e)
            then && RecordEnd(s, i, d) == RecordEnd(s, e + 1, d)
                 && Separators(s, i, d) == 1 + Separators(s, e + 1, d)
                 && Fields(s, i, d) == [FieldText(s, i, d)] + Fields(s, e + 1, d)
            else RecordEnd(s, i, d) == e && Separators(s, i, d) == 0 && Fields(s, i, d) == [FieldText(s, i, d)]
  {
    hide FieldEnd, FieldText;
  }

  lemma PrintStep(row: Row, d: Byte)
    requires row != []
    ensures PrintFields(row, d) == if |row| == 1 then PrintField(row[0], d)
                                   else (PrintField(row[0], d) + [d]) + PrintFields(row[1..], d)
  {
    hide PrintField;
  }

  /** A printed record of n fields is scanned as one record with n - 1
      separators, and its fields are read back. */
  lemma {:induction false} PrintedFieldsAreRead(s: seq<Byte>, i: nat, row: Row, d: Byte)
    requires IsSeparator(d) && row != []
    requires At(s, i, PrintFields(row, d))
    requires var e := i + |PrintFields(row, d)|; e < |s| ==> IsLineBreak(s[e])
    ensures Fields(s, i, d) == row
    ensures RecordEnd(s, i, d) == i + |PrintFields(row, d)|
    ensures Separators(s, i, d) == |row| - 1
    decreases |row|
  {
    hide FieldEnd, FieldText, PrintField, PrintFields, Fields, RecordEnd, Separators, At;
    var first := PrintField(row[0], d);
    AtFits(s, i, PrintFields(row, d));
    PrintStep(row, d);
    RecordStep(s, i, d);
    if |row| == 1 {
      PrintedFieldIsRead(s, i, row[0], d);
    } else {
      var rest := PrintFields(row[1..], d);
      AtSplit(s, i, first + [d], rest);
      AtSplit(s, i, first, [d]);
      AtByte(s, i + |first|, d);
      PrintedFieldIsRead(s, i, row[0], d);
      PrintedFieldsAreRead(s, i + |first| + 1, row[1..], d);
      HeadAndTail(row);
    }
  }

  lemma PrintedRecordIsRead(s: seq<Byte>, i: nat, row: Row, d: Byte)
    requires IsSeparator(d) && row != [] && At(s, i, PrintRecord(row, d))
    ensures var e := i + |PrintRecord(row, d)| - 1;
            && i < e < |s| && s[e] == LF
            && RecordEnd(s, i, d) == e
            && Fields(s, i, d) == row
            && Separators(s, i, d) == |row| - 1
  {
    hide FieldEnd, FieldText, PrintFields, RecordEnd, Fields, Separators, At;
    if row == [[]] {
      AtSplit(s, i, [QUOTE, QUOTE], [LF]);
      assert [QUOTE, QUOTE] == [QUOTE] + [QUOTE];
      AtSplit(s, i, [QUOTE], [QUOTE]);
      AtByte(s, i, QUOTE);
      AtByte(s, i + 1, QUOTE);
      AtByte(s, i + 2, LF);
      QuotePairIsRead(s, i, d);
    } else {
      var text := PrintFields(row, d);
      AtSplit(s, i, text, [LF]);
      AtByte(s, i + |text|, LF);
      PrintedFieldsAreRead(s, i, row, d);
      PrintedFieldsNotEmpty(row, d);
    }
  }

  lemma QuotePairIsRead(s: seq<Byte>, i: nat, d: Byte)
    requires i + 2 < |s| && s[i] == QUOTE && s[i + 1] == QUOTE && s[i + 2] == LF
    ensures RecordEnd(s, i, d) == i + 2 && Fields(s, i, d) == [[]] && Separators(s, i, d) == 0
  {
    assert SkipQuoted(s, i + 1) == i + 2;
    assert SkipPlain(s, i + 2, d) == i + 2;
    assert FieldEnd(s, i, d) == i + 2;
    assert QuotedText(s, i + 1) == [];
    assert FieldText(s, i, d) == [];
  }

  lemma PrintedFieldsNotEmpty(row: Row, d: Byte)
    requires row != [] && row != [[]]
    ensures PrintFields(row, d) != []
  {}

  /** One record of the data at a time. */
  lemma RowsStep(s: seq<Byte>, i: nat, d: Byte)
    requires i <= |s| && i < RecordEnd(s, i, d) < |s|
    ensures Rows(s, i, d) == [Fields(s, i, d)] + Rows(s, RecordEnd(s, i, d) + 1, d)
  {
    hide RecordEnd, Fields;
  }

  lemma NothingAtTheEnd(s: seq<Byte>, d: Byte, mayBeHeader: bool)
    ensures Rows(s, |s|, d) == [] && Verdict(s, |s|, d, mayBeHeader) == None
  {}

  lemma PrintRecordsStep(rows: seq<Row>, d: Byte)
    requires forall k :: 0 <= k < |rows| ==> rows[k] != []
    ensures PrintRecords(rows, d)
            == if rows == [] then [] else PrintRecord(rows[0], d) + PrintRecords(rows[1..], d)
  {
    hide PrintRecord;
  }

  /** What was printed record by record is read back row by row. */
  lemma {:induction false} PrintedRecordsAreRead(s: seq<Byte>, i: nat, rows: seq<Row>, d: Byte)
    requires IsSeparator(d) && forall k :: 0 <= k < |rows| ==> rows[k] != []
    requires At(s, i, PrintRecords(rows, d)) && i + |PrintRecords(rows, d)| == |s|
    ensures Rows(s, i, d) == rows
    decreases |rows|
  {
    hide At, PrintRecord, PrintRecords, RecordEnd, Fields, Separators, Rows;
    PrintRecordsStep(rows, d);
    if rows == [] {
      NothingAtTheEnd(s, d, false);
    } else {
      var first := PrintRecord(rows[0], d);
      AtSplit(s, i, first, PrintRecords(rows[1..], d));
      PrintedRecordIsRead(s, i, rows[0], d);
      RowsStep(s, i, d);
      PrintedRecordsAreRead(s, i + |first|, rows[1..], d);
      HeadAndTail(rows);
    }
  }

  // ----- export

  function MapCells(row: Row, f: Cell -> Cell): (r: Row)
    ensures |r| == |row| && forall k :: 0 <= k < |row| ==> r[k] == f(row[k])
  {
    seq(|row|, k requires 0 <= k < |row| => f(row[k]))
  }

  /** A record goes through a staging writer and reader with the default
      separator before it is escaped; the reader drops a leading byte-order
      mark like any other. */
  function Staged(row: Row): Option<Row>
    requires row != []
  {
    var rows := Rows(StripBom(PrintRecord(row, COMMA)), 0, COMMA);
    if rows == [] then None else Some(rows[0])
  }

  function WriteRecordSafely(row: Row): seq<Byte>
    requires row != []
  {
    match Staged(row)
    case None => []
    case Some(staged) =>
      if staged == [] then [] else PrintRecord(MapCells(staged, EscapeFormula), SEMICOLON)
  }

  function WriteRecords(rows: seq<Row>): seq<Byte>
    requires forall k :: 0 <= k < |rows| ==> rows[k] != []
  {
    if rows == [] then [] else WriteRecordSafely(rows[0]) + WriteRecords(rows[1..])
  }

  function Export(header: Row, rows: seq<Row>): seq<Byte>
    requires header != [] && forall k :: 0 <= k < |rows| ==> rows[k] != []
  {
    UTF8_BOM + PrintRecord(header, SEMICOLON) + WriteRecords(rows)
  }

  // ----- import

  function FirstLine(data: seq<Byte>): seq<Byte> {
    if data == [] || data[0] == LF then [] else [data[0]] + FirstLine(data[1..])
  }

  function Count(s: seq<Byte>, b: Byte): nat {
    if s == [] then 0 else (if s[0] == b then 1 else 0) + Count(s[1..], b)
  }

  function DetectDelimiter(data: seq<Byte>): Byte {
    var line := FirstLine(data);
    if Count(line, SEMICOLON) > Count(line, COMMA) then SEMICOLON else COMMA
  }

  /** Where a byte stands before the first line feed. */
  function FirstLineHits(data: seq<Byte>, b: Byte): set<nat> {
    set i | 0 <= i < |data| && data[i] == b && forall j :: 0 <= j < i ==> data[j] != LF
  }

  function IsByte(b: Byte): Byte -> bool {
    x => x == b
  }

  lemma {:induction false} CountIsIndices(s: seq<Byte>, b: Byte)
    ensures Count(s, b) == |Indices(s, IsByte(b))|
  {
    if s == [] {
    } else {
      var n := |s| - 1;
      CountIsIndices(s[..n], b);
      IndicesStep(s, IsByte(b));
      assert s == s[..n] + [s[n]];
      CountConcat(s[..n], [s[n]], b);
      assert Count([s[n]], b) == if s[n] == b then 1 else 0;
    }
  }

  lemma {:induction false} FirstLineMeans(data: seq<Byte>)
    ensures FirstLine(data) <= data && LF !in FirstLine(data)
    ensures |FirstLine(data)| < |data| ==> data[|FirstLine(data)|] == LF
  {
    if data == [] || data[0] == LF {
    } else {
      FirstLineMeans(data[1..]);
      HeadAndTail(data);
    }
  }

  lemma CountIsHits(data: seq<Byte>, b: Byte)
    requires b != LF
    ensures Count(FirstLine(data), b) == |FirstLineHits(data, b)|
  {
    hide FirstLine, Count;
    var line := FirstLine(data);
    FirstLineMeans(data);
    CountIsIndices(line, b);
    assert forall i :: 0 <= i < |line| ==> line[i] == data[i];
    assert Indices(line, IsByte(b)) == FirstLineHits(data, b);
  }

  /** The delimiter is a semicolon exactly when more semicolons than commas come
      before the first line feed, and otherwise a comma. */
  lemma DelimiterMeans(data: seq<Byte>)
    ensures DetectDelimiter(data) == SEMICOLON
            <==> |FirstLineHits(data, SEMICOLON)| > |FirstLineHits(data, COMMA)|
    ensures DetectDelimiter(data) == SEMICOLON || DetectDelimiter(data) == COMMA
  {
    hide FirstLineHits;
    CountIsHits(data, SEMICOLON);
    CountIsHits(data, COMMA);
  }

  function MapRows(rows: seq<Row>, f: Cell -> Cell): (r: seq<Row>)
    ensures |r| == |rows| && forall k :: 0 <= k < |rows| ==> r[k] == MapCells(rows[k], f)
  {
    seq(|rows|, k requires 0 <= k < |rows| => MapCells(rows[k], f))
  }

  /** All records of an upload that passed the bounds check, trimmed. */
  function ReadRecords(data: seq<Byte>): Result<seq<Row>, CsvError> {
    var d := DetectDelimiter(data);
    match Verdict(StripBom(data), 0, d, true)
    case Some(error) => Err(error)
    case None => Ok(MapRows(Rows(StripBom(data), 0, d), Trim))
  }

  /** The data rows of an upload, below its header, unescaped. */
  function ImportRows(data: seq<Byte>): Result<seq<Row>, CsvError> {
    match ReadRecords(data)
    case Err(error) => Err(error)
    case Ok(records) => Ok(if records == [] then [] else MapRows(records[1..], UnescapeFormula))
  }

  // ----- the round trip

  predicate IsName(name: Cell) {
    forall k :: 0 <= k < |name| ==> !IsSpecial(name[k], SEMICOLON) && name[k] != COMMA
  }

  /** Two or more names free of separators, quotes and line breaks. */
  predicate IsHeaderRow(header: Row) {
    |header| >= 2 && forall k :: 0 <= k < |header| ==> IsName(header[k])
  }

  predicate HeaderFitsWith(header: Row, d: Byte)
    requires header != []
  {
    |header| <= MAX_HEADER_FIELDS && |PrintFields(header, d)| <= MAX_HEADER_LINE_BYTES
  }

  predicate HeaderFits(header: Row)
    requires header != []
  {
    HeaderFitsWith(header, SEMICOLON)
  }

  /** The two delimiters an upload can have. */
  predicate IsDelimiter(d: Byte) {
    d == SEMICOLON || d == COMMA
  }

  function Other(d: Byte): Byte {
    if d == COMMA then SEMICOLON else COMMA
  }

  /** A row whose first cell starts with a byte-order mark and is staged
      without quotes: the staging reader takes the mark for its own. */
  predicate LosesMark(row: Row)
    requires row != []
  {
    UTF8_BOM <= row[0] && !NeedsQuotes(row[0], COMMA)
  }

  function WithoutMark(row: Row): (r: Row)
    requires row != []
    ensures |r| == |row|
  {
    if LosesMark(row) then row[0 := row[0][3..]] else row
  }

  lemma PrintRecordSplits(row: Row, d: Byte)
    requires |row| >= 2
    ensures PrintRecord(row, d) == PrintField(row[0], d) + ([d] + PrintFields(row[1..], d) + [LF])
  {
    hide PrintField;
  }

  lemma MarkIsStripped(s: seq<Byte>)
    ensures StripBom(UTF8_BOM + s) == s
  {
    assert (UTF8_BOM + s)[|UTF8_BOM|..] == s;
  }

  lemma RestNeedsNoQuotes(cell: Cell, n: nat)
    requires n <= |cell| && !NeedsQuotes(cell, COMMA)
    ensures PrintField(cell, COMMA) == cell && PrintField(cell[n..], COMMA) == cell[n..]
  {
    assert forall k :: 0 <= k < |cell[n..]| ==> cell[n..][k] == cell[k + n];
  }

  lemma MarkInFront(cell: Cell, tail: seq<Byte>)
    requires UTF8_BOM <= cell
    ensures cell + tail == UTF8_BOM + (cell[3..] + tail)
  {}

  lemma StripMark(row: Row)
    requires |row| >= 2 && LosesMark(row)
    ensures StripBom(PrintRecord(row, COMMA)) == PrintRecord(WithoutMark(row), COMMA)
  {
    hide StripBom, PrintRecord, PrintFields, PrintField, NeedsQuotes;
    var stripped, cell := WithoutMark(row), row[0][3..];
    assert stripped[0] == cell && stripped[1..] == row[1..];
    var tail := [COMMA] + PrintFields(row[1..], COMMA) + [LF];
    RestNeedsNoQuotes(row[0], 3);
    PrintRecordSplits(row, COMMA);
    PrintRecordSplits(stripped, COMMA);
    MarkInFront(row[0], tail);
    MarkIsStripped(cell + tail);
  }

  lemma NothingToStrip(row: Row)
    requires |row| >= 2 && !LosesMark(row)
    ensures !(UTF8_BOM <= PrintRecord(row, COMMA))
  {
    var bytes, first := PrintRecord(row, COMMA), PrintField(row[0], COMMA);
    PrintRecordSplits(row, COMMA);
    hide PrintRecord, PrintFields, Doubled;
    assert bytes[|first|] == COMMA;
    assert forall k :: 0 <= k < |first| ==> bytes[k] == first[k];
    assert NeedsQuotes(row[0], COMMA) ==> bytes[0] == QUOTE;
    assert UTF8_BOM <= bytes ==> |first| >= 3;
  }

  /** Staging keeps every row but for a byte-order mark it opens with. */
  lemma StagingKeepsRow(row: Row)
    requires |row| >= 2
    ensures Staged(row) == Some(WithoutMark(row))
  {
    if LosesMark(row) { StripMark(row); } else { NothingToStrip(row); }
    hide PrintRecord, Rows;
    var s := PrintRecord(WithoutMark(row), COMMA);
    var rows := [WithoutMark(row)];
    assert PrintRecords(rows[1..], COMMA) == [];
    assert PrintRecords(rows, COMMA) == s;
    PrintedRecordsAreRead(s, 0, rows, COMMA);
  }

  function Written(rows: seq<Row>): (r: seq<Row>)
    requires forall k :: 0 <= k < |rows| ==> rows[k] != []
    ensures |r| == |rows|
    ensures forall k :: 0 <= k < |rows| ==> r[k] == MapCells(WithoutMark(rows[k]), EscapeFormula) && r[k] != []
  {
    seq(|rows|, k requires 0 <= k < |rows| => MapCells(WithoutMark(rows[k]), EscapeFormula))
  }

  lemma {:induction false} WriteRecordsPrints(rows: seq<Row>)
    requires forall k :: 0 <= k < |rows| ==> |rows[k]| >= 2
    ensures WriteRecords(rows) == PrintRecords(Written(rows), SEMICOLON)
  {
    if rows == [] {
    } else {
      StagingKeepsRow(rows[0]);
      WriteRecordsPrints(rows[1..]);
      assert Written(rows)[1..] == Written(rows[1..]);
    }
  }

  lemma {:induction false} FirstLineOf(line: seq<Byte>, rest: seq<Byte>)
    requires LF !in line
    ensures FirstLine(line + [LF] + rest) == line
  {
    if line == [] {
    } else {
      FirstLineOf(line[1..], rest);
      assert (line + [LF] + rest)[1..] == line[1..] + [LF] + rest;
    }
  }

  lemma {:induction false} CountConcat(a: seq<Byte>, b: seq<Byte>, x: Byte)
    ensures Count(a + b, x) == Count(a, x) + Count(b, x)
  {
    if a == [] {
      assert a + b == b;
    } else {
      CountConcat(a[1..], b, x);
      assert (a + b)[1..] == a[1..] + b;
    }
  }

  lemma {:induction false} NamesHoldNoSeparators(name: Cell)
    requires IsName(name)
    ensures Count(name, SEMICOLON) == 0 && Count(name, COMMA) == 0 && LF !in name
    ensures PrintField(name, SEMICOLON) == name && PrintField(name, COMMA) == name
  {
    if name == [] {
    } else {
      NamesHoldNoSeparators(name[1..]);
      assert name == [name[0]] + name[1..];
    }
  }

  lemma {:induction false} HeaderLineCounts(header: Row, d: Byte)
    requires header != [] && IsDelimiter(d) && forall k :: 0 <= k < |header| ==> IsName(header[k])
    ensures var line := PrintFields(header, d);
            Count(line, d) == |header| - 1 && Count(line, Other(d)) == 0 && LF !in line
  {
    NamesHoldNoSeparators(header[0]);
    if |header| > 1 {
      hide PrintField, IsName;
      HeaderLineCounts(header[1..], d);
      var rest := PrintFields(header[1..], d);
      CountConcat(header[0] + [d], rest, d);
      CountConcat(header[0] + [d], rest, Other(d));
      CountConcat(header[0], [d], d);
      CountConcat(header[0], [d], Other(d));
    }
  }

  lemma MarkHoldsNoSeparators()
    ensures Count(UTF8_BOM, SEMICOLON) == 0 && Count(UTF8_BOM, COMMA) == 0 && LF !in UTF8_BOM
  {
    assert UTF8_BOM[1..][1..][1..] == [];
  }

  function Mark(marked: bool): seq<Byte> {
    if marked then UTF8_BOM else []
  }

  /** The first line of a printed file holds one delimiter less than there are
      names, and none of the other. */
  lemma FirstLineCounts(header: Row, d: Byte, marked: bool, rest: seq<Byte>)
    requires IsDelimiter(d)
    requires header != [] && header != [[]] && forall k :: 0 <= k < |header| ==> IsName(header[k])
    ensures var line := FirstLine(Mark(marked) + (PrintRecord(header, d) + rest));
            Count(line, d) == |header| - 1 && Count(line, Other(d)) == 0
  {
    hide PrintFields, Count, FirstLine, IsName;
    var line, mark := PrintFields(header, d), Mark(marked);
    HeaderLineCounts(header, d);
    MarkHoldsNoSeparators();
    NothingCounted();
    assert mark + (PrintRecord(header, d) + rest) == (mark + line) + [LF] + rest;
    FirstLineOf(mark + line, rest);
    CountConcat(mark, line, d);
    CountConcat(mark, line, Other(d));
  }

  lemma NothingCounted()
    ensures Count([], SEMICOLON) == 0 && Count([], COMMA) == 0
  {}

  /** The delimiter is found again because the header has one. */
  lemma DelimiterIsDetected(header: Row, rows: seq<Row>)
    requires IsHeaderRow(header) && forall k :: 0 <= k < |rows| ==> rows[k] != []
    ensures DetectDelimiter(Export(header, rows)) == SEMICOLON
  {
    hide Count, FirstLine, IsName, PrintRecord, WriteRecords;
    var rest := WriteRecords(rows);
    FirstLineCounts(header, SEMICOLON, true, rest);
    assert Export(header, rows) == UTF8_BOM + (PrintRecord(header, SEMICOLON) + rest);
  }

  /** Below two names there is no separator to count: the reader falls back to
      the comma, so the condition on the header is not idle. */
  lemma SingleColumnReadsWithComma(name: Cell, rows: seq<Row>)
    requires IsName(name) && name != [] && forall k :: 0 <= k < |rows| ==> rows[k] != []
    ensures DetectDelimiter(Export([name], rows)) == COMMA
  {
    hide Count, FirstLine, IsName, PrintRecord, WriteRecords;
    var rest := WriteRecords(rows);
    FirstLineCounts([name], SEMICOLON, true, rest);
    assert Export([name], rows) == UTF8_BOM + (PrintRecord([name], SEMICOLON) + rest);
  }

  lemma VerdictStep(s: seq<Byte>, i: nat, d: Byte, mayBeHeader: bool)
    requires i <= |s| && i < RecordEnd(s, i, d) < |s|
    ensures Verdict(s, i, d, mayBeHeader)
            == if Separators(s, i, d) >= MAX_HEADER_FIELDS then Some(TooWide(mayBeHeader, 1 + LineFeeds(s, i)))
               else if mayBeHeader && RecordEnd(s, i, d) - i > MAX_HEADER_LINE_BYTES then Some(HeaderTooLarge)
               else Verdict(s, RecordEnd(s, i, d) + 1, d, false)
  {
    hide RecordEnd, Separators, LineFeeds;
  }

  lemma {:induction false} PrintedRecordsPass(s: seq<Byte>, i: nat, rows: seq<Row>, d: Byte)
    requires IsSeparator(d)
    requires forall k :: 0 <= k < |rows| ==> 0 < |rows[k]| <= MAX_HEADER_FIELDS
    requires At(s, i, PrintRecords(rows, d)) && i + |PrintRecords(rows, d)| == |s|
    ensures Verdict(s, i, d, false) == None
    decreases |rows|
  {
    hide At, PrintRecord, PrintRecords, RecordEnd, Fields, Separators, Verdict, LineFeeds;
    PrintRecordsStep(rows, d);
    if rows == [] {
      NothingAtTheEnd(s, d, false);
    } else {
      AtSplit(s, i, PrintRecord(rows[0], d), PrintRecords(rows[1..], d));
      PrintedRecordIsRead(s, i, rows[0], d);
      VerdictStep(s, i, d, false);
      PrintedRecordsPass(s, i + |PrintRecord(rows[0], d)|, rows[1..], d);
    }
  }

  /** The bounds check lets an export through exactly when its header fits. */
  lemma PrintedFilePasses(header: Row, rows: seq<Row>, d: Byte)
    requires |header| >= 2 && IsSeparator(d)
    requires forall k :: 0 <= k < |rows| ==> |rows[k]| == |header|
    ensures Verdict(PrintRecords([header] + rows, d), 0, d, true)
            == if HeaderFitsWith(header, d) then None else Some(HeaderTooLarge)
  {
    hide At, PrintFields, PrintRecords, RecordEnd, Fields, Separators, Verdict, LineFeeds;
    var all := [header] + rows;
    var s := PrintRecords(all, d);
    assert all[1..] == rows;
    var first := PrintRecord(header, d);
    PrintRecordsStep(all, d);
    AtAll(s);
    AtSplit(s, 0, first, PrintRecords(rows, d));
    PrintedRecordIsRead(s, 0, header, d);
    VerdictStep(s, 0, d, true);
    if HeaderFitsWith(header, d) {
      PrintedRecordsPass(s, |first|, rows, d);
    }
  }

  lemma AtAll(s: seq<Byte>)
    ensures At(s, 0, s)
  {}

  lemma ExportIsPrinted(header: Row, rows: seq<Row>)
    requires header != [] && forall k :: 0 <= k < |rows| ==> |rows[k]| >= 2
    ensures StripBom(Export(header, rows)) == PrintRecords([header] + Written(rows), SEMICOLON)
  {
    hide PrintRecords, WriteRecords, PrintRecord;
    var all := [header] + Written(rows);
    WriteRecordsPrints(rows);
    PrintRecordsStep(all, SEMICOLON);
    assert all[1..] == Written(rows);
    var s := PrintRecord(header, SEMICOLON) + WriteRecords(rows);
    assert Export(header, rows) == UTF8_BOM + s;
    MarkIsStripped(s);
  }

  lemma ReadBack(header: Row, rows: seq<Row>)
    requires IsHeaderRow(header)
    requires forall k :: 0 <= k < |rows| ==> |rows[k]| == |header|
    ensures ReadRecords(Export(header, rows))
            == if HeaderFits(header) then Ok(MapRows([header] + Written(rows), Trim)) else Err(HeaderTooLarge)
  {
    hide Export, StripBom, PrintRecords, Rows, Verdict, Written, DetectDelimiter, HeaderFitsWith, At, IsName;
    var all := [header] + Written(rows);
    var s := PrintRecords(all, SEMICOLON);
    ExportIsPrinted(header, rows);
    DelimiterIsDetected(header, rows);
    PrintedFilePasses(header, Written(rows), SEMICOLON);
    AtAll(s);
    PrintedRecordsAreRead(s, 0, all, SEMICOLON);
  }

  lemma NoMarkToStrip(name: Cell, d: Byte, rest: seq<Byte>)
    requires IsDelimiter(d) && !(UTF8_BOM <= name)
    ensures !(UTF8_BOM <= name + ([d] + rest))
  {
    var s := name + ([d] + rest);
    assert s[|name|] == d;
    assert forall k :: 0 <= k < |name| ==> s[k] == name[k];
    assert UTF8_BOM <= s ==> |name| >= 3;
  }

  lemma PrintedFileStarts(header: Row, d: Byte, rest: seq<Byte>) returns (tail: seq<Byte>)
    requires IsHeaderRow(header) && IsDelimiter(d)
    ensures PrintRecord(header, d) + rest == header[0] + ([d] + tail)
  {
    NamesHoldNoSeparators(header[0]);
    PrintRecordSplits(header, d);
    hide PrintRecord, PrintField, PrintFields, IsName;
    var fields := PrintFields(header[1..], d);
    tail := (fields + [LF]) + rest;
    Regroup([d], fields, [LF]);
    Regroup([d], fields + [LF], rest);
    Regroup(header[0], [d] + (fields + [LF]), rest);
  }

  lemma PrintedFileStrips(header: Row, d: Byte, marked: bool, rest: seq<Byte>)
    requires IsHeaderRow(header) && IsDelimiter(d) && (marked || !(UTF8_BOM <= header[0]))
    ensures StripBom(Mark(marked) + (PrintRecord(header, d) + rest)) == PrintRecord(header, d) + rest
  {
    hide PrintRecord, IsName;
    var s := PrintRecord(header, d) + rest;
    if marked {
      MarkIsStripped(s);
    } else {
      var tail := PrintedFileStarts(header, d, rest);
      NoMarkToStrip(header[0], d, tail);
      assert [] + s == s;
    }
  }

  /** A file printed with either delimiter, with or without a mark in front, under
      two or more names is read back as header and rows, trimmed, or refused for
      its header. */
  lemma PrintedFileIsRead(header: Row, rows: seq<Row>, d: Byte, marked: bool)
    requires IsHeaderRow(header) && IsDelimiter(d) && (marked || !(UTF8_BOM <= header[0]))
    requires forall k :: 0 <= k < |rows| ==> |rows[k]| == |header|
    ensures ReadRecords(Mark(marked) + PrintRecords([header] + rows, d))
            == if HeaderFitsWith(header, d) then Ok(MapRows([header] + rows, Trim)) else Err(HeaderTooLarge)
  {
    hide StripBom, PrintRecords, PrintRecord, Rows, Verdict, HeaderFitsWith, At, IsName, FirstLine, Count, Mark;
    var all := [header] + rows;
    var s := PrintRecords(all, d);
    assert all[1..] == rows;
    PrintRecordsStep(all, d);
    PrintedFileStrips(header, d, marked, PrintRecords(rows, d));
    FirstLineCounts(header, d, marked, PrintRecords(rows, d));
    PrintedFilePasses(header, rows, d);
    AtAll(s);
    PrintedRecordsAreRead(s, 0, all, d);
  }

  /** The rows that come back: marks dropped, escaped, trimmed, unescaped. */
  function Returned(rows: seq<Row>): (r: seq<Row>)
    requires forall k :: 0 <= k < |rows| ==> rows[k] != []
    ensures |r| == |rows|
    ensures forall k :: 0 <= k < |rows| ==>
              r[k] == MapCells(MapCells(MapCells(WithoutMark(rows[k]), EscapeFormula), Trim), UnescapeFormula)
  {
    MapRows(MapRows(Written(rows), Trim), UnescapeFormula)
  }

  lemma ImportReturns(header: Row, rows: seq<Row>)
    requires IsHeaderRow(header)
    requires forall k :: 0 <= k < |rows| ==> |rows[k]| == |header|
    ensures ImportRows(Export(header, rows))
            == if HeaderFits(header) then Ok(Returned(rows)) else Err(HeaderTooLarge)
  {
    ReadBack(header, rows);
    hide Trim, Export, ReadRecords, HeaderFits, UnescapeFormula, IsHeaderRow, Written, MapRows, MapCells;
    MapRowsTail(header, Written(rows), Trim);
  }

  lemma MapRowsTail(first: Row, rows: seq<Row>, f: Cell -> Cell)
    ensures MapRows([first] + rows, f)[1..] == MapRows(rows, f)
  {
    hide MapCells;
  }

  /** Export then import is the identity on rows of trimmed cells exactly when
      the header fits the bounds and no row opens with a byte-order mark that
      staging drops. An oversized header refuses the whole file. */
  lemma ExportImportRoundTrip(header: Row, rows: seq<Row>)
    requires IsHeaderRow(header)
    requires forall k :: 0 <= k < |rows| ==> |rows[k]| == |header|
    requires forall k, c :: 0 <= k < |rows| && 0 <= c < |rows[k]| ==> Trim(rows[k][c]) == rows[k][c]
    ensures ImportRows(Export(header, rows)) == Ok(rows)
            <==> HeaderFits(header) && forall k :: 0 <= k < |rows| ==> !LosesMark(rows[k])
    ensures !HeaderFits(header) ==> ImportRows(Export(header, rows)) == Err(HeaderTooLarge)
  {
    ImportReturns(header, rows);
    hide Trim, Export, ImportRows, HeaderFits, LosesMark, Returned, MapCells;
    var back := Returned(rows);
    forall k | 0 <= k < |rows| ensures back[k] == rows[k] <==> !LosesMark(rows[k]) {
      RowComesBack(rows[k], back[k]);
    }
    if back == rows {
      assert forall k :: 0 <= k < |rows| ==> back[k] == rows[k];
    }
  }

  /** Two columns, named by a letter each. */
  const TWO_COLUMNS: Row := [[97], [98]]

  /** The byte-order mark and a letter, and an empty cell. */
  const MARKED_ROW: Row := [[0xEF, 0xBB, 0xBF, 97], []]

  lemma TwoColumnsFit()
    ensures IsHeaderRow(TWO_COLUMNS) && HeaderFits(TWO_COLUMNS)
  {
    assert IsHeaderRow(TWO_COLUMNS);
    hide PrintFields, PrintField, IsHeaderRow;
    assert TWO_COLUMNS[1..] == [[98]];
    PrintStep(TWO_COLUMNS, SEMICOLON);
    PrintStep([[98]], SEMICOLON);
    NamesHoldNoSeparators([97]);
    NamesHoldNoSeparators([98]);
  }

  lemma MarkIsDropped()
    ensures WithoutMark(MARKED_ROW) == [[97], []]
  {
    assert !NeedsQuotes(MARKED_ROW[0], COMMA) && UTF8_BOM <= MARKED_ROW[0];
    assert MARKED_ROW[0][3..] == [97];
  }

  /** A row that does not survive: the mark its first cell opens with is gone. */
  lemma MarkIsLost()
    ensures ImportRows(Export(TWO_COLUMNS, [MARKED_ROW])) == Ok([[[97], []]])
    ensures MARKED_ROW != [[97], []]
  {
    hide IsHeaderRow, HeaderFits, ImportRows, Export, EscapeFormula, UnescapeFormula, Trim, WithoutMark, Returned;
    TwoColumnsFit();
    MarkIsDropped();
    LettersStay([97]);
    LettersStay([]);
    var rows, kept: Row := [MARKED_ROW], [[97], []];
    assert MapCells(MapCells(MapCells(kept, EscapeFormula), Trim), UnescapeFormula) == kept;
    ImportReturns(TWO_COLUMNS, rows);
    assert Returned(rows)[0] == kept;
    assert Returned(rows) == [kept];
    assert |MARKED_ROW[0]| != |kept[0]|;
  }

  lemma LetterIsNoSpace(x: seq<Byte>)
    requires x != [] && 97 <= x[0] <= 122
    ensures !IsSpace(x)
  {}

  /** Neither escaped nor trimmed. */
  lemma LettersStay(cell: Cell)
    requires forall k :: 0 <= k < |cell| ==> 97 <= cell[k] <= 122
    ensures Trim(cell) == cell && EscapeFormula(cell) == cell && UnescapeFormula(cell) == cell
  {
    hide Trim, IsSpace, TrailingSpace;
    forall n | 1 <= n <= |cell| ensures !IsSpace(cell[..n]) && NoSpaceAtEnd(cell, n) {
      LetterIsNoSpace(cell[..n]);
      LetterIsNoSpace(cell[|cell| - n..]);
    }
    NoTrailingSpaceMeans(cell);
    TrimmedHasNoSpace(cell);
  }

  lemma RowComesBack(row: Row, back: Row)
    requires row != [] && forall c :: 0 <= c < |row| ==> Trim(row[c]) == row[c]
    requires back == MapCells(MapCells(MapCells(WithoutMark(row), EscapeFormula), Trim), UnescapeFormula)
    ensures back == row <==> !LosesMark(row)
  {
    hide Trim;
    var sent := WithoutMark(row);
    forall c | 0 <= c < |row| ensures back[c] == UnescapeFormula(Trim(EscapeFormula(sent[c]))) {}
    if LosesMark(row) {
      assert |back[0]| <= |EscapeFormula(sent[0])| <= |row[0]| - 2;
    } else {
      forall c | 0 <= c < |row| ensures back[c] == row[c] {
        EscapedStaysTrimmed(row[c]);
        UnescapeUndoesEscape(row[c]);
      }
    }
  }
}
