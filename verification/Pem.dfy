/**
 Certificates between PEM text (section 2 of RFC 7468) and their bare base64
 body.
 */
module Pem {
  import opened Sequences

  const BEGIN := "-----BEGIN CERTIFICATE-----"
  const END := "-----END CERTIFICATE-----"
  const LINE := 64

  predicate IsBase64Char(c: char) {
    'A' <= c <= 'Z' || 'a' <= c <= 'z' || '0' <= c <= '9' || c == '+' || c == '/'
  }

  function SixBits(c: char): nat
    requires IsBase64Char(c)
  {
    if 'A' <= c <= 'Z' then (c - 'A') as nat
    else if 'a' <= c <= 'z' then 26 + (c - 'a') as nat
    else if '0' <= c <= '9' then 52 + (c - '0') as nat
    else if c == '+' then 62
    else 63
  }

  /** What the standard engine decodes: whole groups of four, padded at the end
      only, with no stray bits under the padding. */
  predicate IsBase64(body: string) {
    && |body| % 4 == 0
    && exists pad :: 0 <= pad <= 2 && pad <= |body| && PaddedWith(body, pad)
  }

  predicate PaddedWith(body: string, pad: nat)
    requires pad <= |body|
  {
    var n := |body| - pad;
    && (forall k :: 0 <= k < n ==> IsBase64Char(body[k]))
    && (forall k :: n <= k < |body| ==> body[k] == '=')
    && (pad == 1 ==> n > 0 && SixBits(body[n - 1]) % 4 == 0)
    && (pad == 2 ==> n > 0 && SixBits(body[n - 1]) % 16 == 0)
  }

  predicate IsWhitespace(c: char) {
    c == ' ' || '\t' <= c <= '\r'
    || c == '\U{85}' || c == '\U{A0}' || c == '\U{1680}' || '\U{2000}' <= c <= '\U{200A}'
    || c == '\U{2028}' || c == '\U{2029}' || c == '\U{202F}' || c == '\U{205F}' || c == '\U{3000}'
  }

  function WithoutWhitespace(s: string): string {
    if s == "" then ""
    else (if IsWhitespace(s[0]) then "" else [s[0]]) + WithoutWhitespace(s[1..])
  }

  /** Lines end at a line feed, without the carriage return before it; a final
      line feed opens no further line. */
  function Lines(s: string): seq<string> {
    if s == "" then []
    else
      var n := FirstBreak(s);
      [StripReturn(s[..n], n < |s|)] + if n < |s| then Lines(s[n + 1..]) else []
  }

  function FirstBreak(s: string): (n: nat)
    ensures n <= |s| && (n < |s| ==> s[n] == '\n')
    ensures forall k :: 0 <= k < n ==> s[k] != '\n'
  {
    if s == "" || s[0] == '\n' then 0 else 1 + FirstBreak(s[1..])
  }

  function StripReturn(line: string, ended: bool): string {
    if ended && line != "" && line[|line| - 1] == '\r' then line[..|line| - 1] else line
  }

  predicate IsArmour(line: string) {
    "-----" <= line
  }

  /** The lines that are not armour, run together without white space. */
  function StripArmour(pem: string): string {
    BodyOf(Lines(pem))
  }

  function BodyOf(lines: seq<string>): string {
    if lines == [] then ""
    else (if IsArmour(lines[0]) then "" else WithoutWhitespace(lines[0])) + BodyOf(lines[1..])
  }

  /** Lines of 64 characters, joined by line feeds. */
  function Chunks(body: string): (r: seq<string>)
    ensures body != "" ==> r != []
  {
    if body == "" then [] else if |body| <= LINE then [body] else [body[..LINE]] + Chunks(body[LINE..])
  }

  function JoinLines(lines: seq<string>): string {
    if lines == [] then "" else if |lines| == 1 then lines[0] else lines[0] + "\n" + JoinLines(lines[1..])
  }

  function ToPem(body: string): string {
    BEGIN + "\n" + JoinLines(Chunks(body)) + "\n" + END
  }

  predicate StartsAt(s: string, k: nat, part: string) {
    k + |part| <= |s| && s[k..k + |part|] == part
  }

  predicate Contains(s: string, part: string) {
    exists k :: 0 <= k <= |s| && StartsAt(s, k, part)
  }

  datatype PemError = NotPem | EmptyBody | NotBase64

  function ParseBase64(text: string): Result<string, PemError> {
    var body := WithoutWhitespace(text);
    if body == "" then Err(EmptyBody)
    else if !IsBase64(body) then Err(NotBase64)
    else Ok(body)
  }

  function ParsePem(pem: string): Result<string, PemError> {
    if !Contains(pem, BEGIN) || !Contains(pem, END) then Err(NotPem)
    else match ParseBase64(StripArmour(pem))
      case Err(error) => Err(error)
      case Ok(_) => Ok(pem)
  }

  // ----- wrapping

  predicate IsBodyText(s: string) {
    forall k :: 0 <= k < |s| ==> IsBase64Char(s[k]) || s[k] == '='
  }

  lemma Base64IsBodyText(body: string)
    requires IsBase64(body)
    ensures IsBodyText(body)
  {
    var pad :| 0 <= pad <= 2 && pad <= |body| && PaddedWith(body, pad);
  }

  /** Every body line but the last has 64 characters, the last has one to 64,
      and together they are the body. */
  lemma {:induction false} ChunksFillLines(body: string)
    requires body != ""
    ensures var lines := Chunks(body);
            && (forall k :: 0 <= k < |lines| - 1 ==> |lines[k]| == 64)
            && 1 <= |lines[|lines| - 1]| <= 64
            && Concat(lines) == body
  {
    if |body| > LINE {
      ChunksFillLines(body[LINE..]);
      assert Chunks(body)[1..] == Chunks(body[LINE..]);
      assert body == body[..LINE] + body[LINE..];
    } else {
      assert Concat([body][1..]) == "";
    }
  }

  function Concat(lines: seq<string>): string {
    if lines == [] then "" else lines[0] + Concat(lines[1..])
  }

  // ----- stripping what was wrapped

  predicate IsLine(s: string) {
    s != "" && forall k :: 0 <= k < |s| ==> s[k] != '\n' && s[k] != '\r'
  }

  lemma {:induction false} FirstBreakOf(line: string, rest: string)
    requires forall k :: 0 <= k < |line| ==> line[k] != '\n'
    ensures FirstBreak(line + "\n" + rest) == |line|
  {
    if line == "" {
    } else {
      FirstBreakOf(line[1..], rest);
      assert (line + "\n" + rest)[1..] == line[1..] + "\n" + rest;
    }
  }

  lemma LinesCons(line: string, rest: string)
    requires IsLine(line)
    ensures Lines(line + "\n" + rest) == [line] + Lines(rest)
  {
    var s := line + "\n" + rest;
    FirstBreakOf(line, rest);
    assert s[..|line|] == line && s[|line| + 1..] == rest;
  }

  lemma {:induction false} LastLine(line: string)
    requires IsLine(line)
    ensures Lines(line) == [line]
  {
    var n := FirstBreak(line);
    assert n == |line|;
    assert line[..n] == line;
  }

  /** Lines joined by line feeds are read back as they were. */
  lemma {:induction false} LinesUndoJoin(lines: seq<string>)
    requires lines != [] && forall k :: 0 <= k < |lines| ==> IsLine(lines[k])
    ensures Lines(JoinLines(lines)) == lines
  {
    if |lines| == 1 {
      LastLine(lines[0]);
    } else {
      LinesUndoJoin(lines[1..]);
      LinesCons(lines[0], JoinLines(lines[1..]));
    }
  }

  lemma JoinAround(first: string, middle: seq<string>, last: string)
    requires middle != []
    ensures JoinLines([first] + middle + [last]) == first + "\n" + JoinLines(middle) + "\n" + last
  {
    var all := [first] + middle + [last];
    assert all[1..] == middle + [last];
    JoinSnoc(middle, last);
    var a, b := first + "\n", JoinLines(middle);
    assert a + (b + "\n" + last) == a + b + "\n" + last;
  }

  lemma {:induction false} JoinSnoc(lines: seq<string>, last: string)
    requires lines != []
    ensures JoinLines(lines + [last]) == JoinLines(lines) + "\n" + last
  {
    if |lines| == 1 {
      assert (lines + [last])[1..] == [last];
    } else {
      JoinSnoc(lines[1..], last);
      assert (lines + [last])[1..] == lines[1..] + [last];
    }
  }

  lemma {:induction false} BodyTextHasNoWhitespace(s: string)
    requires IsBodyText(s)
    ensures WithoutWhitespace(s) == s
  {
    if s == "" {
    } else {
      BodyTextHasNoWhitespace(s[1..]);
      assert s == [s[0]] + s[1..];
    }
  }

  lemma {:induction false} BodyOfChunks(lines: seq<string>, last: string)
    requires forall k :: 0 <= k < |lines| ==> lines[k] != "" && IsBodyText(lines[k])
    requires IsArmour(last)
    ensures BodyOf(lines + [last]) == Concat(lines)
  {
    if lines == [] {
      assert BodyOf((lines + [last])[1..]) == "";
    } else {
      assert (lines + [last])[1..] == lines[1..] + [last];
      BodyOfChunks(lines[1..], last);
      BodyTextHasNoWhitespace(lines[0]);
      assert lines[0][0] != '-';
    }
  }

  lemma {:induction false} ChunksAreBodyText(body: string)
    requires IsBodyText(body)
    ensures forall k :: 0 <= k < |Chunks(body)| ==> Chunks(body)[k] != "" && IsBodyText(Chunks(body)[k])
  {
    if |body| > LINE {
      ChunksAreBodyText(body[LINE..]);
    }
  }

  lemma ArmourLines()
    ensures IsLine(BEGIN) && IsLine(END) && IsArmour(BEGIN) && IsArmour(END)
  {}

  lemma BodyLine(line: string)
    requires line != "" && IsBodyText(line)
    ensures IsLine(line)
  {}

  /** The lines of the wrapped text: the armour around the body lines. */
  lemma WrappedLines(body: string)
    requires body != "" && IsBodyText(body)
    ensures Lines(ToPem(body)) == [BEGIN] + Chunks(body) + [END]
  {
    hide Chunks, JoinLines, Lines, IsLine, IsBodyText, IsArmour;
    var chunks := Chunks(body);
    var lines := [BEGIN] + chunks + [END];
    ChunksAreBodyText(body);
    JoinAround(BEGIN, chunks, END);
    ArmourLines();
    forall k | 0 <= k < |lines| ensures IsLine(lines[k]) {
      if 1 <= k <= |chunks| {
        BodyLine(chunks[k - 1]);
        assert lines[k] == chunks[k - 1];
      }
    }
    LinesUndoJoin(lines);
  }

  /** Wrapping and stripping gives back exactly the body. */
  lemma StripUndoesWrap(body: string)
    requires body != "" && IsBodyText(body)
    ensures StripArmour(ToPem(body)) == body
  {
    hide ToPem, Chunks, Lines, IsBodyText, IsArmour, Concat;
    WrappedLines(body);
    var chunks := Chunks(body);
    assert ([BEGIN] + chunks + [END])[1..] == chunks + [END];
    ArmourLines();
    ChunksAreBodyText(body);
    BodyOfChunks(chunks, END);
    ChunksFillLines(body);
  }

  /** Every valid body survives: the wrapped text parses, and is the text the
      body came from. */
  lemma WrappedPemParses(body: string)
    requires body != "" && IsBase64(body)
    ensures ParsePem(ToPem(body)) == Ok(ToPem(body))
    ensures StripArmour(ToPem(body)) == body
  {
    Base64IsBodyText(body);
    StripUndoesWrap(body);
    BodyTextHasNoWhitespace(body);
    WrapContainsArmour(body);
  }

  lemma WrapContainsArmour(body: string)
    ensures Contains(ToPem(body), BEGIN) && Contains(ToPem(body), END)
  {
    var pem := ToPem(body);
    assert StartsAt(pem, 0, BEGIN);
    assert StartsAt(pem, |pem| - |END|, END);
  }

  // ----- what is refused

  lemma {:induction false} WithoutWhitespaceMeans(s: string)
    ensures WithoutWhitespace(s) == "" <==> forall k :: 0 <= k < |s| ==> IsWhitespace(s[k])
    ensures forall k :: 0 <= k < |WithoutWhitespace(s)| ==> !IsWhitespace(WithoutWhitespace(s)[k])
  {
    hide IsWhitespace;
    if s == "" {
    } else {
      WithoutWhitespaceMeans(s[1..]);
      assert forall k :: 1 <= k < |s| ==> s[k] == s[1..][k - 1];
    }
  }

  lemma {:induction false} NothingToDrop(s: string)
    requires forall k :: 0 <= k < |s| ==> !IsWhitespace(s[k])
    ensures WithoutWhitespace(s) == s
  {
    hide IsWhitespace;
    if s == "" {
    } else {
      NothingToDrop(s[1..]);
      HeadAndTail(s);
    }
  }

  lemma {:induction false} BodyMeans(lines: seq<string>)
    ensures BodyOf(lines) == ""
            <==> forall i, k :: 0 <= i < |lines| && !IsArmour(lines[i]) && 0 <= k < |lines[i]| ==>
                   IsWhitespace(lines[i][k])
    ensures forall k :: 0 <= k < |BodyOf(lines)| ==> !IsWhitespace(BodyOf(lines)[k])
  {
    hide IsWhitespace, IsArmour, WithoutWhitespace;
    if lines == [] {
    } else {
      BodyMeans(lines[1..]);
      WithoutWhitespaceMeans(lines[0]);
      assert forall i :: 1 <= i < |lines| ==> lines[i] == lines[1..][i - 1];
    }
  }

  /** Nothing but white space between the armour. */
  predicate IsBlankBetween(pem: string) {
    forall i, k :: 0 <= i < |Lines(pem)| && !IsArmour(Lines(pem)[i]) && 0 <= k < |Lines(pem)[i]| ==>
      IsWhitespace(Lines(pem)[i][k])
  }

  /** Exactly what the parser answers: it wants both marks, then a body, then valid
      base64, and hands the text back as it came. */
  lemma ParseMeans(pem: string)
    ensures ParsePem(pem) == Err(NotPem) <==> !Contains(pem, BEGIN) || !Contains(pem, END)
    ensures ParsePem(pem) == Err(EmptyBody)
            <==> Contains(pem, BEGIN) && Contains(pem, END) && IsBlankBetween(pem)
    ensures ParsePem(pem) == Err(NotBase64)
            <==> && Contains(pem, BEGIN) && Contains(pem, END) && !IsBlankBetween(pem)
                 && !IsBase64(StripArmour(pem))
    ensures ParsePem(pem).Ok? ==> ParsePem(pem) == Ok(pem)
  {
    hide Contains, Lines, IsBase64, IsWhitespace, WithoutWhitespace, BodyOf, IsArmour;
    BodyMeans(Lines(pem));
    NothingToDrop(StripArmour(pem));
  }

  // ----- what base64 is

  type Byte = b: int | 0 <= b < 256

  function Char(k: nat): (c: char)
    requires k < 64
    ensures IsBase64Char(c) && SixBits(c) == k
  {
    if k < 26 then 'A' + k as char
    else if k < 52 then 'a' + (k - 26) as char
    else if k < 62 then '0' + (k - 52) as char
    else if k == 62 then '+'
    else '/'
  }

  lemma CharOfBits(c: char)
    requires IsBase64Char(c)
    ensures SixBits(c) < 64 && Char(SixBits(c)) == c
  {}

  type Bits = b: int | 0 <= b < 64

  /** The bits of three bytes, six at a time. */
  function First(a: Byte): Bits { a / 4 }

  function Second(a: Byte, b: Byte): Bits { a % 4 * 16 + b / 16 }

  function Third(b: Byte, c: Byte): Bits { b % 16 * 4 + c / 64 }

  function Fourth(c: Byte): Bits { c % 64 }

  function OneByte(a: Byte): (r: string)
    ensures |r| == 4
  {
    [Char(First(a)), Char(Second(a, 0)), '=', '=']
  }

  function TwoBytes(a: Byte, b: Byte): (r: string)
    ensures |r| == 4
  {
    [Char(First(a)), Char(Second(a, b)), Char(Third(b, 0)), '=']
  }

  function ThreeBytes(a: Byte, b: Byte, c: Byte): (r: string)
    ensures |r| == 4
  {
    [Char(First(a)), Char(Second(a, b)), Char(Third(b, c)), Char(Fourth(c))]
  }

  /** Three bytes are four characters; one or two at the end are padded. */
  function Encode(bytes: seq<Byte>): string {
    if bytes == [] then ""
    else if |bytes| == 1 then OneByte(bytes[0])
    else if |bytes| == 2 then TwoBytes(bytes[0], bytes[1])
    else ThreeBytes(bytes[0], bytes[1], bytes[2]) + Encode(bytes[3..])
  }

  predicate FourChars(body: string) {
    |body| >= 4 && forall k :: 0 <= k < 4 ==> IsBase64Char(body[k])
  }

  lemma PaddedStep(body: string, pad: nat)
    requires |body| > 4 && |body| % 4 == 0 && pad <= 2
    ensures PaddedWith(body, pad) <==> FourChars(body) && PaddedWith(body[4..], pad)
  {
    hide IsBase64Char, SixBits;
    var rest := body[4..];
    assert forall k :: 4 <= k < |body| ==> body[k] == rest[k - 4];
  }

  lemma Base64Step(body: string)
    requires |body| > 4 && |body| % 4 == 0
    ensures IsBase64(body) <==> FourChars(body) && IsBase64(body[4..])
  {
    hide PaddedWith, FourChars;
    PaddedStep(body, 0);
    PaddedStep(body, 1);
    PaddedStep(body, 2);
  }

  lemma LastGroup(body: string)
    requires |body| == 4
    ensures PaddedWith(body, 0) <==> FourChars(body)
    ensures PaddedWith(body, 1)
            <==> && IsBase64Char(body[0]) && IsBase64Char(body[1]) && IsBase64Char(body[2]) && body[3] == '='
                 && SixBits(body[2]) % 4 == 0
    ensures PaddedWith(body, 2)
            <==> && IsBase64Char(body[0]) && IsBase64Char(body[1]) && body[2] == '=' && body[3] == '='
                 && SixBits(body[1]) % 16 == 0
  {
    hide IsBase64Char, SixBits;
  }

  lemma {:induction false} EncodedLength(bytes: seq<Byte>)
    ensures |Encode(bytes)| % 4 == 0 && (bytes != [] ==> |Encode(bytes)| >= 4)
  {
    hide OneByte, TwoBytes, ThreeBytes;
    if |bytes| < 3 {
    } else {
      EncodedLength(bytes[3..]);
    }
  }

  lemma PaddingIsClean(a: Byte, b: Byte)
    ensures Second(a, 0) % 16 == 0 && Third(b, 0) % 4 == 0
  {}

  lemma ShortGroups(a: Byte, b: Byte)
    ensures IsBase64(OneByte(a)) && IsBase64(TwoBytes(a, b))
  {
    hide First, Second, Third, Char, SixBits, IsBase64Char;
    var one, two := OneByte(a), TwoBytes(a, b);
    LastGroup(one);
    LastGroup(two);
    PaddingIsClean(a, b);
    hide PaddedWith;
    assert PaddedWith(one, 2) && PaddedWith(two, 1);
  }

  lemma FullGroup(a: Byte, b: Byte, c: Byte)
    ensures FourChars(ThreeBytes(a, b, c))
  {}

  lemma GroupInFront(group: string, rest: string)
    requires |group| == 4 && FourChars(group) && IsBase64(rest)
    ensures IsBase64(group + rest)
  {
    var body := group + rest;
    assert body[4..] == rest && forall k :: 0 <= k < 4 ==> body[k] == group[k];
    if rest == "" {
      LastGroup(body);
    } else {
      hide IsBase64Char;
      assert FourChars(body);
      hide FourChars;
      Base64Step(body);
    }
  }

  /** Every encoding is accepted. */
  lemma {:induction false} EncodedIsBase64(bytes: seq<Byte>)
    ensures IsBase64(Encode(bytes))
  {
    if bytes == [] {
      assert PaddedWith("", 0);
    } else {
      hide OneByte, TwoBytes, ThreeBytes, IsBase64, FourChars;
      if |bytes| < 3 {
        ShortGroups(bytes[0], if |bytes| == 2 then bytes[1] else 0);
      } else {
        EncodedIsBase64(bytes[3..]);
        FullGroup(bytes[0], bytes[1], bytes[2]);
        GroupInFront(ThreeBytes(bytes[0], bytes[1], bytes[2]), Encode(bytes[3..]));
      }
    }
  }

  /** The bytes of four times six bits. */
  function FirstByte(p: Bits, q: Bits): Byte { p * 4 + q / 16 }

  function SecondByte(q: Bits, r: Bits): Byte { q % 16 * 16 + r / 4 }

  function ThirdByte(r: Bits, t: Bits): Byte { r % 4 * 64 + t }

  lemma GroupBits(p: Bits, q: Bits, r: Bits, t: Bits)
    ensures var a, b, c := FirstByte(p, q), SecondByte(q, r), ThirdByte(r, t);
            First(a) == p && Second(a, b) == q && Third(b, c) == r && Fourth(c) == t
  {}

  lemma NoStrayBits(q: Bits, r: Bits)
    ensures q % 16 == 0 ==> SecondByte(q, 0) == 0
    ensures r % 4 == 0 ==> ThirdByte(r, 0) == 0
  {}

  lemma FullGroupFrom(g: string) returns (a: Byte, b: Byte, c: Byte)
    requires |g| == 4 && FourChars(g)
    ensures ThreeBytes(a, b, c) == g
  {
    hide SixBits, Char, First, Second, Third, Fourth, FirstByte, SecondByte, ThirdByte;
    CharOfBits(g[0]);
    CharOfBits(g[1]);
    CharOfBits(g[2]);
    CharOfBits(g[3]);
    var p: Bits, q: Bits, r: Bits, t: Bits := SixBits(g[0]), SixBits(g[1]), SixBits(g[2]), SixBits(g[3]);
    GroupBits(p, q, r, t);
    a, b, c := FirstByte(p, q), SecondByte(q, r), ThirdByte(r, t);
  }

  lemma TwoBytesFrom(g: string) returns (a: Byte, b: Byte)
    requires |g| == 4 && PaddedWith(g, 1)
    ensures TwoBytes(a, b) == g
  {
    hide PaddedWith, FourChars, SixBits, Char, First, Second, Third, Fourth, FirstByte, SecondByte, ThirdByte;
    LastGroup(g);
    CharOfBits(g[0]);
    CharOfBits(g[1]);
    CharOfBits(g[2]);
    var p: Bits, q: Bits, r: Bits := SixBits(g[0]), SixBits(g[1]), SixBits(g[2]);
    TwoClean(p, q, r);
    a, b := FirstByte(p, q), SecondByte(q, r);
    assert g == [g[0], g[1], g[2], g[3]];
  }

  lemma TwoClean(p: Bits, q: Bits, r: Bits)
    requires r % 4 == 0
    ensures var a, b := FirstByte(p, q), SecondByte(q, r); First(a) == p && Second(a, b) == q && Third(b, 0) == r
  {
    GroupBits(p, q, r, 0);
    NoStrayBits(q, r);
  }

  lemma OneClean(p: Bits, q: Bits)
    requires q % 16 == 0
    ensures First(FirstByte(p, q)) == p && Second(FirstByte(p, q), 0) == q
  {
    GroupBits(p, q, 0, 0);
    NoStrayBits(q, 0);
  }

  lemma OneByteFrom(g: string) returns (a: Byte)
    requires |g| == 4 && PaddedWith(g, 2)
    ensures OneByte(a) == g
  {
    hide PaddedWith, FourChars, SixBits, Char, First, Second, Third, Fourth, FirstByte, SecondByte, ThirdByte;
    LastGroup(g);
    CharOfBits(g[0]);
    CharOfBits(g[1]);
    var p: Bits, q: Bits := SixBits(g[0]), SixBits(g[1]);
    OneClean(p, q);
    a := FirstByte(p, q);
    assert g == [g[0], g[1], g[2], g[3]];
  }

  lemma LastBytes(body: string) returns (bytes: seq<Byte>)
    requires |body| == 4 && IsBase64(body)
    ensures Encode(bytes) == body
  {
    LastGroup(body);
    hide PaddedWith, OneByte, TwoBytes, ThreeBytes, FourChars, IsBase64Char;
    if PaddedWith(body, 0) {
      var a, b, c := FullGroupFrom(body);
      bytes := [a, b, c];
      assert Encode(bytes[3..]) == "";
    } else if PaddedWith(body, 1) {
      var a, b := TwoBytesFrom(body);
      bytes := [a, b];
    } else {
      assert PaddedWith(body, 2);
      var a := OneByteFrom(body);
      bytes := [a];
    }
  }

  /** And nothing else: what is accepted encodes some bytes. */
  lemma {:induction false} Base64IsEncoded(body: string) returns (bytes: seq<Byte>)
    requires IsBase64(body)
    ensures Encode(bytes) == body
  {
    if body == "" {
      bytes := [];
    } else {
      if |body| == 4 {
        bytes := LastBytes(body);
      } else {
        Base64Step(body);
        var rest := Base64IsEncoded(body[4..]);
        assert FourChars(body[..4]);
        hide IsBase64, FourChars, ThreeBytes;
        var a, b, c := FullGroupFrom(body[..4]);
        bytes := [a, b, c] + rest;
        assert bytes[3..] == rest;
        assert body == body[..4] + body[4..];
      }
    }
  }

  /** A certificate of any bytes, encoded and wrapped, parses. */
  lemma WrappedCertificateParses(bytes: seq<Byte>)
    requires bytes != []
    ensures ParsePem(ToPem(Encode(bytes))) == Ok(ToPem(Encode(bytes)))
    ensures StripArmour(ToPem(Encode(bytes))) == Encode(bytes)
  {
    hide ParsePem, ToPem, StripArmour, IsBase64;
    EncodedIsBase64(bytes);
    EncodedLength(bytes);
    WrappedPemParses(Encode(bytes));
  }
}
