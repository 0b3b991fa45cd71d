/** The header a machine sends ahead of a job file, and the proof that the receiver reads it back. */
module PutHeader {
  import opened Wrappers
  import opened Uuids
  import opened Text
  import opened Numerals
  import opened Requests

  const HEADER_CAP := 256

  function PutRequestHeader(guid: Uuid, size: nat): Bytes {
    Ascii("PUT / HTTP/1.1") + CRLF
    + Ascii("guid: ") + UuidText(guid) + CRLF
    + Ascii("Content-Type: text/x.gcode") + CRLF
    + Ascii("Content-Length: ") + DecimalText(size) + CRLF
    + Ascii("Connection: close") + BLANK_LINE
  }

  /** The header fits its buffer for every 32-bit file size. */
  lemma HeaderFits(guid: Uuid, size: nat)
    requires size <= USIZE_MAX
    ensures |PutRequestHeader(guid, size)| <= HEADER_CAP
  {
    assert Pow10(10) == 10 * Pow10(9) == 100 * Pow10(8) == 1000 * Pow10(7);
    assert Pow10(7) == 10 * Pow10(6) == 100 * Pow10(5) == 1000 * Pow10(4);
    assert Pow10(4) == 10 * Pow10(3) == 100 * Pow10(2) == 1000 * Pow10(1);
    DecimalLength(size, 10);
  }

  // ---------- Blocks of header lines ----------

  /** A line of visible text: not empty, ASCII, and free of line breaks. */
  ghost predicate IsPlain(line: Bytes) {
    line != [] && IsAscii(line) && CR !in line && LF !in line
  }

  ghost predicate ArePlain(lines: seq<Bytes>) {
    forall i :: 0 <= i < |lines| ==> IsPlain(lines[i])
  }

  function Join(lines: seq<Bytes>): Bytes
    requires lines != []
  {
    if |lines| == 1 then lines[0] else lines[0] + CRLF + Join(lines[1..])
  }

  lemma JoinIsPlainAtFront(lines: seq<Bytes>)
    requires lines != [] && ArePlain(lines)
    ensures Join(lines) != [] && Join(lines)[0] != CR
  {
    assert lines[0][0] in lines[0];
  }

  lemma {:induction false} JoinIsAscii(lines: seq<Bytes>)
    requires lines != [] && ArePlain(lines)
    ensures IsAscii(Join(lines))
  {
    if |lines| > 1 {
      JoinIsAscii(lines[1..]);
    }
  }

  /** No blank line starts inside a plain line, or at its line break when more text follows. */
  lemma NoBlankInLine(line: Bytes, rest: Bytes, j: int)
    requires IsPlain(line) && 0 <= j < |line| + 2
    requires rest != [] && rest[0] != CR
    ensures !OccursAt(BLANK_LINE, line + CRLF + rest, j)
  {
    var s := line + CRLF + rest;
    assert j < |line| ==> s[j] in line;
    assert j == |line| ==> s[j + 2] == rest[0];
    var k := if j == |line| then 2 else 0;
    assert s[j + k] != CR;
    assert j + 4 <= |s| ==> s[j..j + 4][k] == s[j + k];
  }

  lemma {:induction false} BlankLineEndsBlock(lines: seq<Bytes>, body: Bytes)
    requires lines != [] && ArePlain(lines)
    ensures IsDelimitedBy(BLANK_LINE, Join(lines), body)
  {
    var line, s := lines[0], Join(lines) + BLANK_LINE + body;
    if |lines| == 1 {
      forall j | 0 <= j < |line|
        ensures !OccursAt(BLANK_LINE, s, j)
      {
        assert s[j] in line;
        assert s[j..j + 4][0] == s[j];
      }
    } else {
      var rest := Join(lines[1..]) + BLANK_LINE + body;
      assert s == line + CRLF + rest;
      JoinIsPlainAtFront(lines[1..]);
      BlankLineEndsBlock(lines[1..], body);
      forall j | 0 <= j < |Join(lines)|
        ensures !OccursAt(BLANK_LINE, s, j)
      {
        if j < |line| + 2 {
          NoBlankInLine(line, rest, j);
        } else {
          assert j + 4 <= |s| ==> s[j..j + 4] == rest[j - |line| - 2..j - |line| + 2];
          assert !OccursAt(BLANK_LINE, rest, j - |line| - 2);
        }
      }
    }
  }

  lemma {:induction false} LinesUndoJoin(lines: seq<Bytes>)
    requires lines != [] && ArePlain(lines)
    ensures Lines(Join(lines)) == lines
  {
    var line := lines[0];
    if |lines| > 1 {
      var rest := Join(lines[1..]);
      assert Join(lines) == (line + [CR]) + [LF] + rest;
      IndexOfAfter(LF, line + [CR], rest);
      assert Join(lines)[..|line| + 1] == line + [CR];
      assert Join(lines)[|line| + 2..] == rest;
      LinesUndoJoin(lines[1..]);
    }
  }

  // ---------- The four lines ----------

  function GuidLine(guid: Uuid): Bytes {
    Ascii("guid: ") + UuidText(guid)
  }

  function TypeLine(): Bytes {
    Ascii("Content-Type: text/x.gcode")
  }

  function LengthLine(size: nat): Bytes {
    Ascii("Content-Length: ") + DecimalText(size)
  }

  function ConnectionLine(): Bytes {
    Ascii("Connection: close")
  }

  function HeaderLines(guid: Uuid, size: nat): seq<Bytes> {
    [GuidLine(guid), TypeLine(), LengthLine(size), ConnectionLine()]
  }

  function StartText(): Bytes {
    Ascii("PUT / HTTP/1.1")
  }

  lemma HeaderIsBlock(guid: Uuid, size: nat)
    ensures PutRequestHeader(guid, size) == StartText() + CRLF + (Join(HeaderLines(guid, size)) + BLANK_LINE)
  {
    hide Ascii, UuidText, DecimalText;
    var lines := HeaderLines(guid, size);
    assert lines[3..] == [ConnectionLine()];
    assert lines[2..][1..] == lines[3..] && lines[1..][1..] == lines[2..];
    assert Join(lines[3..]) == ConnectionLine();
    assert Join(lines[2..]) == LengthLine(size) + CRLF + ConnectionLine();
    assert Join(lines[1..]) == TypeLine() + CRLF + (LengthLine(size) + CRLF + ConnectionLine());
    assert Join(lines) == GuidLine(guid) + CRLF + (TypeLine() + CRLF + (LengthLine(size) + CRLF + ConnectionLine()));
  }

  ghost predicate IsVisible(s: Bytes) {
    forall b :: b in s ==> 32 <= b < 0x80
  }

  lemma LiteralIsVisible(s: string)
    requires forall i :: 0 <= i < |s| ==> 32 <= s[i] as int < 128
    ensures IsVisible(Ascii(s))
  {
  }

  lemma VisibleIsPlain(s: Bytes)
    requires s != [] && IsVisible(s)
    ensures IsPlain(s)
  {
    assert forall i :: 0 <= i < |s| ==> s[i] in s;
  }

  lemma HeaderLinesArePlain(guid: Uuid, size: nat)
    ensures ArePlain(HeaderLines(guid, size))
  {
    hide Ascii, DecimalText, UuidText, IsPlain;
    HeaderTextsAreVisible();
    UuidTextIsVisible(guid);
    assert GuidLine(guid) != [] && LengthLine(size) != [] by {
      DigitsAreVisible(size);
      assert UuidText(guid) != [] && DecimalText(size) != [];
    }
    DigitsAreVisible(size);
    VisibleIsPlain(GuidLine(guid));
    VisibleIsPlain(TypeLine());
    VisibleIsPlain(LengthLine(size));
    VisibleIsPlain(ConnectionLine());
  }

  lemma UuidTextIsVisible(guid: Uuid)
    ensures UuidText(guid) != [] && IsVisible(UuidText(guid)) && IsTight(UuidText(guid))
  {
  }

  lemma DigitsAreVisible(n: nat)
    ensures DecimalText(n) != [] && IsVisible(DecimalText(n)) && IsTight(DecimalText(n))
  {
    var s := DecimalText(n);
    assert s[0] in s && s[|s| - 1] in s;
  }

  lemma HeaderTextsAreVisible()
    ensures IsVisible(Ascii("guid: ")) && IsVisible(Ascii("Content-Length: "))
    ensures IsVisible(TypeLine()) && TypeLine() != []
    ensures IsVisible(ConnectionLine()) && ConnectionLine() != []
    ensures IsVisible(StartText()) && StartText() != []
  {
    assert |TypeLine()| == 26 && |ConnectionLine()| == 17 && |StartText()| == 14;
    hide Ascii;
    LiteralIsVisible("guid: ");
    LiteralIsVisible("Content-Length: ");
    LiteralIsVisible("Content-Type: text/x.gcode");
    LiteralIsVisible("Connection: close");
    LiteralIsVisible("PUT / HTTP/1.1");
  }

  /** A line written as key, colon, space and value is read as that key and value. */
  lemma FieldOfLine(key: Bytes, val: Bytes)
    requires IsTight(key) && IsTight(val) && COLON !in key
    ensures Field(key + [COLON] + ([SP] + val)) == Some((key, val))
  {
    IndexOfAfter(COLON, key, [SP] + val);
    var line := key + [COLON] + ([SP] + val);
    assert line[..|key|] == key && line[|key| + 1..] == [SP] + val;
    TrimKeepsTight(key);
    TrimKeepsTight(val);
  }

  lemma TextsAreTight()
    ensures IsTight(Ascii("guid")) && IsTight(Ascii("Content-Type")) && IsTight(Ascii("Content-Length"))
    ensures IsTight(Ascii("Connection")) && IsTight(Ascii("text/x.gcode")) && IsTight(Ascii("close"))
  {
  }

  lemma LiteralHasNoColon(s: string)
    requires forall i :: 0 <= i < |s| ==> 32 <= s[i] as int < 128 && s[i] != ':'
    ensures COLON !in Ascii(s)
  {
  }

  lemma KeysAreTight()
    ensures IsTight(Ascii("guid")) && COLON !in Ascii("guid")
    ensures IsTight(Ascii("Content-Type")) && COLON !in Ascii("Content-Type")
    ensures IsTight(Ascii("Content-Length")) && COLON !in Ascii("Content-Length")
    ensures IsTight(Ascii("Connection")) && COLON !in Ascii("Connection")
    ensures IsTight(Ascii("text/x.gcode")) && IsTight(Ascii("close"))
  {
    hide Ascii, IsTight;
    TextsAreTight();
    LiteralHasNoColon("guid");
    LiteralHasNoColon("Content-Type");
    LiteralHasNoColon("Content-Length");
    LiteralHasNoColon("Connection");
  }

  lemma TypeKeyMatches()
    ensures EqIgnoreCase(Ascii("Content-Type"), Ascii("content-type"))
  {
    var a, b := Ascii("Content-Type"), Ascii("content-type");
    assert |a| == |b| == 12;
    assert Lower(a[0]) == Lower(b[0]) && Lower(a[1]) == Lower(b[1])
        && Lower(a[2]) == Lower(b[2]) && Lower(a[3]) == Lower(b[3]);
    assert Lower(a[4]) == Lower(b[4]) && Lower(a[5]) == Lower(b[5])
        && Lower(a[6]) == Lower(b[6]) && Lower(a[7]) == Lower(b[7]);
    assert Lower(a[8]) == Lower(b[8]) && Lower(a[9]) == Lower(b[9])
        && Lower(a[10]) == Lower(b[10]) && Lower(a[11]) == Lower(b[11]);
    hide Ascii, Lower;
    assert forall i :: 0 <= i < 12 ==> Lower(a[i]) == Lower(b[i]);
  }

  lemma LengthKeyMatches()
    ensures EqIgnoreCase(Ascii("Content-Length"), Ascii("content-length"))
  {
    var a, b := Ascii("Content-Length"), Ascii("content-length");
    assert |a| == |b| == 14;
    assert Lower(a[0]) == Lower(b[0]) && Lower(a[1]) == Lower(b[1])
        && Lower(a[2]) == Lower(b[2]) && Lower(a[3]) == Lower(b[3]);
    assert Lower(a[4]) == Lower(b[4]) && Lower(a[5]) == Lower(b[5])
        && Lower(a[6]) == Lower(b[6]) && Lower(a[7]) == Lower(b[7]);
    assert Lower(a[8]) == Lower(b[8]) && Lower(a[9]) == Lower(b[9])
        && Lower(a[10]) == Lower(b[10]) && Lower(a[11]) == Lower(b[11]);
    assert Lower(a[12]) == Lower(b[12]) && Lower(a[13]) == Lower(b[13]);
    hide Ascii, Lower;
    assert forall i :: 0 <= i < 14 ==> Lower(a[i]) == Lower(b[i]);
  }

  /** The keys are told apart by their length already. */
  lemma KeyLengths()
    ensures |Ascii("content-length")| == |Ascii("Content-Length")| == 14
    ensures |Ascii("content-type")| == |Ascii("Content-Type")| == 12
    ensures |Ascii("guid")| == 4 && |Ascii("Connection")| == 10
  {
  }

  lemma KeysMatch()
    ensures EqIgnoreCase(Ascii("Content-Type"), Ascii("content-type"))
    ensures EqIgnoreCase(Ascii("Content-Length"), Ascii("content-length"))
    ensures |Ascii("content-length")| == |Ascii("Content-Length")| == 14
    ensures |Ascii("content-type")| == |Ascii("Content-Type")| == 12
    ensures |Ascii("guid")| == 4 && |Ascii("Connection")| == 10
  {
    hide Ascii, EqIgnoreCase;
    TypeKeyMatches();
    LengthKeyMatches();
    KeyLengths();
  }

  lemma GuidLineIsRead(guid: Uuid, info: PutInfo)
    ensures Absorb(info, GuidLine(guid)) == info.(guid := Some(guid))
  {
    var key := Ascii("guid");
    assert GuidLine(guid) == key + [COLON] + ([SP] + UuidText(guid));
    KeysAreTight();
    KeysMatch();
    UuidTextIsVisible(guid);
    hide Ascii, UuidText, ParseUuid, Field, ParseUsize;
    FieldOfLine(key, UuidText(guid));
    UuidRoundTrip(guid);
  }

  lemma TypeLineIsRead(info: PutInfo)
    ensures Absorb(info, TypeLine()) == info.(isGcode := true)
  {
    var key, val := Ascii("Content-Type"), Ascii("text/x.gcode");
    assert TypeLine() == key + [COLON] + ([SP] + val);
    KeysAreTight();
    KeysMatch();
    hide Ascii, Field, ParseUsize, ParseUuid;
    FieldOfLine(key, val);
  }

  lemma LengthLineIsRead(size: nat, info: PutInfo)
    requires size <= USIZE_MAX
    ensures Absorb(info, LengthLine(size)) == info.(size := Some(size))
  {
    var key, val := Ascii("Content-Length"), DecimalText(size);
    assert LengthLine(size) == key + [COLON] + ([SP] + val);
    KeysAreTight();
    KeysMatch();
    DigitsAreVisible(size);
    hide Ascii, Field, ParseUsize, ParseUuid, DecimalText;
    FieldOfLine(key, val);
    SizeRoundTrip(size);
  }

  lemma ConnectionLineIsIgnored(info: PutInfo)
    ensures Absorb(info, ConnectionLine()) == info
  {
    var key, val := Ascii("Connection"), Ascii("close");
    assert ConnectionLine() == key + [COLON] + ([SP] + val);
    KeysAreTight();
    KeysMatch();
    hide Ascii, Field, ParseUsize, ParseUuid;
    FieldOfLine(key, val);
  }

  lemma LinesAreRead(guid: Uuid, size: nat)
    requires size <= USIZE_MAX
    ensures AbsorbAll(NO_INFO, HeaderLines(guid, size)) == PutInfo(Some(size), Some(guid), true)
  {
    hide Absorb;
    var lines := HeaderLines(guid, size);
    GuidLineIsRead(guid, NO_INFO);
    TypeLineIsRead(PutInfo(None, Some(guid), false));
    LengthLineIsRead(size, PutInfo(None, Some(guid), true));
    ConnectionLineIsIgnored(PutInfo(Some(size), Some(guid), true));
    assert lines[2..][1..] == lines[3..] && lines[1..][1..] == lines[2..];
    var done := PutInfo(Some(size), Some(guid), true);
    assert AbsorbAll(done, lines[3..]) == done;
    assert AbsorbAll(PutInfo(None, Some(guid), true), lines[2..]) == done;
  }

  lemma StartTextIsPut()
    ensures CheckStartLine(StartText()) == Accepted(Put)
  {
    var put, slash, version := Ascii("PUT"), Ascii("/"), Ascii("HTTP/1.1");
    var s := StartText();
    assert s == put + [SP] + (slash + [SP] + version);
    assert SP !in put && SP !in slash && put[0] == 80 && Ascii("GET")[0] == 71;
    hide Ascii, StartText;
    IndexOfAfter(SP, put, slash + [SP] + version);
    IndexOfAfter(SP, slash, version);
    assert s[..|put|] == put && s[|put| + 1..] == slash + [SP] + version;
    assert (slash + [SP] + version)[..|slash|] == slash;
  }

  lemma HeaderSplits(guid: Uuid, size: nat, body: Bytes)
    ensures SplitRequest(PutRequestHeader(guid, size) + body)
         == Some(Request(StartText(), Join(HeaderLines(guid, size)), body))
  {
    var start, headers := StartText(), Join(HeaderLines(guid, size));
    HeaderIsBlock(guid, size);
    HeaderLinesArePlain(guid, size);
    HeaderTextsAreVisible();
    VisibleIsPlain(start);
    var rest := headers + BLANK_LINE + body;
    assert PutRequestHeader(guid, size) + body == start + CRLF + rest;
    forall j | 0 <= j < |start|
      ensures !OccursAt(CRLF, start + CRLF + rest, j)
    {
      assert (start + CRLF + rest)[j] in start;
      assert (start + CRLF + rest)[j..j + 2][0] == (start + CRLF + rest)[j];
    }
    BlankLineEndsBlock(HeaderLines(guid, size), body);
    JoinIsAscii(HeaderLines(guid, size));
    AsciiIsUtf8(start);
    AsciiIsUtf8(headers);
    SplitIsExact(PutRequestHeader(guid, size) + body, Request(start, headers, body));
  }

  /**
   Round trip: whatever follows the header, the receiver splits it off, accepts a PUT, and reads
   back the identifier, the size and the content type.
   */
  lemma HeaderRoundTrip(guid: Uuid, size: nat, body: Bytes)
    requires size <= USIZE_MAX
    ensures var r := SplitRequest(PutRequestHeader(guid, size) + body);
            && r.Some? && r.value.body == body
            && CheckStartLine(r.value.startLine) == Accepted(Put)
            && ReadPutHeader(r.value.headers) == PutInfo(Some(size), Some(guid), true)
  {
    HeaderSplits(guid, size, body);
    StartTextIsPut();
    HeaderLinesArePlain(guid, size);
    LinesUndoJoin(HeaderLines(guid, size));
    LinesAreRead(guid, size);
  }

  /** A first packet that ends inside the header is not understood at all. */
  lemma TruncatedHeaderIsRejected(guid: Uuid, size: nat, n: nat)
    requires n < |PutRequestHeader(guid, size)|
    ensures SplitRequest(PutRequestHeader(guid, size)[..n]) == None
  {
    HeaderSplits(guid, size, []);
    assert PutRequestHeader(guid, size) + [] == PutRequestHeader(guid, size);
    BareHeadCannotBeCut(PutRequestHeader(guid, size), n);
  }

  lemma BareHeadCannotBeCut(h: Bytes, n: nat)
    requires n < |h| && SplitRequest(h).Some? && SplitRequest(h).value.body == []
    ensures SplitRequest(h[..n]) == None
  {
    hide SplitRequest, IsSplit;
    if SplitRequest(h[..n]).Some? {
      var r := SplitRequest(h[..n]).value;
      SplitIsExact(h[..n], r);
      ExtendSplit(r, h[n..]);
      assert h == h[..n] + h[n..];
      SplitIsExact(h, Request(r.startLine, r.headers, r.body + h[n..]));
    }
  }

  /** More bytes after a request only lengthen its body. */
  lemma ExtendSplit(r: Request, more: Bytes)
    requires IsSplit(r)
    ensures IsSplit(Request(r.startLine, r.headers, r.body + more))
  {
    assert r.headers + BLANK_LINE + (r.body + more) == r.headers + BLANK_LINE + r.body + more;
    ExtendDelimited(CRLF, r.startLine, r.headers + BLANK_LINE + r.body, more);
    ExtendDelimited(BLANK_LINE, r.headers, r.body, more);
  }

  lemma ExtendDelimited(needle: Bytes, before: Bytes, after: Bytes, more: Bytes)
    requires IsDelimitedBy(needle, before, after)
    ensures IsDelimitedBy(needle, before, after + more)
  {
    var s, t := before + needle + after, before + needle + (after + more);
    forall j | 0 <= j < |before|
      ensures !OccursAt(needle, t, j)
    {
      assert t[j..j + |needle|] == s[j..j + |needle|];
      assert !OccursAt(needle, s, j);
    }
  }
}
