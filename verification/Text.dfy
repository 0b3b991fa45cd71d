/** Byte strings, and the pieces of Rust's text handling that the request parser relies on. */
module Text {
  import opened Wrappers

  type Byte = b: int | 0 <= b < 256

  type Bytes = seq<Byte>

  const LF: Byte := 10
  const CR: Byte := 13
  const SP: Byte := 32
  const COLON: Byte := 58
  const CRLF: Bytes := [CR, LF]
  const BLANK_LINE: Bytes := [CR, LF, CR, LF]

  /** The bytes of an ASCII literal. */
  function Ascii(s: string): Bytes {
    seq(|s|, i requires 0 <= i < |s| => s[i] as int % 128)
  }

  ghost predicate OccursAt(needle: Bytes, hay: Bytes, i: int) {
    0 <= i <= |hay| - |needle| && hay[i..i + |needle|] == needle
  }

  /** The first place where `needle` occurs. */
  function Find(needle: Bytes, hay: Bytes): (r: Option<nat>)
    ensures r.Some? ==> OccursAt(needle, hay, r.value) && forall j :: 0 <= j < r.value ==> !OccursAt(needle, hay, j)
    ensures r.None? ==> forall j :: !OccursAt(needle, hay, j)
  {
    if |hay| < |needle| then None
    else if hay[..|needle|] == needle then
      assert OccursAt(needle, hay, 0);
      Some(0)
    else if hay == [] then None
    else
      var rest := Find(needle, hay[1..]);
      assert forall j :: OccursAt(needle, hay, j) && j > 0 ==> OccursAt(needle, hay[1..], j - 1) by {
        forall j | OccursAt(needle, hay, j) && j > 0
          ensures OccursAt(needle, hay[1..], j - 1)
        {
          assert hay[1..][j - 1..j - 1 + |needle|] == hay[j..j + |needle|];
        }
      }
      if rest.Some? then
        assert hay[1..][rest.value..rest.value + |needle|] == hay[rest.value + 1..rest.value + 1 + |needle|];
        Some(rest.value + 1)
      else None
  }

  /** A first occurrence is found, and nothing else is. */
  lemma FindIsFirst(needle: Bytes, hay: Bytes, i: nat)
    ensures Find(needle, hay) == Some(i)
       <==> OccursAt(needle, hay, i) && forall j :: 0 <= j < i ==> !OccursAt(needle, hay, j)
  {
    var r := Find(needle, hay);
    if OccursAt(needle, hay, i) && forall j :: 0 <= j < i ==> !OccursAt(needle, hay, j) {
      assert r.Some?;
      assert !(r.value < i) && !(i < r.value);
    }
  }

  function IndexOf(b: Byte, s: Bytes): (r: Option<nat>)
    ensures r.Some? ==> r.value < |s| && s[r.value] == b && b !in s[..r.value]
    ensures r.None? ==> b !in s
  {
    if s == [] then None
    else if s[0] == b then Some(0)
    else
      var rest := IndexOf(b, s[1..]);
      if rest.Some? then
        assert s[..rest.value + 1] == [s[0]] + s[1..][..rest.value];
        Some(rest.value + 1)
      else None
  }

  lemma IndexOfAfter(b: Byte, before: Bytes, rest: Bytes)
    requires b !in before
    ensures IndexOf(b, before + [b] + rest) == Some(|before|)
  {
    var s := before + [b] + rest;
    assert s[|before|] == b;
    assert forall i :: 0 <= i < |before| ==> s[i] == before[i];
    assert forall k :: |before| < k <= |s| ==> s[..k][|before|] == b;
  }

  // ---------- UTF-8 ----------

  predicate IsTail(s: Bytes, i: nat, low: Byte, high: Byte) {
    i < |s| && low <= s[i] <= high
  }

  /** The length of the character at the front, or 0 if there is no well-formed one (RFC 3629, section 4). */
  function CharLen(s: Bytes): (n: nat)
    requires s != []
    ensures n <= |s|
  {
    var b := s[0];
    if b < 0x80 then 1
    else if 0xC2 <= b <= 0xDF && IsTail(s, 1, 0x80, 0xBF) then 2
    else if 0xE0 <= b <= 0xEF
         && IsTail(s, 1, if b == 0xE0 then 0xA0 else 0x80, if b == 0xED then 0x9F else 0xBF)
         && IsTail(s, 2, 0x80, 0xBF) then 3
    else if 0xF0 <= b <= 0xF4
         && IsTail(s, 1, if b == 0xF0 then 0x90 else 0x80, if b == 0xF4 then 0x8F else 0xBF)
         && IsTail(s, 2, 0x80, 0xBF) && IsTail(s, 3, 0x80, 0xBF) then 4
    else 0
  }

  predicate IsUtf8(s: Bytes) {
    s == [] || (CharLen(s) > 0 && IsUtf8(s[CharLen(s)..]))
  }

  ghost predicate IsAscii(s: Bytes) {
    forall i :: 0 <= i < |s| ==> s[i] < 0x80
  }

  lemma {:induction false} AsciiIsUtf8(s: Bytes)
    requires IsAscii(s)
    ensures IsUtf8(s)
  {
    if s != [] {
      AsciiIsUtf8(s[1..]);
    }
  }

  // ---------- Trimming ----------

  predicate IsBlank(b: Byte) {
    9 <= b <= 13 || b == 32
  }

  /** The length of a white-space character at the front, or 0 (Unicode property White_Space). */
  function BlankPrefix(s: Bytes): (n: nat)
    ensures n <= |s|
  {
    if s == [] then 0
    else if IsBlank(s[0]) then 1
    else if |s| >= 2 && IsBlank2(s[0], s[1]) then 2
    else if |s| >= 3 && IsBlank3(s[0], s[1], s[2]) then 3
    else 0
  }

  function BlankSuffix(s: Bytes): (n: nat)
    ensures n <= |s|
  {
    var k := |s|;
    if s == [] then 0
    else if IsBlank(s[k - 1]) then 1
    else if k >= 2 && IsBlank2(s[k - 2], s[k - 1]) then 2
    else if k >= 3 && IsBlank3(s[k - 3], s[k - 2], s[k - 1]) then 3
    else 0
  }

  /** U+0085 and U+00A0. */
  predicate IsBlank2(a: Byte, b: Byte) {
    a == 0xC2 && (b == 0x85 || b == 0xA0)
  }

  /** U+1680, U+2000 to U+200A, U+2028, U+2029, U+202F, U+205F and U+3000. */
  predicate IsBlank3(a: Byte, b: Byte, c: Byte) {
    || (a == 0xE1 && b == 0x9A && c == 0x80)
    || (a == 0xE2 && b == 0x80 && (0x80 <= c <= 0x8A || c == 0xA8 || c == 0xA9 || c == 0xAF))
    || (a == 0xE2 && b == 0x81 && c == 0x9F)
    || (a == 0xE3 && b == 0x80 && c == 0x80)
  }

  function TrimStart(s: Bytes): Bytes
    decreases |s|
  {
    if BlankPrefix(s) > 0 then TrimStart(s[BlankPrefix(s)..]) else s
  }

  function TrimEnd(s: Bytes): Bytes
    decreases |s|
  {
    if BlankSuffix(s) > 0 then TrimEnd(s[..|s| - BlankSuffix(s)]) else s
  }

  function Trim(s: Bytes): Bytes {
    TrimEnd(TrimStart(s))
  }

  predicate IsGraphic(b: Byte) {
    33 <= b <= 126
  }

  /** Nothing to trim, as the ends are visible ASCII characters. */
  ghost predicate IsTight(s: Bytes) {
    s != [] && IsGraphic(s[0]) && IsGraphic(s[|s| - 1])
  }

  lemma TrimKeepsTight(s: Bytes)
    requires IsTight(s)
    ensures Trim(s) == s && Trim([SP] + s) == s
  {
    assert ([SP] + s)[1..] == s;
    assert TrimStart(s) == s && TrimStart([SP] + s) == TrimStart(s);
  }

  lemma {:induction false} TrimStartIsSuffix(s: Bytes)
    ensures |TrimStart(s)| <= |s| && s[|s| - |TrimStart(s)|..] == TrimStart(s)
    ensures BlankPrefix(TrimStart(s)) == 0
    decreases |s|
  {
    if BlankPrefix(s) > 0 {
      TrimStartIsSuffix(s[BlankPrefix(s)..]);
    }
  }

  lemma {:induction false} TrimEndIsPrefix(s: Bytes)
    ensures TrimEnd(s) <= s
    ensures BlankSuffix(TrimEnd(s)) == 0
    decreases |s|
  {
    if BlankSuffix(s) > 0 {
      TrimEndIsPrefix(s[..|s| - BlankSuffix(s)]);
    }
  }

  lemma TrimEndsAreBare(s: Bytes)
    ensures BlankPrefix(Trim(s)) == 0 && BlankSuffix(Trim(s)) == 0
  {
    TrimStartIsSuffix(s);
    TrimEndIsPrefix(TrimStart(s));
  }

  // ---------- Lines and tokens ----------

  /** Lines end in LF; a CR before that LF belongs to the ending. The last line may lack the LF. */
  function Lines(s: Bytes): seq<Bytes>
    decreases |s|
  {
    if s == [] then []
    else
      match IndexOf(LF, s)
      case None => [s]
      case Some(i) => [StripCr(s[..i])] + Lines(s[i + 1..])
  }

  function StripCr(s: Bytes): Bytes {
    if s != [] && s[|s| - 1] == CR then s[..|s| - 1] else s
  }

  function Lower(b: Byte): Byte {
    if 65 <= b <= 90 then b + 32 else b
  }

  predicate EqIgnoreCase(a: Bytes, b: Bytes) {
    |a| == |b| && forall i :: 0 <= i < |a| ==> Lower(a[i]) == Lower(b[i])
  }

  /** The same byte, or the capital and the small form of one ASCII letter. */
  ghost predicate IsSameLetter(a: Byte, b: Byte) {
    a == b || (65 <= a <= 90 && b == a + 32) || (65 <= b <= 90 && a == b + 32)
  }

  lemma EqIgnoreCaseIsExact(a: Bytes, b: Bytes)
    ensures EqIgnoreCase(a, b) <==> |a| == |b| && forall i :: 0 <= i < |a| ==> IsSameLetter(a[i], b[i])
  {
  }

  /** A literal is its characters' codes. */
  lemma AsciiIsExact(s: string)
    requires forall i :: 0 <= i < |s| ==> s[i] as int < 128
    ensures |Ascii(s)| == |s| && forall i :: 0 <= i < |s| ==> Ascii(s)[i] == s[i] as int
  {
  }

  // ---------- What the lines of a text are ----------

  /** A line and its ending, which is CR LF or LF alone. */
  datatype Line = Line(text: Bytes, cr: bool) {
    ghost predicate Valid() {
      LF !in text && (!cr ==> text == [] || text[|text| - 1] != CR)
    }

    function Whole(): Bytes {
      text + (if cr then CRLF else [LF])
    }
  }

  ghost predicate AreLines(lines: seq<Line>) {
    forall i :: 0 <= i < |lines| ==> lines[i].Valid()
  }

  /** The text that consists of these lines and a last one without an ending, which may be empty. */
  function Unsplit(lines: seq<Line>, last: Bytes): Bytes {
    if lines == [] then last else lines[0].Whole() + Unsplit(lines[1..], last)
  }

  function Texts(lines: seq<Line>, last: Bytes): seq<Bytes> {
    if lines == [] then if last == [] then [] else [last] else [lines[0].text] + Texts(lines[1..], last)
  }

  lemma {:induction false} LinesOf(lines: seq<Line>, last: Bytes)
    requires AreLines(lines) && LF !in last
    ensures Lines(Unsplit(lines, last)) == Texts(lines, last)
  {
    var s := Unsplit(lines, last);
    if lines == [] {
      assert IndexOf(LF, last) == None;
    } else {
      var line, rest := lines[0], Unsplit(lines[1..], last);
      var before := line.text + if line.cr then [CR] else [];
      assert s == before + [LF] + rest;
      IndexOfAfter(LF, before, rest);
      assert s[..|before|] == before && s[|before| + 1..] == rest;
      assert StripCr(before) == line.text;
      LinesOf(lines[1..], last);
    }
  }

  lemma {:induction false} EveryTextHasLines(s: Bytes) returns (lines: seq<Line>, last: Bytes)
    ensures AreLines(lines) && LF !in last && s == Unsplit(lines, last)
    decreases |s|
  {
    var i := IndexOf(LF, s);
    if i.None? {
      lines, last := [], s;
    } else {
      var before := s[..i.value];
      var line := Line(StripCr(before), before != [] && before[|before| - 1] == CR);
      var more;
      more, last := EveryTextHasLines(s[i.value + 1..]);
      lines := [line] + more;
      assert lines[1..] == more;
      assert s == before + [LF] + s[i.value + 1..];
      assert line.Whole() == before + [LF];
    }
  }

  /** The lines of a text are exactly those it can be put together from, in order. */
  lemma LinesAreExact(s: Bytes, texts: seq<Bytes>)
    ensures Lines(s) == texts
       <==> exists lines, last ::
              AreLines(lines) && LF !in last && s == Unsplit(lines, last) && texts == Texts(lines, last)
  {
    hide Lines, Unsplit, Texts, AreLines;
    if Lines(s) == texts {
      var lines, last := EveryTextHasLines(s);
      LinesOf(lines, last);
    }
    if lines: seq<Line>, last: Bytes :|
      AreLines(lines) && LF !in last && s == Unsplit(lines, last) && texts == Texts(lines, last) {
      LinesOf(lines, last);
    }
  }
}
