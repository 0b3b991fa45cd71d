/** The request parser of the submission server: splitting a request and reading its PUT header. */
module Requests {
  import opened Wrappers
  import opened Uuids
  import opened Text
  import opened Numerals

  datatype Request = Request(startLine: Bytes, headers: Bytes, body: Bytes)

  function SplitRequest(buf: Bytes): Option<Request> {
    var i :- Find(CRLF, buf);
    var startLine, rest := buf[..i], buf[i + 2..];
    var j :- Find(BLANK_LINE, rest);
    var headers, body := rest[..j], rest[j + 4..];
    if IsUtf8(startLine) && IsUtf8(headers) then Some(Request(startLine, headers, body)) else None
  }

  /** `needle` follows `before`, and does not occur any earlier. */
  ghost predicate IsDelimitedBy(needle: Bytes, before: Bytes, after: Bytes) {
    forall j :: 0 <= j < |before| ==> !OccursAt(needle, before + needle + after, j)
  }

  lemma FindDelimiter(needle: Bytes, before: Bytes, after: Bytes)
    ensures Find(needle, before + needle + after) == Some(|before|) <==> IsDelimitedBy(needle, before, after)
  {
    var s := before + needle + after;
    assert s[|before|..|before| + |needle|] == needle;
    FindIsFirst(needle, s, |before|);
  }

  /** The parts are separated by the first CRLF and by the first blank line after it, and are text. */
  ghost predicate IsSplit(r: Request) {
    && IsDelimitedBy(CRLF, r.startLine, r.headers + BLANK_LINE + r.body)
    && IsDelimitedBy(BLANK_LINE, r.headers, r.body)
    && IsUtf8(r.startLine) && IsUtf8(r.headers)
  }

  /** Splitting is sound and complete: it succeeds exactly on well-delimited text, with those parts. */
  lemma SplitIsExact(buf: Bytes, r: Request)
    ensures SplitRequest(buf) == Some(r)
       <==> buf == r.startLine + CRLF + (r.headers + BLANK_LINE + r.body) && IsSplit(r)
  {
    hide SplitRequest, IsSplit;
    if SplitRequest(buf) == Some(r) {
      SplitIsSound(buf, r);
    }
    if buf == r.startLine + CRLF + (r.headers + BLANK_LINE + r.body) && IsSplit(r) {
      SplitIsComplete(r);
    }
  }

  lemma SplitIsSound(buf: Bytes, r: Request)
    requires SplitRequest(buf) == Some(r)
    ensures buf == r.startLine + CRLF + (r.headers + BLANK_LINE + r.body)
    ensures IsSplit(r)
  {
    hide IsUtf8, IsDelimitedBy;
    var i := Find(CRLF, buf).value;
    var rest := buf[i + 2..];
    var j := Find(BLANK_LINE, rest).value;
    OccurrenceSplits(CRLF, buf, i);
    OccurrenceSplits(BLANK_LINE, rest, j);
    FindDelimiter(CRLF, r.startLine, rest);
    FindDelimiter(BLANK_LINE, r.headers, r.body);
  }

  lemma OccurrenceSplits(needle: Bytes, s: Bytes, i: nat)
    requires OccursAt(needle, s, i)
    ensures i + |needle| <= |s| && s == s[..i] + needle + s[i + |needle|..]
  {
    assert s == s[..i] + s[i..i + |needle|] + s[i + |needle|..];
  }

  lemma SplitIsComplete(r: Request)
    requires IsSplit(r)
    ensures SplitRequest(r.startLine + CRLF + (r.headers + BLANK_LINE + r.body)) == Some(r)
  {
    hide IsUtf8, IsDelimitedBy;
    var rest := r.headers + BLANK_LINE + r.body;
    var buf := r.startLine + CRLF + rest;
    FindDelimiter(CRLF, r.startLine, rest);
    FindDelimiter(BLANK_LINE, r.headers, r.body);
    assert buf[..|r.startLine|] == r.startLine;
    assert buf[|r.startLine| + 2..] == rest;
    assert rest[..|r.headers|] == r.headers;
    assert rest[|r.headers| + 4..] == r.body;
  }

  // ---------- The start line ----------

  datatype Method = Get | Put

  datatype StartLine = Accepted(verb: Method) | BadRequest | MethodNotAllowed

  /** The text up to the next space, and what follows that space if there is one. */
  function Token(s: Bytes): (Bytes, Option<Bytes>) {
    match IndexOf(SP, s)
    case None => (s, None)
    case Some(i) => (s[..i], Some(s[i + 1..]))
  }

  function CheckStartLine(s: Bytes): StartLine {
    var (verb, rest) := Token(s);
    if verb != Ascii("GET") && verb != Ascii("PUT") then MethodNotAllowed
    else if rest.None? then BadRequest
    else if Token(rest.value).0 != Ascii("/") then BadRequest
    else Accepted(if verb == Ascii("GET") then Get else Put)
  }

  /** The text starts with this token: nothing follows it, or a space does. */
  ghost predicate StartsWithToken(s: Bytes, token: Bytes) {
    s == token || token + [SP] <= s
  }

  lemma TokenIsExact(s: Bytes, token: Bytes)
    requires SP !in token
    ensures Token(s).0 == token <==> StartsWithToken(s, token)
    ensures token + [SP] <= s ==> Token(s).1 == Some(s[|token| + 1..])
    ensures s == token ==> Token(s).1 == None
  {
    if token + [SP] <= s {
      assert s == token + [SP] + s[|token| + 1..];
      IndexOfAfter(SP, token, s[|token| + 1..]);
    }
    var i := IndexOf(SP, s);
    if i.Some? {
      assert s == s[..i.value] + [SP] + s[i.value + 1..];
    }
  }

  /** Only GET and PUT of the root are accepted; another verb is told apart from a bad target. */
  lemma StartLineIsExact(s: Bytes)
    ensures CheckStartLine(s) == Accepted(Get) <==> StartsWithToken(s, Ascii("GET") + [SP] + Ascii("/"))
    ensures CheckStartLine(s) == Accepted(Put) <==> StartsWithToken(s, Ascii("PUT") + [SP] + Ascii("/"))
    ensures CheckStartLine(s) == MethodNotAllowed
       <==> !StartsWithToken(s, Ascii("GET")) && !StartsWithToken(s, Ascii("PUT"))
  {
    var get, put, root := Ascii("GET"), Ascii("PUT"), Ascii("/");
    assert SP !in get && SP !in put && SP !in root && get[0] == 71 && put[0] == 80;
    hide Ascii;
    TokenIsExact(s, get);
    TokenIsExact(s, put);
    VerbThenRoot(s, get, root);
    VerbThenRoot(s, put, root);
  }

  lemma VerbThenRoot(s: Bytes, verb: Bytes, root: Bytes)
    requires SP !in verb && SP !in root
    ensures StartsWithToken(s, verb + [SP] + root)
       <==> Token(s).0 == verb && Token(s).1.Some? && Token(Token(s).1.value).0 == root
  {
    hide Token;
    TokenIsExact(s, verb);
    if verb + [SP] <= s {
      var rest := s[|verb| + 1..];
      TokenIsExact(rest, root);
      assert s == verb + [SP] + rest;
    }
  }

  // ---------- The PUT header ----------

  datatype PutInfo = PutInfo(size: Option<nat>, guid: Option<Uuid>, isGcode: bool)

  /** A header line split at its first colon, both sides trimmed. */
  function Field(line: Bytes): Option<(Bytes, Bytes)> {
    var i :- IndexOf(COLON, line);
    Some((Trim(line[..i]), Trim(line[i + 1..])))
  }

  /** Where a line is split, and that nothing but white space is lost. */
  lemma FieldIsExact(line: Bytes, key: Bytes, val: Bytes)
    ensures Field(line) == Some((key, val))
       <==> exists a, b :: line == a + [COLON] + b && COLON !in a && Trim(a) == key && Trim(b) == val
    ensures Field(line) == None <==> COLON !in line
  {
    hide Trim;
    var i := IndexOf(COLON, line);
    if i.Some? {
      assert line == line[..i.value] + [COLON] + line[i.value + 1..];
    }
    if a, b :| line == a + [COLON] + b && COLON !in a && Trim(a) == key && Trim(b) == val {
      IndexOfAfter(COLON, a, b);
      assert line[..|a|] == a && line[|a| + 1..] == b;
    }
  }

  function Absorb(info: PutInfo, line: Bytes): PutInfo {
    match Field(line)
    case None => info
    case Some((key, val)) =>
      if EqIgnoreCase(key, Ascii("content-length")) then info.(size := ParseUsize(val))
      else if EqIgnoreCase(key, Ascii("content-type")) && val == Ascii("text/x.gcode") then info.(isGcode := true)
      else if EqIgnoreCase(key, Ascii("guid")) then info.(guid := ParseUuid(val))
      else info
  }

  function AbsorbAll(info: PutInfo, lines: seq<Bytes>): PutInfo
    decreases lines
  {
    if lines == [] then info else AbsorbAll(Absorb(info, lines[0]), lines[1..])
  }

  const NO_INFO := PutInfo(None, None, false)

  function ReadPutHeader(headers: Bytes): PutInfo {
    AbsorbAll(NO_INFO, Lines(headers))
  }

  /** The loop over the header lines, updating one record. */
  method CheckPutHeader(headers: Bytes) returns (info: PutInfo)
    ensures info == ReadPutHeader(headers)
  {
    info := NO_INFO;
    var lines := Lines(headers);
    for i := 0 to |lines|
      invariant AbsorbAll(info, lines[i..]) == ReadPutHeader(headers)
    {
      assert lines[i..][1..] == lines[i + 1..];
      var field := Field(lines[i]);
      if field.Some? {
        var (key, val) := field.value;
        if EqIgnoreCase(key, Ascii("content-length")) {
          info := info.(size := ParseUsize(val));
        } else if EqIgnoreCase(key, Ascii("content-type")) && val == Ascii("text/x.gcode") {
          info := info.(isGcode := true);
        } else if EqIgnoreCase(key, Ascii("guid")) {
          info := info.(guid := ParseUuid(val));
        }
      }
    }
  }

  // ---------- What the header record means ----------

  ghost predicate HasKey(line: Bytes, key: Bytes) {
    Field(line).Some? && EqIgnoreCase(Field(line).value.0, key)
  }

  /** The last line with the key, which is the one that counts. */
  ghost predicate IsLastWith(lines: seq<Bytes>, key: Bytes, i: int) {
    0 <= i < |lines| && HasKey(lines[i], key) && forall j :: i < j < |lines| ==> !HasKey(lines[j], key)
  }

  lemma {:induction false} LastLineCounts(info: PutInfo, lines: seq<Bytes>, i: int)
    ensures IsLastWith(lines, Ascii("content-length"), i) ==>
              AbsorbAll(info, lines).size == ParseUsize(Field(lines[i]).value.1)
    ensures IsLastWith(lines, Ascii("guid"), i) ==>
              AbsorbAll(info, lines).guid == ParseUuid(Field(lines[i]).value.1)
    ensures (forall j :: 0 <= j < |lines| ==> !HasKey(lines[j], Ascii("content-length"))) ==>
              AbsorbAll(info, lines).size == info.size
    ensures (forall j :: 0 <= j < |lines| ==> !HasKey(lines[j], Ascii("guid"))) ==>
              AbsorbAll(info, lines).guid == info.guid
    decreases lines
  {
    hide Field, ParseUsize, ParseUuid;
    if lines != [] {
      LastLineCounts(Absorb(info, lines[0]), lines[1..], i - 1);
      OneLineSetsItsField(info, lines[0]);
      if IsLastWith(lines, Ascii("content-length"), 0) {
        assert forall j :: 0 <= j < |lines[1..]| ==> !HasKey(lines[1..][j], Ascii("content-length"));
      }
      if IsLastWith(lines, Ascii("guid"), 0) {
        assert forall j :: 0 <= j < |lines[1..]| ==> !HasKey(lines[1..][j], Ascii("guid"));
      }
    }
  }

  lemma OneLineSetsItsField(info: PutInfo, line: Bytes)
    ensures Absorb(info, line).size
         == if HasKey(line, Ascii("content-length")) then ParseUsize(Field(line).value.1) else info.size
    ensures Absorb(info, line).guid == if HasKey(line, Ascii("guid")) then ParseUuid(Field(line).value.1) else info.guid
    ensures Absorb(info, line).isGcode == (info.isGcode || DeclaresGcode(line))
  {
    assert |Ascii("guid")| == 4 && |Ascii("content-type")| == 12 && |Ascii("content-length")| == 14;
  }

  ghost predicate DeclaresGcode(line: Bytes) {
    HasKey(line, Ascii("content-type")) && Field(line).value.1 == Ascii("text/x.gcode")
  }

  lemma {:induction false} GcodeIffDeclared(info: PutInfo, lines: seq<Bytes>)
    ensures AbsorbAll(info, lines).isGcode <==> info.isGcode || exists i :: 0 <= i < |lines| && DeclaresGcode(lines[i])
    decreases lines
  {
    hide Field, ParseUsize, ParseUuid, DeclaresGcode, Absorb;
    if lines != [] {
      OneLineSetsItsField(info, lines[0]);
      GcodeIffDeclared(Absorb(info, lines[0]), lines[1..]);
      if exists i :: 0 <= i < |lines| && DeclaresGcode(lines[i]) {
        var i :| 0 <= i < |lines| && DeclaresGcode(lines[i]);
        assert i > 0 ==> lines[1..][i - 1] == lines[i];
      }
    }
  }

  // ---------- The whole header ----------

  /** The size is what the last line with that key parses to; without such a line there is none. */
  ghost predicate SaysSize(lines: seq<Bytes>, size: Option<nat>) {
    || (exists i :: IsLastWith(lines, Ascii("content-length"), i) && ParseUsize(Field(lines[i]).value.1) == size)
    || (size == None && forall i :: 0 <= i < |lines| ==> !HasKey(lines[i], Ascii("content-length")))
  }

  ghost predicate SaysGuid(lines: seq<Bytes>, guid: Option<Uuid>) {
    || (exists i :: IsLastWith(lines, Ascii("guid"), i) && ParseUuid(Field(lines[i]).value.1) == guid)
    || (guid == None && forall i :: 0 <= i < |lines| ==> !HasKey(lines[i], Ascii("guid")))
  }

  ghost predicate SaysGcode(lines: seq<Bytes>) {
    exists i :: 0 <= i < |lines| && DeclaresGcode(lines[i])
  }

  lemma {:induction false} LastWithExists(lines: seq<Bytes>, key: Bytes) returns (i: int)
    ensures IsLastWith(lines, key, i) || forall j :: 0 <= j < |lines| ==> !HasKey(lines[j], key)
    decreases lines
  {
    hide HasKey;
    i := |lines| - 1;
    if lines != [] && !HasKey(lines[i], key) {
      i := LastWithExists(lines[..i], key);
      assert forall j :: 0 <= j < |lines| - 1 ==> lines[..|lines| - 1][j] == lines[j];
    }
  }

  /** What is read from a header is what its lines say, and nothing else. */
  lemma HeaderIsExact(headers: Bytes, info: PutInfo)
    ensures ReadPutHeader(headers) == info
       <==> && SaysSize(Lines(headers), info.size) && SaysGuid(Lines(headers), info.guid)
            && (info.isGcode <==> SaysGcode(Lines(headers)))
  {
    var lines := Lines(headers);
    hide Field, HasKey, DeclaresGcode, AbsorbAll, ParseUsize, ParseUuid, Ascii;
    var i := LastWithExists(lines, Ascii("content-length"));
    var j := LastWithExists(lines, Ascii("guid"));
    LastLineCounts(NO_INFO, lines, i);
    LastLineCounts(NO_INFO, lines, j);
    GcodeIffDeclared(NO_INFO, lines);
    assert forall k :: IsLastWith(lines, Ascii("content-length"), k) ==> k == i;
    assert forall k :: IsLastWith(lines, Ascii("guid"), k) ==> k == j;
  }
}
