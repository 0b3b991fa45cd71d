/**
 What the byte-level text handling means in terms of Unicode characters: UTF-8 as an encoding of
 scalar values (RFC 3629, section 3), and trimming as the removal of White_Space characters.
 */
module Unicode {
  import opened Wrappers
  import opened Text

  type Scalar = c: int | 0 <= c < 0xD800 || 0xE000 <= c < 0x11_0000

  /** The UTF-8 form of a character. */
  function Encode(c: Scalar): (s: Bytes)
    ensures 0 < |s| <= 4
  {
    if c < 0x80 then [c]
    else if c < 0x800 then [0xC0 + c / 64, 0x80 + c % 64]
    else if c < 0x1_0000 then [0xE0 + c / 4096, 0x80 + c / 64 % 64, 0x80 + c % 64]
    else [0xF0 + c / 262144, 0x80 + c / 4096 % 64, 0x80 + c / 64 % 64, 0x80 + c % 64]
  }

  function EncodeAll(cs: seq<Scalar>): Bytes {
    if cs == [] then [] else Encode(cs[0]) + EncodeAll(cs[1..])
  }

  lemma {:induction false} EncodeAllAppends(cs: seq<Scalar>, c: Scalar)
    ensures EncodeAll(cs + [c]) == EncodeAll(cs) + Encode(c)
  {
    if cs == [] {
      assert [c][1..] == [];
    } else {
      assert (cs + [c])[1..] == cs[1..] + [c];
      EncodeAllAppends(cs[1..], c);
    }
  }

  // ---------- UTF-8 ----------

  /** An encoded character is recognised by its first bytes, whatever follows. */
  lemma EncodedIsChar(c: Scalar, rest: Bytes)
    ensures CharLen(Encode(c) + rest) == |Encode(c)|
  {
  }

  lemma TwoBytes(x: Byte, y: Byte) returns (c: Scalar)
    requires 0xC2 <= x <= 0xDF && 0x80 <= y <= 0xBF
    ensures Encode(c) == [x, y]
  {
    c := (x as int - 0xC0) * 64 + (y as int - 0x80);
  }

  /** The four digits to base 64 of a number. */
  lemma Base64(h: nat, i: nat, j: nat, k: nat)
    requires i < 64 && j < 64 && k < 64
    ensures var c := h * 262144 + i * 4096 + j * 64 + k;
            c % 64 == k && c / 64 % 64 == j && c / 4096 % 64 == i && c / 262144 == h && c / 4096 == h * 64 + i
  {
    var c := h * 262144 + i * 4096 + j * 64 + k;
    assert c == (h * 4096 + i * 64 + j) * 64 + k;
    assert c / 64 == h * 4096 + i * 64 + j;
    assert c == (h * 64 + i) * 4096 + (j * 64 + k);
    assert c / 4096 == h * 64 + i;
  }

  lemma ThreeBytes(x: Byte, y: Byte, z: Byte) returns (c: Scalar)
    requires 0xE0 <= x <= 0xEF && 0x80 <= y <= 0xBF && 0x80 <= z <= 0xBF
    requires (x == 0xE0 ==> y >= 0xA0) && (x == 0xED ==> y <= 0x9F)
    ensures Encode(c) == [x, y, z]
  {
    var i, j, k := x as int - 0xE0, y as int - 0x80, z as int - 0x80;
    Base64(0, i, j, k);
    c := i * 4096 + j * 64 + k;
    assert 0x800 <= c < 0x1_0000;
  }

  lemma FourBytes(w: Byte, x: Byte, y: Byte, z: Byte) returns (c: Scalar)
    requires 0xF0 <= w <= 0xF4 && 0x80 <= x <= 0xBF && 0x80 <= y <= 0xBF && 0x80 <= z <= 0xBF
    requires (w == 0xF0 ==> x >= 0x90) && (w == 0xF4 ==> x <= 0x8F)
    ensures Encode(c) == [w, x, y, z]
  {
    var h, i, j, k := w as int - 0xF0, x as int - 0x80, y as int - 0x80, z as int - 0x80;
    Base64(h, i, j, k);
    c := h * 262144 + i * 4096 + j * 64 + k;
    assert c >= 0x1_0000;
  }

  lemma CharIsEncoded(s: Bytes) returns (c: Scalar)
    requires s != [] && CharLen(s) > 0
    ensures Encode(c) == s[..CharLen(s)]
  {
    hide Encode;
    var n := CharLen(s);
    if n == 1 {
      c := s[0];
      OneByte(s[0]);
    } else if n == 2 {
      c := TwoBytes(s[0], s[1]);
    } else if n == 3 {
      c := ThreeBytes(s[0], s[1], s[2]);
    } else {
      c := FourBytes(s[0], s[1], s[2], s[3]);
    }
  }

  lemma OneByte(x: Byte)
    requires x < 0x80
    ensures Encode(x) == [x]
  {
  }

  lemma {:induction false} EncodedIsUtf8(cs: seq<Scalar>)
    ensures IsUtf8(EncodeAll(cs))
  {
    if cs != [] {
      var first, rest := Encode(cs[0]), EncodeAll(cs[1..]);
      EncodedIsChar(cs[0], rest);
      assert (first + rest)[|first|..] == rest;
      EncodedIsUtf8(cs[1..]);
    }
  }

  lemma {:induction false} Utf8IsEncoded(s: Bytes) returns (cs: seq<Scalar>)
    requires IsUtf8(s)
    ensures EncodeAll(cs) == s
    decreases |s|
  {
    if s == [] {
      cs := [];
    } else {
      var c := CharIsEncoded(s);
      var rest := Utf8IsEncoded(s[CharLen(s)..]);
      cs := [c] + rest;
      assert cs[1..] == rest;
    }
  }

  /** The check accepts exactly the byte strings that encode some characters. */
  lemma Utf8IsExact(s: Bytes)
    ensures IsUtf8(s) <==> exists cs :: EncodeAll(cs) == s
  {
    if IsUtf8(s) {
      var cs := Utf8IsEncoded(s);
    }
    if cs: seq<Scalar> :| EncodeAll(cs) == s {
      EncodedIsUtf8(cs);
    }
  }

  // ---------- White space ----------

  /** The Unicode property White_Space. */
  predicate IsSpace(c: Scalar) {
    || 0x09 <= c <= 0x0D || c == 0x20 || c == 0x85 || c == 0xA0 || c == 0x1680
    || 0x2000 <= c <= 0x200A || c == 0x2028 || c == 0x2029 || c == 0x202F || c == 0x205F || c == 0x3000
  }

  ghost predicate AreSpaces(cs: seq<Scalar>) {
    forall i :: 0 <= i < |cs| ==> IsSpace(cs[i])
  }

  ghost predicate IsWhiteSpace(s: Bytes) {
    exists cs :: AreSpaces(cs) && EncodeAll(cs) == s
  }

  /** No white-space character at either end. */
  ghost predicate IsBare(s: Bytes) {
    forall c :: IsSpace(c) ==> !(Encode(c) <= s) && !(|Encode(c)| <= |s| && s[|s| - |Encode(c)|..] == Encode(c))
  }

  /** One of the byte patterns that the trimming looks for. */
  ghost predicate IsBlankChar(s: Bytes) {
    || (|s| == 1 && IsBlank(s[0]))
    || (|s| == 2 && IsBlank2(s[0], s[1]))
    || (|s| == 3 && IsBlank3(s[0], s[1], s[2]))
  }

  lemma SpaceHasPattern(c: Scalar)
    requires IsSpace(c)
    ensures IsBlankChar(Encode(c))
  {
  }

  lemma PatternIsSpace(s: Bytes) returns (c: Scalar)
    requires IsBlankChar(s)
    ensures IsSpace(c) && Encode(c) == s
  {
    if |s| == 1 {
      c := s[0];
    } else if |s| == 2 {
      c := s[1];
    } else {
      c := (s[0] as int - 0xE0) * 4096 + (s[1] as int - 0x80) * 64 + (s[2] as int - 0x80);
    }
  }

  lemma PatternIsFound(x: Bytes, s: Bytes)
    requires IsBlankChar(x)
    ensures BlankPrefix(x + s) == |x|
    ensures BlankSuffix(s + x) == |x|
  {
    var k := |s + x|;
    assert (s + x)[k - 1] == x[|x| - 1];
    assert |x| >= 2 ==> (s + x)[k - 2] == x[|x| - 2];
  }

  lemma SpaceIsBlank(c: Scalar, s: Bytes)
    requires IsSpace(c)
    ensures BlankPrefix(Encode(c) + s) == |Encode(c)|
    ensures BlankSuffix(s + Encode(c)) == |Encode(c)|
  {
    SpaceHasPattern(c);
    PatternIsFound(Encode(c), s);
  }

  lemma BlankPrefixIsSpace(s: Bytes) returns (c: Scalar)
    requires BlankPrefix(s) > 0
    ensures IsSpace(c) && Encode(c) == s[..BlankPrefix(s)]
  {
    c := PatternIsSpace(s[..BlankPrefix(s)]);
  }

  lemma BlankSuffixIsSpace(s: Bytes) returns (c: Scalar)
    requires BlankSuffix(s) > 0
    ensures IsSpace(c) && Encode(c) == s[|s| - BlankSuffix(s)..]
  {
    c := PatternIsSpace(s[|s| - BlankSuffix(s)..]);
  }

  /** The byte tests at both ends find a white-space character exactly if there is one. */
  lemma BareIsExact(s: Bytes)
    ensures IsBare(s) <==> BlankPrefix(s) == 0 && BlankSuffix(s) == 0
  {
    hide BlankPrefix, BlankSuffix, Encode, IsSpace;
    if BlankPrefix(s) > 0 {
      var c := BlankPrefixIsSpace(s);
      assert Encode(c) <= s;
    }
    if BlankSuffix(s) > 0 {
      var c := BlankSuffixIsSpace(s);
    }
    forall c | IsSpace(c)
      ensures Encode(c) <= s ==> BlankPrefix(s) > 0
      ensures |Encode(c)| <= |s| && s[|s| - |Encode(c)|..] == Encode(c) ==> BlankSuffix(s) > 0
    {
      var n := |Encode(c)|;
      if Encode(c) <= s {
        SpaceIsBlank(c, s[n..]);
        assert s == Encode(c) + s[n..];
      }
      if n <= |s| && s[|s| - n..] == Encode(c) {
        SpaceIsBlank(c, s[..|s| - n]);
        assert s == s[..|s| - n] + Encode(c);
      }
    }
  }

  // ---------- Trimming ----------

  lemma {:induction false} TrimStartOf(cs: seq<Scalar>, rest: Bytes)
    requires AreSpaces(cs)
    ensures TrimStart(EncodeAll(cs) + rest) == TrimStart(rest)
  {
    hide Encode, BlankPrefix, IsSpace;
    if cs == [] {
      assert EncodeAll(cs) + rest == rest;
    } else {
      var c, tail := cs[0], EncodeAll(cs[1..]) + rest;
      assert EncodeAll(cs) + rest == Encode(c) + tail;
      SpaceIsBlank(c, tail);
      assert (Encode(c) + tail)[|Encode(c)|..] == tail;
      TrimStartOf(cs[1..], rest);
    }
  }

  lemma {:induction false} TrimEndOf(rest: Bytes, cs: seq<Scalar>)
    requires AreSpaces(cs)
    ensures TrimEnd(rest + EncodeAll(cs)) == TrimEnd(rest)
  {
    hide Encode, BlankSuffix, IsSpace;
    if cs == [] {
      assert rest + EncodeAll(cs) == rest;
    } else {
      var init, c := cs[..|cs| - 1], cs[|cs| - 1];
      var front := rest + EncodeAll(init);
      assert cs == init + [c];
      EncodeAllAppends(init, c);
      assert rest + EncodeAll(cs) == front + Encode(c);
      SpaceIsBlank(c, front);
      assert (front + Encode(c))[..|front|] == front;
      TrimEndOf(rest, init);
    }
  }

  lemma {:induction false} TrimStartDrops(s: Bytes) returns (cs: seq<Scalar>)
    ensures AreSpaces(cs) && s == EncodeAll(cs) + TrimStart(s)
    ensures BlankPrefix(TrimStart(s)) == 0
    decreases |s|
  {
    hide BlankPrefix, Encode, IsSpace;
    var n := BlankPrefix(s);
    if n == 0 {
      cs := [];
    } else {
      var c := BlankPrefixIsSpace(s);
      var rest := TrimStartDrops(s[n..]);
      cs := [c] + rest;
      assert cs[1..] == rest;
      assert s == s[..n] + s[n..];
    }
  }

  lemma {:induction false} TrimEndDrops(s: Bytes) returns (cs: seq<Scalar>)
    ensures AreSpaces(cs) && s == TrimEnd(s) + EncodeAll(cs)
    ensures BlankSuffix(TrimEnd(s)) == 0
    decreases |s|
  {
    hide BlankSuffix, Encode, IsSpace;
    var n := BlankSuffix(s);
    if n == 0 {
      cs := [];
    } else {
      var k := |s| - n;
      var c := BlankSuffixIsSpace(s);
      var rest := TrimEndDrops(s[..k]);
      cs := rest + [c];
      EncodeAllAppends(rest, c);
      assert s == s[..k] + s[k..];
    }
  }

  lemma TrimOf(before: Bytes, kept: Bytes, after: Bytes)
    requires IsWhiteSpace(before) && IsWhiteSpace(after) && IsBare(kept)
    ensures Trim(before + kept + after) == kept
  {
    BareIsExact(kept);
    var cs: seq<Scalar> :| AreSpaces(cs) && EncodeAll(cs) == before;
    var ds: seq<Scalar> :| AreSpaces(ds) && EncodeAll(ds) == after;
    hide IsBare, BlankPrefix, BlankSuffix, AreSpaces;
    assert before + kept + after == before + (kept + after);
    TrimStartOf(cs, kept + after);
    if kept == [] {
      assert kept + after == after + [];
      TrimStartOf(ds, []);
    } else {
      BareStart(kept, ds);
      TrimEndOf(kept, ds);
    }
  }

  /** White space behind a text that starts with something else does not make it start with a blank. */
  lemma BareStart(kept: Bytes, ds: seq<Scalar>)
    requires kept != [] && BlankPrefix(kept) == 0 && AreSpaces(ds)
    ensures BlankPrefix(kept + EncodeAll(ds)) == 0
  {
    if ds != [] {
      var c := ds[0];
      assert EncodeAll(ds) == Encode(c) + EncodeAll(ds[1..]);
      assert !(0x80 <= Encode(c)[0] <= 0xBF);
    }
  }

  /**
   Trimming removes white space, all of it, and only that: the result is the one text without any
   at its ends that the input holds between white space.
   */
  lemma TrimIsExact(s: Bytes, kept: Bytes)
    ensures Trim(s) == kept
       <==> && IsBare(kept)
            && exists before, after :: IsWhiteSpace(before) && IsWhiteSpace(after) && s == before + kept + after
  {
    var before, after := TrimSplits(s);
    hide Trim, IsBare, IsWhiteSpace;
    if b, a :| IsBare(kept) && IsWhiteSpace(b) && IsWhiteSpace(a) && s == b + kept + a {
      TrimOf(b, kept, a);
    }
  }

  lemma TrimSplits(s: Bytes) returns (before: Bytes, after: Bytes)
    ensures s == before + Trim(s) + after && IsWhiteSpace(before) && IsWhiteSpace(after) && IsBare(Trim(s))
  {
    var cs := TrimStartDrops(s);
    var ds := TrimEndDrops(TrimStart(s));
    before, after := EncodeAll(cs), EncodeAll(ds);
    TrimEndsAreBare(s);
    BareIsExact(Trim(s));
    hide IsBare, TrimStart, TrimEnd, BlankPrefix, BlankSuffix, EncodeAll, AreSpaces;
    assert before + (Trim(s) + after) == before + Trim(s) + after;
  }
}
