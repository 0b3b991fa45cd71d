/** Decimal sizes and the text form of identifiers, written and read back. */
module Numerals {
  import opened Wrappers
  import opened Uuids
  import opened Text

  const USIZE_MAX := 0xFFFF_FFFF

  // ---------- Decimal ----------

  predicate IsDigit(b: Byte) {
    48 <= b <= 57
  }

  function DecimalText(n: nat): (s: Bytes)
    ensures s != []
    ensures forall b :: b in s ==> IsDigit(b)
  {
    if n < 10 then [48 + n] else DecimalText(n / 10) + [48 + n % 10]
  }

  function DecimalValue(s: Bytes): Option<nat> {
    if s == [] then Some(0)
    else
      var high :- DecimalValue(s[..|s| - 1]);
      var b := s[|s| - 1];
      if IsDigit(b) then Some(10 * high + (b - 48)) else None
  }

  /** `str::parse::<usize>` on a 32-bit target: an optional plus sign, digits, no overflow. */
  function ParseUsize(s: Bytes): Option<nat> {
    var digits := if |s| > 1 && s[0] == 43 then s[1..] else s;
    if digits == [] then None
    else
      var n :- DecimalValue(digits);
      if n <= USIZE_MAX then Some(n) else None
  }

  lemma {:induction false} DecimalRoundTrip(n: nat)
    ensures DecimalValue(DecimalText(n)) == Some(n)
  {
    if n >= 10 {
      DecimalRoundTrip(n / 10);
      assert DecimalText(n)[..|DecimalText(n)| - 1] == DecimalText(n / 10);
    } else {
      assert DecimalValue([48 + n][..0]) == Some(0);
    }
  }

  lemma SizeRoundTrip(n: nat)
    requires n <= USIZE_MAX
    ensures ParseUsize(DecimalText(n)) == Some(n)
  {
    DecimalRoundTrip(n);
    assert IsDigit(DecimalText(n)[0]);
  }

  ghost function Pow10(k: nat): nat {
    if k == 0 then 1 else 10 * Pow10(k - 1)
  }

  lemma {:induction false} DecimalLength(n: nat, k: nat)
    requires k > 0 && n < Pow10(k)
    ensures |DecimalText(n)| <= k
  {
    if n >= 10 {
      DecimalLength(n / 10, k - 1);
    }
  }

  /** The i-th digit from the right is the i-th decimal digit of the number, and none is superfluous. */
  lemma {:induction false} DecimalDigits(n: nat, i: nat)
    requires i < |DecimalText(n)|
    ensures Pow10(i) > 0 && DecimalText(n)[|DecimalText(n)| - 1 - i] == 48 + n / Pow10(i) % 10
    ensures n == 0 <==> DecimalText(n)[0] == 48
    ensures DecimalText(n)[0] == 48 ==> |DecimalText(n)| == 1
  {
    if n < 10 {
    } else {
      var init := DecimalText(n / 10);
      assert DecimalText(n) == init + [48 + n % 10];
      DecimalDigits(n / 10, if i == 0 then 0 else i - 1);
      if i > 0 {
        Shift(n, Pow10(i - 1));
      }
    }
  }

  lemma Shift(n: nat, p: nat)
    requires p > 0
    ensures n / 10 / p == n / (10 * p)
  {
    var q, r := n / 10 / p, n / 10 % p;
    assert n == (q * p + r) * 10 + n % 10;
    assert n == q * (10 * p) + (r * 10 + n % 10);
    assert r * 10 + n % 10 < 10 * p;
    QuotientIs(n, 10 * p, q, r * 10 + n % 10);
  }

  lemma QuotientIs(n: nat, d: nat, q: nat, r: nat)
    requires n == q * d + r && r < d
    ensures n / d == q
  {
    var p, m := n / d, n % d;
    assert n == p * d + m;
    if p < q {
      Distribute(q, p, d);
      AtLeastOnce(q - p, d);
    } else if p > q {
      Distribute(p, q, d);
      AtLeastOnce(p - q, d);
    }
  }

  lemma Distribute(a: int, b: int, d: int)
    ensures (a - b) * d == a * d - b * d
  {
  }

  lemma AtLeastOnce(k: nat, d: nat)
    requires k > 0
    ensures k * d >= d
  {
  }

  function Zeros(k: nat): Bytes {
    seq(k, _ => 48)
  }

  /** A number may be written with zeros in front and a plus sign before them. */
  ghost predicate IsWritten(s: Bytes, n: nat) {
    exists k :: k >= 0 && (s == Zeros(k) + DecimalText(n) || s == [43] + (Zeros(k) + DecimalText(n)))
  }

  lemma {:induction false} PaddedValue(k: nat, n: nat)
    ensures DecimalValue(Zeros(k) + DecimalText(n)) == Some(n)
    decreases n
  {
    var s := Zeros(k) + DecimalText(n);
    if n >= 10 {
      assert s[..|s| - 1] == Zeros(k) + DecimalText(n / 10);
      PaddedValue(k, n / 10);
    } else {
      assert s[..|s| - 1] == Zeros(k);
      ZerosValue(k);
    }
  }

  lemma {:induction false} ZerosValue(k: nat)
    ensures DecimalValue(Zeros(k)) == Some(0)
  {
    if k > 0 {
      assert Zeros(k)[..k - 1] == Zeros(k - 1);
      ZerosValue(k - 1);
    }
  }

  /** Digits with a value are that number, written with some zeros in front. */
  lemma {:induction false} ValueIsPadded(s: Bytes) returns (k: nat)
    requires s != [] && DecimalValue(s).Some?
    ensures s == Zeros(k) + DecimalText(DecimalValue(s).value)
    decreases |s|
  {
    var init, b := s[..|s| - 1], s[|s| - 1];
    assert s == init + [b];
    if init == [] {
      k := 0;
    } else {
      k := ValueIsPadded(init);
      var high := DecimalValue(init).value;
      if high == 0 {
        assert DecimalText(0) == [48];
        assert init == Zeros(k + 1);
        k := k + 1;
      }
    }
  }

  /** Exactly the texts of a 32-bit number are read as it: leading zeros and one plus sign are allowed. */
  lemma ParseUsizeIsExact(s: Bytes, n: nat)
    ensures ParseUsize(s) == Some(n) <==> n <= 0xFFFF_FFFF && IsWritten(s, n)
  {
    hide DecimalText, DecimalValue;
    var digits := if |s| > 1 && s[0] == 43 then s[1..] else s;
    if ParseUsize(s) == Some(n) {
      var k := ValueIsPadded(digits);
      assert s == digits || s == [43] + digits;
    }
    if n <= 0xFFFF_FFFF && IsWritten(s, n) {
      var k :| k >= 0 && (s == Zeros(k) + DecimalText(n) || s == [43] + (Zeros(k) + DecimalText(n)));
      var text := Zeros(k) + DecimalText(n);
      PaddedValue(k, n);
      assert IsDigit(text[0]) by {
        assert text[0] == 48 || text[0] == DecimalText(n)[0];
        assert DecimalText(n)[0] in DecimalText(n);
      }
      assert s != text ==> s[1..] == text;
    }
  }

  // ---------- Identifiers ----------

  const HYPHEN: Byte := 45

  function HexDigit(n: Nibble): Byte {
    if n < 10 then 48 + n else 87 + n
  }

  function HexValue(b: Byte): Option<Nibble> {
    if 48 <= b <= 57 then Some(b - 48)
    else if 97 <= b <= 102 then Some(b - 87)
    else if 65 <= b <= 70 then Some(b - 55)
    else None
  }

  predicate IsHyphenPlace(j: int) {
    j == 8 || j == 13 || j == 18 || j == 23
  }

  /** The place of the i-th digit in the hyphenated text, and the digit at a place that is no hyphen. */
  function PlaceOf(i: int): int {
    if i < 8 then i else if i < 12 then i + 1 else if i < 16 then i + 2 else if i < 20 then i + 3 else i + 4
  }

  function DigitAt(j: int): int {
    if j < 8 then j else if j < 13 then j - 1 else if j < 18 then j - 2 else if j < 23 then j - 3 else j - 4
  }

  /** The hyphenated lower-case form (RFC 9562, section 4). */
  function UuidText(u: Uuid): Bytes {
    seq(36, j requires 0 <= j < 36 => if IsHyphenPlace(j) then HYPHEN else HexDigit(u.nibbles[DigitAt(j)]))
  }

  function ParseDigits(s: Bytes, place: int -> int): Option<Uuid>
    requires forall i :: 0 <= i < 32 ==> 0 <= place(i) < |s|
  {
    if forall i :: 0 <= i < 32 ==> HexValue(s[place(i)]).Some?
    then Some(Uuid(seq(32, i requires 0 <= i < 32 && HexValue(s[place(i)]).Some? => HexValue(s[place(i)]).value)))
    else None
  }

  function ParseHyphenated(s: Bytes): Option<Uuid>
    requires |s| == 36
  {
    if s[8] == HYPHEN && s[13] == HYPHEN && s[18] == HYPHEN && s[23] == HYPHEN then ParseDigits(s, PlaceOf) else None
  }

  /** `str::parse::<Uuid>`: plain, hyphenated, braced, or as a URN. */
  function ParseUuid(s: Bytes): Option<Uuid> {
    if |s| == 32 then ParseDigits(s, i => i)
    else if |s| == 36 then ParseHyphenated(s)
    else if |s| == 38 && s[0] == 123 && s[37] == 125 then ParseHyphenated(s[1..37])
    else if |s| == 45 && s[..9] == Ascii("urn:uuid:") then ParseHyphenated(s[9..])
    else None
  }

  lemma UuidRoundTrip(u: Uuid)
    ensures ParseUuid(UuidText(u)) == Some(u)
  {
    var s := UuidText(u);
    forall i | 0 <= i < 32
      ensures HexValue(s[PlaceOf(i)]) == Some(u.nibbles[i])
    {
      assert !IsHyphenPlace(PlaceOf(i)) && DigitAt(PlaceOf(i)) == i;
    }
    assert ParseDigits(s, PlaceOf).value.nibbles == u.nibbles;
  }

  /** The 32 digits without hyphens. */
  function SimpleText(u: Uuid): Bytes {
    seq(32, i requires 0 <= i < 32 => HexDigit(u.nibbles[i]))
  }

  /** The digits in order, in lower case, with hyphens into groups of 8, 4, 4, 4 and 12. */
  lemma UuidTextIsExact(u: Uuid)
    ensures var h := SimpleText(u);
            && UuidText(u) == h[..8] + [45] + h[8..12] + [45] + h[12..16] + [45] + h[16..20] + [45] + h[20..]
            && forall i :: 0 <= i < 32 ==> h[i] == Ascii("0123456789abcdef")[u.nibbles[i]]
  {
    assert forall n: Nibble :: HexDigit(n) == Ascii("0123456789abcdef")[n];
  }

  lemma HexIgnoresCase(b: Byte, n: Nibble)
    ensures HexValue(b) == Some(n) <==> Lower(b) == Lower(HexDigit(n))
  {
  }

  lemma SimpleIsExact(s: Bytes, u: Uuid)
    requires |s| == 32
    ensures ParseDigits(s, i => i) == Some(u) <==> EqIgnoreCase(s, SimpleText(u))
  {
    hide HexValue, HexDigit, Lower;
    forall i | 0 <= i < 32
      ensures HexValue(s[i]) == Some(u.nibbles[i]) <==> Lower(s[i]) == Lower(SimpleText(u)[i])
    {
      HexIgnoresCase(s[i], u.nibbles[i]);
    }
    var r := ParseDigits(s, i => i);
    if r.Some? && forall i :: 0 <= i < 32 ==> HexValue(s[i]) == Some(u.nibbles[i]) {
      assert r.value.nibbles == u.nibbles;
    }
  }

  lemma HyphenatedIsExact(s: Bytes, u: Uuid)
    requires |s| == 36
    ensures ParseHyphenated(s) == Some(u) <==> EqIgnoreCase(s, UuidText(u))
  {
    hide HexValue, HexDigit, Lower;
    var t := UuidText(u);
    forall j | 0 <= j < 36
      ensures Lower(s[j]) == Lower(t[j])
         <==> if IsHyphenPlace(j) then s[j] == HYPHEN else HexValue(s[j]) == Some(u.nibbles[DigitAt(j)])
    {
      if IsHyphenPlace(j) {
        HyphenHasNoCase(s[j]);
      } else {
        HexIgnoresCase(s[j], u.nibbles[DigitAt(j)]);
      }
    }
    assert forall i :: 0 <= i < 32 ==> !IsHyphenPlace(PlaceOf(i)) && DigitAt(PlaceOf(i)) == i;
    assert forall j :: 0 <= j < 36 && !IsHyphenPlace(j) ==> PlaceOf(DigitAt(j)) == j;
    var r := ParseDigits(s, PlaceOf);
    if r.Some? && forall i :: 0 <= i < 32 ==> HexValue(s[PlaceOf(i)]) == Some(u.nibbles[i]) {
      assert r.value.nibbles == u.nibbles;
    }
  }

  lemma HyphenHasNoCase(b: Byte)
    ensures Lower(b) == Lower(HYPHEN) <==> b == HYPHEN
  {
  }

  /**
   Exactly these texts are read as an identifier, in capitals or small letters: its digits, plain or
   hyphenated, and the hyphenated form in braces or as a URN.
   */
  lemma ParseUuidIsExact(s: Bytes, u: Uuid)
    ensures ParseUuid(s) == Some(u)
       <==> || EqIgnoreCase(s, SimpleText(u))
            || EqIgnoreCase(s, UuidText(u))
            || EqIgnoreCase(s, [123] + UuidText(u) + [125])
            || (Ascii("urn:uuid:") <= s && EqIgnoreCase(s[9..], UuidText(u)))
  {
    assert |Ascii("urn:uuid:")| == 9 && |UuidText(u)| == 36;
    hide Ascii, UuidText, ParseHyphenated, ParseDigits, Lower;
    if |s| == 32 {
      SimpleIsExact(s, u);
    } else if |s| == 36 {
      HyphenatedIsExact(s, u);
    } else if |s| == 38 {
      HyphenatedIsExact(s[1..37], u);
      BracesHaveNoCase(s, UuidText(u));
    } else if |s| == 45 {
      HyphenatedIsExact(s[9..], u);
    }
  }

  lemma BracesHaveNoCase(s: Bytes, t: Bytes)
    requires |s| == 38 && |t| == 36
    ensures EqIgnoreCase(s, [123] + t + [125]) <==> s[0] == 123 && s[37] == 125 && EqIgnoreCase(s[1..37], t)
  {
    var braced := [123] + t + [125];
    assert Lower(s[0]) == Lower(braced[0]) <==> s[0] == 123;
    assert Lower(s[37]) == Lower(braced[37]) <==> s[37] == 125;
    assert forall i :: 0 <= i < 36 ==> braced[i + 1] == t[i] && s[1..37][i] == s[i + 1];
    if EqIgnoreCase(s[1..37], t) && s[0] == 123 && s[37] == 125 {
      forall i | 0 <= i < 38
        ensures Lower(s[i]) == Lower(braced[i])
      {
        assert 0 < i < 37 ==> Lower(s[1..37][i - 1]) == Lower(t[i - 1]);
      }
    }
    if EqIgnoreCase(s, braced) {
      forall i | 0 <= i < 36
        ensures Lower(s[1..37][i]) == Lower(t[i])
      {
        assert Lower(s[i + 1]) == Lower(braced[i + 1]);
      }
    }
  }

  lemma UuidTextIsInjective(u: Uuid, v: Uuid)
    requires UuidText(u) == UuidText(v)
    ensures u == v
  {
    UuidRoundTrip(u);
    UuidRoundTrip(v);
  }

  // ---------- Paths ----------

  /** Where a job's file is kept while it is being received and when it is complete. */
  function MakePath(u: Uuid, partial: bool): Bytes {
    Ascii("/usb/") + UuidText(u) + if partial then Ascii(".partial") else Ascii(".gcode")
  }

  /** Different jobs, and the two stages of one job, never share a path. */
  lemma PathsAreDistinct(u: Uuid, p: bool, v: Uuid, q: bool)
    ensures MakePath(u, p) == MakePath(v, q) <==> u == v && p == q
    ensures |MakePath(u, p)| < 64
  {
    if MakePath(u, p) == MakePath(v, q) {
      assert |MakePath(u, p)| == if p then 49 else 47;
      assert UuidText(u) == MakePath(u, p)[5..41];
      assert UuidText(v) == MakePath(v, q)[5..41];
      UuidTextIsInjective(u, v);
    }
  }

  /** A path shows its job, and its ending shows the stage. */
  lemma PathShowsJobAndStage(u: Uuid, partial: bool)
    ensures var path := MakePath(u, partial);
            && path[..5] == Ascii("/usb/") && path[5..41] == UuidText(u)
            && (partial <==> path[41..] == Ascii(".partial"))
            && (!partial <==> path[41..] == Ascii(".gcode"))
  {
    assert |Ascii(".partial")| == 8 && |Ascii(".gcode")| == 6 && |Ascii("/usb/")| == 5;
    hide Ascii, UuidText;
  }
}
