/**
 * UTF-16 and UTF-8 as ECMA-262 uses them inside encodeURIComponent:
 * reading a code point out of a string of code units (CodePointAt, which
 * flags unpaired surrogates), writing a code point back as code units, and
 * the UTF-8 octets of a code point together with a decoder for them.
 */
module Unicode {
  import opened Wrappers
  import opened JsValues

  type CodePoint = c: int | 0 <= c < 0x11_0000

  type Byte = b: int | 0 <= b < 0x100

  predicate IsSurrogate(u: int) { 0xD800 <= u <= 0xDFFF }

  predicate IsLeading(u: int) { 0xD800 <= u <= 0xDBFF }

  predicate IsTrailing(u: int) { 0xDC00 <= u <= 0xDFFF }

  /** A code point that UTF-8 and UTF-16 can both carry. */
  predicate IsScalar(c: CodePoint) { !IsSurrogate(c) }

  predicate AllScalar(cps: seq<CodePoint>) {
    forall i :: 0 <= i < |cps| ==> IsScalar(cps[i])
  }

  // ---------------------------------------------------------------- UTF-16

  /** The record that ECMA-262's CodePointAt returns. */
  datatype CodePointRecord = CodePointRecord(codePoint: CodePoint, codeUnitCount: nat, isUnpairedSurrogate: bool)

  /**
   * CodePointAt(s, k): a lone code unit, a surrogate pair combined, or an
   * unpaired surrogate reported as such.
   */
  function CodePointAt(s: Str, k: nat): (r: CodePointRecord)
    requires k < |s|
    ensures r.codeUnitCount == 1 || r.codeUnitCount == 2
    ensures k + r.codeUnitCount <= |s|
    ensures r.isUnpairedSurrogate <==>
              IsSurrogate(s[k]) && !(IsLeading(s[k]) && k + 1 < |s| && IsTrailing(s[k + 1]))
    ensures r.isUnpairedSurrogate ==> r.codeUnitCount == 1
    ensures !r.isUnpairedSurrogate ==> IsScalar(r.codePoint)
    ensures r.codeUnitCount == 1 ==> r.codePoint == s[k]
    ensures r.codeUnitCount == 2 <==> IsLeading(s[k]) && k + 1 < |s| && IsTrailing(s[k + 1])
  {
    var first: int := s[k];
    if !IsSurrogate(first) then CodePointRecord(first, 1, false)
    else if IsTrailing(first) || k + 1 == |s| then CodePointRecord(first, 1, true)
    else
      var second: int := s[k + 1];
      if !IsTrailing(second) then CodePointRecord(first, 1, true)
      else CodePointRecord((first - 0xD800) * 0x400 + (second - 0xDC00) + 0x1_0000, 2, false)
  }

  /** UTF16EncodeCodePoint: one code unit below U+10000, a surrogate pair above. */
  function Utf16(c: CodePoint): (r: Str)
    requires IsScalar(c)
  {
    if c < 0x1_0000 then [c]
    else [(c - 0x1_0000) / 0x400 + 0xD800, (c - 0x1_0000) % 0x400 + 0xDC00]
  }

  /** Reading back the code units of one code point gives that code point. */
  lemma Utf16Read(c: CodePoint, rest: Str)
    requires IsScalar(c)
    ensures CodePointAt(Utf16(c) + rest, 0) == CodePointRecord(c, |Utf16(c)|, false)
  {
    var s := Utf16(c) + rest;
    if c >= 0x1_0000 {
      assert s[0] == (c - 0x1_0000) / 0x400 + 0xD800 && s[1] == (c - 0x1_0000) % 0x400 + 0xDC00;
    }
  }

  /** Position i of s is not an unpaired surrogate. */
  predicate WellFormedAt(s: Str, i: nat)
    requires i < |s|
  {
    (IsLeading(s[i]) ==> i + 1 < |s| && IsTrailing(s[i + 1])) &&
    (IsTrailing(s[i]) ==> 0 < i && IsLeading(s[i - 1]))
  }

  /**
   * A string is well formed when every leading surrogate is followed by a
   * trailing one and every trailing surrogate follows a leading one
   * (IsStringWellFormedUnicode).
   */
  predicate WellFormed(s: Str) {
    forall i :: 0 <= i < |s| ==> WellFormedAt(s, i)
  }

  /** The code points of a string, reading left to right; None at the first unpaired surrogate. */
  function CodePoints(s: Str): (r: Option<seq<CodePoint>>)
    decreases |s|
    ensures r.Some? ==> AllScalar(r.value)
  {
    if s == [] then Some([])
    else
      var c := CodePointAt(s, 0);
      if c.isUnpairedSurrogate then None
      else match CodePoints(s[c.codeUnitCount..])
        case None => None
        case Some(rest) => Some([c.codePoint] + rest)
  }

  /** The code units of a sequence of code points. */
  function FromCodePoints(cps: seq<CodePoint>): Str
    requires AllScalar(cps)
  {
    if cps == [] then [] else Utf16(cps[0]) + FromCodePoints(cps[1..])
  }

  /**
   * Past a first code point that is not an unpaired surrogate, s is well
   * formed exactly when the rest is.
   */
  lemma WellFormedPastFirst(s: Str)
    requires s != [] && !CodePointAt(s, 0).isUnpairedSurrogate
    ensures WellFormed(s) <==> WellFormed(s[CodePointAt(s, 0).codeUnitCount..])
  {
    var n := CodePointAt(s, 0).codeUnitCount;
    var t := s[n..];
    assert WellFormedAt(s, 0);
    assert n == 2 ==> WellFormedAt(s, 1);
    if WellFormed(s) {
      forall i | 0 <= i < |t| ensures WellFormedAt(t, i) {
        assert WellFormedAt(s, n + i);
      }
    }
    if WellFormed(t) {
      forall i | 0 <= i < |s| ensures WellFormedAt(s, i) {
        if i >= n {
          assert WellFormedAt(t, i - n);
          if i > n {
            assert WellFormedAt(t, i - n - 1);
          }
        }
      }
    }
  }

  /** The string-level reading agrees with the declarative definition of well-formedness. */
  lemma {:induction false} CodePointsWellFormed(s: Str)
    decreases |s|
    ensures CodePoints(s).Some? <==> WellFormed(s)
  {
    if s != [] {
      var c := CodePointAt(s, 0);
      if c.isUnpairedSurrogate {
        assert !WellFormedAt(s, 0);
      } else {
        CodePointsWellFormed(s[c.codeUnitCount..]);
        WellFormedPastFirst(s);
      }
    }
  }

  /** Code points read from a string write back to the same string. */
  lemma {:induction false} FromCodePointsOfCodePoints(s: Str)
    requires CodePoints(s).Some?
    decreases |s|
    ensures FromCodePoints(CodePoints(s).value) == s
  {
    if s != [] {
      var c := CodePointAt(s, 0);
      var rest := s[c.codeUnitCount..];
      FromCodePointsOfCodePoints(rest);
      var cps := CodePoints(s).value;
      assert cps == [c.codePoint] + CodePoints(rest).value;
      assert cps[1..] == CodePoints(rest).value;
      assert Utf16(c.codePoint) == s[..c.codeUnitCount] by {
        if c.codeUnitCount == 2 {
          var first: int, second: int := s[0], s[1];
          assert c.codePoint == (first - 0xD800) * 0x400 + (second - 0xDC00) + 0x1_0000;
        }
      }
      assert s == s[..c.codeUnitCount] + rest;
    }
  }

  // ----------------------------------------------------------------- UTF-8

  /** The UTF-8 octets of a code point (the table in ECMA-262's Encode). */
  function Utf8(c: CodePoint): (r: seq<Byte>)
    ensures 1 <= |r| <= 4
  {
    if c < 0x80 then [c]
    else if c < 0x800 then [0xC0 + c / 0x40, 0x80 + c % 0x40]
    else if c < 0x1_0000 then [0xE0 + c / 0x40 / 0x40, 0x80 + c / 0x40 % 0x40, 0x80 + c % 0x40]
    else [0xF0 + c / 0x40 / 0x40 / 0x40, 0x80 + c / 0x40 / 0x40 % 0x40, 0x80 + c / 0x40 % 0x40, 0x80 + c % 0x40]
  }

  function Utf8Encode(cps: seq<CodePoint>): seq<Byte> {
    if cps == [] then [] else Utf8(cps[0]) + Utf8Encode(cps[1..])
  }

  predicate IsContinuation(b: Byte) { 0x80 <= b < 0xC0 }

  /**
   * The code point at the head of a byte sequence and the number of bytes it
   * takes, or None for a malformed, overlong or surrogate sequence.
   */
  function DecodeOne(b: seq<Byte>): (r: Option<(CodePoint, nat)>)
    requires b != []
    ensures r.Some? ==> 1 <= r.value.1 <= |b| && IsScalar(r.value.0)
  {
    var b0: int := b[0];
    if b0 < 0x80 then Some((b0, 1))
    else if 0xC2 <= b0 < 0xE0 && |b| >= 2 && IsContinuation(b[1]) then
      Some(((b0 - 0xC0) * 0x40 + (b[1] as int - 0x80), 2))
    else if 0xE0 <= b0 < 0xF0 && |b| >= 3 && IsContinuation(b[1]) && IsContinuation(b[2]) then
      var c := ((b0 - 0xE0) * 0x40 + (b[1] as int - 0x80)) * 0x40 + (b[2] as int - 0x80);
      if c < 0x800 || IsSurrogate(c) then None else Some((c, 3))
    else if 0xF0 <= b0 < 0xF5 && |b| >= 4 && IsContinuation(b[1]) && IsContinuation(b[2]) && IsContinuation(b[3]) then
      var c := (((b0 - 0xF0) * 0x40 + (b[1] as int - 0x80)) * 0x40 + (b[2] as int - 0x80)) * 0x40 + (b[3] as int - 0x80);
      if c < 0x1_0000 || c >= 0x11_0000 then None else Some((c, 4))
    else None
  }

  function Utf8Decode(b: seq<Byte>): (r: Option<seq<CodePoint>>)
    decreases |b|
    ensures r.Some? ==> AllScalar(r.value)
  {
    if b == [] then Some([])
    else match DecodeOne(b)
      case None => None
      case Some((c, n)) =>
        match Utf8Decode(b[n..])
        case None => None
        case Some(rest) => Some([c] + rest)
  }

  /** The decoder reads the octets of a scalar code point back as that code point. */
  lemma DecodeOneUtf8(c: CodePoint, rest: seq<Byte>)
    requires IsScalar(c)
    ensures DecodeOne(Utf8(c) + rest) == Some((c, |Utf8(c)|))
  {
    var b := Utf8(c) + rest;
    if c < 0x80 {
    } else if c < 0x800 {
      assert b[0] == 0xC0 + c / 0x40 && b[1] == 0x80 + c % 0x40;
    } else if c < 0x1_0000 {
      assert b[0] == 0xE0 + c / 0x40 / 0x40 && b[1] == 0x80 + c / 0x40 % 0x40 && b[2] == 0x80 + c % 0x40;
    } else {
      assert b[0] == 0xF0 + c / 0x40 / 0x40 / 0x40;
      assert b[1] == 0x80 + c / 0x40 / 0x40 % 0x40;
      assert b[2] == 0x80 + c / 0x40 % 0x40 && b[3] == 0x80 + c % 0x40;
    }
  }

  /** The decoder accepts only the canonical octets of the code point it returns. */
  lemma DecodeOneCanonical(b: seq<Byte>)
    requires b != [] && DecodeOne(b).Some?
    ensures Utf8(DecodeOne(b).value.0) == b[..DecodeOne(b).value.1]
  {
    var b0: int := b[0];
    var (c, n) := DecodeOne(b).value;
    if n == 2 {
      var b1: int := b[1];
      assert c == (b0 - 0xC0) * 0x40 + (b1 - 0x80);
      assert c / 0x40 == b0 - 0xC0 && c % 0x40 == b1 - 0x80;
    } else if n == 3 {
      var b1: int, b2: int := b[1], b[2];
      assert c == ((b0 - 0xE0) * 0x40 + (b1 - 0x80)) * 0x40 + (b2 - 0x80);
      assert c / 0x40 == (b0 - 0xE0) * 0x40 + (b1 - 0x80) && c % 0x40 == b2 - 0x80;
      assert c / 0x40 / 0x40 == b0 - 0xE0 && c / 0x40 % 0x40 == b1 - 0x80;
    } else if n == 4 {
      var b1: int, b2: int, b3: int := b[1], b[2], b[3];
      var hi := (b0 - 0xF0) * 0x40 + (b1 - 0x80);
      var mid := hi * 0x40 + (b2 - 0x80);
      assert c == mid * 0x40 + (b3 - 0x80);
      assert c / 0x40 == mid && c % 0x40 == b3 - 0x80;
      assert mid / 0x40 == hi && mid % 0x40 == b2 - 0x80;
      assert hi / 0x40 == b0 - 0xF0 && hi % 0x40 == b1 - 0x80;
    }
  }

  /** UTF-8 decoding undoes UTF-8 encoding on scalar code points. */
  lemma {:induction false} Utf8RoundTrip(cps: seq<CodePoint>)
    requires AllScalar(cps)
    ensures Utf8Decode(Utf8Encode(cps)) == Some(cps)
  {
    if cps != [] {
      var b := Utf8Encode(cps);
      var rest := Utf8Encode(cps[1..]);
      assert b == Utf8(cps[0]) + rest;
      DecodeOneUtf8(cps[0], rest);
      assert b[|Utf8(cps[0])|..] == rest;
      Utf8RoundTrip(cps[1..]);
      assert cps == [cps[0]] + cps[1..];
    }
  }
}
