/**
 * encodeURIComponent as ECMA-262 defines it (the Encode abstract operation
 * with an empty extra-unescaped set), and percent-decoding followed by
 * UTF-8 decoding as its inverse.
 */
module UriEncoding {
  import opened Wrappers
  import opened JsValues
  import opened Unicode

  const Percent: CodeUnit := 0x25

  /** The characters encodeURIComponent leaves as they are: letters, digits and -_.!~*'() */
  predicate IsUnreserved(u: int) {
    ('A' as int <= u <= 'Z' as int) || ('a' as int <= u <= 'z' as int) || ('0' as int <= u <= '9' as int) ||
    u == '-' as int || u == '_' as int || u == '.' as int || u == '!' as int || u == '~' as int ||
    u == '*' as int || u == '\'' as int || u == '(' as int || u == ')' as int
  }

  predicate IsUpperHex(u: int) {
    ('0' as int <= u <= '9' as int) || ('A' as int <= u <= 'F' as int)
  }

  /** The upper-case hexadecimal digit for d. */
  function HexDigit(d: int): (r: CodeUnit)
    requires 0 <= d < 16
    ensures IsUpperHex(r)
  {
    if d < 10 then '0' as int + d else 'A' as int + (d - 10)
  }

  /** The value of a hexadecimal digit of either case. */
  function HexValue(u: CodeUnit): (r: Option<int>)
    ensures r.Some? ==> 0 <= r.value < 16
  {
    if '0' as int <= u <= '9' as int then Some(u - '0' as int)
    else if 'A' as int <= u <= 'F' as int then Some(u - 'A' as int + 10)
    else if 'a' as int <= u <= 'f' as int then Some(u - 'a' as int + 10)
    else None
  }

  /** "%XY" for one octet. */
  function Escape(b: Byte): Str {
    [Percent, HexDigit(b / 16), HexDigit(b % 16)]
  }

  /** The escapes of several octets, three code units each. */
  function EscapeAll(octets: seq<Byte>): (r: Str)
    ensures |r| == 3 * |octets|
  {
    if octets == [] then [] else Escape(octets[0]) + EscapeAll(octets[1..])
  }

  /** encodeURIComponent throws a URIError on an unpaired surrogate. */
  datatype UriError = UriError

  /**
   * encodeURIComponent(s): an unreserved code unit is copied; otherwise the
   * code point there is written as the percent-escapes of its UTF-8 octets,
   * and an unpaired surrogate throws.
   */
  function EncodeUriComponent(s: Str): (r: Result<Str, UriError>)
    decreases |s|
    ensures r.Ok? ==> |s| <= |r.value|
  {
    if s == [] then Ok([])
    else if IsUnreserved(s[0]) then
      match EncodeUriComponent(s[1..])
      case Err(e) => Err(e)
      case Ok(t) => Ok([s[0]] + t)
    else
      var c := CodePointAt(s, 0);
      if c.isUnpairedSurrogate then Err(UriError)
      else match EncodeUriComponent(s[c.codeUnitCount..])
        case Err(e) => Err(e)
        case Ok(t) => Ok(EscapeAll(Utf8(c.codePoint)) + t)
  }

  /**
   * The octets a percent-encoded string stands for: "%XY" is the octet XY,
   * any other ASCII code unit is itself.
   */
  function PercentDecode(e: Str): (r: Option<seq<Byte>>)
    decreases |e|
  {
    if e == [] then Some([])
    else if e[0] == Percent then
      if |e| < 3 then None
      else match (HexValue(e[1]), HexValue(e[2]))
        case (Some(hi), Some(lo)) =>
          (match PercentDecode(e[3..])
           case None => None
           case Some(rest) => Some([hi * 16 + lo] + rest))
        case _ => None
    else if e[0] < 0x80 then
      match PercentDecode(e[1..])
      case None => None
      case Some(rest) => Some([e[0] as int] + rest)
    else None
  }

  /** Percent-decoding, then UTF-8 decoding, then writing the code points as UTF-16. */
  function Decode(e: Str): Option<Str> {
    match PercentDecode(e)
    case None => None
    case Some(octets) =>
      match Utf8Decode(octets)
      case None => None
      case Some(cps) => Some(FromCodePoints(cps))
  }

  /**
   * The shape of encodeURIComponent's output: unreserved characters and "%"
   * followed by two upper-case hexadecimal digits, nothing else.
   */
  predicate IsEncoded(e: Str)
    decreases |e|
  {
    e == [] ||
    (IsUnreserved(e[0]) && IsEncoded(e[1..])) ||
    (|e| >= 3 && e[0] == Percent && IsUpperHex(e[1]) && IsUpperHex(e[2]) && IsEncoded(e[3..]))
  }

  // ------------------------------------------------------------------ lemmas

  lemma HexValueOfDigit(d: int)
    requires 0 <= d < 16
    ensures HexValue(HexDigit(d)) == Some(d)
  {
  }

  /** Percent-escaped octets decode back to those octets, whatever follows them. */
  lemma {:induction false} PercentDecodeEscapes(octets: seq<Byte>, t: Str)
    requires PercentDecode(t).Some?
    ensures PercentDecode(EscapeAll(octets) + t) == Some(octets + PercentDecode(t).value)
  {
    if octets != [] {
      var b := octets[0];
      var tail := EscapeAll(octets[1..]) + t;
      var e := EscapeAll(octets) + t;
      assert e == Escape(b) + tail;
      assert e[0] == Percent && e[1] == HexDigit(b / 16) && e[2] == HexDigit(b % 16);
      assert e[3..] == tail;
      HexValueOfDigit(b / 16);
      HexValueOfDigit(b % 16);
      PercentDecodeEscapes(octets[1..], t);
      var r := PercentDecode(t).value;
      assert PercentDecode(e[3..]) == Some(octets[1..] + r);
      assert PercentDecode(e) == Some([(b / 16) * 16 + b % 16] + (octets[1..] + r));
      assert octets + r == [b] + (octets[1..] + r);
    } else {
      assert EscapeAll(octets) + t == t;
      assert octets + PercentDecode(t).value == PercentDecode(t).value;
    }
  }

  /**
   * encodeURIComponent succeeds exactly when the string has code points, and
   * its output percent-decodes to their UTF-8 octets.
   */
  lemma {:induction false} EncodeThroughUtf8(s: Str)
    decreases |s|
    ensures EncodeUriComponent(s).Ok? <==> CodePoints(s).Some?
    ensures EncodeUriComponent(s).Ok? ==>
              PercentDecode(EncodeUriComponent(s).value) == Some(Utf8Encode(CodePoints(s).value))
  {
    if s != [] {
      var c := CodePointAt(s, 0);
      if !c.isUnpairedSurrogate {
        var rest := s[c.codeUnitCount..];
        EncodeThroughUtf8(rest);
        if EncodeUriComponent(rest).Ok? {
          var t := EncodeUriComponent(rest).value;
          var cps := CodePoints(s).value;
          assert cps[0] == c.codePoint && cps[1..] == CodePoints(rest).value;
          if IsUnreserved(s[0]) {
            var e := [s[0]] + t;
            assert e[1..] == t;
            assert rest == s[1..];
          } else {
            PercentDecodeEscapes(Utf8(c.codePoint), t);
          }
        }
      }
    }
  }

  /** encodeURIComponent throws exactly on strings that are not well formed. */
  lemma EncodeFailsIffIllFormed(s: Str)
    ensures EncodeUriComponent(s).Err? <==> !WellFormed(s)
  {
    EncodeThroughUtf8(s);
    CodePointsWellFormed(s);
  }

  /** Decoding what encodeURIComponent wrote gives back the original string. */
  lemma DecodeEncode(s: Str)
    requires EncodeUriComponent(s).Ok?
    ensures Decode(EncodeUriComponent(s).value) == Some(s)
  {
    EncodeThroughUtf8(s);
    var cps := CodePoints(s).value;
    Utf8RoundTrip(cps);
    FromCodePointsOfCodePoints(s);
  }

  lemma {:induction false} EscapesEncoded(octets: seq<Byte>, t: Str)
    requires IsEncoded(t)
    ensures IsEncoded(EscapeAll(octets) + t)
  {
    if octets != [] {
      var tail := EscapeAll(octets[1..]) + t;
      EscapesEncoded(octets[1..], t);
      var b := octets[0];
      var e := EscapeAll(octets) + t;
      assert e == Escape(b) + tail;
      assert e[0] == Percent && e[1] == HexDigit(b / 16) && e[2] == HexDigit(b % 16);
      assert e[3..] == tail;
    } else {
      assert EscapeAll(octets) + t == t;
    }
  }

  /** Everything encodeURIComponent writes is unreserved characters and upper-case escapes. */
  lemma {:induction false} EncodeIsEncoded(s: Str)
    requires EncodeUriComponent(s).Ok?
    decreases |s|
    ensures IsEncoded(EncodeUriComponent(s).value)
  {
    if s != [] {
      var c := CodePointAt(s, 0);
      if IsUnreserved(s[0]) {
        EncodeIsEncoded(s[1..]);
        var t := EncodeUriComponent(s[1..]).value;
        assert ([s[0]] + t)[1..] == t;
      } else {
        var rest := s[c.codeUnitCount..];
        EncodeIsEncoded(rest);
        EscapesEncoded(Utf8(c.codePoint), EncodeUriComponent(rest).value);
      }
    }
  }

  /** A string of unreserved characters only is its own encoding. */
  lemma {:induction false} EncodeUnreservedIdentity(s: Str)
    requires forall i :: 0 <= i < |s| ==> IsUnreserved(s[i])
    decreases |s|
    ensures EncodeUriComponent(s) == Ok(s)
  {
    if s != [] {
      EncodeUnreservedIdentity(s[1..]);
      assert s == [s[0]] + s[1..];
    }
  }

  /** Reading the first code point of a well-formed a + b only looks inside a. */
  lemma CodePointAtConcat(a: Str, b: Str)
    requires a != [] && WellFormed(a)
    ensures CodePointAt(a + b, 0) == CodePointAt(a, 0)
    ensures !CodePointAt(a, 0).isUnpairedSurrogate
  {
    assert WellFormedAt(a, 0);
    assert (a + b)[0] == a[0];
    if |a| > 1 {
      assert (a + b)[1] == a[1];
    }
  }

  /** What encodeURIComponent writes for the code point at the head of s. */
  function HeadEncoding(s: Str): Str
    requires s != [] && !CodePointAt(s, 0).isUnpairedSurrogate
  {
    if IsUnreserved(s[0]) then [s[0]] else EscapeAll(Utf8(CodePointAt(s, 0).codePoint))
  }

  /** One step of encodeURIComponent: the head's encoding, then the rest's. */
  lemma EncodeStep(s: Str, t: Str)
    requires s != [] && !CodePointAt(s, 0).isUnpairedSurrogate
    requires EncodeUriComponent(s[CodePointAt(s, 0).codeUnitCount..]) == Ok(t)
    ensures EncodeUriComponent(s) == Ok(HeadEncoding(s) + t)
  {
  }

  /**
   * Encoding splits at the end of a well-formed string: the encoding of
   * a + b is that of a followed by that of b.
   */
  lemma {:induction false} EncodeConcat(a: Str, b: Str)
    requires WellFormed(a) && EncodeUriComponent(b).Ok?
    decreases |a|
    ensures EncodeUriComponent(a).Ok?
    ensures EncodeUriComponent(a + b) == Ok(EncodeUriComponent(a).value + EncodeUriComponent(b).value)
  {
    if a == [] {
      assert a + b == b;
      assert EncodeUriComponent(a).value + EncodeUriComponent(b).value == EncodeUriComponent(b).value;
    } else {
      SplitFirst(a, b);
      var n := CodePointAt(a, 0).codeUnitCount;
      EncodeConcat(a[n..], b);
      EncodeStep(a, EncodeUriComponent(a[n..]).value);
      EncodeConcatStep(a, a + b, EncodeUriComponent(a[n..]).value, EncodeUriComponent(b).value);
    }
  }

  /**
   * The inductive step of EncodeConcat for u = a + b: u opens with the same
   * head as s = a, and its rest encodes to t (the encoding of the rest of a)
   * followed by eb.
   */
  lemma EncodeConcatStep(s: Str, u: Str, t: Str, eb: Str)
    requires s != [] && !CodePointAt(s, 0).isUnpairedSurrogate
    requires u != [] && !CodePointAt(u, 0).isUnpairedSurrogate
    requires HeadEncoding(u) == HeadEncoding(s)
    requires EncodeUriComponent(s[CodePointAt(s, 0).codeUnitCount..]) == Ok(t)
    requires EncodeUriComponent(u[CodePointAt(u, 0).codeUnitCount..]) == Ok(t + eb)
    ensures EncodeUriComponent(u) == Ok(HeadEncoding(s) + t + eb)
  {
    EncodeStep(u, t + eb);
    assert HeadEncoding(s) + (t + eb) == HeadEncoding(s) + t + eb;
  }

  /** The first code point of a well-formed a opens a + b as well, and leaves a well-formed rest. */
  lemma SplitFirst(a: Str, b: Str)
    requires a != [] && WellFormed(a)
    ensures !CodePointAt(a, 0).isUnpairedSurrogate
    ensures CodePointAt(a + b, 0) == CodePointAt(a, 0)
    ensures HeadEncoding(a + b) == HeadEncoding(a)
    ensures (a + b)[CodePointAt(a, 0).codeUnitCount..] == a[CodePointAt(a, 0).codeUnitCount..] + b
    ensures WellFormed(a[CodePointAt(a, 0).codeUnitCount..])
  {
    CodePointAtConcat(a, b);
    WellFormedPastFirst(a);
    assert (a + b)[0] == a[0];
  }

  /**
   * After a well-formed a, encoding a + b throws exactly when encoding b
   * does: an unpaired surrogate in b still throws, and none appears otherwise.
   */
  lemma {:induction false} EncodeConcatThrows(a: Str, b: Str)
    requires WellFormed(a)
    decreases |a|
    ensures EncodeUriComponent(a + b).Err? <==> EncodeUriComponent(b).Err?
  {
    if EncodeUriComponent(b).Ok? {
      EncodeConcat(a, b);
    } else if a == [] {
      assert a + b == b;
    } else {
      CodePointAtConcat(a, b);
      WellFormedPastFirst(a);
      var n := CodePointAt(a, 0).codeUnitCount;
      assert (a + b)[0] == a[0];
      assert (a + b)[n..] == a[n..] + b;
      EncodeConcatThrows(a[n..], b);
      assert IsUnreserved(a[0]) ==> n == 1;
    }
  }
}
