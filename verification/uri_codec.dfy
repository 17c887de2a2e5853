/** `encodeURIComponent` and `decodeURIComponent` over UTF-16 code units, as
    the Encode and Decode abstract operations of ECMA-262 define them: every
    code unit outside the unreserved set becomes the percent-escaped UTF-8
    bytes of its code point, and decoding reverses that, rejecting malformed
    escapes and malformed UTF-8 with a URIError. */
module UriCodec {
  import opened Results
  import opened JsText

  /** The `URIError` both functions throw. */
  datatype UriError = UriError

  type Byte = b: int | 0 <= b < 0x100

  /** The code units `encodeURIComponent` leaves alone: ASCII letters and
      digits and `- _ . ! ~ * ' ( )`. */
  predicate IsUnreserved(u: Unit) {
    || 0x41 <= u <= 0x5A || 0x61 <= u <= 0x7A || 0x30 <= u <= 0x39
    || u == 0x2D || u == 0x5F || u == 0x2E || u == 0x21 || u == 0x7E
    || u == 0x2A || u == 0x27 || u == 0x28 || u == 0x29
  }

  //
  // Hexadecimal digits
  //

  /** The upper-case hexadecimal digit `encodeURIComponent` writes. */
  function HexDigit(v: nat): (u: Unit)
    requires v < 16
    ensures IsUpperHex(u)
  {
    if v < 10 then 0x30 + v else 0x41 + (v - 10)
  }

  predicate IsUpperHex(u: Unit) {
    0x30 <= u <= 0x39 || 0x41 <= u <= 0x46
  }

  /** The value of a hexadecimal digit of either case, as `decodeURIComponent`
      reads it. */
  function HexValue(u: Unit): (r: Option<nat>)
    ensures r.Some? ==> r.value < 16
  {
    if 0x30 <= u <= 0x39 then Some(u - 0x30)
    else if 0x41 <= u <= 0x46 then Some(u - 0x41 + 10)
    else if 0x61 <= u <= 0x66 then Some(u - 0x61 + 10)
    else None
  }

  lemma {:induction false} HexRoundTrip(v: nat)
    requires v < 16
    ensures HexValue(HexDigit(v)) == Some(v)
  {
  }

  //
  // UTF-8
  //

  predicate IsScalar(cp: int) {
    0 <= cp < 0x11_0000 && !(0xD800 <= cp <= 0xDFFF)
  }

  /** The UTF-8 encoding of a Unicode scalar value. */
  function Utf8(cp: int): (bs: seq<Byte>)
    requires IsScalar(cp)
    ensures 1 <= |bs| <= 4
    ensures |bs| == 1 <==> cp < 0x80
  {
    if cp < 0x80 then [cp]
    else if cp < 0x800 then [0xC0 + cp / 0x40, 0x80 + cp % 0x40]
    else if cp < 0x1_0000 then [0xE0 + cp / 0x1000, 0x80 + (cp / 0x40) % 0x40, 0x80 + cp % 0x40]
    else [0xF0 + cp / 0x4_0000, 0x80 + (cp / 0x1000) % 0x40, 0x80 + (cp / 0x40) % 0x40, 0x80 + cp % 0x40]
  }

  /** The number of leading one bits of a byte, counted up to five; `n` of
      them announce a sequence of `n` bytes, none a single byte, and one or
      more than four are never the first byte of a sequence. */
  function LeadingOnes(b: Byte): (n: nat)
    ensures n <= 5
  {
    if b < 0x80 then 0
    else if b < 0xC0 then 1
    else if b < 0xE0 then 2
    else if b < 0xF0 then 3
    else if b < 0xF8 then 4
    else 5
  }

  predicate IsContinuation(b: Byte) {
    0x80 <= b < 0xC0
  }

  predicate AllContinuations(bs: seq<Byte>) {
    forall i :: 1 <= i < |bs| ==> IsContinuation(bs[i])
  }

  /** The code point a multi-byte sequence encodes, if the sequence is valid
      UTF-8: continuation bytes only after the first, no overlong form, no
      surrogate and nothing above U+10FFFF. */
  function Utf8Value(bs: seq<Byte>): (r: Option<int>)
    requires 2 <= |bs| <= 4 && LeadingOnes(bs[0]) == |bs|
    ensures r.Some? ==> IsScalar(r.value) && r.value >= 0x80
  {
    if !AllContinuations(bs) then None
    else
      var v :=
        if |bs| == 2 then (bs[0] as int - 0xC0) * 0x40 + (bs[1] as int - 0x80)
        else if |bs| == 3 then (bs[0] as int - 0xE0) * 0x1000 + (bs[1] as int - 0x80) * 0x40 + (bs[2] as int - 0x80)
        else (bs[0] as int - 0xF0) * 0x4_0000 + (bs[1] as int - 0x80) * 0x1000 + (bs[2] as int - 0x80) * 0x40 + (bs[3] as int - 0x80);
      var least: int := if |bs| == 2 then 0x80 else if |bs| == 3 then 0x800 else 0x1_0000;
      if v < least || v > 0x10_FFFF || 0xD800 <= v <= 0xDFFF then None else Some(v)
  }

  /** UTF-8 decoding undoes UTF-8 encoding. */
  lemma {:induction false} Utf8RoundTrip(cp: int)
    requires IsScalar(cp) && cp >= 0x80
    ensures LeadingOnes(Utf8(cp)[0]) == |Utf8(cp)|
    ensures Utf8Value(Utf8(cp)) == Some(cp)
  {
    if cp < 0x800 {
      Utf8Two(cp);
    } else if cp < 0x1_0000 {
      Utf8Three(cp);
    } else {
      Utf8Four(cp);
    }
  }

  lemma {:induction false} Utf8Two(cp: int)
    requires 0x80 <= cp < 0x800
    ensures LeadingOnes(Utf8(cp)[0]) == 2
    ensures Utf8Value(Utf8(cp)) == Some(cp)
  {
    var a, b := cp / 0x40, cp % 0x40;
    assert cp == a * 0x40 + b && 2 <= a < 0x20;
    assert Utf8(cp) == [0xC0 + a, 0x80 + b];
  }

  lemma {:induction false} Utf8Three(cp: int)
    requires 0x800 <= cp < 0x1_0000 && !(0xD800 <= cp <= 0xDFFF)
    ensures LeadingOnes(Utf8(cp)[0]) == 3
    ensures Utf8Value(Utf8(cp)) == Some(cp)
  {
    var a, m := cp / 0x1000, cp % 0x1000;
    var b, c := m / 0x40, m % 0x40;
    assert cp == a * 0x1000 + m && a < 0x10;
    assert m == b * 0x40 + c && b < 0x40;
    assert cp / 0x40 == a * 0x40 + b;
    assert (cp / 0x40) % 0x40 == b;
    assert cp % 0x40 == c;
    assert Utf8(cp) == [0xE0 + a, 0x80 + b, 0x80 + c];
  }

  lemma {:induction false} Utf8Four(cp: int)
    requires 0x1_0000 <= cp < 0x11_0000
    ensures LeadingOnes(Utf8(cp)[0]) == 4
    ensures Utf8Value(Utf8(cp)) == Some(cp)
  {
    var a, m := cp / 0x4_0000, cp % 0x4_0000;
    var b, n := m / 0x1000, m % 0x1000;
    var c, d := n / 0x40, n % 0x40;
    assert cp == a * 0x4_0000 + m && a < 5;
    assert m == b * 0x1000 + n && b < 0x40;
    assert n == c * 0x40 + d && c < 0x40;
    assert cp / 0x1000 == a * 0x40 + b;
    assert (cp / 0x1000) % 0x40 == b;
    assert cp / 0x40 == (a * 0x40 + b) * 0x40 + c;
    assert (cp / 0x40) % 0x40 == c;
    assert cp % 0x40 == d;
    assert Utf8(cp) == [0xF0 + a, 0x80 + b, 0x80 + c, 0x80 + d];
  }

  //
  // Percent escapes
  //

  function EscapeByte(b: Byte): (r: JsString)
    ensures |r| == 3 && r[0] == Percent && IsUpperHex(r[1]) && IsUpperHex(r[2])
  {
    [Percent, HexDigit(b / 16), HexDigit(b % 16)]
  }

  function EscapeBytes(bs: seq<Byte>): (r: JsString)
    ensures |r| == 3 * |bs|
  {
    if |bs| == 0 then [] else EscapeByte(bs[0]) + EscapeBytes(bs[1..])
  }

  /** The byte of a `%XY` escape at the start of `s`, if there is one. */
  function EscapedByte(s: JsString): (r: Option<Byte>)
    ensures r.Some? ==> |s| >= 3 && s[0] == Percent
  {
    if |s| < 3 || s[0] != Percent then None
    else match (HexValue(s[1]), HexValue(s[2]))
      case (Some(hi), Some(lo)) => Some(16 * hi + lo)
      case _ => None
  }

  /** `count` escapes in a row at the start of `s`. */
  function ReadEscapes(s: JsString, count: nat): (r: Option<seq<Byte>>)
    ensures r.Some? ==> |r.value| == count && |s| >= 3 * count
  {
    if count == 0 then Some([])
    else match EscapedByte(s)
      case None => None
      case Some(b) =>
        match ReadEscapes(s[3..], count - 1)
        case None => None
        case Some(more) => Some([b] + more)
  }

  lemma {:induction false} EscapedByteRoundTrip(b: Byte, rest: JsString)
    ensures EscapedByte(EscapeByte(b) + rest) == Some(b)
  {
    HexRoundTrip(b / 16);
    HexRoundTrip(b % 16);
  }

  lemma {:induction false} ReadEscapesRoundTrip(bs: seq<Byte>, rest: JsString)
    ensures ReadEscapes(EscapeBytes(bs) + rest, |bs|) == Some(bs)
  {
    if |bs| > 0 {
      var s := EscapeBytes(bs) + rest;
      EscapedByteRoundTrip(bs[0], EscapeBytes(bs[1..]) + rest);
      assert s == EscapeByte(bs[0]) + (EscapeBytes(bs[1..]) + rest);
      assert s[3..] == EscapeBytes(bs[1..]) + rest;
      ReadEscapesRoundTrip(bs[1..], rest);
      assert [bs[0]] + bs[1..] == bs;
    }
  }

  //
  // encodeURIComponent
  //

  function Prepend(p: JsString, r: Result<JsString, UriError>): (r': Result<JsString, UriError>)
    ensures r'.Success? <==> r.Success?
    ensures r.Success? ==> r'.value == p + r.value
  {
    match r
    case Success(v) => Success(p + v)
    case Failure(e) => Failure(e)
  }

  /** The code point of a surrogate pair. */
  function PairValue(hi: Unit, lo: Unit): (cp: int)
    requires IsHighSurrogate(hi) && IsLowSurrogate(lo)
    ensures IsScalar(cp) && cp >= 0x1_0000
    ensures CodePointUnits(cp) == [hi, lo]
  {
    var cp := 0x1_0000 + (hi - 0xD800) * 0x400 + (lo - 0xDC00);
    var r := CodePointUnits(cp);
    assert r[0] as int - 0xD800 == hi - 0xD800 && r[1] as int - 0xDC00 == lo - 0xDC00 by {
      PairDigits(r[0] as int - 0xD800, r[1] as int - 0xDC00, hi - 0xD800, lo - 0xDC00);
    }
    cp
  }

  lemma {:induction false} PairDigits(a: int, b: int, c: int, d: int)
    requires 0 <= b < 0x400 && 0 <= d < 0x400
    requires a * 0x400 + b == c * 0x400 + d
    ensures a == c && b == d
  {
    assert (a * 0x400 + b) / 0x400 == a && (a * 0x400 + b) % 0x400 == b;
    assert (c * 0x400 + d) / 0x400 == c && (c * 0x400 + d) % 0x400 == d;
  }

  /** `encodeURIComponent(s)`: unreserved code units are copied, every other
      code point becomes its UTF-8 bytes as upper-case `%XY` escapes, and a
      lone surrogate throws. */
  function Encode(s: JsString): (r: Result<JsString, UriError>)
    ensures r.Success? ==> |s| <= |r.value|
    ensures (forall i :: 0 <= i < |s| ==> IsUnreserved(s[i])) ==> r == Success(s)
    decreases |s|
  {
    if |s| == 0 then Success([])
    else if IsUnreserved(s[0]) then
      assert (forall i :: 0 <= i < |s| ==> IsUnreserved(s[i])) ==>
        forall i :: 0 <= i < |s| - 1 ==> IsUnreserved(s[1..][i]);
      assert s == [s[0]] + s[1..];
      Prepend([s[0]], Encode(s[1..]))
    else if IsLowSurrogate(s[0]) then Failure(UriError)
    else if IsHighSurrogate(s[0]) then
      if |s| == 1 || !IsLowSurrogate(s[1]) then Failure(UriError)
      else Prepend(EscapeBytes(Utf8(PairValue(s[0], s[1]))), Encode(s[2..]))
    else Prepend(EscapeBytes(Utf8(s[0])), Encode(s[1..]))
  }

  /** A code unit `encodeURIComponent` can produce. */
  predicate IsEncodedUnit(u: Unit) {
    IsUnreserved(u) || u == Percent || IsUpperHex(u)
  }

  predicate AllEncodedUnits(s: JsString) {
    forall i :: 0 <= i < |s| ==> IsEncodedUnit(s[i])
  }

  lemma {:induction false} EscapeBytesEncoded(bs: seq<Byte>)
    ensures AllEncodedUnits(EscapeBytes(bs))
  {
    if |bs| > 0 {
      EscapeBytesEncoded(bs[1..]);
      var e, rest := EscapeByte(bs[0]), EscapeBytes(bs[1..]);
      forall i | 0 <= i < |e + rest|
        ensures IsEncodedUnit((e + rest)[i])
      {
        if i >= 3 {
          assert (e + rest)[i] == rest[i - 3];
        }
      }
    }
  }

  lemma {:induction false} EncodedConcat(a: JsString, b: JsString)
    requires AllEncodedUnits(a) && AllEncodedUnits(b)
    ensures AllEncodedUnits(a + b)
  {
    forall i | 0 <= i < |a + b|
      ensures IsEncodedUnit((a + b)[i])
    {
      if i >= |a| {
        assert (a + b)[i] == b[i - |a|];
      }
    }
  }

  /** The output of `encodeURIComponent` holds only unreserved code units,
      `%` and upper-case hexadecimal digits; in particular no `+`, `&`, `=`,
      `#` or white space that a query string would give a meaning to. */
  lemma {:induction false} EncodeAlphabet(s: JsString)
    requires Encode(s).Success?
    ensures AllEncodedUnits(Encode(s).value)
    decreases |s|
  {
    if |s| > 0 {
      if IsUnreserved(s[0]) {
        EncodeAlphabet(s[1..]);
        EncodedConcat([s[0]], Encode(s[1..]).value);
      } else if IsHighSurrogate(s[0]) {
        EncodeAlphabet(s[2..]);
        EscapeBytesEncoded(Utf8(PairValue(s[0], s[1])));
        EncodedConcat(EscapeBytes(Utf8(PairValue(s[0], s[1]))), Encode(s[2..]).value);
      } else {
        EncodeAlphabet(s[1..]);
        EscapeBytesEncoded(Utf8(s[0]));
        EncodedConcat(EscapeBytes(Utf8(s[0])), Encode(s[1..]).value);
      }
    }
  }

  //
  // When encoding throws
  //

  lemma {:induction false} WellFormedTail(s: JsString)
    requires |s| > 0 && !IsHighSurrogate(s[0]) && !IsLowSurrogate(s[0])
    ensures WellFormed(s) <==> WellFormed(s[1..])
  {
    var t := s[1..];
    if WellFormed(t) {
      forall i | 0 <= i < |s| && IsLowSurrogate(s[i])
        ensures 0 < i && IsHighSurrogate(s[i - 1])
      {
        assert s[i] == t[i - 1];
      }
      forall i | 0 <= i < |s| && IsHighSurrogate(s[i])
        ensures i + 1 < |s| && IsLowSurrogate(s[i + 1])
      {
        assert s[i] == t[i - 1];
      }
    }
    if WellFormed(s) {
      forall i | 0 <= i < |t| && IsLowSurrogate(t[i])
        ensures 0 < i && IsHighSurrogate(t[i - 1])
      {
        assert t[i] == s[i + 1];
      }
      forall i | 0 <= i < |t| && IsHighSurrogate(t[i])
        ensures i + 1 < |t| && IsLowSurrogate(t[i + 1])
      {
        assert t[i] == s[i + 1];
      }
    }
  }

  lemma {:induction false} WellFormedPairTail(s: JsString)
    requires |s| > 1 && IsHighSurrogate(s[0]) && IsLowSurrogate(s[1])
    ensures WellFormed(s) <==> WellFormed(s[2..])
  {
    var t := s[2..];
    if WellFormed(t) {
      forall i | 0 <= i < |s| && IsLowSurrogate(s[i])
        ensures 0 < i && IsHighSurrogate(s[i - 1])
      {
        if i > 2 {
          assert s[i] == t[i - 2] && s[i - 1] == t[i - 3];
        }
      }
      forall i | 0 <= i < |s| && IsHighSurrogate(s[i])
        ensures i + 1 < |s| && IsLowSurrogate(s[i + 1])
      {
        if i >= 2 {
          assert s[i] == t[i - 2];
        }
      }
    }
    if WellFormed(s) {
      forall i | 0 <= i < |t| && IsLowSurrogate(t[i])
        ensures 0 < i && IsHighSurrogate(t[i - 1])
      {
        assert t[i] == s[i + 2];
      }
      forall i | 0 <= i < |t| && IsHighSurrogate(t[i])
        ensures i + 1 < |t| && IsLowSurrogate(t[i + 1])
      {
        assert t[i] == s[i + 2];
      }
    }
  }

  /** `encodeURIComponent` throws exactly when the string holds a lone
      surrogate. */
  lemma {:induction false} EncodeFailsIffIllFormed(s: JsString)
    ensures Encode(s).Failure? <==> !WellFormed(s)
    decreases |s|
  {
    if |s| > 0 {
      if IsLowSurrogate(s[0]) {
      } else if IsHighSurrogate(s[0]) {
        if |s| > 1 && IsLowSurrogate(s[1]) {
          WellFormedPairTail(s);
          EncodeFailsIffIllFormed(s[2..]);
        }
      } else {
        WellFormedTail(s);
        EncodeFailsIffIllFormed(s[1..]);
      }
    }
  }

  //
  // decodeURIComponent
  //

  /** `decodeURIComponent(s)`: every `%XY` escape starts a UTF-8 sequence of
      as many escapes as its first byte announces, which becomes the UTF-16
      code units of its code point; a malformed escape or sequence throws. */
  function Decode(s: JsString): (r: Result<JsString, UriError>)
    ensures r.Success? ==> |r.value| <= |s|
    decreases |s|
  {
    if |s| == 0 then Success([])
    else if s[0] != Percent then Prepend([s[0]], Decode(s[1..]))
    else match EscapedByte(s)
      case None => Failure(UriError)
      case Some(b) =>
        var n := LeadingOnes(b);
        if n == 0 then Prepend([b], Decode(s[3..]))
        else if n == 1 || n > 4 then Failure(UriError)
        else match ReadEscapes(s[3..], n - 1)
          case None => Failure(UriError)
          case Some(more) =>
            match Utf8Value([b] + more)
            case None => Failure(UriError)
            case Some(cp) => Prepend(CodePointUnits(cp), Decode(s[3 * n..]))
  }

  /** The escapes of one code point decode to that code point. */
  lemma {:induction false} DecodeEscapes(cp: int, rest: JsString)
    requires IsScalar(cp)
    ensures Decode(EscapeBytes(Utf8(cp)) + rest) == Prepend(CodePointUnits(cp), Decode(rest))
  {
    var bs := Utf8(cp);
    var s := EscapeBytes(bs) + rest;
    assert s == EscapeByte(bs[0]) + (EscapeBytes(bs[1..]) + rest);
    EscapedByteRoundTrip(bs[0], EscapeBytes(bs[1..]) + rest);
    assert s[3..] == EscapeBytes(bs[1..]) + rest;
    if cp < 0x80 {
      assert EscapeBytes(bs) == EscapeByte(bs[0]);
    } else {
      Utf8RoundTrip(cp);
      ReadEscapesRoundTrip(bs[1..], rest);
      assert [bs[0]] + bs[1..] == bs;
      assert s[3 * |bs|..] == rest;
    }
  }

  /** Decoding undoes encoding: `decodeURIComponent(encodeURIComponent(s))`
      is `s` for every string `encodeURIComponent` accepts. */
  lemma {:induction false} DecodeEncode(s: JsString)
    requires WellFormed(s)
    ensures Encode(s).Success? && Decode(Encode(s).value) == Success(s)
    decreases |s|
  {
    EncodeFailsIffIllFormed(s);
    if |s| > 0 {
      if IsUnreserved(s[0]) {
        WellFormedTail(s);
        DecodeEncode(s[1..]);
        var e := Encode(s[1..]).value;
        assert ([s[0]] + e)[1..] == e;
        assert [s[0]] + s[1..] == s;
      } else if IsHighSurrogate(s[0]) {
        WellFormedPairTail(s);
        DecodeEncode(s[2..]);
        DecodeEscapes(PairValue(s[0], s[1]), Encode(s[2..]).value);
        assert [s[0], s[1]] + s[2..] == s;
      } else {
        WellFormedTail(s);
        DecodeEncode(s[1..]);
        DecodeEscapes(s[0], Encode(s[1..]).value);
        assert [s[0]] + s[1..] == s;
      }
    }
  }

  /** Decoding never lengthens a string, and it shortens every string that
      holds a `%`. */
  lemma {:induction false} DecodeShrinks(s: JsString)
    requires Decode(s).Success?
    ensures |Decode(s).value| <= |s|
    ensures Percent in s ==> |Decode(s).value| < |s|
    decreases |s|
  {
    if |s| > 0 {
      if s[0] != Percent {
        DecodeShrinks(s[1..]);
        assert s == [s[0]] + s[1..];
      } else {
        var b := EscapedByte(s).value;
        var n := LeadingOnes(b);
        if n == 0 {
          DecodeShrinks(s[3..]);
        } else {
          DecodeShrinks(s[3 * n..]);
        }
      }
    }
  }

  /** A string without `%` decodes to itself. */
  lemma {:induction false} DecodePlain(s: JsString)
    requires Percent !in s
    ensures Decode(s) == Success(s)
    decreases |s|
  {
    if |s| > 0 {
      assert s[0] in s;
      assert forall u :: u in s[1..] ==> u in s;
      DecodePlain(s[1..]);
      assert [s[0]] + s[1..] == s;
    }
  }

  /** `decodeURIComponent` returns its argument unchanged exactly when the
      argument holds no `%`. */
  lemma {:induction false} DecodeIdentityIffNoPercent(s: JsString)
    ensures Decode(s) == Success(s) <==> Percent !in s
  {
    if Percent in s && Decode(s).Success? {
      DecodeShrinks(s);
    }
    if Percent !in s {
      DecodePlain(s);
    }
  }
}
