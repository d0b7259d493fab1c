/**
 * `encodeURIComponent` and `decodeURIComponent` (ECMAScript, sections
 * "Encode" and "Decode" of the URI handling functions): UTF-16 text to
 * percent-escaped UTF-8 and back.
 */
module UriComponent {
  import opened Wrappers
  import opened JsStrings

  /** The `URIError` both functions throw. */
  datatype UriError = URIError

  const Percent: CodeUnit := 0x25

  /** The units `encodeURIComponent` leaves alone: letters, digits and `-_.!~*'()`. */
  predicate IsUnescaped(u: CodeUnit)
  {
    || 0x41 <= u <= 0x5A || 0x61 <= u <= 0x7A || 0x30 <= u <= 0x39
    || u == 0x2D || u == 0x5F || u == 0x2E || u == 0x21 || u == 0x7E
    || u == 0x2A || u == 0x27 || u == 0x28 || u == 0x29
  }

  /** An upper-case hexadecimal digit. */
  function HexDigit(n: int): (u: CodeUnit)
    requires 0 <= n < 16
    ensures IsUnescaped(u)
  {
    if n < 10 then 0x30 + n else 0x41 + n - 10
  }

  /** The value of a hexadecimal digit in either case. */
  function HexValue(u: CodeUnit): (r: Option<int>)
    ensures r.Some? ==> 0 <= r.value < 16
    ensures r.Some? <==> (0x30 <= u <= 0x39 || 0x41 <= u <= 0x46 || 0x61 <= u <= 0x66)
  {
    if 0x30 <= u <= 0x39 then Some(u - 0x30)
    else if 0x41 <= u <= 0x46 then Some(u - 0x41 + 10)
    else if 0x61 <= u <= 0x66 then Some(u - 0x61 + 10)
    else None
  }

  lemma HexDigitValue(n: int)
    requires 0 <= n < 16
    ensures HexValue(HexDigit(n)) == Some(n)
  {
  }

  /** `%XX` for one byte, upper-case digits. */
  function PercentEscape(b: Byte): JsString
  {
    [Percent, HexDigit(b / 16), HexDigit(b % 16)]
  }

  function Escapes(bytes: seq<Byte>): (r: JsString)
    ensures |r| == 3 * |bytes|
    ensures forall i | 0 <= i < |r| :: IsUnescaped(r[i]) || r[i] == Percent
  {
    if bytes == [] then [] else PercentEscape(bytes[0]) + Escapes(bytes[1..])
  }

  /** UTF-8: one to four bytes, the lead byte announcing the length. */
  function Utf8Encode(cp: int): (r: seq<Byte>)
    requires IsScalarValue(cp)
    ensures |r| == (if cp < 0x80 then 1 else if cp < 0x800 then 2 else if cp < 0x1_0000 then 3 else 4)
    ensures forall i | 1 <= i < |r| :: IsContinuation(r[i])
  {
    if cp < 0x80 then [cp]
    else if cp < 0x800 then [0xC0 + cp / 0x40, 0x80 + cp % 0x40]
    else if cp < 0x1_0000 then [0xE0 + cp / 0x1000, 0x80 + (cp / 0x40) % 0x40, 0x80 + cp % 0x40]
    else [0xF0 + cp / 0x4_0000, 0x80 + (cp / 0x1000) % 0x40, 0x80 + (cp / 0x40) % 0x40, 0x80 + cp % 0x40]
  }

  predicate IsContinuation(b: int) { 0x80 <= b <= 0xBF }

  /** The sequence length a lead byte of 0x80 or more announces; continuation bytes and 0xF8-0xFF announce none. */
  function Utf8Length(lead: Byte): (n: Option<nat>)
    ensures n.Some? ==> 2 <= n.value <= 4
  {
    if 0xC0 <= lead <= 0xDF then Some(2)
    else if 0xE0 <= lead <= 0xEF then Some(3)
    else if 0xF0 <= lead <= 0xF7 then Some(4)
    else None
  }

  /**
   * The code point a multi-byte sequence stands for, if it is the shortest
   * encoding of a scalar value.
   */
  function Utf8Decode(bytes: seq<Byte>): (r: Option<int>)
    requires 2 <= |bytes| <= 4 && Utf8Length(bytes[0]) == Some(|bytes|)
    requires forall i | 1 <= i < |bytes| :: IsContinuation(bytes[i])
    ensures r.Some? ==> IsScalarValue(r.value) && r.value >= 0x80
  {
    var cp := Utf8Value(bytes);
    if |bytes| == 2 && cp < 0x80 then None
    else if |bytes| == 3 && (cp < 0x800 || 0xD800 <= cp <= 0xDFFF) then None
    else if |bytes| == 4 && (cp < 0x1_0000 || cp > 0x10_FFFF) then None
    else Some(cp)
  }

  /** The payload bits of a multi-byte sequence. */
  function Utf8Value(bytes: seq<Byte>): int
    requires 2 <= |bytes| <= 4 && Utf8Length(bytes[0]) == Some(|bytes|)
  {
    var b0: int, b1: int := bytes[0], bytes[1];
    if |bytes| == 2 then
      (b0 - 0xC0) * 0x40 + (b1 - 0x80)
    else if |bytes| == 3 then
      var b2: int := bytes[2];
      (b0 - 0xE0) * 0x1000 + (b1 - 0x80) * 0x40 + (b2 - 0x80)
    else
      var b2: int, b3: int := bytes[2], bytes[3];
      (b0 - 0xF0) * 0x4_0000 + (b1 - 0x80) * 0x1000 + (b2 - 0x80) * 0x40 + (b3 - 0x80)
  }

  /** A sequence that decodes is the UTF-8 encoding of its code point: decoding is injective. */
  lemma Utf8DecodeEncodes(bytes: seq<Byte>)
    requires 2 <= |bytes| <= 4 && Utf8Length(bytes[0]) == Some(|bytes|)
    requires forall i | 1 <= i < |bytes| :: IsContinuation(bytes[i])
    requires Utf8Decode(bytes).Some?
    ensures Utf8Encode(Utf8Decode(bytes).value) == bytes
  {
    if |bytes| == 2 {
      Utf8DecodeEncodes2(bytes);
    } else if |bytes| == 3 {
      Utf8DecodeEncodes3(bytes);
    } else {
      Utf8DecodeEncodes4(bytes);
    }
  }

  lemma Utf8DecodeEncodes2(bytes: seq<Byte>)
    requires |bytes| == 2 && Utf8Length(bytes[0]) == Some(2) && IsContinuation(bytes[1])
    requires Utf8Decode(bytes).Some?
    ensures Utf8Encode(Utf8Decode(bytes).value) == bytes
  {
    var b0: int, b1: int := bytes[0], bytes[1];
    Split64(b0 - 0xC0, b1 - 0x80);
  }

  lemma Utf8DecodeEncodes3(bytes: seq<Byte>)
    requires |bytes| == 3 && Utf8Length(bytes[0]) == Some(3)
    requires IsContinuation(bytes[1]) && IsContinuation(bytes[2])
    requires Utf8Decode(bytes).Some?
    ensures Utf8Encode(Utf8Decode(bytes).value) == bytes
  {
    var b0: int, b1: int, b2: int := bytes[0], bytes[1], bytes[2];
    Split64((b0 - 0xE0) * 0x40 + (b1 - 0x80), b2 - 0x80);
    Split4096(b0 - 0xE0, (b1 - 0x80) * 0x40 + (b2 - 0x80));
    Split64(b0 - 0xE0, b1 - 0x80);
  }

  lemma Utf8DecodeEncodes4(bytes: seq<Byte>)
    requires |bytes| == 4 && Utf8Length(bytes[0]) == Some(4)
    requires IsContinuation(bytes[1]) && IsContinuation(bytes[2]) && IsContinuation(bytes[3])
    requires Utf8Decode(bytes).Some?
    ensures Utf8Encode(Utf8Decode(bytes).value) == bytes
  {
    var b0: int, b1: int, b2: int, b3: int := bytes[0], bytes[1], bytes[2], bytes[3];
    Split64((b0 - 0xF0) * 0x1000 + (b1 - 0x80) * 0x40 + (b2 - 0x80), b3 - 0x80);
    Split64((b0 - 0xF0) * 0x40 + (b1 - 0x80), b2 - 0x80);
    Split4096((b0 - 0xF0) * 0x40 + (b1 - 0x80), (b2 - 0x80) * 0x40 + (b3 - 0x80));
    Split64(b0 - 0xF0, b1 - 0x80);
    Split262144(b0 - 0xF0, (b1 - 0x80) * 0x1000 + (b2 - 0x80) * 0x40 + (b3 - 0x80));
  }

  lemma Split64(high: int, low: int)
    requires 0 <= high && 0 <= low < 0x40
    ensures (high * 0x40 + low) / 0x40 == high && (high * 0x40 + low) % 0x40 == low
  {
  }

  lemma Split4096(high: int, low: int)
    requires 0 <= high && 0 <= low < 0x1000
    ensures (high * 0x1000 + low) / 0x1000 == high && (high * 0x1000 + low) % 0x1000 == low
  {
  }

  lemma Split262144(high: int, low: int)
    requires 0 <= high && 0 <= low < 0x4_0000
    ensures (high * 0x4_0000 + low) / 0x4_0000 == high
  {
  }

  lemma Utf8RoundTrip2(cp: int)
    requires 0x80 <= cp < 0x800
    ensures Utf8Decode(Utf8Encode(cp)) == Some(cp)
  {
    assert cp == (cp / 0x40) * 0x40 + cp % 0x40;
  }

  lemma Utf8RoundTrip3(cp: int)
    requires IsScalarValue(cp) && 0x800 <= cp < 0x1_0000
    ensures Utf8Decode(Utf8Encode(cp)) == Some(cp)
  {
    var q := cp / 0x40;
    assert cp == q * 0x40 + cp % 0x40;
    assert q == (q / 0x40) * 0x40 + q % 0x40;
    assert q / 0x40 == cp / 0x1000;
  }

  lemma Utf8RoundTrip4(cp: int)
    requires IsScalarValue(cp) && 0x1_0000 <= cp
    ensures Utf8Decode(Utf8Encode(cp)) == Some(cp)
  {
    var q := cp / 0x40;
    var q2 := q / 0x40;
    assert cp == q * 0x40 + cp % 0x40;
    assert q == q2 * 0x40 + q % 0x40;
    assert q2 == (q2 / 0x40) * 0x40 + q2 % 0x40;
    assert q2 == cp / 0x1000;
    assert q2 / 0x40 == cp / 0x4_0000;
  }

  /** Every scalar value of two or more bytes decodes back to itself. */
  lemma Utf8RoundTrip(cp: int)
    requires IsScalarValue(cp) && cp >= 0x80
    ensures Utf8Length(Utf8Encode(cp)[0]) == Some(|Utf8Encode(cp)|)
    ensures Utf8Decode(Utf8Encode(cp)) == Some(cp)
  {
    if cp < 0x800 {
      Utf8RoundTrip2(cp);
    } else if cp < 0x1_0000 {
      Utf8RoundTrip3(cp);
    } else {
      Utf8RoundTrip4(cp);
    }
  }

  function Prepend(prefix: JsString, r: Result<JsString, UriError>): Result<JsString, UriError>
  {
    if r.Ok? then Ok(prefix + r.value) else r
  }

  /**
   * `encodeURIComponent(s)`: unreserved units are kept, every other code point
   * becomes the `%XX` escapes of its UTF-8 bytes; a lone surrogate throws.
   */
  function EncodeURIComponent(s: JsString): (r: Result<JsString, UriError>)
    ensures r.Ok? <==> WellFormed(s)
    ensures r.Ok? ==> forall i | 0 <= i < |r.value| :: IsUnescaped(r.value[i]) || r.value[i] == Percent
    ensures r.Ok? ==> |r.value| >= |s|
    decreases |s|
  {
    if s == [] then Ok([])
    else if IsUnescaped(s[0]) then Prepend([s[0]], EncodeURIComponent(s[1..]))
    else if IsLowSurrogate(s[0]) then Err(URIError)
    else if IsHighSurrogate(s[0]) then
      if |s| < 2 || !IsLowSurrogate(s[1]) then Err(URIError)
      else Prepend(Escapes(Utf8Encode(PairCodePoint(s[0], s[1]))), EncodeURIComponent(s[2..]))
    else
      Prepend(Escapes(Utf8Encode(s[0])), EncodeURIComponent(s[1..]))
  }

  /** Text made only of unreserved characters is left as it is. */
  lemma {:induction false} UnescapedEncodesToItself(s: JsString)
    requires forall i | 0 <= i < |s| :: IsUnescaped(s[i])
    ensures EncodeURIComponent(s) == Ok(s)
    decreases |s|
  {
    if s != [] {
      UnescapedEncodesToItself(s[1..]);
      assert [s[0]] + s[1..] == s;
    }
  }

  /** The byte `s` starts with when it starts with `%` and two hexadecimal digits. */
  function EscapedByte(s: JsString): (r: Option<Byte>)
    ensures r.Some? ==> |s| >= 3 && s[0] < 0x80 && s[1] < 0x80 && s[2] < 0x80
  {
    if |s| < 3 || s[0] != Percent || HexValue(s[1]).None? || HexValue(s[2]).None? then None
    else Some(HexValue(s[1]).value * 16 + HexValue(s[2]).value)
  }

  /** The `count` escaped continuation bytes `s` starts with. */
  function ContinuationBytes(s: JsString, count: nat): (r: Option<seq<Byte>>)
    ensures r.Some? ==> |r.value| == count && 3 * count <= |s|
    ensures r.Some? ==> forall i | 0 <= i < count :: IsContinuation(r.value[i])
    ensures r.Some? ==> forall i | 0 <= i < 3 * count :: s[i] < 0x80
  {
    if count == 0 then Some([])
    else
      match EscapedByte(s)
      case None => None
      case Some(b) =>
        if !IsContinuation(b) then None
        else
          match ContinuationBytes(s[3..], count - 1)
          case None => None
          case Some(rest) => Some([b] + rest)
  }

  /**
   * `decodeURIComponent(s)`: every `%XX` escape, or run of escapes forming one
   * UTF-8 sequence, becomes the code point's units; any other unit is kept. A
   * malformed escape or an invalid sequence throws.
   */
  function DecodeURIComponent(s: JsString): (r: Result<JsString, UriError>)
    ensures WellFormed(s) && r.Ok? ==> WellFormed(r.value)
    decreases |s|
  {
    if s == [] then Ok([])
    else if s[0] != Percent then
      var r := Prepend([s[0]], DecodeURIComponent(s[1..]));
      assert r.Ok? && WellFormed(s) ==> WellFormed(r.value) by {
        if r.Ok? && WellFormed(s) {
          if IsHighSurrogate(s[0]) {
            assert s[1..] == [s[1]] + s[2..];
            assert WellFormed(s[1..][1..]);
            assert WellFormed(r.value[2..]) by {
              assert DecodeURIComponent(s[1..]).value == Prepend([s[1]], DecodeURIComponent(s[2..])).value;
              assert r.value[2..] == DecodeURIComponent(s[2..]).value;
            }
          }
        }
      }
      r
    else
      match EscapedByte(s)
      case None => Err(URIError)
      case Some(b) =>
        if b < 0x80 then
          var r := Prepend([b], DecodeURIComponent(s[3..]));
          assert r.Ok? && WellFormed(s) ==> WellFormed(r.value) by {
            if r.Ok? && WellFormed(s) {
              assert WellFormed(s[1..]) && s[1..][2..] == s[3..];
              WellFormedTail(s[1..], 2);
            }
          }
          r
        else
          match Utf8Length(b)
          case None => Err(URIError)
          case Some(n) =>
            match ContinuationBytes(s[3..], n - 1)
            case None => Err(URIError)
            case Some(tail) =>
              match Utf8Decode([b] + tail)
              case None => Err(URIError)
              case Some(cp) =>
                var r := Prepend(CodePointUnits(cp), DecodeURIComponent(s[3 * n..]));
                assert r.Ok? && WellFormed(s) ==> WellFormed(r.value) by {
                  if r.Ok? && WellFormed(s) {
                    AsciiPrefixTail(s, 3 * n);
                    WellFormedConcat(CodePointUnits(cp), DecodeURIComponent(s[3 * n..]).value);
                  }
                }
                r
  }

  /** Text without a `%` decodes to itself. */
  lemma {:induction false} NoPercentDecodesToItself(s: JsString)
    requires Percent !in s
    ensures DecodeURIComponent(s) == Ok(s)
    decreases |s|
  {
    if s != [] {
      assert Percent !in s[1..];
      NoPercentDecodesToItself(s[1..]);
      assert [s[0]] + s[1..] == s;
    }
  }

  /** Dropping units that are not surrogates keeps a string well formed. */
  lemma {:induction false} WellFormedTail(s: JsString, k: nat)
    requires WellFormed(s) && k <= |s|
    requires forall i | 0 <= i < k :: !IsHighSurrogate(s[i]) && !IsLowSurrogate(s[i])
    ensures WellFormed(s[k..])
  {
    if k > 0 {
      assert s[1..][k - 1..] == s[k..];
      WellFormedTail(s[1..], k - 1);
    }
  }

  /** An escape sequence is made of ASCII units, so what follows it stays well formed. */
  lemma AsciiPrefixTail(s: JsString, k: nat)
    requires WellFormed(s) && k <= |s|
    requires forall i | 0 <= i < k :: s[i] < 0x80
    ensures WellFormed(s[k..])
  {
    WellFormedTail(s, k);
  }

  lemma EscapeDecodes(b: Byte, rest: JsString)
    ensures EscapedByte(PercentEscape(b) + rest) == Some(b)
  {
    var s := PercentEscape(b) + rest;
    HexDigitValue(b / 16);
    HexDigitValue(b % 16);
    assert s[1] == HexDigit(b / 16) && s[2] == HexDigit(b % 16);
  }

  lemma {:induction false} ContinuationDecodes(bytes: seq<Byte>, rest: JsString)
    requires forall i | 0 <= i < |bytes| :: IsContinuation(bytes[i])
    ensures ContinuationBytes(Escapes(bytes) + rest, |bytes|) == Some(bytes)
  {
    if bytes != [] {
      var s := Escapes(bytes) + rest;
      assert s == PercentEscape(bytes[0]) + (Escapes(bytes[1..]) + rest);
      EscapeDecodes(bytes[0], Escapes(bytes[1..]) + rest);
      assert s[3..] == Escapes(bytes[1..]) + rest;
      ContinuationDecodes(bytes[1..], rest);
      assert [bytes[0]] + bytes[1..] == bytes;
    }
  }

  /** The decoder's step at the escapes of a multi-byte sequence. */
  lemma DecodeMultiByteStep(s: JsString, b: Byte, n: nat, tail: seq<Byte>, cp: int)
    requires s != [] && s[0] == Percent && EscapedByte(s) == Some(b) && b >= 0x80
    requires Utf8Length(b) == Some(n)
    requires ContinuationBytes(s[3..], n - 1) == Some(tail)
    requires Utf8Decode([b] + tail) == Some(cp)
    ensures DecodeURIComponent(s) == Prepend(CodePointUnits(cp), DecodeURIComponent(s[3 * n..]))
  {
  }

  /** The escapes of one encoded code point decode to that code point's units. */
  lemma EncodedCodePointDecodes(cp: int, rest: JsString)
    requires IsScalarValue(cp) && cp >= 0x80
    ensures DecodeURIComponent(Escapes(Utf8Encode(cp)) + rest)
            == Prepend(CodePointUnits(cp), DecodeURIComponent(rest))
  {
    var bytes := Utf8Encode(cp);
    var s := Escapes(bytes) + rest;
    var n := |bytes|;
    Utf8RoundTrip(cp);
    assert s == PercentEscape(bytes[0]) + (Escapes(bytes[1..]) + rest);
    EscapeDecodes(bytes[0], Escapes(bytes[1..]) + rest);
    assert s[3..] == Escapes(bytes[1..]) + rest;
    ContinuationDecodes(bytes[1..], rest);
    assert [bytes[0]] + bytes[1..] == bytes;
    assert s[3 * n..] == rest;
    DecodeMultiByteStep(s, bytes[0], n, bytes[1..], cp);
  }

  /** An ASCII unit that is not left alone is one escape. */
  lemma EscapedAsciiDecodes(u: CodeUnit, rest: JsString)
    requires u < 0x80
    ensures DecodeURIComponent(Escapes(Utf8Encode(u)) + rest) == Prepend([u], DecodeURIComponent(rest))
  {
    var s := Escapes(Utf8Encode(u)) + rest;
    assert s == PercentEscape(u) + rest;
    EscapeDecodes(u, rest);
    assert s[3..] == rest;
  }

  /** Decoding undoes encoding: `decodeURIComponent(encodeURIComponent(s)) === s`. */
  lemma {:induction false} UriRoundTrip(s: JsString)
    requires WellFormed(s)
    ensures DecodeURIComponent(EncodeURIComponent(s).value) == Ok(s)
    decreases |s|
  {
    if s == [] {
    } else if IsUnescaped(s[0]) {
      UriRoundTrip(s[1..]);
      var e := EncodeURIComponent(s).value;
      assert e[1..] == EncodeURIComponent(s[1..]).value;
      assert [s[0]] + s[1..] == s;
    } else if IsHighSurrogate(s[0]) {
      UriRoundTrip(s[2..]);
      var cp := PairCodePoint(s[0], s[1]);
      EncodedCodePointDecodes(cp, EncodeURIComponent(s[2..]).value);
      PairUnits(s[0], s[1]);
      assert [s[0], s[1]] + s[2..] == s;
    } else {
      UriRoundTrip(s[1..]);
      if s[0] < 0x80 {
        EscapedAsciiDecodes(s[0], EncodeURIComponent(s[1..]).value);
      } else {
        EncodedCodePointDecodes(s[0], EncodeURIComponent(s[1..]).value);
      }
      assert [s[0]] + s[1..] == s;
    }
  }
}
