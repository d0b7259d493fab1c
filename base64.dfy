/**
 * `btoa` and `atob` (WHATWG HTML, "Base64 utility methods"): the base64
 * encoding of RFC 4648 section 4 over byte strings, and the forgiving-base64
 * decode of the WHATWG Infra Standard.
 */
module Base64 {
  import opened Wrappers
  import opened JsStrings

  /** The `InvalidCharacterError` DOMException both functions throw. */
  datatype DomError = InvalidCharacterError

  const Plus: CodeUnit := 0x2B
  const Slash: CodeUnit := 0x2F
  const Pad: CodeUnit := 0x3D

  /** The 64 digits of the base64 alphabet. */
  predicate IsAlphabet(u: CodeUnit)
  {
    0x41 <= u <= 0x5A || 0x61 <= u <= 0x7A || 0x30 <= u <= 0x39 || u == Plus || u == Slash
  }

  function Digit(v: int): (u: CodeUnit)
    requires 0 <= v < 64
    ensures IsAlphabet(u)
    ensures u == Plus <==> v == 62
  {
    if v < 26 then 0x41 + v
    else if v < 52 then 0x61 + (v - 26)
    else if v < 62 then 0x30 + (v - 52)
    else if v == 62 then Plus
    else Slash
  }

  function DigitValue(u: CodeUnit): (v: int)
    requires IsAlphabet(u)
    ensures 0 <= v < 64
  {
    if 0x41 <= u <= 0x5A then u - 0x41
    else if 0x61 <= u <= 0x7A then u - 0x61 + 26
    else if 0x30 <= u <= 0x39 then u - 0x30 + 52
    else if u == Plus then 62
    else 63
  }

  lemma DigitValueOfDigit(v: int)
    requires 0 <= v < 64
    ensures DigitValue(Digit(v)) == v
  {
  }

  /** The four digits of three bytes: their 24 bits, six at a time. */
  function EncodeGroup(b0: Byte, b1: Byte, b2: Byte): (r: JsString)
    ensures |r| == 4 && forall i | 0 <= i < 4 :: IsAlphabet(r[i])
  {
    [Digit(b0 / 4), Digit((b0 % 4) * 16 + b1 / 16), Digit((b1 % 16) * 4 + b2 / 64), Digit(b2 % 64)]
  }

  /**
   * The base64 digits of `b` without padding: each group of three bytes
   * gives four digits; a final group of one or two bytes is completed with
   * zero bits and gives two or three.
   */
  function EncodeDigits(b: seq<Byte>): (r: JsString)
    ensures |r| == (4 * |b| + 2) / 3 && |r| % 4 != 1
    ensures forall i | 0 <= i < |r| :: IsAlphabet(r[i])
    decreases |b|
  {
    DigitsLength(|b|);
    if |b| == 0 then []
    else if |b| == 1 then EncodeGroup(b[0], 0, 0)[..2]
    else if |b| == 2 then EncodeGroup(b[0], b[1], 0)[..3]
    else EncodeGroup(b[0], b[1], b[2]) + EncodeDigits(b[3..])
  }

  /** The `=` that complete the last group of four. */
  function Padding(n: nat): JsString
  {
    if n % 3 == 1 then [Pad, Pad] else if n % 3 == 2 then [Pad] else []
  }

  /** Base64 with padding (RFC 4648 section 4). */
  function Encode(b: seq<Byte>): (r: JsString)
    ensures |r| % 4 == 0 && |r| == 4 * ((|b| + 2) / 3)
    ensures forall i | 0 <= i < |r| :: IsAlphabet(r[i]) || (r[i] == Pad && i >= |r| - 2)
  {
    PaddedLength(|b|);
    var d, p := EncodeDigits(b), Padding(|b|);
    assert forall i | |d| <= i < |d| + |p| :: (d + p)[i] == Pad && i >= |d| + |p| - 2;
    d + p
  }

  /** The digits and the padding fill whole groups of four. */
  lemma PaddedLength(n: nat)
    ensures (4 * n + 2) / 3 + |Padding(n)| == 4 * ((n + 2) / 3)
    ensures (4 * ((n + 2) / 3)) % 4 == 0
  {
    var q, r := n / 3, n % 3;
    assert n == 3 * q + r;
    assert 4 * n + 2 == 3 * (4 * q) + (4 * r + 2);
    assert (4 * n + 2) / 3 == 4 * q + (4 * r + 2) / 3;
    assert (n + 2) / 3 == q + (r + 2) / 3;
  }

  predicate IsByteString(s: JsString)
  {
    forall i | 0 <= i < |s| :: s[i] <= 0xFF
  }

  /** `btoa(s)`: a unit above 0xFF throws; otherwise the units are the bytes encoded. */
  function Btoa(s: JsString): (r: Result<JsString, DomError>)
    ensures r.Ok? <==> IsByteString(s)
    ensures r.Ok? ==> |r.value| % 4 == 0 && (|r.value| == 0 <==> s == []) && IsAscii(r.value)
    ensures r.Ok? ==> forall i | 0 <= i < |r.value| :: IsAlphabet(r.value[i]) || r.value[i] == Pad
  {
    if IsByteString(s) then Ok(Encode(s)) else Err(InvalidCharacterError)
  }

  /** TAB, LF, FF, CR and SPACE. */
  predicate IsAsciiWhitespace(u: CodeUnit)
  {
    u == 0x09 || u == 0x0A || u == 0x0C || u == 0x0D || u == 0x20
  }

  function RemoveAsciiWhitespace(s: JsString): (r: JsString)
    ensures forall i | 0 <= i < |r| :: !IsAsciiWhitespace(r[i])
    ensures |r| <= |s|
  {
    if s == [] then []
    else if IsAsciiWhitespace(s[0]) then RemoveAsciiWhitespace(s[1..])
    else [s[0]] + RemoveAsciiWhitespace(s[1..])
  }

  /** White space is removed part by part: what is kept stays in order. */
  lemma {:induction false} RemoveWhitespaceConcat(a: JsString, b: JsString)
    ensures RemoveAsciiWhitespace(a + b) == RemoveAsciiWhitespace(a) + RemoveAsciiWhitespace(b)
    decreases |a|
  {
    if a == [] {
      assert a + b == b;
    } else {
      assert (a + b)[0] == a[0] && (a + b)[1..] == a[1..] + b;
      RemoveWhitespaceConcat(a[1..], b);
    }
  }

  /** A single unit is removed exactly when it is ASCII white space. */
  lemma RemoveWhitespaceUnit(u: CodeUnit)
    ensures RemoveAsciiWhitespace([u]) == if IsAsciiWhitespace(u) then [] else [u]
  {
    assert [u][1..] == [];
  }

  /** When the length is a multiple of four, one or two final `=` are dropped. */
  function StripPadding(t: JsString): JsString
  {
    if |t| % 4 != 0 || |t| == 0 || t[|t| - 1] != Pad then t
    else if t[|t| - 2] == Pad then t[..|t| - 2]
    else t[..|t| - 1]
  }

  /** The three bytes of four digits. */
  function DecodeGroup(d: JsString): (r: seq<Byte>)
    requires |d| == 4 && forall i | 0 <= i < 4 :: IsAlphabet(d[i])
    ensures |r| == 3
  {
    var v0, v1, v2, v3 := DigitValue(d[0]), DigitValue(d[1]), DigitValue(d[2]), DigitValue(d[3]);
    [v0 * 4 + v1 / 16, (v1 % 16) * 16 + v2 / 4, (v2 % 4) * 64 + v3]
  }

  /** The digit of value zero. */
  const ZeroDigit: CodeUnit := 0x41

  /**
   * The bytes a run of digits stands for; a final group of two or three
   * digits gives one or two bytes, and the bits left over are discarded.
   */
  function DecodeDigits(t: JsString): (r: seq<Byte>)
    requires |t| % 4 != 1
    requires forall i | 0 <= i < |t| :: IsAlphabet(t[i])
    ensures |r| == 3 * |t| / 4
    decreases |t|
  {
    if |t| == 0 then []
    else if |t| == 2 then DecodeGroup(t + [ZeroDigit, ZeroDigit])[..1]
    else if |t| == 3 then DecodeGroup(t + [ZeroDigit])[..2]
    else DecodeGroup(t[..4]) + DecodeDigits(t[4..])
  }

  /**
   * `atob(s)`, forgiving-base64 decode: ASCII white space is removed, padding
   * is dropped, and a length of 1 modulo 4 or a unit outside the alphabet
   * throws.
   */
  function Atob(s: JsString): (r: Result<JsString, DomError>)
    ensures r.Ok? ==> IsByteString(r.value)
    ensures r.Ok? <==> (var t := StripPadding(RemoveAsciiWhitespace(s));
                        |t| % 4 != 1 && forall i | 0 <= i < |t| :: IsAlphabet(t[i]))
  {
    var t := StripPadding(RemoveAsciiWhitespace(s));
    if |t| % 4 == 1 || exists i | 0 <= i < |t| :: !IsAlphabet(t[i]) then Err(InvalidCharacterError)
    else Ok(DecodeDigits(t))
  }

  lemma Split16(high: int, low: int)
    requires 0 <= high && 0 <= low < 16
    ensures (high * 16 + low) / 16 == high && (high * 16 + low) % 16 == low
  {
  }

  lemma Split4(high: int, low: int)
    requires 0 <= high && 0 <= low < 4
    ensures (high * 4 + low) / 4 == high && (high * 4 + low) % 4 == low
  {
  }

  /** A group of three bytes comes back from its four digits. */
  lemma GroupRoundTrip(b0: Byte, b1: Byte, b2: Byte)
    ensures DecodeGroup(EncodeGroup(b0, b1, b2)) == [b0, b1, b2]
  {
    var v0, v1, v2, v3 := b0 / 4, (b0 % 4) * 16 + b1 / 16, (b1 % 16) * 4 + b2 / 64, b2 % 64;
    DigitValueOfDigit(v0);
    DigitValueOfDigit(v1);
    DigitValueOfDigit(v2);
    DigitValueOfDigit(v3);
    Split16(b0 % 4, b1 / 16);
    Split4(b1 % 16, b2 / 64);
  }

  /** Zero bits give the zero digit. */
  lemma ZeroBits(b0: Byte, b1: Byte)
    ensures EncodeGroup(b0, b1, 0)[3] == ZeroDigit
    ensures EncodeGroup(b0, 0, 0)[2] == ZeroDigit
  {
  }

  /** A final single byte comes back from its two digits. */
  lemma OneByteRoundTrip(b0: Byte)
    ensures DecodeDigits(EncodeDigits([b0])) == [b0]
  {
    var g := EncodeGroup(b0, 0, 0);
    var t := EncodeDigits([b0]);
    assert t == g[..2];
    ZeroBits(b0, 0);
    assert t + [ZeroDigit, ZeroDigit] == g;
    GroupRoundTrip(b0, 0, 0);
    assert DecodeDigits(t) == DecodeGroup(g)[..1];
  }

  /** A final pair of bytes comes back from its three digits. */
  lemma TwoBytesRoundTrip(b0: Byte, b1: Byte)
    ensures DecodeDigits(EncodeDigits([b0, b1])) == [b0, b1]
  {
    var g := EncodeGroup(b0, b1, 0);
    var t := EncodeDigits([b0, b1]);
    assert t == g[..3];
    ZeroBits(b0, b1);
    assert t + [ZeroDigit] == g;
    GroupRoundTrip(b0, b1, 0);
    assert DecodeDigits(t) == DecodeGroup(g)[..2];
  }

  /** The first group decodes to the first three bytes, and the rest to the rest. */
  lemma FirstGroupRoundTrip(b: seq<Byte>)
    requires |b| >= 3
    ensures DecodeDigits(EncodeDigits(b)) == [b[0], b[1], b[2]] + DecodeDigits(EncodeDigits(b[3..]))
  {
    var g := EncodeGroup(b[0], b[1], b[2]);
    var t := EncodeDigits(b);
    assert t[..4] == g && t[4..] == EncodeDigits(b[3..]);
    GroupRoundTrip(b[0], b[1], b[2]);
  }

  /** Decoding the digits gives back the bytes. */
  lemma {:induction false} DecodeEncodeDigits(b: seq<Byte>)
    ensures DecodeDigits(EncodeDigits(b)) == b
    decreases |b|
  {
    if |b| == 1 {
      OneByteRoundTrip(b[0]);
      assert b == [b[0]];
    } else if |b| == 2 {
      TwoBytesRoundTrip(b[0], b[1]);
      assert b == [b[0], b[1]];
    } else if |b| >= 3 {
      FirstGroupRoundTrip(b);
      DecodeEncodeDigits(b[3..]);
      assert b == [b[0], b[1], b[2]] + b[3..];
    }
  }

  lemma {:induction false} NoWhitespaceKept(s: JsString)
    requires forall i | 0 <= i < |s| :: !IsAsciiWhitespace(s[i])
    ensures RemoveAsciiWhitespace(s) == s
    decreases |s|
  {
    if s != [] {
      NoWhitespaceKept(s[1..]);
      assert [s[0]] + s[1..] == s;
    }
  }

  /** The padding `Encode` adds is exactly what `StripPadding` drops. */
  lemma StripEncoded(b: seq<Byte>)
    ensures StripPadding(Encode(b)) == EncodeDigits(b)
  {
    var d := EncodeDigits(b);
    var e := Encode(b);
    if |b| % 3 == 0 {
      assert e == d;
      if |d| > 0 {
        assert IsAlphabet(d[|d| - 1]);
      }
    } else if |b| % 3 == 1 {
      assert e == d + [Pad, Pad];
      assert e[..|e| - 2] == d;
    } else {
      assert e == d + [Pad];
      assert IsAlphabet(d[|d| - 1]);
      assert e[..|e| - 1] == d;
    }
  }

  lemma BtoaIsEncode(s: JsString)
    requires IsByteString(s)
    ensures Btoa(s) == Ok(Encode(s))
  {
  }

  /** Unpadded base64 is never one digit past a group of four. */
  lemma DigitsLength(n: nat)
    ensures (4 * n + 2) / 3 % 4 != 1
  {
    var q, r := n / 3, n % 3;
    assert 4 * n + 2 == 3 * (4 * q) + (4 * r + 2);
    assert (4 * n + 2) / 3 == 4 * q + (4 * r + 2) / 3;
  }

  /** `atob(btoa(s)) === s` for every string `btoa` accepts. */
  lemma AtobBtoa(s: JsString)
    requires IsByteString(s)
    ensures Atob(Btoa(s).value) == Ok(s)
  {
    BtoaIsEncode(s);
    AtobOfEncode(s);
    DecodeEncodeDigits(s);
  }

  lemma AtobOfEncode(b: seq<Byte>)
    ensures Atob(Encode(b)) == Ok(DecodeDigits(EncodeDigits(b)))
  {
    var d := EncodeDigits(b);
    var e := Encode(b);
    NoWhitespaceKept(e);
    StripEncoded(b);
    AtobOfDigits(e, d);
  }

  lemma AtobOfDigits(e: JsString, d: JsString)
    requires RemoveAsciiWhitespace(e) == e && StripPadding(e) == d
    requires |d| % 4 != 1 && forall i | 0 <= i < |d| :: IsAlphabet(d[i])
    ensures Atob(e) == Ok(DecodeDigits(d))
  {
  }

  /** In the digits of ASCII bytes only the fourth digit of a group can be `+`, and only for `>` or `~`. */
  lemma GroupPlus(b0: Byte, b1: Byte, b2: Byte)
    requires b0 < 0x80 && b1 < 0x80 && b2 < 0x80
    ensures Plus in EncodeGroup(b0, b1, b2) <==> b2 == 62 || b2 == 126
    ensures Plus !in EncodeGroup(b0, b1, 0)[..3]
  {
    var g := EncodeGroup(b0, b1, b2);
    assert Plus in g <==> g[0] == Plus || g[1] == Plus || g[2] == Plus || g[3] == Plus;
    var h := EncodeGroup(b0, b1, 0);
    assert Plus in h[..3] <==> h[0] == Plus || h[1] == Plus || h[2] == Plus;
  }

  /**
   * The base64 of an ASCII byte string holds a `+` exactly when a byte at
   * an offset of 2 modulo 3 is `>` (62) or `~` (126).
   */
  lemma {:induction false} PlusInEncoding(b: seq<Byte>)
    requires forall i | 0 <= i < |b| :: b[i] < 0x80
    ensures Plus in Encode(b) <==> exists i | 0 <= i < |b| :: i % 3 == 2 && (b[i] == 62 || b[i] == 126)
    decreases |b|
  {
    PlusInDigits(b);
    var e := Encode(b);
    var d := EncodeDigits(b);
    assert e == d + Padding(|b|);
    assert Plus in e <==> Plus in d;
  }

  lemma {:induction false} PlusInDigits(b: seq<Byte>)
    requires forall i | 0 <= i < |b| :: b[i] < 0x80
    ensures Plus in EncodeDigits(b) <==> exists i | 0 <= i < |b| :: i % 3 == 2 && (b[i] == 62 || b[i] == 126)
    decreases |b|
  {
    if |b| == 1 {
      GroupPlus(b[0], 0, 0);
      assert EncodeGroup(b[0], 0, 0)[..2] == EncodeGroup(b[0], 0, 0)[..3][..2];
    } else if |b| == 2 {
      GroupPlus(b[0], b[1], 0);
    } else if |b| >= 3 {
      PlusInFirstGroup(b);
      PlusInDigits(b[3..]);
      PlusByteShift(b);
    }
  }

  /** The first group holds a `+` exactly when the third byte is `>` or `~`. */
  lemma PlusInFirstGroup(b: seq<Byte>)
    requires |b| >= 3 && forall i | 0 <= i < |b| :: b[i] < 0x80
    ensures Plus in EncodeDigits(b) <==> b[2] == 62 || b[2] == 126 || Plus in EncodeDigits(b[3..])
  {
    GroupPlus(b[0], b[1], b[2]);
    assert EncodeDigits(b) == EncodeGroup(b[0], b[1], b[2]) + EncodeDigits(b[3..]);
  }

  /** Offsets of 2 modulo 3 past the first group are those of the rest, shifted by three. */
  lemma PlusByteShift(b: seq<Byte>)
    requires |b| >= 3
    ensures (exists i | 0 <= i < |b| :: i % 3 == 2 && (b[i] == 62 || b[i] == 126)) <==>
            b[2] == 62 || b[2] == 126 || exists i | 0 <= i < |b| - 3 :: i % 3 == 2 && (b[3..][i] == 62 || b[3..][i] == 126)
  {
    var rest := b[3..];
    if exists i | 0 <= i < |rest| :: i % 3 == 2 && (rest[i] == 62 || rest[i] == 126) {
      var i :| 0 <= i < |rest| && i % 3 == 2 && (rest[i] == 62 || rest[i] == 126);
      assert b[i + 3] == rest[i];
    }
    if exists i | 0 <= i < |b| :: i % 3 == 2 && (b[i] == 62 || b[i] == 126) {
      var i :| 0 <= i < |b| && i % 3 == 2 && (b[i] == 62 || b[i] == 126);
      if i >= 3 {
        assert rest[i - 3] == b[i];
      }
    }
  }

  /** `btoa("aa~")` is `"YWF+"`. */
  lemma TildeGivesPlus()
    ensures Btoa([0x61, 0x61, 0x7E]) == Ok([0x59, 0x57, 0x46, Plus])
  {
    var b: seq<Byte> := [0x61, 0x61, 0x7E];
    assert IsByteString(b);
    BtoaIsEncode(b);
    assert b[3..] == [];
    assert Padding(3) == [];
    assert EncodeGroup(0x61, 0x61, 0x7E) == [0x59, 0x57, 0x46, Plus];
    assert EncodeDigits(b) == EncodeGroup(0x61, 0x61, 0x7E) + EncodeDigits([]);
    assert Encode(b) == EncodeDigits(b) + Padding(|b|);
    assert Encode(b) == [0x59, 0x57, 0x46, Plus];
  }
}
