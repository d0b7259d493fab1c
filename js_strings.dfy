/**
 * ECMAScript strings as sequences of UTF-16 code units, with the few string
 * operations the application relies on: well-formedness (no lone surrogate),
 * the UTF-16 encoding of code points, substring occurrence and
 * `String.prototype.trim`.
 */
module JsStrings {
  import opened Wrappers

  /** A UTF-16 code unit: the element type of an ECMAScript string. */
  type CodeUnit = x: int | 0 <= x < 0x1_0000

  type JsString = seq<CodeUnit>

  /** An octet; also a code unit of the "byte strings" `btoa` and `atob` exchange. */
  type Byte = x: int | 0 <= x < 0x100

  predicate IsHighSurrogate(u: CodeUnit) { 0xD800 <= u <= 0xDBFF }

  predicate IsLowSurrogate(u: CodeUnit) { 0xDC00 <= u <= 0xDFFF }

  /** A Unicode scalar value: a code point that is not a surrogate. */
  predicate IsScalarValue(cp: int) { 0 <= cp <= 0x10_FFFF && !(0xD800 <= cp <= 0xDFFF) }

  /** Every high surrogate is followed by a low one and every low one follows a high one. */
  predicate WellFormed(s: JsString)
    decreases |s|
  {
    if s == [] then true
    else if IsHighSurrogate(s[0]) then |s| >= 2 && IsLowSurrogate(s[1]) && WellFormed(s[2..])
    else !IsLowSurrogate(s[0]) && WellFormed(s[1..])
  }

  lemma {:induction false} WellFormedConcat(a: JsString, b: JsString)
    requires WellFormed(a) && WellFormed(b)
    ensures WellFormed(a + b)
    decreases |a|
  {
    if a == [] {
      assert a + b == b;
    } else if IsHighSurrogate(a[0]) {
      WellFormedConcat(a[2..], b);
      assert (a + b)[2..] == a[2..] + b;
    } else {
      WellFormedConcat(a[1..], b);
      assert (a + b)[1..] == a[1..] + b;
    }
  }

  /** The code point a surrogate pair stands for. */
  function PairCodePoint(high: CodeUnit, low: CodeUnit): (cp: int)
    requires IsHighSurrogate(high) && IsLowSurrogate(low)
    ensures 0x1_0000 <= cp <= 0x10_FFFF && IsScalarValue(cp)
  {
    (high - 0xD800) * 0x400 + (low - 0xDC00) + 0x1_0000
  }

  /** UTF16EncodeCodePoint: one unit below 0x10000, a surrogate pair above. */
  function CodePointUnits(cp: int): (r: JsString)
    requires IsScalarValue(cp)
    ensures |r| == (if cp < 0x1_0000 then 1 else 2)
    ensures WellFormed(r)
    ensures |r| == 2 ==> IsHighSurrogate(r[0]) && IsLowSurrogate(r[1]) && PairCodePoint(r[0], r[1]) == cp
  {
    if cp < 0x1_0000 then
      [cp]
    else
      var r := [0xD800 + (cp - 0x1_0000) / 0x400, 0xDC00 + (cp - 0x1_0000) % 0x400];
      assert WellFormed(r[2..]);
      r
  }

  lemma PairUnits(high: CodeUnit, low: CodeUnit)
    requires IsHighSurrogate(high) && IsLowSurrogate(low)
    ensures CodePointUnits(PairCodePoint(high, low)) == [high, low]
  {
  }

  /**
   * The code units of a string literal. Every literal of the application is
   * ASCII, so each character is one unit; a character beyond U+FFFF, which
   * no literal here holds, would become U+FFFD.
   */
  function FromString(s: string): (r: JsString)
    ensures |r| == |s|
    ensures forall i | 0 <= i < |s| :: s[i] as int < 0x1_0000 ==> r[i] == s[i] as int
  {
    seq(|s|, i requires 0 <= i < |s| => if s[i] as int < 0x1_0000 then s[i] as int else 0xFFFD)
  }

  /** Units that are not surrogates form a well-formed string. */
  lemma {:induction false} NoSurrogatesWellFormed(s: JsString)
    requires forall i | 0 <= i < |s| :: !IsHighSurrogate(s[i]) && !IsLowSurrogate(s[i])
    ensures WellFormed(s)
    decreases |s|
  {
    if s != [] {
      NoSurrogatesWellFormed(s[1..]);
    }
  }

  predicate IsAscii(s: JsString) { forall i | 0 <= i < |s| :: s[i] < 0x80 }

  lemma AsciiWellFormed(s: JsString)
    requires IsAscii(s)
    ensures WellFormed(s)
  {
    NoSurrogatesWellFormed(s);
  }

  /** `p` occurs in `s` at index `i`. */
  predicate OccursAt(s: JsString, p: JsString, i: nat)
  {
    i + |p| <= |s| && s[i..i + |p|] == p
  }

  /** `s.includes(p)` */
  predicate Contains(s: JsString, p: JsString)
  {
    exists i: nat | i <= |s| :: OccursAt(s, p, i)
  }

  /**
   * The code units `String.prototype.trim` removes: WhiteSpace (TAB, VT, FF,
   * ZWNBSP and the Space_Separator category) and LineTerminator (LF, CR, LS, PS).
   */
  predicate IsTrimSpace(u: CodeUnit)
  {
    || u == 0x09 || u == 0x0B || u == 0x0C || u == 0xFEFF
    || u == 0x20 || u == 0xA0 || u == 0x1680 || 0x2000 <= u <= 0x200A
    || u == 0x202F || u == 0x205F || u == 0x3000
    || u == 0x0A || u == 0x0D || u == 0x2028 || u == 0x2029
  }

  function LeadingSpaces(s: JsString): (n: nat)
    ensures n <= |s|
    ensures forall j | 0 <= j < n :: IsTrimSpace(s[j])
    ensures n == |s| || !IsTrimSpace(s[n])
  {
    if s == [] || !IsTrimSpace(s[0]) then 0 else 1 + LeadingSpaces(s[1..])
  }

  function TrailingSpaces(s: JsString): (n: nat)
    ensures n <= |s|
    ensures forall j | |s| - n <= j < |s| :: IsTrimSpace(s[j])
    ensures n == |s| || !IsTrimSpace(s[|s| - 1 - n])
  {
    if s == [] || !IsTrimSpace(s[|s| - 1]) then 0 else 1 + TrailingSpaces(s[..|s| - 1])
  }

  /** `s.trim()`: the part of `s` between its leading and its trailing white space. */
  function Trim(s: JsString): (r: JsString)
    ensures (r == []) <==> (forall j | 0 <= j < |s| :: IsTrimSpace(s[j]))
  {
    var a := LeadingSpaces(s);
    var t := s[a..];
    t[..|t| - TrailingSpaces(t)]
  }

  /**
   * The trimmed string is a part of `s` with only white space before and
   * after it, and it neither starts nor ends with white space.
   */
  lemma TrimIsTrimmed(s: JsString)
    ensures var r := Trim(s);
            && (r != [] ==> !IsTrimSpace(r[0]) && !IsTrimSpace(r[|r| - 1]))
            && exists i: nat :: OccursAt(s, r, i)
                                && (forall j | 0 <= j < i :: IsTrimSpace(s[j]))
                                && (forall j | i + |r| <= j < |s| :: IsTrimSpace(s[j]))
  {
    var a := LeadingSpaces(s);
    var t := s[a..];
    var r := t[..|t| - TrailingSpaces(t)];
    assert r == Trim(s);
    assert OccursAt(s, r, a);
  }

  /** JavaScript's `value || fallback` for a string that may be undefined. */
  function Or(value: Option<JsString>, fallback: JsString): JsString
  {
    if value.Some? && value.value != [] then value.value else fallback
  }
}
