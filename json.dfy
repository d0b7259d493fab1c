/**
 * JSON values as the application meets them: the results of `JSON.parse`,
 * the snapshot `JSON.stringify` serialises, and the JavaScript conversions the
 * code applies to them (truthiness, property access and the string
 * conversion a textarea performs when a value is assigned to it).
 */
module Json {
  import opened Wrappers
  import opened JsStrings

  type AsciiText = s: JsString | IsAscii(s)

  /**
   * A JSON value. A number is held by its ECMAScript `Number::toString` text
   * (`1e400` parses to `Infinity`); an object lists its own properties in
   * order, each key once, as `JSON.parse` creates them.
   */
  datatype JValue =
    | JNull
    | JBool(b: bool)
    | JNumber(shown: AsciiText)
    | JString(s: JsString)
    | JArray(items: seq<JValue>)
    | JObject(fields: seq<Field>)

  datatype Field = Field(key: JsString, value: JValue)

  /** `typeof v === 'object' && v !== null` */
  predicate IsObjectLike(v: JValue)
  {
    v.JArray? || v.JObject?
  }

  /** ECMAScript ToBoolean: `null`, `false`, `0`, `NaN` and `""` are falsy. */
  predicate Truthy(v: JValue)
  {
    match v
    case JNull => false
    case JBool(b) => b
    case JNumber(shown) => shown != FromString("0") && shown != FromString("NaN")
    case JString(s) => s != []
    case JArray(_) => true
    case JObject(_) => true
  }

  /** The first field named `key`. */
  function Lookup(fields: seq<Field>, key: JsString): (r: Option<JValue>)
  {
    if fields == [] then None
    else if fields[0].key == key then Some(fields[0].value)
    else Lookup(fields[1..], key)
  }

  /** `i` is the lowest index of a field named `key`. */
  predicate FirstWithKey(fields: seq<Field>, key: JsString, i: nat)
  {
    i < |fields| && fields[i].key == key && forall j | 0 <= j < i :: fields[j].key != key
  }

  /**
   * Lookup finds nothing exactly when no field has the key; otherwise the
   * value is that of the first field with the key.
   */
  lemma {:induction false} LookupFinds(fields: seq<Field>, key: JsString)
    ensures Lookup(fields, key).None? <==> forall i | 0 <= i < |fields| :: fields[i].key != key
    ensures Lookup(fields, key).Some? ==>
              exists i: nat :: FirstWithKey(fields, key, i) && fields[i].value == Lookup(fields, key).value
    decreases |fields|
  {
    if fields == [] {
    } else if fields[0].key == key {
      assert FirstWithKey(fields, key, 0);
    } else {
      LookupFinds(fields[1..], key);
      assert forall i | 0 <= i < |fields| - 1 :: fields[1..][i] == fields[i + 1];
      if Lookup(fields, key).Some? {
        var i: nat :| FirstWithKey(fields[1..], key, i) && fields[1..][i].value == Lookup(fields, key).value;
        assert FirstWithKey(fields, key, i + 1);
      } else {
        forall i | 0 <= i < |fields|
          ensures fields[i].key != key
        {
          if i > 0 {
            assert fields[1..][i - 1] == fields[i];
          }
        }
      }
    }
  }

  /**
   * `v[key]` for a value that is not `null`: an object's own property; no
   * key the application reads exists on a prototype, so anything else gives
   * `undefined` (None).
   */
  function Property(v: JValue, key: JsString): (r: Option<JValue>)
    ensures !v.JObject? ==> r.None?
    ensures v.JObject? ==> r == Lookup(v.fields, key)
  {
    if v.JObject? then Lookup(v.fields, key) else None
  }

  /**
   * `v[key]` is defined exactly when `v` is an object with a field named
   * `key`, and it is then the value of the first such field.
   */
  lemma PropertyFinds(v: JValue, key: JsString)
    ensures Property(v, key).Some? <==> v.JObject? && exists i | 0 <= i < |v.fields| :: v.fields[i].key == key
    ensures Property(v, key).Some? ==>
              exists i: nat :: FirstWithKey(v.fields, key, i) && v.fields[i].value == Property(v, key).value
  {
    if v.JObject? {
      LookupFinds(v.fields, key);
    }
  }

  /** An own property named `toString` hides `Object.prototype.toString`. */
  predicate HasOwnToString(fields: seq<Field>)
  {
    exists i | 0 <= i < |fields| :: fields[i].key == FromString("toString")
  }

  /** A well-formed string, ASCII text and a well-formed string make a well-formed whole. */
  lemma WellFormedAround(a: JsString, middle: JsString, b: JsString)
    ensures WellFormed(a) && IsAscii(middle) && WellFormed(b) ==> WellFormed(a + middle + b)
  {
    if WellFormed(a) && IsAscii(middle) && WellFormed(b) {
      AsciiWellFormed(middle);
      WellFormedConcat(a, middle);
      WellFormedConcat(a + middle, b);
    }
  }

  /** `parts.join(separator)` */
  function Join(parts: seq<JsString>, separator: JsString): (r: JsString)
    ensures IsAscii(separator) && (forall i | 0 <= i < |parts| :: WellFormed(parts[i])) ==> WellFormed(r)
  {
    if parts == [] then []
    else if |parts| == 1 then parts[0]
    else
      var rest := Join(parts[1..], separator);
      assert forall i | 1 <= i < |parts| :: parts[1..][i - 1] == parts[i];
      WellFormedAround(parts[0], separator, rest);
      parts[0] + separator + rest
  }

  /** `parts.join(separator)` where a part whose conversion threw makes the join throw. */
  function JoinAll(parts: seq<Option<JsString>>, separator: JsString): (r: Option<JsString>)
    ensures r.Some? <==> forall i | 0 <= i < |parts| :: parts[i].Some?
  {
    if forall i | 0 <= i < |parts| :: parts[i].Some? then
      Some(Join(seq(|parts|, i requires 0 <= i < |parts| => parts[i].value), separator))
    else None
  }

  /**
   * ECMAScript ToString as a textarea's `value` setter applies it: an array
   * joins its elements with `,` (`null` shows as nothing); an object shows
   * `[object Object]`, unless an own `toString` key leaves no callable
   * conversion and the conversion throws a `TypeError` (None).
   */
  function ToDomString(v: JValue): (r: Option<JsString>)
    ensures v.JString? ==> r == Some(v.s)
    ensures v.JObject? ==> (r.None? <==> HasOwnToString(v.fields))
    decreases v
  {
    match v
    case JNull => Some(FromString("null"))
    case JBool(b) => Some(if b then FromString("true") else FromString("false"))
    case JNumber(shown) => Some(shown)
    case JString(s) => Some(s)
    case JArray(items) =>
      JoinAll(seq(|items|, i requires 0 <= i < |items| =>
                    if items[i].JNull? then Some([]) else ToDomString(items[i])),
              FromString(","))
    case JObject(fields) =>
      if HasOwnToString(fields) then None else Some(FromString("[object Object]"))
  }

  /** The escapes QuoteJSONString writes for one unit that is not half of a surrogate pair. */
  function EscapeUnit(u: CodeUnit): (r: JsString)
    ensures (IsHighSurrogate(u) || IsLowSurrogate(u) || u < 0x20 || u == 0x22 || u == 0x5C) ==> IsAscii(r)
    ensures !(IsHighSurrogate(u) || IsLowSurrogate(u) || u < 0x20 || u == 0x22 || u == 0x5C) ==> r == [u]
    ensures WellFormed(r)
  {
    var r: JsString :=
      if u == 0x08 then [0x5C, 0x62]
      else if u == 0x09 then [0x5C, 0x74]
      else if u == 0x0A then [0x5C, 0x6E]
      else if u == 0x0C then [0x5C, 0x66]
      else if u == 0x0D then [0x5C, 0x72]
      else if u == 0x22 then [0x5C, 0x22]
      else if u == 0x5C then [0x5C, 0x5C]
      else if u < 0x20 || IsHighSurrogate(u) || IsLowSurrogate(u) then UnicodeEscape(u)
      else [u];
    assert |r| == 1 ==> r[1..] == [];
    AsciiOrSingle(r);
    r
  }

  lemma AsciiOrSingle(r: JsString)
    requires IsAscii(r) || (|r| == 1 && !IsHighSurrogate(r[0]) && !IsLowSurrogate(r[0]))
    ensures WellFormed(r)
  {
    if IsAscii(r) {
      AsciiWellFormed(r);
    } else {
      assert r[1..] == [];
    }
  }

  function LowerHexDigit(n: int): (u: CodeUnit)
    requires 0 <= n < 16
    ensures u < 0x80
  {
    if n < 10 then 0x30 + n else 0x61 + n - 10
  }

  /** `\uXXXX` with lower-case hexadecimal digits. */
  function UnicodeEscape(u: CodeUnit): (r: JsString)
    ensures |r| == 6 && IsAscii(r)
  {
    [0x5C, 0x75, LowerHexDigit(u / 0x1000), LowerHexDigit(u / 0x100 % 0x10),
     LowerHexDigit(u / 0x10 % 0x10), LowerHexDigit(u % 0x10)]
  }

  /**
   * The text between the quotes of QuoteJSONString (ECMAScript 2019 and
   * later): a surrogate pair is kept, a lone surrogate is escaped.
   */
  function QuoteBody(s: JsString): (r: JsString)
    ensures WellFormed(r)
    decreases |s|
  {
    if s == [] then []
    else if IsHighSurrogate(s[0]) && |s| >= 2 && IsLowSurrogate(s[1]) then
      var pair := [s[0], s[1]];
      assert WellFormed(pair[2..]);
      WellFormedConcat(pair, QuoteBody(s[2..]));
      pair + QuoteBody(s[2..])
    else
      WellFormedConcat(EscapeUnit(s[0]), QuoteBody(s[1..]));
      EscapeUnit(s[0]) + QuoteBody(s[1..])
  }

  function Quote(s: JsString): (r: JsString)
    ensures WellFormed(r)
  {
    var q: JsString := [0x22];
    AsciiWellFormed(q);
    WellFormedConcat(q, QuoteBody(s));
    WellFormedConcat(q + QuoteBody(s), q);
    q + QuoteBody(s) + q
  }

  /** Wraps `body` in an opening and a closing bracket. */
  function Enclose(open: CodeUnit, body: JsString, close: CodeUnit): (r: JsString)
    requires open < 0x80 && close < 0x80
    ensures WellFormed(body) ==> WellFormed(r)
    ensures |r| == |body| + 2
  {
    EncloseWellFormed(open, body, close);
    [open] + body + [close]
  }

  lemma EncloseWellFormed(open: CodeUnit, body: JsString, close: CodeUnit)
    requires open < 0x80 && close < 0x80
    ensures WellFormed(body) ==> WellFormed([open] + body + [close])
  {
    var o: JsString, c: JsString := [open], [close];
    AsciiWellFormed(o);
    AsciiWellFormed(c);
    if WellFormed(body) {
      WellFormedConcat(o, body);
      WellFormedConcat(o + body, c);
    }
  }

  /**
   * `JSON.stringify(v)` without indentation. A number shows its text, except
   * that the non-finite ones become `null`. Every result is well-formed
   * UTF-16, since QuoteJSONString escapes lone surrogates.
   */
  function Stringify(v: JValue): (r: JsString)
    ensures WellFormed(r)
    decreases v, 1
  {
    match v
    case JNull => AsciiWellFormed(FromString("null")); FromString("null")
    case JBool(b) => if b then FromString("true") else FromString("false")
    case JNumber(shown) =>
      if shown == FromString("Infinity") || shown == FromString("-Infinity") then FromString("null")
      else AsciiWellFormed(shown); shown
    case JString(s) => Quote(s)
    case JArray(items) =>
      AsciiWellFormed(FromString(","));
      Enclose(0x5B, Join(seq(|items|, i requires 0 <= i < |items| => Stringify(items[i])), FromString(",")), 0x5D)
    case JObject(fields) =>
      AsciiWellFormed(FromString(","));
      Enclose(0x7B, Join(seq(|fields|, i requires 0 <= i < |fields| => Member(v, i)), FromString(",")), 0x7D)
  }

  /** `"key":value` for the `i`-th field of an object. */
  function Member(v: JValue, i: nat): (r: JsString)
    requires v.JObject? && i < |v.fields|
    ensures WellFormed(r)
    decreases v, 0
  {
    var f := v.fields[i];
    assert f.value < f < v;
    var colon: JsString := [0x3A];
    AsciiWellFormed(colon);
    WellFormedConcat(Quote(f.key), colon);
    WellFormedConcat(Quote(f.key) + colon, Stringify(f.value));
    Quote(f.key) + colon + Stringify(f.value)
  }
}
