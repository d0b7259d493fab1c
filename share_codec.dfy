/**
 * The share link: the snapshot the share button serialises, the token
 * `btoa(encodeURIComponent(JSON.stringify(data)))`, the length limit on the
 * link, reading the token back through `URLSearchParams`, and applying a
 * decoded snapshot to the session state.
 */
module ShareCodec {
  import opened Wrappers
  import opened JsStrings
  import opened Json
  import opened Conversation
  import opened UriComponent
  import opened Base64

  const CodeKey: JsString := FromString("code")
  const ExplanationKey: JsString := FromString("explanation")
  const BugsKey: JsString := FromString("bugs")
  const ChatKey: JsString := FromString("chat")

  const MaxUrlLength: nat := 4000
  const ShareName: JsString := FromString("share")
  /** What follows origin and path in a share link, before the token. */
  const ShareQuery: JsString := FromString("?share=")

  const Question: CodeUnit := 0x3F
  const AmpersandUnit: CodeUnit := 0x26
  const EqualsUnit: CodeUnit := 0x3D
  const Space: CodeUnit := 0x20
  const Tilde: CodeUnit := 0x7E

  /**
   * `chatHistory.filter(msg => msg.role !== 'system')`. A `null` entry makes
   * `msg.role` throw a `TypeError` (None), which nothing catches.
   */
  function ChatForShare(chat: seq<JValue>): (r: Option<seq<JValue>>)
    ensures r.Some? <==> forall i | 0 <= i < |chat| :: !chat[i].JNull?
    ensures r.Some? ==> forall m :: m in r.value <==> m in chat && !IsSystemRole(m)
    ensures r.Some? ==> |r.value| <= |chat|
    ensures r.Some? ==> (r.value == [] <==> forall i | 0 <= i < |chat| :: IsSystemRole(chat[i]))
    decreases |chat|
  {
    if chat == [] then Some([])
    else if chat[0].JNull? then None
    else
      match ChatForShare(chat[1..])
      case None => None
      case Some(rest) =>
        assert chat == [chat[0]] + chat[1..];
        Some(if IsSystemRole(chat[0]) then rest else [chat[0]] + rest)
  }

  /** One message: `null` throws, a system message is dropped, any other is kept. */
  lemma ChatForShareOne(m: JValue)
    ensures ChatForShare([m]) == if m.JNull? then None else if IsSystemRole(m) then Some([]) else Some([m])
  {
    assert [m] != [] && [m][0] == m && [m][1..] == [] && ChatForShare([]) == Some([]);
    assert [m] + [] == [m];
  }

  /** Concatenation regroups freely. */
  lemma AppendAssociates<T>(p: seq<T>, q: seq<T>, t: seq<T>)
    ensures p + (q + t) == (p + q) + t
  {
  }

  /** The filter of a non-empty history, by its first message. */
  lemma ChatForShareFirst(c: seq<JValue>)
    requires c != []
    ensures ChatForShare(c)
            == if c[0].JNull? || ChatForShare(c[1..]).None? then None
               else if IsSystemRole(c[0]) then ChatForShare(c[1..])
               else Some([c[0]] + ChatForShare(c[1..]).value)
  {
  }

  /**
   * The filter works message by message: the shared chat of `a + b` is that
   * of `a` followed by that of `b`, in order and with repeats, and it throws
   * when either part does.
   */
  lemma {:induction false} ChatForShareConcat(a: seq<JValue>, b: seq<JValue>)
    ensures ChatForShare(a + b)
            == if ChatForShare(a).Some? && ChatForShare(b).Some? then Some(ChatForShare(a).value + ChatForShare(b).value)
               else None
    decreases |a|
  {
    if a == [] {
      assert a + b == b && ChatForShare(a) == Some([]);
      if ChatForShare(b).Some? {
        assert [] + ChatForShare(b).value == ChatForShare(b).value;
      }
    } else {
      assert (a + b)[0] == a[0] && (a + b)[1..] == a[1..] + b;
      ChatForShareFirst(a);
      ChatForShareFirst(a + b);
      ChatForShareConcat(a[1..], b);
      var x, y := ChatForShare(a[1..]), ChatForShare(b);
      if a[0].JNull? || x.None? || y.None? {
        assert ChatForShare(a + b) == None;
      } else if IsSystemRole(a[0]) {
        assert ChatForShare(a) == x;
        assert ChatForShare(a + b) == Some(x.value + y.value);
      } else {
        assert ChatForShare(a) == Some([a[0]] + x.value);
        assert ChatForShare(a + b) == Some([a[0]] + (x.value + y.value));
        AppendAssociates([a[0]], x.value, y.value);
      }
    }
  }

  /** `{ code, explanation, bugs, chat }` */
  function Snapshot(s: SessionState, chat: seq<JValue>): JValue
  {
    JObject([Field(CodeKey, JString(s.code)), Field(ExplanationKey, s.explanation),
             Field(BugsKey, s.bugReport), Field(ChatKey, JArray(chat))])
  }

  lemma SnapshotProperties(s: SessionState, chat: seq<JValue>)
    ensures Property(Snapshot(s, chat), CodeKey) == Some(JString(s.code))
    ensures Property(Snapshot(s, chat), ExplanationKey) == Some(s.explanation)
    ensures Property(Snapshot(s, chat), BugsKey) == Some(s.bugReport)
    ensures Property(Snapshot(s, chat), ChatKey) == Some(JArray(chat))
  {
    var f := Snapshot(s, chat).fields;
    assert CodeKey != ExplanationKey && CodeKey != BugsKey && CodeKey != ChatKey by {
      assert |CodeKey| == 4 && |ExplanationKey| == 11 && |BugsKey| == 4 && |ChatKey| == 4;
      assert CodeKey[0] != BugsKey[0] && CodeKey[1] != ChatKey[1];
    }
    assert ExplanationKey != BugsKey && ExplanationKey != ChatKey by {
      assert |ExplanationKey| == 11 && |BugsKey| == 4 && |ChatKey| == 4;
    }
    assert BugsKey != ChatKey by { assert BugsKey[0] != ChatKey[0]; }
    assert f[1..] == [f[1], f[2], f[3]] && f[1..][1..] == [f[2], f[3]] && f[1..][1..][1..] == [f[3]];
    assert Lookup(f[1..][1..][1..], ChatKey) == Some(JArray(chat));
    assert Lookup(f[1..][1..], ChatKey) == Some(JArray(chat));
    assert Lookup(f[1..], ChatKey) == Some(JArray(chat));
    assert Lookup(f[1..][1..], BugsKey) == Some(s.bugReport);
    assert Lookup(f[1..], BugsKey) == Some(s.bugReport);
    assert Lookup(f[1..], ExplanationKey) == Some(s.explanation);
  }

  /** The share button's emptiness test: `!code && !explanation && !bugs && chat.length === 0`. */
  predicate IsEmptySnapshot(s: SessionState, chat: seq<JValue>)
  {
    s.code == [] && !Truthy(s.explanation) && !Truthy(s.bugReport) && chat == []
  }

  /** The exceptions the two encoders throw, and the too-large link. */
  datatype CodecError = UriFailure(uri: UriError) | Base64Failure(dom: DomError)

  datatype ShareError = Codec(codec: CodecError) | TooLarge

  /** What the share dialog ends up showing. */
  datatype ShareOutcome =
    | NothingToShare
    | Link(url: JsString)
    | CouldNotCreate(reason: ShareError)
    | FilterThrew

  /** `btoa(encodeURIComponent(text))` */
  function EncodeForShare(text: JsString): (r: Result<JsString, CodecError>)
    ensures r.Ok? <==> WellFormed(text)
    ensures r.Ok? ==> forall i | 0 <= i < |r.value| :: IsAlphabet(r.value[i]) || r.value[i] == Pad
  {
    match EncodeURIComponent(text)
    case Err(e) => Err(UriFailure(e))
    case Ok(escaped) =>
      assert IsByteString(escaped);
      match Btoa(escaped)
      case Err(e) => Err(Base64Failure(e))
      case Ok(token) => Ok(token)
  }

  /** `decodeURIComponent(atob(token))` */
  function DecodeToken(token: JsString): Result<JsString, CodecError>
  {
    match Atob(token)
    case Err(e) => Err(Base64Failure(e))
    case Ok(bytes) =>
      match DecodeURIComponent(bytes)
      case Err(e) => Err(UriFailure(e))
      case Ok(text) => Ok(text)
  }

  /** A token whose bytes decode is read back as their decoding. */
  lemma DecodeTokenOf(token: JsString, escaped: JsString, text: JsString)
    requires Atob(token) == Ok(escaped)
    requires DecodeURIComponent(escaped) == Ok(text)
    ensures DecodeToken(token) == Ok(text)
  {
  }

  /** The token of a well-formed string is the Base64 of its escapes. */
  lemma EncodeForShareOf(text: JsString, escaped: JsString)
    requires EncodeURIComponent(text) == Ok(escaped)
    ensures IsByteString(escaped)
    ensures EncodeForShare(text) == Ok(Btoa(escaped).value)
  {
  }

  /** The codec inverts itself on every well-formed string. */
  lemma CodecRoundTrip(text: JsString)
    requires WellFormed(text)
    ensures EncodeForShare(text).Ok?
    ensures DecodeToken(EncodeForShare(text).value) == Ok(text)
  {
    var escaped := EncodeURIComponent(text).value;
    EncodeForShareOf(text, escaped);
    AtobBtoa(escaped);
    UriRoundTrip(text);
    DecodeTokenOf(Btoa(escaped).value, escaped, text);
  }

  /**
   * `handleShareClick`: the chat without system messages, the emptiness
   * test, the token and the link `base?share=token` (`base` is origin plus
   * path), refused when longer than 4000 units.
   */
  function ShareClick(s: SessionState, base: JsString): (r: ShareOutcome)
    ensures r.Link? ==> |r.url| <= MaxUrlLength
    ensures r.CouldNotCreate? ==> r.reason == TooLarge
  {
    match ChatForShare(s.chat)
    case None => FilterThrew
    case Some(chat) =>
      if IsEmptySnapshot(s, chat) then NothingToShare
      else
        match EncodeForShare(Stringify(Snapshot(s, chat)))
        case Err(e) => CouldNotCreate(Codec(e))
        case Ok(token) =>
          var url := base + ShareQuery + token;
          if |url| > MaxUrlLength then CouldNotCreate(TooLarge) else Link(url)
  }

  /**
   * Nothing is shared exactly when the code is the empty string, both
   * results are falsy and every message is a system message; code of white
   * space alone is shared.
   */
  lemma NothingToShareIff(s: SessionState, base: JsString)
    ensures ShareClick(s, base) == NothingToShare <==>
            (forall i | 0 <= i < |s.chat| :: !s.chat[i].JNull?)
            && s.code == [] && !Truthy(s.explanation) && !Truthy(s.bugReport)
            && (forall i | 0 <= i < |s.chat| :: IsSystemRole(s.chat[i]))
  {
  }

  /** A share attempt either succeeds, finds nothing, meets a `null` message, or makes a link that is too long. */
  lemma ShareOutcomes(s: SessionState, base: JsString)
    ensures ChatForShare(s.chat).None? ==> ShareClick(s, base) == FilterThrew
    ensures ChatForShare(s.chat).Some? && !IsEmptySnapshot(s, ChatForShare(s.chat).value) ==>
              var token := EncodeForShare(Stringify(Snapshot(s, ChatForShare(s.chat).value))).value;
              var url := base + ShareQuery + token;
              ShareClick(s, base) == (if |url| > MaxUrlLength then CouldNotCreate(TooLarge) else Link(url))
              && DecodeToken(token) == Ok(Stringify(Snapshot(s, ChatForShare(s.chat).value)))
  {
    if ChatForShare(s.chat).Some? {
      CodecRoundTrip(Stringify(Snapshot(s, ChatForShare(s.chat).value)));
    }
  }

  /** JavaScript's `s.split(sep)` for a one-unit separator. */
  function SplitOn(s: JsString, sep: CodeUnit): (r: seq<JsString>)
    ensures |r| >= 1
    ensures sep !in s ==> r == [s]
    decreases |s|
  {
    if s == [] then [[]]
    else
      var rest := SplitOn(s[1..], sep);
      if s[0] == sep then [[]] + rest
      else
        assert sep !in s ==> rest == [s[1..]] && [s[0]] + s[1..] == s;
        [[s[0]] + rest[0]] + rest[1..]
  }

  /** The index of the first `u` in `s`. */
  function IndexOf(s: JsString, u: CodeUnit): (r: Option<nat>)
    ensures r.None? <==> u !in s
    ensures r.Some? ==> r.value < |s| && s[r.value] == u && u !in s[..r.value]
    decreases |s|
  {
    if s == [] then None
    else if s[0] == u then Some(0)
    else
      match IndexOf(s[1..], u)
      case None => None
      case Some(k) =>
        assert s[..k + 1] == [s[0]] + s[1..][..k];
        Some(k + 1)
  }

  /** `+` read as a space, as application/x-www-form-urlencoded parsing does. */
  function PlusToSpace(s: JsString): (r: JsString)
    ensures |r| == |s|
    ensures r == s <==> Plus !in s
  {
    var r := seq(|s|, i requires 0 <= i < |s| => if s[i] == Plus then Space else s[i]);
    assert Plus in s ==> r != s by {
      if Plus in s {
        var i :| 0 <= i < |s| && s[i] == Plus;
        assert r[i] == Space;
      }
    }
    r
  }

  /**
   * The first value named `name` among `&`-separated sequences: empty ones are
   * skipped, the name ends at the first `=`, and `+` reads as a space.
   */
  function FormValue(sequences: seq<JsString>, name: JsString): Option<JsString>
    decreases |sequences|
  {
    if sequences == [] then None
    else
      var p := sequences[0];
      if p == [] then FormValue(sequences[1..], name)
      else
        var k := IndexOf(p, EqualsUnit);
        var n := if k.Some? then p[..k.value] else p;
        var v := if k.Some? then p[k.value + 1..] else [];
        if PlusToSpace(n) == name then Some(PlusToSpace(v)) else FormValue(sequences[1..], name)
  }

  /** `new URLSearchParams(search).get(name)` for a query without percent-escapes. */
  function SearchParamsGet(search: JsString, name: JsString): Option<JsString>
  {
    var query := if |search| > 0 && search[0] == Question then search[1..] else search;
    FormValue(SplitOn(query, AmpersandUnit), name)
  }

  /**
   * A token read back from its link comes back with every `+` turned into a
   * space, so it comes back unchanged exactly when it holds no `+`.
   */
  lemma LinkReadBack(token: JsString)
    requires forall i | 0 <= i < |token| :: IsAlphabet(token[i]) || token[i] == Pad
    ensures SearchParamsGet(ShareQuery + token, ShareName) == Some(PlusToSpace(token))
    ensures SearchParamsGet(ShareQuery + token, ShareName) == Some(token) <==> Plus !in token
  {
    var search := ShareQuery + token;
    var query := search[1..];
    assert search[0] == Question;
    var pair := ShareName + [EqualsUnit] + token;
    assert query == pair;
    assert AmpersandUnit !in pair;
    assert IndexOf(pair, EqualsUnit) == Some(|ShareName|) by {
      assert pair[..|ShareName|] == ShareName;
      assert EqualsUnit !in ShareName;
      assert pair[|ShareName|] == EqualsUnit;
    }
    assert pair[..|ShareName|] == ShareName;
    assert pair[|ShareName| + 1..] == token;
    assert PlusToSpace(ShareName) == ShareName;
  }

  /**
   * Since `encodeURIComponent` escapes `>`, a token holds a `+` exactly when
   * a `~` of the escaped text sits at an offset of 2 modulo 3.
   */
  lemma TokenPlusIff(text: JsString)
    requires WellFormed(text)
    ensures var escaped := EncodeURIComponent(text).value;
            Plus in EncodeForShare(text).value <==>
            exists i | 0 <= i < |escaped| :: i % 3 == 2 && escaped[i] == Tilde
  {
    var escaped := EncodeURIComponent(text).value;
    forall i | 0 <= i < |escaped|
      ensures escaped[i] < 0x80 && escaped[i] != 62
    {
      assert IsUnescaped(escaped[i]) || escaped[i] == Percent;
    }
    PlusInEncoding(escaped);
    assert EncodeForShare(text).value == Encode(escaped);
    if exists i | 0 <= i < |escaped| :: i % 3 == 2 && (escaped[i] == 62 || escaped[i] == 126) {
      var i :| 0 <= i < |escaped| && i % 3 == 2 && (escaped[i] == 62 || escaped[i] == 126);
      assert escaped[i] == Tilde;
    }
  }

  /** `aa~` gives the token `YWF+`. */
  lemma TildeToken()
    ensures EncodeForShare([0x61, 0x61, Tilde]) == Ok([0x59, 0x57, 0x46, Plus])
  {
    var text: JsString := [0x61, 0x61, Tilde];
    UnescapedEncodesToItself(text);
    TildeGivesPlus();
  }

  /** Read back from its link, the token `YWF+` becomes `YWF `. */
  lemma TildeTokenReadBack()
    ensures SearchParamsGet(ShareQuery + [0x59, 0x57, 0x46, Plus], ShareName) == Some([0x59, 0x57, 0x46, Space])
  {
    var token: JsString := [0x59, 0x57, 0x46, Plus];
    assert IsAlphabet(token[0]) && IsAlphabet(token[1]) && IsAlphabet(token[2]) && IsAlphabet(token[3]);
    LinkReadBack(token);
    var read := PlusToSpace(token);
    assert read[0] == 0x59 && read[1] == 0x57 && read[2] == 0x46 && read[3] == Space;
    assert read == [0x59, 0x57, 0x46, Space];
  }

  /** `atob` drops the space of `YWF `, leaving the bytes of `aa`. */
  lemma SpacedTokenDecodes()
    ensures DecodeToken([0x59, 0x57, 0x46, Space]) == Ok([0x61, 0x61])
  {
    var read: JsString := [0x59, 0x57, 0x46, Space];
    var r1: JsString, r2: JsString, r3: JsString := [0x57, 0x46, Space], [0x46, Space], [Space];
    assert read[1..] == r1 && r1[1..] == r2 && r2[1..] == r3 && r3[1..] == [];
    assert RemoveAsciiWhitespace(r3) == [];
    assert RemoveAsciiWhitespace(r2) == [0x46];
    assert RemoveAsciiWhitespace(r1) == [0x57, 0x46];
    var t: JsString := [0x59, 0x57, 0x46];
    assert RemoveAsciiWhitespace(read) == t;
    assert StripPadding(t) == t;
    var bytes: JsString := [0x61, 0x61];
    assert DecodeDigits(t) == bytes;
    assert Atob(read) == Ok(bytes);
    NoPercentDecodesToItself(bytes);
  }

  /** A shared `aa~` comes back as `aa`. */
  lemma TildeIsLost()
    ensures EncodeForShare([0x61, 0x61, Tilde]).Ok?
    ensures var token := EncodeForShare([0x61, 0x61, Tilde]).value;
            && SearchParamsGet(ShareQuery + token, ShareName).Some?
            && DecodeToken(SearchParamsGet(ShareQuery + token, ShareName).value) == Ok([0x61, 0x61])
  {
    TildeToken();
    TildeTokenReadBack();
    SpacedTokenDecodes();
  }

  /** A class token `classList.add` accepts: not empty, no ASCII white space. */
  predicate IsClassToken(t: JsString)
  {
    t != [] && forall i | 0 <= i < |t| :: !IsAsciiWhitespace(t[i])
  }

  /**
   * `appendMessage(msg.role, msg.content)` goes through: `msg` is an object,
   * its role (or `undefined`) converts to a class token, its content is a
   * string `marked.parse` accepts.
   */
  predicate Renders(m: JValue)
  {
    && m.JObject?
    && (var role := Property(m, RoleKey);
        role.None? || (ToDomString(role.value).Some? && IsClassToken(ToDomString(role.value).value)))
    && Property(m, ContentKey).Some? && Property(m, ContentKey).value.JString?
  }

  lemma MessageRenders(role: JsString, content: JsString)
    requires IsClassToken(role)
    ensures Renders(Message(role, content))
  {
  }

  /** `autoDetectLanguage()` on the restored code. */
  function Redetect(s: SessionState, detected: Option<JsString>): SessionState
  {
    s.(languageLabel := DetectedLabel(s.code, detected))
  }

  /** `data.chat` when it is a non-empty array. */
  function SharedChat(data: JValue): Option<seq<JValue>>
  {
    var c := Property(data, ChatKey);
    if c.Some? && c.value.JArray? && |c.value.items| > 0 then Some(c.value.items) else None
  }

  /** Every message of the shared chat renders; true when no chat is restored. */
  predicate ChatRenders(data: JValue)
  {
    SharedChat(data).Some? ==> forall i | 0 <= i < |SharedChat(data).value| :: Renders(SharedChat(data).value[i])
  }

  /** `if (data[key])`: the restore stores the value under `key`. */
  predicate Stores(data: JValue, key: JsString)
  {
    Property(data, key).Some? && Truthy(Property(data, key).value)
  }

  /** The stored value is not a string, so `marked.parse` throws on it and the restore ends. */
  predicate Halts(data: JValue, key: JsString)
  {
    Stores(data, key) && !Property(data, key).value.JString?
  }

  /** `data.code || ''` as the textarea's setter converts it; None when the conversion throws. */
  function CodeText(data: JValue): Option<JsString>
  {
    if Stores(data, CodeKey) then ToDomString(Property(data, CodeKey).value) else Some([])
  }

  /** The value passes the format check and its code is assigned. */
  predicate Passes(data: JValue)
  {
    IsObjectLike(data) && CodeText(data).Some?
  }

  /**
   * The chat step: a non-empty array replaces the history behind the system
   * message; rendering it stops at the first message that cannot be shown,
   * and then the language is not detected again.
   */
  function ApplyChat(s: SessionState, data: JValue, detected: Option<JsString>): (r: SessionState)
    ensures r.(chat := s.chat, languageLabel := s.languageLabel) == s
    ensures r.chat == (if SharedChat(data).Some? then [SystemMessage] + SharedChat(data).value else s.chat)
    ensures r.languageLabel == (if ChatRenders(data) then DetectedLabel(s.code, detected) else s.languageLabel)
  {
    if SharedChat(data).Some? then
      var items := SharedChat(data).value;
      var restored := s.(chat := [SystemMessage] + items);
      if forall i | 0 <= i < |items| :: Renders(items[i]) then Redetect(restored, detected) else restored
    else
      Redetect(s, detected)
  }

  /**
   * The bug-report step: a truthy value is stored, then rendered; a
   * non-string throws there and ends the restore before the chat step.
   */
  function ApplyBugs(s: SessionState, data: JValue, detected: Option<JsString>): SessionState
  {
    var b := Property(data, BugsKey);
    if b.Some? && Truthy(b.value) then
      var stored := s.(bugReport := b.value);
      if b.value.JString? then ApplyChat(stored.(bugReportView := Rendered), data, detected) else stored
    else
      ApplyChat(s, data, detected)
  }

  /** Every field after the bug-report step. */
  lemma ApplyBugsFields(s: SessionState, data: JValue, detected: Option<JsString>)
    ensures var r := ApplyBugs(s, data, detected);
            && (r.code == s.code && r.explanation == s.explanation && r.explanationView == s.explanationView)
            && (r.bugReport == (if Stores(data, BugsKey) then Property(data, BugsKey).value else s.bugReport))
            && (r.bugReportView == (if Stores(data, BugsKey) && !Halts(data, BugsKey) then Rendered else s.bugReportView))
            && (r.chat == (if !Halts(data, BugsKey) && SharedChat(data).Some? then [SystemMessage] + SharedChat(data).value
                           else s.chat))
            && (r.languageLabel == (if !Halts(data, BugsKey) && ChatRenders(data) then DetectedLabel(s.code, detected)
                                    else s.languageLabel))
  {
  }

  /**
   * The explanation step: a truthy value is stored, then rendered; a
   * non-string throws there and ends the restore before the bug report.
   */
  function ApplyExplanation(s: SessionState, data: JValue, detected: Option<JsString>): SessionState
  {
    var e := Property(data, ExplanationKey);
    if e.Some? && Truthy(e.value) then
      var stored := s.(explanation := e.value);
      if e.value.JString? then ApplyBugs(stored.(explanationView := Rendered), data, detected) else stored
    else
      ApplyBugs(s, data, detected)
  }

  /** Every field after the explanation step. */
  lemma ApplyExplanationFields(s: SessionState, data: JValue, detected: Option<JsString>)
    ensures var r := ApplyExplanation(s, data, detected);
            && (r.code == s.code)
            && (r.explanation == (if Stores(data, ExplanationKey) then Property(data, ExplanationKey).value else s.explanation))
            && (r.explanationView == (if Stores(data, ExplanationKey) && !Halts(data, ExplanationKey) then Rendered
                                      else s.explanationView))
            && (r.bugReport == (if !Halts(data, ExplanationKey) && Stores(data, BugsKey) then Property(data, BugsKey).value
                                else s.bugReport))
            && (r.bugReportView == (if !Halts(data, ExplanationKey) && Stores(data, BugsKey) && !Halts(data, BugsKey)
                                    then Rendered else s.bugReportView))
            && (r.chat == (if !Halts(data, ExplanationKey) && !Halts(data, BugsKey) && SharedChat(data).Some?
                           then [SystemMessage] + SharedChat(data).value else s.chat))
            && (r.languageLabel == (if !Halts(data, ExplanationKey) && !Halts(data, BugsKey) && ChatRenders(data)
                                    then DetectedLabel(s.code, detected) else s.languageLabel))
  {
    var e := Property(data, ExplanationKey);
    if e.Some? && Truthy(e.value) {
      if e.value.JString? {
        ApplyBugsFields(s.(explanation := e.value).(explanationView := Rendered), data, detected);
      }
    } else {
      ApplyBugsFields(s, data, detected);
    }
  }

  /**
   * Applying a parsed snapshot, as `loadFromShare` does after `JSON.parse`.
   * Anything but an object or array is refused before a write, and so is a
   * code value whose string conversion throws. Otherwise, in order and
   * stopping at the first exception: `code := data.code || ''`, the
   * explanation and the bug report when truthy (each rendered when a
   * string), the chat when a non-empty array, and language detection once
   * every message rendered.
   */
  function ApplySnapshot(s: SessionState, data: JValue, detected: Option<JsString>): SessionState
  {
    if !IsObjectLike(data) then s
    else
      var c := Property(data, CodeKey);
      var text := if c.Some? && Truthy(c.value) then ToDomString(c.value) else Some([]);
      if text.None? then s
      else
        ApplyExplanation(s.(code := text.value), data, detected)
  }

  /** Every field after a snapshot is applied. */
  lemma ApplySnapshotFields(s: SessionState, data: JValue, detected: Option<JsString>)
    ensures var r := ApplySnapshot(s, data, detected);
            && (!Passes(data) ==> r == s)
            && (Passes(data) ==> r.code == CodeText(data).value)
            && (Passes(data) ==>
                  && r.explanation == (if Stores(data, ExplanationKey) then Property(data, ExplanationKey).value
                                       else s.explanation)
                  && r.explanationView == (if Stores(data, ExplanationKey) && !Halts(data, ExplanationKey) then Rendered
                                           else s.explanationView))
            && (Passes(data) ==>
                  && r.bugReport == (if !Halts(data, ExplanationKey) && Stores(data, BugsKey)
                                     then Property(data, BugsKey).value else s.bugReport)
                  && r.bugReportView == (if !Halts(data, ExplanationKey) && Stores(data, BugsKey) && !Halts(data, BugsKey)
                                         then Rendered else s.bugReportView))
            && (Passes(data) ==>
                  r.chat == (if !Halts(data, ExplanationKey) && !Halts(data, BugsKey) && SharedChat(data).Some?
                             then [SystemMessage] + SharedChat(data).value else s.chat))
            && (Passes(data) ==>
                  r.languageLabel == (if !Halts(data, ExplanationKey) && !Halts(data, BugsKey) && ChatRenders(data)
                                      then DetectedLabel(r.code, detected) else s.languageLabel))
  {
    if Passes(data) {
      ApplyExplanationFields(s.(code := CodeText(data).value), data, detected);
    }
  }

  /**
   * `loadFromShare` on the page's query string: without a `share` value
   * nothing happens; a token that fails to decode or to parse changes
   * nothing; a parsed value is applied. `parse` stands for `JSON.parse`
   * (None when it throws).
   */
  function LoadShared(s: SessionState, search: JsString, parse: JsString -> Option<JValue>,
                      detected: Option<JsString>): (r: SessionState)
    ensures var p := SearchParamsGet(search, ShareName);
            p.None? || p.value == [] || DecodeToken(p.value).Err? || parse(DecodeToken(p.value).value).None? ==> r == s
    ensures var p := SearchParamsGet(search, ShareName);
            p.Some? && p.value != [] && DecodeToken(p.value).Ok? && parse(DecodeToken(p.value).value).Some? ==>
              r == ApplySnapshot(s, parse(DecodeToken(p.value).value).value, detected)
    ensures r.chat == s.chat || (|r.chat| > 1 && r.chat[0] == SystemMessage)
  {
    var param := SearchParamsGet(search, ShareName);
    if param.None? || param.value == [] then s
    else
      match DecodeToken(param.value)
      case Err(_) => s
      case Ok(text) =>
        match parse(text)
        case None => s
        case Some(data) =>
          ApplySnapshotFields(s, data, detected);
          ApplySnapshot(s, data, detected)
  }

  /** A restore keeps the system message first. */
  lemma LoadKeepsSystemFirst(s: SessionState, search: JsString, parse: JsString -> Option<JValue>,
                             detected: Option<JsString>)
    requires |s.chat| > 0 && s.chat[0] == SystemMessage
    ensures var r := LoadShared(s, search, parse, detected); |r.chat| > 0 && r.chat[0] == SystemMessage
  {
  }

  /** Primitives and `null` are refused before any write. */
  lemma PrimitiveRejected(s: SessionState, data: JValue, detected: Option<JsString>)
    requires !data.JArray? && !data.JObject?
    ensures ApplySnapshot(s, data, detected) == s
  {
  }

  /** An array passes the only check: the code is cleared and the language label reset. */
  lemma ArrayAccepted(s: SessionState, items: seq<JValue>, detected: Option<JsString>)
    ensures ApplySnapshot(s, JArray(items), detected)
            == s.(code := [], languageLabel := AutoDetectLabel)
  {
    ApplySnapshotFields(s, JArray(items), detected);
  }

  /**
   * A truthy explanation that is not a string is stored, and rendering it
   * throws: the code and explanation are written, nothing after them.
   */
  lemma PartialRestore(s: SessionState, code: JsString, explanation: JValue, rest: seq<Field>,
                       detected: Option<JsString>)
    requires Truthy(explanation) && !explanation.JString?
    ensures var data := JObject([Field(CodeKey, JString(code)), Field(ExplanationKey, explanation)] + rest);
            ApplySnapshot(s, data, detected) == s.(code := code, explanation := explanation)
  {
    var data := JObject([Field(CodeKey, JString(code)), Field(ExplanationKey, explanation)] + rest);
    assert CodeKey != ExplanationKey by { assert |CodeKey| == 4 && |ExplanationKey| == 11; }
    assert Lookup(data.fields[1..], ExplanationKey) == Some(explanation);
    assert Property(data, ExplanationKey) == Some(explanation);
    ApplySnapshotFields(s, data, detected);
  }

  /** A restored snapshot of the page's own making. */
  lemma ApplyOwnSnapshot(s: SessionState, t: SessionState, chat: seq<JValue>, detected: Option<JsString>)
    requires !Truthy(s.explanation) || s.explanation.JString?
    requires !Truthy(s.bugReport) || s.bugReport.JString?
    requires forall i | 0 <= i < |chat| :: Renders(chat[i])
    ensures var r := ApplySnapshot(t, Snapshot(s, chat), detected);
            && r.code == s.code
            && r.explanation == (if Truthy(s.explanation) then s.explanation else t.explanation)
            && r.explanationView == (if Truthy(s.explanation) then Rendered else t.explanationView)
            && r.bugReport == (if Truthy(s.bugReport) then s.bugReport else t.bugReport)
            && r.bugReportView == (if Truthy(s.bugReport) then Rendered else t.bugReportView)
            && r.chat == (if chat == [] then t.chat else [SystemMessage] + chat)
            && r.languageLabel == DetectedLabel(s.code, detected)
  {
    var data := Snapshot(s, chat);
    SnapshotProperties(s, chat);
    ApplySnapshotFields(t, data, detected);
    assert CodeText(data) == Some(s.code);
    assert !Halts(data, ExplanationKey) && !Halts(data, BugsKey);
    assert SharedChat(data) == if chat == [] then None else Some(chat);
    assert ChatRenders(data);
  }

  /** Loading a link reaches the snapshot when its token holds no `+` and parses back. */
  lemma LoadOfToken(t: SessionState, data: JValue, token: JsString,
                    parse: JsString -> Option<JValue>, detected: Option<JsString>)
    requires data.JObject?
    requires EncodeForShare(Stringify(data)) == Ok(token)
    requires Plus !in token
    requires parse(Stringify(data)) == Some(data)
    ensures LoadShared(t, ShareQuery + token, parse, detected) == ApplySnapshot(t, data, detected)
  {
    var text := Stringify(data);
    assert |text| >= 2;
    var escaped := EncodeURIComponent(text).value;
    assert IsByteString(escaped);
    assert Btoa(escaped) == Ok(token);
    assert token != [];
    CodecRoundTrip(text);
    assert DecodeToken(token) == Ok(text);
    LinkReadBack(token);
    assert SearchParamsGet(ShareQuery + token, ShareName) == Some(token);
  }

  /**
   * The link round trip: when the share button made a link whose token holds
   * no `+`, `JSON.parse` reads its own snapshot back, the results are
   * strings or falsy and every shared message renders, loading the link on a
   * page in any state restores the code, every truthy result, the chat
   * behind the system message when there was one, and detects the language.
   */
  lemma ShareRoundTrip(s: SessionState, t: SessionState, base: JsString, token: JsString,
                       parse: JsString -> Option<JValue>, detected: Option<JsString>)
    requires ShareClick(s, base) == Link(base + ShareQuery + token)
    requires Plus !in token
    requires ChatForShare(s.chat).Some?
    requires var data := Snapshot(s, ChatForShare(s.chat).value); parse(Stringify(data)) == Some(data)
    requires !Truthy(s.explanation) || s.explanation.JString?
    requires !Truthy(s.bugReport) || s.bugReport.JString?
    requires forall m | m in ChatForShare(s.chat).value :: Renders(m)
    ensures var r := LoadShared(t, ShareQuery + token, parse, detected);
            var chat := ChatForShare(s.chat).value;
            && r.code == s.code
            && r.explanation == (if Truthy(s.explanation) then s.explanation else t.explanation)
            && r.explanationView == (if Truthy(s.explanation) then Rendered else t.explanationView)
            && r.bugReport == (if Truthy(s.bugReport) then s.bugReport else t.bugReport)
            && r.bugReportView == (if Truthy(s.bugReport) then Rendered else t.bugReportView)
            && r.chat == (if chat == [] then t.chat else [SystemMessage] + chat)
            && r.languageLabel == DetectedLabel(s.code, detected)
  {
    var chat := ChatForShare(s.chat).value;
    var data := Snapshot(s, chat);
    ShareOutcomes(s, base);
    var encoded := EncodeForShare(Stringify(data)).value;
    assert token == encoded by {
      assert (base + ShareQuery + token)[|base| + |ShareQuery|..] == token;
      assert (base + ShareQuery + encoded)[|base| + |ShareQuery|..] == encoded;
    }
    LoadOfToken(t, data, token, parse, detected);
    forall i | 0 <= i < |chat|
      ensures Renders(chat[i])
    {
      assert chat[i] in chat;
    }
    ApplyOwnSnapshot(s, t, chat, detected);
  }
}
