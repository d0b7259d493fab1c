/**
 * The conversation data the session keeps: chat messages as the JSON
 * objects `{ role, content }` that are sent to the completion API, the fixed
 * system prompt, the code-context block a chat turn carries, and the label of
 * the language display.
 */
module Conversation {
  import opened Wrappers
  import opened JsStrings
  import opened Json

  /** `PROMPTS.AI_ASSISTANT_SYSTEM_PROMPT` */
  const SystemPrompt: JsString :=
    FromString("You are a helpful and knowledgeable AI assistant. You can answer questions about code, programming concepts, and general software development topics. You are concise and provide code examples where appropriate. Your responses should be in Markdown format.")

  const RoleKey: JsString := FromString("role")
  const ContentKey: JsString := FromString("content")
  const SystemRole: JsString := FromString("system")
  const UserRole: JsString := FromString("user")
  const AssistantRole: JsString := FromString("assistant")

  /** `{ role: role, content: content }` */
  function Message(role: JsString, content: JsString): (m: JValue)
    ensures Property(m, RoleKey) == Some(JString(role))
    ensures Property(m, ContentKey) == Some(JString(content))
  {
    var fields := [Field(RoleKey, JString(role)), Field(ContentKey, JString(content))];
    assert RoleKey != ContentKey by { assert |RoleKey| == 4 && |ContentKey| == 7; }
    assert fields[1..] == [fields[1]];
    assert Lookup(fields[1..], ContentKey) == Some(JString(content));
    JObject(fields)
  }

  /** The message every chat history starts with. */
  const SystemMessage: JValue := Message(SystemRole, SystemPrompt)

  /** `msg.role === 'system'` for a message that is not `null`. */
  predicate IsSystemRole(m: JValue)
  {
    Property(m, RoleKey) == Some(JString(SystemRole))
  }

  /** The display label before any detection ran, and after short input. */
  const AutoDetectLabel: JsString := FromString("Auto-Detect")
  const UnknownLabel: JsString := FromString("unknown")

  /**
   * `autoDetectLanguage`: under 20 units of code the label reads
   * `Auto-Detect`; otherwise it is the detected language, or `unknown` when
   * detection names none.
   */
  function DetectedLabel(code: JsString, detected: Option<JsString>): (shown: JsString)
    ensures |code| < 20 ==> shown == AutoDetectLabel
    ensures |code| >= 20 && detected.Some? && detected.value != [] ==> shown == detected.value
    ensures |code| >= 20 && (detected.None? || detected.value == []) ==> shown == UnknownLabel
  {
    if |code| < 20 then AutoDetectLabel else Or(detected, UnknownLabel)
  }

  const ContextOpening: JsString := FromString("\n\n(Code context: \n```")
  const ContextClosing: JsString := FromString("\n```)\n")
  const LineBreak: JsString := [0x0A]

  /** The code-context block appended to a chat turn: the code fenced and tagged with the label. */
  function ContextBlock(language: JsString, code: JsString): (r: JsString)
    ensures OccursAt(r, language, |ContextOpening|)
    ensures OccursAt(r, code, |ContextOpening| + |language| + 1)
    ensures |r| > 0
  {
    var o := ContextOpening;
    var r := o + language + LineBreak + code + ContextClosing;
    SliceOfConcat(o, language, LineBreak + code + ContextClosing);
    assert r == o + language + (LineBreak + code + ContextClosing);
    SliceOfConcat(o + language + LineBreak, code, ContextClosing);
    r
  }

  lemma SliceOfConcat(a: JsString, b: JsString, c: JsString)
    ensures OccursAt(a + b + c, b, |a|)
  {
    assert (a + b + c)[|a|..|a| + |b|] == b;
  }

  /**
   * The content of the user message a chat turn pushes: the message itself,
   * followed by the code-context block exactly when the trimmed code is not
   * empty.
   */
  function ChatUserContent(userMessage: JsString, currentCode: JsString, language: JsString): (r: JsString)
    ensures (r == userMessage) <==> currentCode == []
    ensures |r| >= |userMessage| && r[..|userMessage|] == userMessage
    ensures currentCode != [] ==> r[|userMessage|..] == ContextBlock(language, currentCode)
  {
    if currentCode != [] then userMessage + ContextBlock(language, currentCode) else userMessage
  }

  /** What the completion endpoint is sent: `{ model, messages, temperature }`. */
  datatype Request = Request(model: JsString, messages: seq<JValue>, temperature: real)

  const ModelName: JsString := FromString("gpt-3.5-turbo")
  const OneShotTemperature: real := 0.2
  const ChatTemperature: real := 0.7

  /**
   * What a result panel shows: an element of class `placeholder` (the page's
   * initial notice, the "enter some code" note, the loader or an error
   * notice), or a rendered result, which has none.
   */
  datatype PanelView = Placeholder | Rendered

  /**
   * The state the session keeps: the code buffer, the language label, the
   * last explanation and bug report (a restored share can leave any JSON
   * value there), the chat history, and what each result panel shows.
   */
  datatype SessionState = SessionState(
    code: JsString,
    languageLabel: JsString,
    explanation: JValue,
    bugReport: JValue,
    chat: seq<JValue>,
    explanationView: PanelView,
    bugReportView: PanelView)
}
