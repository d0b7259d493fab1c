/**
 * The page session: the code buffer, the language display, the last
 * explanation and bug report, the chat history and the chat input, and the
 * `disabled` flags of the three buttons that call the completion API.
 *
 * `callAI` is asynchronous: its synchronous part builds the request and
 * disables the button, and the rest runs when the response arrives. Each call
 * is therefore two steps, a `Begin…` method that returns the request and a
 * `Complete…` method that takes the reply; ghost counters record the
 * requests in flight. `OneShot` and `ChatTurn` compose the two steps of a
 * call that no other event interleaves.
 */
module Session {
  import opened Wrappers
  import opened JsStrings
  import opened Json
  import opened Conversation
  import opened PromptTemplates
  import opened ShareCodec

  /** The two one-shot panels. */
  datatype Panel = ExplanationPanel | BugReportPanel

  /** How a chat turn is started: the send button or Enter without Shift in the chat input. */
  datatype ChatTrigger = SendButton | EnterKey

  /**
   * What the completion API gave back: a failure (a network error, a status
   * that is not ok, a malformed body) or the content of the first choice.
   */
  datatype Reply = Failed | Answered(content: JsString)

  /** The content `callAI` accepts: `if (!content) throw …` rejects the empty string. */
  predicate Accepted(reply: Reply)
  {
    reply.Answered? && reply.content != []
  }

  /** The request a one-shot button sends for the trimmed code. */
  function OneShotRequest(template: Template, detected: Option<JsString>, code: JsString): (r: Request)
  {
    Request(ModelName, [Message(UserRole, Prompt(template.Text(), PromptLanguage(detected), code))],
            OneShotTemperature)
  }

  /**
   * A one-shot request is a single user message at temperature 0.2 whose
   * content, for fixed template text, a language free of `{` and `$` and code
   * free of `$`, is the template with the language and the code in place.
   */
  lemma OneShotRequestShape(t: Template, detected: Option<JsString>, code: JsString)
    requires Plain(t.intro) && Plain(t.rubric)
    requires Plain(PromptLanguage(detected)) && Dollar !in code
    ensures var r := OneShotRequest(t, detected, code);
            && r.model == ModelName && r.temperature == 0.2 && |r.messages| == 1
            && Property(r.messages[0], RoleKey) == Some(JString(UserRole))
            && Property(r.messages[0], ContentKey)
               == Some(JString(t.Fill(PromptLanguage(detected), code)))
  {
    PromptShape(t, PromptLanguage(detected), code);
  }

  /** The user message a chat turn pushes. */
  function ChatUserMessage(input: JsString, code: JsString, shown: JsString): JValue
  {
    Message(UserRole, ChatUserContent(Trim(input), Trim(code), shown))
  }

  /** The content of a chat turn holds the message first and the code when there is any. */
  lemma ChatContentHolds(message: JsString, code: JsString, shown: JsString)
    ensures var content := ChatUserContent(message, code, shown);
            && content[..|message|] == message
            && (content == message <==> code == [])
            && (code != [] ==> Contains(content, code))
  {
    var content := ChatUserContent(message, code, shown);
    if code != [] {
      var block := ContextBlock(shown, code);
      var k := |ContextOpening| + |shown| + 1;
      assert OccursAt(block, code, k);
      assert content == message + block;
      assert content[|message| + k..|message| + k + |code|] == block[k..k + |code|];
      assert OccursAt(content, code, |message| + k);
    }
  }

  /**
   * The pushed user message carries the trimmed input and, after it, the
   * code-context block exactly when the trimmed code is not empty.
   */
  lemma ChatUserMessageContent(input: JsString, code: JsString, shown: JsString)
    ensures var m := ChatUserMessage(input, code, shown);
            && Property(m, RoleKey) == Some(JString(UserRole))
            && Property(m, ContentKey).Some? && Property(m, ContentKey).value.JString?
            && var content := Property(m, ContentKey).value.s;
               && content[..|Trim(input)|] == Trim(input)
               && (content == Trim(input) <==> Trim(code) == [])
               && (Trim(code) != [] ==> Contains(content, Trim(code)))
  {
    ChatContentHolds(Trim(input), Trim(code), shown);
  }

  /** The view of one panel. */
  function ViewOf(s: SessionState, panel: Panel): PanelView
  {
    match panel
    case ExplanationPanel => s.explanationView
    case BugReportPanel => s.bugReportView
  }

  /** The state with the view of `panel` replaced. */
  function WithView(s: SessionState, panel: Panel, view: PanelView): (r: SessionState)
    ensures ViewOf(r, panel) == view
  {
    match panel
    case ExplanationPanel => s.(explanationView := view)
    case BugReportPanel => s.(bugReportView := view)
  }

  /**
   * `clearAll` on a state. The code is emptied first. Each panel's content is
   * then replaced by that panel's `.placeholder` element, and a panel showing
   * a rendered result holds none: `querySelector` gives `null`, reading its
   * `outerHTML` throws, and the label, the results and the chat stay as they
   * were.
   */
  function Clear(s: SessionState): (r: SessionState)
    ensures r.code == [] && r.explanationView == s.explanationView && r.bugReportView == s.bugReportView
    ensures s.explanationView == Placeholder && s.bugReportView == Placeholder ==>
              && r.languageLabel == AutoDetectLabel
              && r.explanation == JString([]) && r.bugReport == JString([])
              && r.chat == [SystemMessage]
    ensures s.explanationView == Rendered || s.bugReportView == Rendered ==>
              && r.languageLabel == s.languageLabel
              && r.explanation == s.explanation && r.bugReport == s.bugReport
              && r.chat == s.chat
  {
    var emptied := s.(code := []);
    if s.explanationView == Rendered || s.bugReportView == Rendered then emptied
    else
      emptied.(languageLabel := AutoDetectLabel, explanation := JString([]), bugReport := JString([]),
               chat := [SystemMessage])
  }

  /** Clearing twice is clearing once. */
  lemma ClearIdempotent(s: SessionState)
    ensures Clear(Clear(s)) == Clear(s)
  {
  }

  /** A clear that completes leaves nothing to share. */
  lemma ClearLeavesNothingToShare(s: SessionState, base: JsString)
    requires s.explanationView == Placeholder && s.bugReportView == Placeholder
    ensures ShareClick(Clear(s), base) == NothingToShare
  {
    var r := Clear(s);
    assert IsSystemRole(r.chat[0]);
    NothingToShareIff(r, base);
  }

  class Session {
    var code: JsString
    var languageLabel: JsString
    var lastExplanation: JValue
    var lastBugReport: JValue
    /** Whether each panel shows a placeholder element or a rendered result. */
    var explanationView: PanelView
    var bugReportView: PanelView
    var chatHistory: seq<JValue>
    var chatInput: JsString
    var explainDisabled: bool
    var bugDetectDisabled: bool
    var sendChatDisabled: bool
    /** Requests sent and not yet answered, per button. */
    ghost var explainPending: nat
    ghost var bugDetectPending: nat
    ghost var chatPending: nat
    /**
     * The templates the two buttons pass to `callAI`; the page's are
     * `PROMPTS.EXPLAIN` and `PROMPTS.DETECT_BUGS` (Explain and DetectBugs).
     */
    const explainTemplate: Template
    const bugDetectTemplate: Template

    /**
     * The history starts with the system message; a one-shot button is
     * disabled exactly while its request is in flight, and there is at most
     * one; the send button is disabled only while a chat request is in
     * flight (Enter starts a turn even while it is disabled, and the first
     * reply re-enables it).
     */
    ghost predicate Valid()
      reads this
    {
      && |chatHistory| > 0 && chatHistory[0] == SystemMessage
      && (explainDisabled <==> explainPending > 0) && explainPending <= 1
      && (bugDetectDisabled <==> bugDetectPending > 0) && bugDetectPending <= 1
      && (sendChatDisabled ==> chatPending > 0)
    }

    function State(): SessionState
      reads this
    {
      SessionState(code, languageLabel, lastExplanation, lastBugReport, chatHistory, explanationView, bugReportView)
    }

    predicate Disabled(panel: Panel)
      reads this
    {
      match panel
      case ExplanationPanel => explainDisabled
      case BugReportPanel => bugDetectDisabled
    }

    ghost function Pending(panel: Panel): nat
      reads this
    {
      match panel
      case ExplanationPanel => explainPending
      case BugReportPanel => bugDetectPending
    }

    function TemplateOf(panel: Panel): Template
    {
      match panel
      case ExplanationPanel => explainTemplate
      case BugReportPanel => bugDetectTemplate
    }

    function View(panel: Panel): PanelView
      reads this
    {
      match panel
      case ExplanationPanel => explanationView
      case BugReportPanel => bugReportView
    }

    /** The result a panel shows. */
    function Result(panel: Panel): JValue
      reads this
    {
      match panel
      case ExplanationPanel => lastExplanation
      case BugReportPanel => lastBugReport
    }

    /**
     * The page as loaded: both results empty, both panels showing their
     * placeholder and the history holding only the system message. The page
     * passes Explain and DetectBugs.
     */
    constructor(initialCode: JsString, initialLabel: JsString, explain: Template, detectBugs: Template)
      ensures Valid()
      ensures State() == SessionState(initialCode, initialLabel, JString([]), JString([]), [SystemMessage],
                                      Placeholder, Placeholder)
      ensures chatInput == [] && !explainDisabled && !bugDetectDisabled && !sendChatDisabled
      ensures explainPending == 0 && bugDetectPending == 0 && chatPending == 0
      ensures explainTemplate == explain && bugDetectTemplate == detectBugs
    {
      explainTemplate := explain;
      bugDetectTemplate := detectBugs;
      code := initialCode;
      languageLabel := initialLabel;
      lastExplanation := JString([]);
      lastBugReport := JString([]);
      explanationView := Placeholder;
      bugReportView := Placeholder;
      chatHistory := [SystemMessage];
      chatInput := [];
      explainDisabled := false;
      bugDetectDisabled := false;
      sendChatDisabled := false;
      explainPending := 0;
      bugDetectPending := 0;
      chatPending := 0;
    }

    method SetDisabled(panel: Panel, disabled: bool)
      modifies this
      ensures Disabled(panel) == disabled
      ensures panel == ExplanationPanel ==> bugDetectDisabled == old(bugDetectDisabled)
      ensures panel == BugReportPanel ==> explainDisabled == old(explainDisabled)
      ensures State() == old(State()) && chatInput == old(chatInput) && sendChatDisabled == old(sendChatDisabled)
      ensures explainPending == old(explainPending) && bugDetectPending == old(bugDetectPending)
      ensures chatPending == old(chatPending)
    {
      match panel
      case ExplanationPanel => explainDisabled := disabled;
      case BugReportPanel => bugDetectDisabled := disabled;
    }

    method SetView(panel: Panel, view: PanelView)
      modifies this
      ensures State() == WithView(old(State()), panel, view)
      ensures ControlsKept()
    {
      match panel
      case ExplanationPanel => explanationView := view;
      case BugReportPanel => bugReportView := view;
    }

    /**
     * A click on a one-shot button, up to the request. A disabled button
     * takes no click. Code that is empty once trimmed sends nothing: the
     * panel shows the "enter some code" placeholder and the button stays
     * enabled. Otherwise the request is built from the trimmed code and the
     * language detected in it, the button is disabled until the reply and the
     * panel shows the "thinking" placeholder.
     */
    method BeginOneShot(panel: Panel, detected: Option<JsString>) returns (request: Option<Request>)
      requires Valid()
      modifies this
      ensures Valid()
      ensures old(Disabled(panel)) ==> request.None? && unchanged(this)
      ensures !old(Disabled(panel)) ==> State() == WithView(old(State()), panel, Placeholder)
      ensures !old(Disabled(panel)) && Trim(old(code)) == [] ==> request.None? && ControlsKept()
      ensures !old(Disabled(panel)) && Trim(old(code)) != [] ==>
                && request == Some(OneShotRequest(TemplateOf(panel), detected, Trim(old(code))))
                && Disabled(panel) && Pending(panel) == 1
      ensures chatInput == old(chatInput) && chatPending == old(chatPending)
      ensures sendChatDisabled == old(sendChatDisabled)
      ensures panel != ExplanationPanel ==> explainDisabled == old(explainDisabled) && explainPending == old(explainPending)
      ensures panel != BugReportPanel ==> bugDetectDisabled == old(bugDetectDisabled) && bugDetectPending == old(bugDetectPending)
    {
      if Disabled(panel) {
        return None;
      }
      var trimmed := Trim(code);
      if trimmed == [] {
        SetView(panel, Placeholder);
        return None;
      }
      request := Some(OneShotRequest(TemplateOf(panel), detected, trimmed));
      SetDisabled(panel, true);
      SetView(panel, Placeholder);
      match panel
      case ExplanationPanel => explainPending := 1;
      case BugReportPanel => bugDetectPending := 1;
    }

    /**
     * The reply to a one-shot request: accepted content becomes the panel's
     * result and is rendered there (the other panel and the chat stay as they
     * are); a failure changes no result and the panel shows the error
     * placeholder. Either way the button is enabled again.
     */
    method CompleteOneShot(panel: Panel, reply: Reply)
      requires Valid() && Pending(panel) > 0
      modifies this
      ensures Valid()
      ensures Accepted(reply) ==> Result(panel) == JString(reply.content)
      ensures !Accepted(reply) ==> Result(panel) == old(Result(panel))
      ensures View(panel) == if Accepted(reply) then Rendered else Placeholder
      ensures panel == ExplanationPanel ==> lastBugReport == old(lastBugReport) && bugReportView == old(bugReportView)
      ensures panel == BugReportPanel ==> lastExplanation == old(lastExplanation) && explanationView == old(explanationView)
      ensures code == old(code) && languageLabel == old(languageLabel) && chatHistory == old(chatHistory)
      ensures !Disabled(panel) && Pending(panel) == 0
      ensures chatInput == old(chatInput) && sendChatDisabled == old(sendChatDisabled) && chatPending == old(chatPending)
      ensures panel != ExplanationPanel ==> explainDisabled == old(explainDisabled) && explainPending == old(explainPending)
      ensures panel != BugReportPanel ==> bugDetectDisabled == old(bugDetectDisabled) && bugDetectPending == old(bugDetectPending)
    {
      if Accepted(reply) {
        SetView(panel, Rendered);
        match panel
        case ExplanationPanel => lastExplanation := JString(reply.content);
        case BugReportPanel => lastBugReport := JString(reply.content);
      } else {
        SetView(panel, Placeholder);
      }
      SetDisabled(panel, false);
      match panel
      case ExplanationPanel => explainPending := 0;
      case BugReportPanel => bugDetectPending := 0;
    }

    /**
     * A one-shot call that nothing interleaves. The buttons, the chat input
     * and the requests in flight end as they began; accepted content lands in
     * the chosen panel only, and the chat history is never touched.
     */
    method OneShot(panel: Panel, detected: Option<JsString>, reply: Reply) returns (request: Option<Request>)
      requires Valid()
      modifies this
      ensures Valid()
      ensures request.Some? <==> !old(Disabled(panel)) && Trim(old(code)) != []
      ensures request.Some? ==> request.value == OneShotRequest(TemplateOf(panel), detected, Trim(old(code)))
      ensures ControlsKept()
      ensures old(Disabled(panel)) ==> unchanged(this)
      ensures !old(Disabled(panel)) && Trim(old(code)) == [] ==> State() == WithView(old(State()), panel, Placeholder)
      ensures request.Some? && Accepted(reply) ==> Result(panel) == JString(reply.content) && View(panel) == Rendered
      ensures request.Some? && !Accepted(reply) ==> View(panel) == Placeholder
      ensures request.None? || !Accepted(reply) ==> Result(panel) == old(Result(panel))
      ensures panel == ExplanationPanel ==> lastBugReport == old(lastBugReport) && bugReportView == old(bugReportView)
      ensures panel == BugReportPanel ==> lastExplanation == old(lastExplanation) && explanationView == old(explanationView)
      ensures code == old(code) && languageLabel == old(languageLabel) && chatHistory == old(chatHistory)
    {
      request := BeginOneShot(panel, detected);
      if request.Some? {
        CompleteOneShot(panel, reply);
      }
    }

    /**
     * The start of a chat turn. A click on the disabled send button is not
     * delivered, Enter is. Input that is empty once trimmed changes nothing.
     * Otherwise the input is cleared, one user message is pushed, carrying
     * the code context when the trimmed code is not empty, the whole history
     * is sent at temperature 0.7 and the send button is disabled.
     */
    method BeginChat(trigger: ChatTrigger) returns (request: Option<Request>)
      requires Valid()
      modifies this
      ensures Valid()
      ensures trigger == SendButton && old(sendChatDisabled) ==> request.None? && unchanged(this)
      ensures Trim(old(chatInput)) == [] ==> request.None? && unchanged(this)
      ensures !(trigger == SendButton && old(sendChatDisabled)) && Trim(old(chatInput)) != [] ==>
                chatHistory == old(chatHistory) + [ChatUserMessage(old(chatInput), old(code), old(languageLabel))]
      ensures !(trigger == SendButton && old(sendChatDisabled)) && Trim(old(chatInput)) != [] ==>
                request == Some(Request(ModelName, chatHistory, ChatTemperature))
      ensures !(trigger == SendButton && old(sendChatDisabled)) && Trim(old(chatInput)) != [] ==>
                chatInput == [] && sendChatDisabled && chatPending == old(chatPending) + 1
      ensures code == old(code) && languageLabel == old(languageLabel)
      ensures lastExplanation == old(lastExplanation) && lastBugReport == old(lastBugReport)
      ensures explanationView == old(explanationView) && bugReportView == old(bugReportView)
      ensures explainDisabled == old(explainDisabled) && bugDetectDisabled == old(bugDetectDisabled)
      ensures explainPending == old(explainPending) && bugDetectPending == old(bugDetectPending)
    {
      if trigger == SendButton && sendChatDisabled {
        return None;
      }
      var userMessage := Trim(chatInput);
      if userMessage == [] {
        return None;
      }
      var pushed := ChatUserMessage(chatInput, code, languageLabel);
      chatInput := [];
      ghost var before := chatHistory;
      chatHistory := chatHistory + [pushed];
      assert chatHistory[0] == before[0];
      request := Some(Request(ModelName, chatHistory, ChatTemperature));
      sendChatDisabled := true;
      chatPending := chatPending + 1;
    }

    /**
     * The reply to a chat request: accepted content is pushed as one
     * assistant message; a failure pushes nothing and keeps the user turn.
     * The send button is enabled again.
     */
    method CompleteChat(reply: Reply)
      requires Valid() && chatPending > 0
      modifies this
      ensures Valid()
      ensures Accepted(reply) ==> chatHistory == old(chatHistory) + [Message(AssistantRole, reply.content)]
      ensures !Accepted(reply) ==> chatHistory == old(chatHistory)
      ensures !sendChatDisabled && chatPending == old(chatPending) - 1
      ensures code == old(code) && languageLabel == old(languageLabel) && chatInput == old(chatInput)
      ensures lastExplanation == old(lastExplanation) && lastBugReport == old(lastBugReport)
      ensures explanationView == old(explanationView) && bugReportView == old(bugReportView)
      ensures explainDisabled == old(explainDisabled) && bugDetectDisabled == old(bugDetectDisabled)
      ensures explainPending == old(explainPending) && bugDetectPending == old(bugDetectPending)
    {
      if Accepted(reply) {
        chatHistory := chatHistory + [Message(AssistantRole, reply.content)];
      }
      sendChatDisabled := false;
      chatPending := chatPending - 1;
    }

    /**
     * A chat turn that nothing interleaves: the history grows by the user
     * message and the reply on success, by the user message alone on
     * failure, and not at all when nothing was sent.
     */
    method ChatTurn(trigger: ChatTrigger, reply: Reply) returns (request: Option<Request>)
      requires Valid()
      modifies this
      ensures Valid()
      ensures request.None? ==> unchanged(this)
      ensures request.Some? <==> !(trigger == SendButton && old(sendChatDisabled)) && Trim(old(chatInput)) != []
      ensures request.Some? && Accepted(reply) ==>
                chatHistory == old(chatHistory) + [ChatUserMessage(old(chatInput), old(code), old(languageLabel)),
                                                   Message(AssistantRole, reply.content)]
      ensures request.Some? && !Accepted(reply) ==>
                chatHistory == old(chatHistory) + [ChatUserMessage(old(chatInput), old(code), old(languageLabel))]
      ensures request.Some? ==> request.value.messages == old(chatHistory) + [ChatUserMessage(old(chatInput), old(code), old(languageLabel))]
      ensures request.Some? ==> !sendChatDisabled && chatInput == []
      ensures code == old(code) && languageLabel == old(languageLabel)
      ensures lastExplanation == old(lastExplanation) && lastBugReport == old(lastBugReport)
      ensures explanationView == old(explanationView) && bugReportView == old(bugReportView)
      ensures explainDisabled == old(explainDisabled) && bugDetectDisabled == old(bugDetectDisabled)
      ensures explainPending == old(explainPending) && bugDetectPending == old(bugDetectPending)
      ensures chatPending == old(chatPending)
    {
      request := BeginChat(trigger);
      if request.Some? {
        CompleteChat(reply);
      }
    }

    /** `newChat`: the history is the system message alone. */
    method NewChat()
      requires Valid()
      modifies this
      ensures Valid()
      ensures chatHistory == [SystemMessage]
      ensures code == old(code) && languageLabel == old(languageLabel) && chatInput == old(chatInput)
      ensures lastExplanation == old(lastExplanation) && lastBugReport == old(lastBugReport)
      ensures explanationView == old(explanationView) && bugReportView == old(bugReportView)
      ensures explainDisabled == old(explainDisabled) && bugDetectDisabled == old(bugDetectDisabled)
      ensures sendChatDisabled == old(sendChatDisabled)
      ensures explainPending == old(explainPending) && bugDetectPending == old(bugDetectPending)
      ensures chatPending == old(chatPending)
    {
      chatHistory := [SystemMessage];
    }

    /**
     * `clearAll`: the code is emptied; when both panels show a placeholder,
     * the results become the empty string, the label goes back to
     * `Auto-Detect` and a new chat starts, and when either shows a rendered
     * result the handler throws right after emptying the code. The buttons
     * and the chat input are left as they are.
     */
    method ClearAll()
      requires Valid()
      modifies this
      ensures Valid() && ControlsKept()
      ensures State() == Clear(old(State()))
    {
      code := [];
      if explanationView == Rendered || bugReportView == Rendered {
        // `querySelector('.placeholder')` finds nothing in a rendered result.
        return;
      }
      languageLabel := AutoDetectLabel;
      lastExplanation := JString([]);
      lastBugReport := JString([]);
      NewChat();
    }

    /** Typing in the code editor. */
    method EditCode(text: JsString)
      requires Valid()
      modifies this
      ensures Valid()
      ensures State() == old(State()).(code := text)
      ensures chatInput == old(chatInput)
      ensures explainDisabled == old(explainDisabled) && bugDetectDisabled == old(bugDetectDisabled)
      ensures sendChatDisabled == old(sendChatDisabled)
      ensures explainPending == old(explainPending) && bugDetectPending == old(bugDetectPending)
      ensures chatPending == old(chatPending)
    {
      code := text;
    }

    /** Typing in the chat input. */
    method EditChatInput(text: JsString)
      requires Valid()
      modifies this
      ensures Valid()
      ensures chatInput == text && State() == old(State())
      ensures explainDisabled == old(explainDisabled) && bugDetectDisabled == old(bugDetectDisabled)
      ensures sendChatDisabled == old(sendChatDisabled)
      ensures explainPending == old(explainPending) && bugDetectPending == old(bugDetectPending)
      ensures chatPending == old(chatPending)
    {
      chatInput := text;
    }

    /** `autoDetectLanguage`, given what detection names for the current code. */
    method AutoDetectLanguage(detected: Option<JsString>)
      requires Valid()
      modifies this
      ensures Valid()
      ensures State() == old(State()).(languageLabel := DetectedLabel(old(code), detected))
      ensures chatInput == old(chatInput)
      ensures explainDisabled == old(explainDisabled) && bugDetectDisabled == old(bugDetectDisabled)
      ensures sendChatDisabled == old(sendChatDisabled)
      ensures explainPending == old(explainPending) && bugDetectPending == old(bugDetectPending)
      ensures chatPending == old(chatPending)
    {
      if |code| < 20 {
        languageLabel := AutoDetectLabel;
        return;
      }
      languageLabel := Or(detected, UnknownLabel);
    }

    /** `handleShareClick` for a page at `base` (origin and path); it changes no session state. */
    method HandleShareClick(base: JsString) returns (outcome: ShareOutcome)
      ensures outcome == ShareClick(State(), base)
      ensures outcome == NothingToShare <==>
              (forall i | 0 <= i < |chatHistory| :: !chatHistory[i].JNull?)
              && code == [] && !Truthy(lastExplanation) && !Truthy(lastBugReport)
              && (forall i | 0 <= i < |chatHistory| :: IsSystemRole(chatHistory[i]))
    {
      NothingToShareIff(State(), base);
      var filtered := ChatForShare(chatHistory);
      if filtered.None? {
        return FilterThrew;
      }
      if code == [] && !Truthy(lastExplanation) && !Truthy(lastBugReport) && filtered.value == [] {
        return NothingToShare;
      }
      var data := Snapshot(State(), filtered.value);
      // `JSON.stringify` output is well-formed, so neither encoder throws here.
      var encoded := EncodeForShare(Stringify(data)).value;
      var url := base + ShareQuery + encoded;
      if |url| > MaxUrlLength {
        return CouldNotCreate(TooLarge);
      }
      return Link(url);
    }

    /** The chat input, the buttons and the requests in flight are as they were. */
    twostate predicate ControlsKept()
      reads this
    {
      && chatInput == old(chatInput)
      && explainDisabled == old(explainDisabled) && bugDetectDisabled == old(bugDetectDisabled)
      && sendChatDisabled == old(sendChatDisabled)
      && explainPending == old(explainPending) && bugDetectPending == old(bugDetectPending)
      && chatPending == old(chatPending)
    }

    /**
     * The chat step of a restore: a non-empty shared array becomes the
     * history behind the system message, each message is rendered in turn,
     * and the language is detected unless a message failed to render.
     */
    method RestoreChat(data: JValue, detected: Option<JsString>)
      requires Valid()
      modifies this
      ensures Valid() && ControlsKept()
      ensures State() == ApplyChat(old(State()), data, detected)
    {
      var chat := SharedChat(data);
      if chat.Some? {
        chatHistory := [SystemMessage] + chat.value;
        var i := 0;
        while i < |chat.value|
          invariant 0 <= i <= |chat.value|
          invariant forall j | 0 <= j < i :: Renders(chat.value[j])
          invariant State() == old(State()).(chat := [SystemMessage] + chat.value)
          invariant Valid() && ControlsKept()
        {
          if !Renders(chat.value[i]) {
            return;
          }
          i := i + 1;
        }
      }
      AutoDetectLanguage(detected);
    }

    /** The bug-report step of a restore, followed by the chat step. */
    method RestoreBugs(data: JValue, detected: Option<JsString>)
      requires Valid()
      modifies this
      ensures Valid() && ControlsKept()
      ensures State() == ApplyBugs(old(State()), data, detected)
    {
      var b := Property(data, BugsKey);
      if b.Some? && Truthy(b.value) {
        lastBugReport := b.value;
        if !b.value.JString? {
          return;
        }
        bugReportView := Rendered;
      }
      RestoreChat(data, detected);
    }

    /** The explanation step of a restore, followed by the bug-report step. */
    method RestoreExplanation(data: JValue, detected: Option<JsString>)
      requires Valid()
      modifies this
      ensures Valid() && ControlsKept()
      ensures State() == ApplyExplanation(old(State()), data, detected)
    {
      var e := Property(data, ExplanationKey);
      if e.Some? && Truthy(e.value) {
        lastExplanation := e.value;
        if !e.value.JString? {
          return;
        }
        explanationView := Rendered;
      }
      RestoreBugs(data, detected);
    }

    /**
     * Applying a parsed value, in the order of the source: anything but
     * an object or array is refused, then the code, the explanation, the bug
     * report and the chat are restored, and the first step that throws ends
     * the restore with the earlier ones in place.
     */
    method RestoreSnapshot(data: JValue, detected: Option<JsString>)
      requires Valid()
      modifies this
      ensures Valid() && ControlsKept()
      ensures State() == ApplySnapshot(old(State()), data, detected)
    {
      if !IsObjectLike(data) {
        return;
      }
      var c := Property(data, CodeKey);
      var text := if c.Some? && Truthy(c.value) then ToDomString(c.value) else Some([]);
      if text.None? {
        return;
      }
      code := text.value;
      ghost var written := State();
      assert written == old(State()).(code := text.value);
      RestoreExplanation(data, detected);
      assert State() == ApplyExplanation(written, data, detected);
    }

    /**
     * `loadFromShare` on the page's query string: without a `share` value,
     * or with a token that fails to decode or to parse, nothing changes;
     * otherwise the parsed value is applied.
     */
    method LoadFromShare(search: JsString, parse: JsString -> Option<JValue>, detected: Option<JsString>)
      requires Valid()
      modifies this
      ensures Valid() && ControlsKept()
      ensures State() == LoadShared(old(State()), search, parse, detected)
    {
      var shareData := SearchParamsGet(search, ShareName);
      if shareData.None? || shareData.value == [] {
        return;
      }
      var decoded := DecodeToken(shareData.value);
      if decoded.Err? {
        return;
      }
      var parsed := parse(decoded.value);
      if parsed.None? {
        return;
      }
      RestoreSnapshot(parsed.value, detected);
    }
  }
}
