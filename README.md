# Code explainer session and share link, modelled in Dafny

The application is a single-page code explainer. The user pastes code and can:

- ask for an explanation or a bug report of it (a "one-shot" call to a chat-completion API);
- chat about it;
- share the whole session as a link.

This project models the sequential core of `script.js`:

- **Session state.** The code buffer, the language label, the last explanation, the last bug report, the chat history and the chat input, whether each result panel shows a placeholder or a rendered result, plus the `disabled` flags of the three buttons that call the API. `Session.Session` holds these as fields. Its methods are the event handlers:
  - the one-shot and chat branches of `callAI`, each split into its synchronous start and its completion;
  - `newChat` and `clearAll`;
  - `autoDetectLanguage`;
  - `handleShareClick`;
  - the decode-and-apply half of `loadFromShare`.
- **Prompt construction** (`PromptTemplates`). `template.replace(/{language}/g, language).replace(/{code}/g, code)` is modelled with ECMAScript's GetSubstitution, so `$$`, `$&`, `` $` `` and `$'` in the replacement text are expanded.
- **The share codec** (`ShareCodec`, with `UriComponent` and `Base64`):
  - the snapshot `{ code, explanation, bugs, chat }`;
  - `encodeURIComponent` (UTF-8 percent-encoding), then `btoa` (base64, RFC 4648 section 4);
  - the 4000-unit limit on the link;
  - the read-back through `URLSearchParams.get` (WHATWG URL Standard, section 5.1, application/x-www-form-urlencoded parsing);
  - `atob` (forgiving-base64 decode), then `decodeURIComponent`;
  - the structural check and the field-by-field restore.
- **Strings and JSON** (`JsStrings`, `Json`, `Conversation`). ECMAScript strings are sequences of UTF-16 code units, so lone surrogates exist. JSON values are a datatype. `JSON.stringify` is modelled (ECMAScript 2019 and later, where lone surrogates are escaped). `JSON.parse` is a function parameter.

Main results:

- **Prompts.**
  - With code free of `$`, a prompt is the template with the detected language in both language slots and the code verbatim in the code slot, and (code holding no slot text) no `{language}` or `{code}` is left.
  - Code `$&` is never inserted: the prompt keeps `{code}`.
  - A detected language `{code}` makes the code appear three times.
- **One-shot calls.**
  - Empty trimmed code sends no request; the panel shows a placeholder and the button stays enabled.
  - A sent request is one user message at temperature 0.2.
  - Accepted content lands in the chosen panel only and is rendered there; a failure leaves a placeholder. The chat history is never touched, and the buttons, the chat input and the requests in flight end as they began.
- **Chat turns.**
  - Empty trimmed input is a no-op.
  - Otherwise one user message is pushed, carrying the code context exactly when the trimmed code is non-empty.
  - One assistant message is added on success and none on failure.
  - The history always starts with the system message.
- **Clearing.**
  - `clearAll` resets the code, both results, the label and the chat only while both panels show a placeholder.
  - Once either panel shows a rendered result, that panel has no `.placeholder` element. `clearAll` then empties the code and throws on the next statement, so everything else stays.
- **Sharing.**
  - "Nothing to share" happens exactly when the code is `''`, both results are falsy and every message is a system message. Code of white space alone is shared.
  - `decodeURIComponent(atob(btoa(encodeURIComponent(s)))) == s` for every well-formed string.
  - A token holds `+` exactly when a `~` of the escaped text sits at an offset of 2 modulo 3. `URLSearchParams` turns that `+` into a space: a shared `aa~` comes back as `aa`.
  - When the token holds no `+`, loading the link restores the session.
- **Restores.**
  - Primitives and `null` are refused before any write; arrays are accepted.
  - A restore stops at the first step that throws and keeps the steps before it.

Two consequences of how the restore is written:

- The check `typeof data !== 'object' || data === null` lets arrays through: an array payload clears the code and resets the label (`ShareCodec.ArrayAccepted`).
- The code buffer and the results are assigned one by one, so an exception part way leaves the earlier assignments in place (`ShareCodec.PartialRestore`).

## Model

| member | source | states |
|---|---|---|
| JsStrings.Trim | script.js:174 | `trim()` gives the empty string exactly when every unit of the input is ECMAScript white space or a line terminator |
| JsStrings.TrimIsTrimmed | script.js:174 | the trimmed string occurs in the input with only white space before and after it, and it neither starts nor ends with white space |
| JsStrings.WellFormedConcat | script.js:334 | concatenating two well-formed UTF-16 strings gives a well-formed string |
| JsStrings.CodePointUnits | script.js:373 | UTF-16 encoding of a scalar value: one unit below U+10000, otherwise a surrogate pair that stands for that code point; always well-formed |
| JsStrings.PairUnits | script.js:373 | a surrogate pair is the UTF-16 encoding of the code point it stands for |
| Json.LookupFinds | script.js:378-390 | lookup finds nothing exactly when no field has the key; otherwise it finds the value of the first field with the key |
| Json.PropertyFinds | script.js:376-390 | `data.key` is defined exactly when the value is an object with some field of that key, and it is then the value of the first such field |
| Json.ToDomString | script.js:378 | assigning a value to the textarea keeps a string as it is; for an object it throws exactly when the object has an own `toString` field |
| Json.JoinAll | script.js:378 | joining converted parts succeeds exactly when every part's conversion succeeded |
| Json.EscapeUnit | script.js:334 | QuoteJSONString keeps an ordinary unit and escapes quotes, backslashes, control units and surrogates as ASCII |
| Json.QuoteBody | script.js:334 | the quoted body of any string, lone surrogates included, is well-formed UTF-16 |
| Json.Stringify | script.js:334 | `JSON.stringify` of any value is well-formed UTF-16, so `encodeURIComponent` of it cannot throw |
| Conversation.Message | script.js:188 | the message object's `role` and `content` properties read back as the given role and content |
| Conversation.DetectedLabel | script.js:152-160 | under 20 units of code the label is `Auto-Detect`; otherwise it is the detected language, or `unknown` when none is named |
| Conversation.ContextBlock | script.js:187 | the code-context block holds the language label and then the code, each at its place after the fixed opening |
| Conversation.ChatUserContent | script.js:187-188 | the user content is exactly the message when the trimmed code is empty; otherwise the message followed by the context block for the code |
| PromptTemplates.Substitution | script.js:199 | GetSubstitution gives back a replacement text that holds no `$` unchanged |
| PromptTemplates.ReplaceFromLiteral | script.js:199 | global replacement with a replacement text free of `$` equals the reference literal replacement (leftmost, non-overlapping), from any index on |
| PromptTemplates.ReplaceAllLiteral | script.js:199 | `s.replace(/p/g, r)` with `r` free of `$` equals the reference literal replacement of every occurrence of `p` |
| PromptTemplates.MatchReplacementIsIdentity | script.js:199 | replacing every occurrence by `$&` leaves the string unchanged |
| PromptTemplates.PromptLanguage | script.js:198 | the prompt language is the detected one when detection names one, and `code` otherwise |
| PromptTemplates.LanguagePass | script.js:199 | the first pass puts the language in both language slots and leaves the `{code}` slot in place |
| PromptTemplates.CodePass | script.js:199 | the second pass puts the code in the code slot and changes nothing else, when the fixed text and the language hold no `{` |
| PromptTemplates.PromptShape | script.js:197-199 | with plain template text, a language free of `{` and `$` and code free of `$`, the prompt is the template with those filled in, and it contains the code verbatim |
| PromptTemplates.PromptHasNoPlaceholder | script.js:199 | under the conditions of PromptShape, code holding neither slot text leaves no `{language}` and no `{code}` in the prompt |
| PromptTemplates.DollarAmpersandKeepsCodeSlot | script.js:199 | for code `$&` the prompt still holds the `{code}` slot instead of the code |
| PromptTemplates.CodeSlotLanguageRepeatsCode | script.js:199 | a detected language equal to `{code}` is filled in first, so the code appears in all three slots |
| Session.OneShotRequestShape | script.js:197-216 | a one-shot request is a single user message at temperature 0.2 whose content is the filled template |
| Session.ChatContentHolds | script.js:187-188 | the chat content starts with the message, equals it exactly when the code is empty, and contains the code otherwise |
| Session.ChatUserMessageContent | script.js:178-188 | the pushed user message has role `user`, starts with the trimmed input and carries the trimmed code exactly when that is non-empty |
| Session.Clear | script.js:162-169 | `clearAll` always empties the code and keeps both panel views; with both panels showing a placeholder it resets the label, both results and the chat; with either showing a rendered result it leaves them as they were |
| Session.ClearIdempotent | script.js:162-169 | clearing twice leaves the same state as clearing once |
| Session.ClearLeavesNothingToShare | script.js:162-169 | after a clear that completes, the share button finds nothing to share |
| Session.Session.constructor | script.js:77-81 | the page starts with both results empty, both panels showing their placeholder, the history holding only the system message, nothing in flight and every button enabled |
| Session.Session.SetView | script.js:205 | writing a panel's content changes that panel's view and nothing else |
| Session.Session.SetDisabled | script.js:122-123 | `setLoading` sets one button's `disabled` flag and changes nothing else |
| Session.Session.BeginOneShot | script.js:173-206 | a disabled button takes no click and changes nothing; otherwise the panel shows a placeholder, and empty trimmed code sends no request and keeps the buttons; non-empty code returns the request for the trimmed code, with only that button disabled and one request in flight |
| Session.Session.CompleteOneShot | script.js:219-254 | accepted content becomes the chosen panel's result and is rendered; a failure or empty content changes no result and leaves a placeholder; the other panel and the chat are untouched, and the button is enabled again |
| Session.Session.OneShot | script.js:173-256 | a request is sent exactly when the button is enabled and the trimmed code is non-empty; the buttons, the chat input and the requests in flight end as they began; accepted content is rendered in the chosen panel only, a failure leaves a placeholder there; the chat history never changes |
| Session.Session.BeginChat | script.js:177-203 | a click on the disabled send button or empty trimmed input changes nothing; otherwise the input is cleared, exactly one user message is pushed, and the whole history is sent at temperature 0.7 |
| Session.Session.CompleteChat | script.js:227-254 | accepted content appends exactly one assistant message and a failure appends nothing; the send button is enabled again |
| Session.Session.ChatTurn | script.js:173-256 | a sent turn grows the history by the user message and the reply on success, and by the user message alone on failure, clears the input and ends with the send button enabled; a turn not sent changes nothing; the results, panels, one-shot buttons and requests in flight are kept |
| Session.Session.NewChat | script.js:270-271 | the history becomes exactly the system message; nothing else changes |
| Session.Session.ClearAll | script.js:162-169 | the new state is Clear of the old one: the full reset only while both panels show a placeholder, otherwise only the code is emptied; the buttons and the chat input are kept |
| Session.Session.EditCode | script.js:463 | an edit replaces the code buffer and nothing else |
| Session.Session.EditChatInput | script.js:178-181 | an edit replaces the chat input and nothing else |
| Session.Session.AutoDetectLanguage | script.js:152-160 | the label becomes the one DetectedLabel gives for the current code; nothing else changes |
| Session.Session.HandleShareClick | script.js:314-352 | the outcome is ShareClick of the current state, and it is "nothing to share" exactly when no message is `null`, the code is `''`, both results are falsy and every message is a system message |
| Session.Session.RestoreChat | script.js:390-400 | the chat step of a restore leaves the state ApplyChat describes and keeps the invariant |
| Session.Session.RestoreBugs | script.js:385-389 | the bug-report step, with its rendering into the panel, leaves the state ApplyBugs describes |
| Session.Session.RestoreExplanation | script.js:380-384 | the explanation step, with its rendering into the panel, leaves the state ApplyExplanation describes |
| Session.Session.RestoreSnapshot | script.js:376-378 | applying a parsed value leaves the state ApplySnapshot describes; the buttons and the chat input are kept |
| Session.Session.LoadFromShare | script.js:368-407 | loading from the query string leaves the state LoadShared describes and keeps the system message first |
| ShareCodec.ChatForShare | script.js:316 | the filter succeeds exactly when no message is `null`; it keeps exactly the messages whose role is not `system`, and it is empty exactly when all of them are system messages |
| ShareCodec.ChatForShareOne | script.js:316 | one message: `null` throws, a system message is dropped, any other message is kept |
| ShareCodec.ChatForShareConcat | script.js:316 | the filter of two joined histories is the filter of the first followed by that of the second, so order and repeats are kept; it throws when either part throws |
| ShareCodec.EncodeForShare | script.js:335 | encoding succeeds exactly when the text is well-formed UTF-16, and its token uses only the base64 alphabet and `=` |
| ShareCodec.CodecRoundTrip | script.js:373 | `decodeURIComponent(atob(btoa(encodeURIComponent(s))))` gives back every well-formed `s` |
| ShareCodec.ShareClick | script.js:314-352 | a link never exceeds 4000 units, and a failure to create one is always the "too large" error |
| ShareCodec.NothingToShareIff | script.js:315-318 | "nothing to share" exactly when no message is `null`, the code is `''` (white space alone is shared), both results are falsy and every message is a system message |
| ShareCodec.ShareOutcomes | script.js:333-350 | a `null` message makes the filter throw; otherwise a non-empty snapshot gives the link, or the "too large" error past 4000 units; its token decodes to the snapshot's JSON text |
| ShareCodec.PlusToSpace | script.js:370 | form decoding keeps the length and changes the text exactly when it holds a `+` |
| ShareCodec.LinkReadBack | script.js:369-370 | `URLSearchParams.get('share')` on the link gives the token with each `+` read as a space, so the token comes back unchanged exactly when it holds no `+` |
| ShareCodec.TokenPlusIff | script.js:335-337 | a token holds `+` exactly when a `~` of the escaped text sits at an offset of 2 modulo 3 |
| ShareCodec.TildeToken | script.js:335 | the text `aa~` gives the token `YWF+` |
| ShareCodec.TildeTokenReadBack | script.js:370 | read back from its link, the token `YWF+` becomes `YWF ` |
| ShareCodec.SpacedTokenDecodes | script.js:373 | `atob` skips the space of `YWF ` and the token decodes to `aa` |
| ShareCodec.TildeIsLost | script.js:337-373 | one counterexample to the link round trip: the text `aa~`, whose token holds `+`, is read back as `aa` |
| ShareCodec.MessageRenders | script.js:396 | a message with a class-token role renders during a restore |
| ShareCodec.ApplyChat | script.js:390-400 | a non-empty shared array replaces the history behind the system message, anything else keeps it; the language is detected again exactly when every shared message renders; nothing else changes |
| ShareCodec.ApplyBugsFields | script.js:385-389 | a truthy shared bug report is stored, and rendered when it is a string; a stored non-string ends the restore; otherwise the history and the label follow the chat step; the code and the explanation are kept |
| ShareCodec.ApplyExplanationFields | script.js:380-384 | a truthy shared explanation is stored, and rendered when it is a string; a stored non-string ends the restore before the bug report; each field's final value is given |
| ShareCodec.ApplySnapshotFields | script.js:376-400 | a value that is not an object or array, or whose code conversion throws, changes nothing; otherwise the code is `data.code` as text (or `''` when falsy), and each result, panel view, the history and the label take the value the steps give, up to the first step that throws |
| ShareCodec.LoadShared | script.js:368-407 | without a `share` value, or with a token that fails to decode or to parse, nothing changes; a parsed value is applied with ApplySnapshot; a changed history starts with the system message |
| ShareCodec.LoadKeepsSystemFirst | script.js:390-394 | a history starting with the system message still starts with it after any load |
| ShareCodec.PrimitiveRejected | script.js:376 | `null` and primitives are refused before any field is written |
| ShareCodec.ArrayAccepted | script.js:376-378 | an array passes the check: the code is cleared and the label reset to `Auto-Detect` |
| ShareCodec.PartialRestore | script.js:378-384 | a truthy explanation that is not a string is stored and then throws on rendering: code and explanation are written, nothing after them |
| ShareCodec.ApplyOwnSnapshot | script.js:376-400 | applying a snapshot of the page's own making restores the code, every truthy result (rendered in its panel), a non-empty chat behind the system message, and redetects the language |
| ShareCodec.LoadOfToken | script.js:368-376 | a link whose token holds no `+` and whose JSON parses back reaches the snapshot |
| ShareCodec.ShareRoundTrip | script.js:314-400 | a link made by the share button, with no `+` in its token, restores on any page the code, every truthy result (rendered in its panel) and the shared chat |
| UriComponent.HexDigit | script.js:335 | a hexadecimal digit of an escape is an unescaped unit |
| UriComponent.HexValue | script.js:373 | a hexadecimal digit's value is below 16, and the value exists exactly for `0-9`, `A-F` and `a-f` |
| UriComponent.Escapes | script.js:335 | percent-escaping bytes gives three units per byte, each unescaped or `%` |
| UriComponent.Utf8Encode | script.js:335 | UTF-8 gives one to four bytes, by the code point's range, and every byte after the first is a continuation byte |
| UriComponent.Utf8Decode | script.js:373 | a decoded multi-byte sequence is a scalar value of at least U+0080 |
| UriComponent.Utf8RoundTrip | script.js:373 | decoding the UTF-8 of a scalar value gives it back |
| UriComponent.Utf8DecodeEncodes | script.js:373 | a byte sequence that decodes is the UTF-8 encoding of its code point (no overlong or other alternative forms) |
| UriComponent.EncodeURIComponent | script.js:335 | encoding succeeds exactly when the string is well-formed (a lone surrogate throws `URIError`), and its output is unescaped units and `%` |
| UriComponent.UnescapedEncodesToItself | script.js:335 | a string of unescaped units (letters, digits, `-_.!~*'()`) is its own encoding |
| UriComponent.DecodeURIComponent | script.js:373 | decoding a well-formed string gives a well-formed string |
| UriComponent.NoPercentDecodesToItself | script.js:373 | a string without `%` is its own decoding |
| UriComponent.EncodedCodePointDecodes | script.js:373 | the escapes of a code point's UTF-8 decode to its UTF-16 units, whatever follows |
| UriComponent.UriRoundTrip | script.js:373 | `decodeURIComponent(encodeURIComponent(s))` gives back every well-formed `s` |
| Base64.Digit | script.js:335 | every digit is in the alphabet, and digit 62 is exactly `+` |
| Base64.DigitValueOfDigit | script.js:373 | a digit's value is the number it encodes |
| Base64.GroupRoundTrip | script.js:373 | decoding an encoded group of three bytes gives them back |
| Base64.EncodeDigits | script.js:335 | the unpadded digits have length `(4n + 2) / 3`, never 1 modulo 4, and all are in the alphabet |
| Base64.Encode | script.js:335 | base64 output has a length that is a multiple of 4, namely `4 * ceil(n / 3)`, and uses the alphabet plus `=` in the last two places only |
| Base64.Btoa | script.js:335 | `btoa` succeeds exactly on byte strings; its output is ASCII, empty only for empty input, and of a length that is a multiple of 4 |
| Base64.RemoveAsciiWhitespace | script.js:373 | the result holds no ASCII white space and is no longer than the input |
| Base64.RemoveWhitespaceConcat | script.js:373 | removing white space from joined texts is removing it from each and joining, so the order of the other units is kept |
| Base64.RemoveWhitespaceUnit | script.js:373 | a single white-space unit is removed and any other unit is kept |
| Base64.DecodeDigits | script.js:373 | `n` digits decode to `3n / 4` bytes |
| Base64.Atob | script.js:373 | `atob` succeeds exactly when the text, with white space and padding removed, is alphabet units of a length not 1 modulo 4; its output is a byte string |
| Base64.DecodeEncodeDigits | script.js:373 | decoding the digits of any bytes gives them back |
| Base64.AtobBtoa | script.js:373 | `atob(btoa(s))` gives back every byte string `s` |
| Base64.AtobOfEncode | script.js:373 | `atob` of an encoding decodes its unpadded digits |
| Base64.PaddedLength | script.js:335 | digits plus padding make `4 * ceil(n / 3)` units, a multiple of 4 |
| Base64.PlusInEncoding | script.js:335 | for ASCII bytes the encoding holds `+` exactly when a `>` or `~` sits at an offset of 2 modulo 3 |
| Base64.TildeGivesPlus | script.js:335 | `btoa("aa~")` is `YWF+` |

## Left out

- DOM rendering: innerHTML templates, `marked.parse`, `hljs.highlightElement`, tab switching, toasts, modals, the examples list and the button text and loader maps. This is UI and foreign library code. What is kept: the `disabled` flags, and per result panel whether it shows a `.placeholder` element (the loading, "enter some code" and error templates) or a rendered result. `marked.parse` appears only as its refusal of a value that is not a string, which is what makes a restore stop part way.
- Session.Clear: a rendered result is taken to hold no element of class `placeholder`. Markdown whose HTML holds such an element would let `clearAll` go on, and that case is not modelled.
- Both panels are taken to start with their placeholder, as the constructor states, because the initial panel markup lives in `index.html`.
- `fetch` and response parsing (script.js:209-225) become a `Reply` input: a failure, or the content of the first choice. Empty content counts as a failure, as `if (!content)` makes it.
- Language detection (`hljs.highlightAuto`) is an input. The model keeps the rule that under 20 units the label reads `Auto-Detect`, and the `|| 'code'` and `|| 'unknown'` fallbacks.
- `JSON.parse` is a function parameter. Its internals are not modelled. The round-trip lemmas assume it reads back the snapshot's own text.
- SearchParamsGet does not percent-decode names or values. A share token of base64 digits never holds `%`, which makes this omission safe for share links.
- `window.location`, `history.replaceState`, the clipboard, `localStorage`, the theme, `debounce` and `setTimeout` are browser I/O and timers. Origin plus path is the `base` parameter of the share step.
- Concurrency between controls is not modelled as interleaved execution. Each `callAI` is split into its start (`Begin…`) and its completion (`Complete…`), which may interleave with other steps. Ghost counters track the requests in flight.
- Newline normalisation by the textarea is not modelled. The code buffer is the string as given.
- The initial code and label come from `index.html`, which is not part of this model. They are constructor parameters.
- Session.Session.constructor: takes the two templates as parameters. The page passes `PromptTemplates.Explain` and `PromptTemplates.DetectBugs`, which hold the text of `PROMPTS.EXPLAIN` and `PROMPTS.DETECT_BUGS`. The prompt lemmas are stated for any template of that layout whose fixed text is `Plain`. That `Plain` holds for the two literal texts is not proved, because reasoning about those long literals is beyond the verifier's budget.
- JsStrings.FromString: maps a character beyond U+FFFF to U+FFFD instead of a surrogate pair. Every literal of the application is ASCII.
- The error messages (`error.message`, the share dialog texts and the console output) are not modelled. Only which path is taken is kept.
- The ECMAScript 2019 `JSON.stringify` escapes lone surrogates. So the state, whatever it holds, never makes `encodeURIComponent` throw on the share path, and the "Could not create share link" outcome arises only from the length limit. An older engine without that escaping is not modelled.
- `handleCopyClick`, `handleCopyLink`, `loadExamples`, `toggleTheme` and `switchTab` are left out: they are UI and clipboard code outside the session core.
