# Tutoring relay handler: a verified model

`api/chat.js` is one HTTP handler. It accepts a POST carrying a conversation
and puts the tutoring persona prompt in front of it when the caller did not
send a system message. It forwards the history to a chat-completion service,
cleans up the reply text and answers with `{ message }`. This project models
the three parts of the handler that hold logic, in Dafny:

- **JsString** (`js_string.dfy`): JavaScript strings as sequences of UTF-16
  code units (`CodeUnit`). It defines the white-space class shared by `\s` and
  `trim` (ECMAScript WhiteSpace plus LineTerminator), and models `trim` and
  `slice(0, n)`.
- **Sanitizer** (`sanitizer.dfy`): the five-step reply clean-up of lines
  109-114. Each global `replace` is written as the left-to-right scan the
  regular-expression engine performs, so no regex engine is modelled.
  - `/(\n\s*){3,}/` matches at a position exactly when that position holds a
    line feed and the white-space run starting there holds at least three line
    feeds. Because the last `\s*` is greedy, the match reaches the end of that
    run.
  - `/\s{2,}/` matches exactly when the run starting there is at least two code
    units long, and it takes the whole run.
- **History** (`history.dfy`): building the history that goes upstream (lines
  62-71). It is a spec function `Injected`, plus imperative methods for how the
  code builds the history: it spreads the caller's array into a copy, tests it
  with `some`, and `unshift`s onto it.
- **Handler** (`handler.dfy`): the handler as a pure function `Handle`. It
  takes an abstract request (method, plus a body that is unreadable or carries
  a `conversation` field) and the upstream service, given as a function from
  the history sent to how the call ended. It returns the status, the `message`
  and whether the progress-format warning is logged.

What the proofs establish, in short:

- **Injection.** A conversation that has a system message is sent exactly as
  given. One without a system message gets exactly one message in front: the
  prompt cut to 1500 code units. Injecting twice is the same as injecting once.
  Building the history only reads the caller's array.
- **Sanitised reply.** It never exceeds 1500 code units and never contains
  U+FFFD. It is a prefix of the text after step 4.
- **Steps 1-3.** After them the text has no white space at either end and no
  two adjacent white-space code units. They keep every non-white-space code
  unit in order.
- **Behaviour of the code as written.**
  - Step 3 undoes step 2: the `'\n\n'` that step 2 writes is folded into a
    single space, so step 2 never affects the reply (`NewlineCollapseSubsumed`).
    As a result a paragraph break comes out as one space.
  - Step 4 runs after step 3, so removing a U+FFFD that stood between two
    spaces leaves two adjacent spaces (`ReplacementReopensGap`). The "no two
    adjacent white-space code units" guarantee therefore holds only for replies
    without U+FFFD. For the same reason three line feeds separated by U+FFFD
    escape step 2 and reach the client in a row
    (`ReplacementReopensNewlines`).
- **Status and message.**
  - Any method other than POST gets 405 "Method not allowed", and the upstream
    service is not called.
  - A not-ok upstream status is passed through with `"API Error: " +
    statusText`.
  - Every exception becomes 500 with `"Internal Error: "` followed by at most
    200 code units of its message.
  - The progress-marker test never changes the response.

The code's comments say step 2 "limits consecutive newlines" and step 3
"fixes multiple spaces". The model follows the code, not those comments.

## Model

| member | source | states |
|---|---|---|
| JsString.IsWS | api/chat.js:110-112 | the class `\s` matches and `trim` strips: the ECMAScript WhiteSpace code points (TAB, VT, FF, SP, NBSP, ZWNBSP, U+1680, U+2000-U+200A, U+202F, U+205F, U+3000) and LineTerminator code points (LF, CR, U+2028, U+2029); U+FFFD is not among them |
| JsString.Prefix | api/chat.js:114 | `slice(0, n)` gives exactly `min(n, length)` code units and is a prefix of the string |
| JsString.LeadWs | api/chat.js:111-112 | the greedy white-space run at the front ends where a code unit that is not white space, or the end of the string, follows |
| JsString.LeadWsIsWs | api/chat.js:111-112 | every code unit the greedy run covers is white space |
| JsString.TrailWs | api/chat.js:110 | the white-space run at the end: all white space, and the code unit before it is not |
| JsString.Trim | api/chat.js:110 | the result is a substring flanked by white space only, with no white space at either end, and it is empty exactly when the input is all white space |
| JsString.TrimIdempotent | api/chat.js:110 | trimming a trimmed string changes nothing |
| Sanitizer.CollapseNewlines | api/chat.js:111 | step 2 never makes the text longer |
| Sanitizer.CollapseSpaces | api/chat.js:112 | step 3 never makes the text longer |
| Sanitizer.StripReplacement | api/chat.js:113 | step 4 leaves no U+FFFD, and changes nothing in text that has none |
| Sanitizer.StripUnit | api/chat.js:113 | on one code unit step 4 drops U+FFFD and keeps anything else; with `StripAppend` this fixes step 4 on every input, order included |
| Sanitizer.StripCounts | api/chat.js:113 | step 4 removes every U+FFFD and keeps every other code unit as often as it occurs |
| Sanitizer.StripDrop | api/chat.js:113 | removing one U+FFFD leaves what stood on either side of it, each stripped on its own, joined together |
| Sanitizer.Sanitize | api/chat.js:109-114 | the reply is at most 1500 code units long, has no U+FFFD, and is the step-4 text cut at 1500 |
| Sanitizer.CollapseNewlinesKeepsText | api/chat.js:111 | step 2 keeps every non-white-space code unit, in order |
| Sanitizer.CollapseSpacesKeepsText | api/chat.js:112 | step 3 keeps every non-white-space code unit, in order |
| Sanitizer.TrimKeepsText | api/chat.js:110 | `trim` keeps every non-white-space code unit, in order |
| Sanitizer.CollapseNewlinesKeepsEnds | api/chat.js:111 | step 2 keeps a last code unit that is not white space |
| Sanitizer.CollapseSpacesKeepsEnds | api/chat.js:112 | step 3 keeps a last code unit that is not white space |
| Sanitizer.CollapseNewlinesKeepsFront | api/chat.js:111 | step 2 cannot match at a code unit that is not white space |
| Sanitizer.CollapseSpacesFront | api/chat.js:112 | step 3 cannot match at a code unit that is not white space |
| Sanitizer.CollapseSpacesNoAdjacent | api/chat.js:112 | after step 3 no two white-space code units are adjacent |
| Sanitizer.CollapseSpacesIdentity | api/chat.js:112 | step 3 changes nothing in text with no two adjacent white-space code units |
| Sanitizer.CollapseSpacesIdempotent | api/chat.js:112 | applying step 3 twice equals applying it once |
| Sanitizer.CollapseNewlinesRun | api/chat.js:111 | step 2 acts on each maximal white-space run on its own: the result is what step 2 makes of the run, followed by step 2 applied to the rest |
| Sanitizer.NewlineRunClosedForm | api/chat.js:111 | what step 2 makes of one run: a run with fewer than three line feeds is kept; a run with three or more keeps what precedes its first line feed, followed by `'\n\n'` |
| Sanitizer.CollapseSpacesRun | api/chat.js:112 | step 3 acts on each maximal white-space run on its own: a run of two or more becomes one space |
| Sanitizer.NewlineCollapseSubsumed | api/chat.js:111-112 | step 3 after step 2 equals step 3 alone, so step 2 has no effect on the reply |
| Sanitizer.CollapsedIgnoresNewlineStep | api/chat.js:110-112 | steps 1-3 equal `trim` followed by step 3 |
| Sanitizer.CollapseNewlinesNoReplacement | api/chat.js:111 | step 2 introduces no U+FFFD |
| Sanitizer.CollapseSpacesNoReplacement | api/chat.js:112 | step 3 introduces no U+FFFD |
| Sanitizer.CollapsedShape | api/chat.js:110-112 | after steps 1-3: no white space at either end, no two adjacent white-space code units, the same non-white-space text as the raw reply |
| Sanitizer.SanitizedSpacing | api/chat.js:109-114 | for a raw reply without U+FFFD, step 4 is the identity and the final reply has no two adjacent white-space code units |
| Sanitizer.StripAppend | api/chat.js:113 | step 4 works piece by piece: removing U+FFFD from a concatenation is removing it from each part |
| Sanitizer.TrimKeepsTrimmed | api/chat.js:110 | `trim` leaves alone a text whose first and last code units are not white space |
| Sanitizer.GapSurvivesCollapse | api/chat.js:110-112 | steps 1-3 leave `a � b` unchanged, for any code units `a` and `b` that are not white space |
| Sanitizer.ReplacementReopensGap | api/chat.js:112-113 | `a � b` sanitises to `a  b`, which has two adjacent spaces (`a` and `b` any code units that are neither white space nor U+FFFD) |
| Sanitizer.NewlinesSurviveCollapse | api/chat.js:110-112 | steps 1-3 leave `a\n�\n�\nb` unchanged, for any code units `a` and `b` that are not white space |
| Sanitizer.StripNewlines | api/chat.js:113 | step 4 turns `a\n�\n�\nb` into `a\n\n\nb` |
| Sanitizer.ReplacementReopensNewlines | api/chat.js:111-113 | `a\n�\n�\nb` sanitises to `a\n\n\nb`: three line feeds in a row reach the client |
| Sanitizer.ParagraphBreakCollapsed | api/chat.js:110-112 | steps 1-3 turn `a\n\n\nb` into `a b` |
| Sanitizer.ParagraphBreakBecomesSpace | api/chat.js:111-112 | `a\n\n\nb` sanitises to `a b`: no paragraph break survives |
| Sanitizer.EmptyReply | api/chat.js:106 | the missing-content fallback `''` sanitises to `''` |
| History.Injected | api/chat.js:66-71 | at most one message is added, exactly when none has role `"system"`, and the conversation follows it in order |
| History.HistoryForShape | api/chat.js:63-71 | the history sent upstream always holds a system message and ends with the caller's array, in order, with at most one message before it; a value that is not an array gives the system message alone |
| History.SystemMessage | api/chat.js:67-70 | the injected message has role `"system"` and holds the first `min(1500, length)` code units of the prompt |
| History.AnySystem | api/chat.js:66 | `some` returns true exactly when a message has role `"system"` |
| History.CopyConversation | api/chat.js:63 | the spread copy holds the caller's messages in order |
| History.BuildHistory | api/chat.js:62-71 | the history built equals the injection of the caller's array (empty for a non-array), and the caller's array is unchanged |
| History.InjectedShape | api/chat.js:63-71 | with a system message present the history equals the conversation; otherwise it is one longer, starts with the truncated prompt and continues with the conversation in order |
| History.InjectedHasSystem | api/chat.js:66-71 | the history sent upstream always holds a system message |
| History.InjectIdempotent | api/chat.js:66-71 | injecting twice equals injecting once |
| History.InjectedSystemCount | api/chat.js:66-71 | a conversation without a system message goes upstream with exactly one; otherwise the count is unchanged |
| History.NonArrayConversation | api/chat.js:63 | a `conversation` that is not an array yields the system message alone |
| Handler.InternalError | api/chat.js:123-128 | status 500, and the message is `"Internal Error: "` followed by the first `min(200, length)` code units of the error message |
| Handler.MethodNotAllowed | api/chat.js:58 | the 405 answer with message `"Method not allowed"` |
| Handler.RawContent | api/chat.js:106 | the text handed to the sanitiser: the content string, or `''` when the content is missing or falsy (the fallback to `''`) |
| Handler.ApiError | api/chat.js:99-101 | the status is the upstream status, and the message begins with `"API Error: "` and continues with exactly the status text |
| Handler.ApiErrorFaithful | api/chat.js:99-101 | two not-ok answers are equal exactly when their statuses and status texts are: the client can read back both |
| Handler.Handle | api/chat.js:56-128 | a 200 answer is at most 1500 code units long and has no U+FFFD; the progress warning is logged only on a 200 answer |
| Handler.NonPostRejected | api/chat.js:57-59 | any method but POST gets 405 "Method not allowed", whatever the upstream service does |
| Handler.UpstreamSeesInjectedHistory | api/chat.js:62-89 | the outcome depends on the upstream service only through its answer to the injected history |
| Handler.ProgressCheckIsDiagnostic | api/chat.js:116-121 | the progress-format test never changes the status or the message |
| Handler.StatusMapping | api/chat.js:61-128 | for a POST: no other 2xx status than 200, and 200 exactly when the body is readable and the call succeeded with usable content; a not-ok status passes through as the `ApiError` answer; each of the three exceptions (unreadable body at line 62, failed call, content on which `trim` throws at line 110) gives the `InternalError` answer for its message; success gives 200 with the sanitised content |
| Handler.MissingContentIsEmpty | api/chat.js:106 | a success reply without content gives 200 with an empty message |

## Left out

- The outbound `fetch`, the HTTP transport, JSON parsing and serialisation, and `apiResponse.text()` / `.json()` are foreign I/O. They appear only as the `Upstream` outcome a call returns for the history it was given.
- `process.env.DEEPSEEK_API_KEY` is global configuration. The handler does not check it.
- `console.error` and `console.warn` logging are left out. Only the progress warning is kept, as a flag, to show that it never affects the response.
- The progress-marker regular expression (line 117) is the parameter `hasProgressMarker`. Its emoji pattern is not modelled.
- The model name and the sampling parameters (lines 81-87) are constants passed to a foreign service.
- The prompt text (lines 3-54) is the opaque constant `History.SystemPrompt`. Only its cut to 1500 code units matters.
- `async`/`await` are not modelled: the handler has no concurrency.
- Messages are modelled as records with a string role and content. The `null` and non-object elements on which `m.role` would throw are not modelled, and neither are non-string roles (which never equal `"system"`).
- Exception messages worded by the JavaScript engine are parameters: the TypeError for a `null` or `undefined` body, and the one for a content value that has no `trim`. So is the message of a thrown value. A thrown value with no string `message` would make the `catch` branch itself throw; that case is not modelled.
- `slice(0, 1500)` may cut a surrogate pair in half. The model counts code units exactly as JavaScript does, but no property is stated about it.
