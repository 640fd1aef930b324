# ORAMUSLIM-AI chat client — session store and exchange model

A Dafny model of the logic inside the browser chat client `script.js`. The client forwards a
user's question to a remote question-answering service and keeps the conversation history.
Rendering is stripped away. What is left is a small functional state machine:

- **Session store** (`session_store.dfy`, module `SessionStore`). The state is a `Store` of
  three parts:
  - `history`: the sessions, newest first (`chatHistory`);
  - `chat`: the live transcript (`currentChat`);
  - `chatId`: the optional active session id (`currentChatId`).

  `addMessage`, `saveToHistory`, `updateCurrentChatInHistory`, `loadChatFromHistory`,
  `newChat` and `clearAllHistory` are pure functions from one `Store` to the next.
- **Exchange controller** (`exchange.dfy`, module `Exchange`). This is `sendMessage`:
  - a trimmed-empty input is rejected;
  - otherwise the user message is appended and the request is issued (`Submit`, phase
    `Awaiting`);
  - then the reply is picked out of the body, the ORAMUSLIM-AI introduction is forced, and
    one assistant message is appended, either that reply or the fixed fallback (`Receive`,
    back to `Idle`).

  `RunTurns` chains turns one after another.
- **Text helpers** (`text.dfy`, module `Text`) reproduce JavaScript semantics:
  - truthiness of a string or `null`;
  - `String.prototype.trim`, with the ECMA-262 white-space and line-terminator set;
  - `String.prototype.includes`;
  - `Number.prototype.toString` for the `Date.now()` ids.
- `wrappers.dfy` holds `Option`, for `null` next to a value.

The main properties proved:
- the session for the active id mirrors the transcript after every `addMessage`;
- a session is created exactly for a user message that opens an empty transcript;
- loading never changes the history, and an unknown id changes nothing;
- starting a new chat and loading the old session back restores the state exactly;
- a turn appends nothing for blank input, and otherwise exactly one user and one assistant
  message, in that order;
- `n` answered turns from an alternating transcript add `2n` alternating messages;
- every assistant message mentions `ORAMUSLIM-AI` or `Assalamu'alaikum`, and the
  introduction step is idempotent.

Details of the code that the model follows:

- **HTTP status.** The code never reads `response.ok`: the body text of any response goes
  through reply selection, so `Outcome` has no status.
- **Unparsable body.** A body that is not JSON is not a failure: it is wrapped as
  `{response: body}` (script.js:214-218).
- **Single request in flight.** The disabled send button does not stop a second request: the
  Enter-key listener (script.js:319-324) calls `sendMessage` anyway.
- **The introduction need not name the brand.** The introduction step (script.js:229-231)
  only makes the reply mention the brand *or* the greeting. A reply that carries only
  `Assalamu'alaikum` passes unchanged and never names ORAMUSLIM-AI
  (`Exchange.GreetingAloneSkipsBrand`).
- **Loaded empty session.** A session is created when a user message opens an *empty*
  transcript, even when an empty session was just loaded. Loading a non-empty session never
  leads to a new one (`SessionStore.LoadedChatNeverCreates`).
- **JSON `null` body.** A body that parses to JSON `null` makes `parsedData.response` throw.
  That lands in the fallback path, as modelled by `Parsed.JsonNull`.

## Model

| member | source | states |
|---|---|---|
| `SessionStore.Initial` | script.js:10-13 | Startup state: the persisted history (or none when nothing was stored), an empty transcript, no active session |
| `SessionStore.Title` | script.js:78 | A title is at most 33 characters. The title fits in 30 iff the message does, and a message that fits is its own title. A longer message gives its first 30 characters followed by `...` |
| `SessionStore.TitleUnchangedIff` | script.js:78 | A message is its own title exactly when it has at most 30 characters, or is 33 long and ends in `...` |
| `SessionStore.TitleIdempotent` | script.js:78 | Re-titling a title changes nothing, so a title is stable once made |
| `SessionStore.FindIndex` | script.js:98 | `findIndex` on ids returns -1 iff no session has the id; otherwise it returns the first position holding it |
| `SessionStore.Find` | script.js:107 | `find` on ids returns nothing exactly when `findIndex` gives -1; otherwise it returns the session at that index |
| `SessionStore.FindIndexSameIds` | script.js:98-100 | Histories with the same ids position by position answer every id lookup identically, so rewriting messages never moves the active session |
| `SessionStore.FindIndexUnique` | script.js:98 | With unique ids, looking up a session's id finds that session |
| `SessionStore.SaveToHistory` | script.js:76-92 | The new session is at index 0, with id `Date.now().toString()`, the derived title and no messages. Every earlier session is kept, shifted by one. It becomes the active session and the transcript is untouched |
| `SessionStore.UpdateCurrentChatInHistory` | script.js:95-103 | With a falsy id or an unknown session: no change. Otherwise only the active session's messages change, to the transcript. Afterwards the active session always mirrors the transcript |
| `SessionStore.UpdateWhenSyncedIsNoOp` | script.js:95-103 | Syncing a session that already mirrors the transcript changes nothing |
| `SessionStore.AddMessage` | script.js:60-72 | The transcript grows by exactly the message, with role user/ai from `isUser`. A session is created iff a user message opens an empty transcript; it is then at the front, mirrors the transcript and is active. Otherwise the id is kept, only the active session's messages change, and without an active session the history is unchanged |
| `SessionStore.AddMessageKeepsOtherSessions` | script.js:98-102 | `addMessage` never touches a session other than the active one |
| `SessionStore.AddMessageKeepsIdsUnique` | script.js:77-88 | Ids stay unique under `addMessage` when the clock gives a fresh id |
| `SessionStore.LoadedChatNeverCreates` | script.js:66-69 | After loading a non-empty session, adding a message creates no session and keeps that session active and mirrored |
| `SessionStore.LoadChatFromHistory` | script.js:106-111 | An unknown id changes nothing. A known id becomes active and its messages become the transcript. The history never changes |
| `SessionStore.NewChat` | script.js:300-306 | A non-empty transcript is first synced into its session; then the transcript is empty and no session is active. Only message lists may have changed |
| `SessionStore.NewChatKeepsSyncedHistory` | script.js:300-306 | When the active session already mirrors the transcript, starting a new chat leaves the history unchanged |
| `SessionStore.NewChatThenLoadRestores` | script.js:106-111 | Leaving a linked session for a new chat and loading it back restores the state exactly |
| `SessionStore.ClearAllHistory` | script.js:287-297 | Confirmed: empty history, empty transcript, no active id. Not confirmed: no change |
| `SessionStore.LoadAndNewChatAndClearKeepValid` | script.js:287-306 | Loading, starting a new chat and clearing keep ids unique and the active session mirrored |
| `Text.Trim` | script.js:177 | `trim` is empty iff the input is all ECMA-262 white space. Otherwise it is the slice after the leading white space, followed only by white space, with no white space at either end |
| `Text.TrimIdempotent` | script.js:177-178 | Trimming a trimmed text changes nothing |
| `Text.DecimalString` | script.js:77 | `Date.now().toString()` is a non-empty digit string with no leading zero, so the new id is always truthy |
| `Text.DecimalRoundTrip` | script.js:77 | Reading the decimal id back gives the clock value |
| `Text.DecimalStringInjective` | script.js:77 | Distinct clock values give distinct ids |
| `Exchange.FieldsOf` | script.js:213-218 | Only a JSON `null` body has no readable fields. A body that is not JSON is wrapped as `{response: body}`, so it becomes its own reply, or the default text when it is empty |
| `Exchange.SelectReply` | script.js:224-226 | The selected reply is never empty |
| `Exchange.FirstTruthy` | script.js:224-226 | Reference definition of `a \|\| b \|\| ...`: it is absent iff every candidate is falsy; otherwise it is a truthy candidate with only falsy candidates before it |
| `Exchange.SelectReplyIsFirstTruthy` | script.js:224-226 | The reply is the first truthy value among response, answer, data, content, message, the raw body and the default text |
| `Exchange.EnsureIntro` | script.js:229-231 | The result mentions the brand or the greeting. It mentions the brand whenever the reply lacked the greeting. A reply already mentioning either is unchanged. The reply is always kept whole at the end |
| `Exchange.EnsureIntroIdempotent` | script.js:229-231 | Forcing the introduction twice is forcing it once |
| `Exchange.GreetingAloneSkipsBrand` | script.js:229-231 | Counterexample: `Assalamu'alaikum` alone passes unchanged and does not contain `ORAMUSLIM-AI` |
| `Exchange.FallbackMentionsBoth` | script.js:238 | The fallback text mentions both the brand and the greeting |
| `Exchange.ReplyText` | script.js:203-238 | The assistant text is never empty and mentions the brand or the greeting. A failure or a JSON `null` body gives the fallback. A non-JSON body gives the body with the introduction, or the default text when the body is empty. A JSON value gives its first truthy candidate (response, answer, data, content, message, body, default text) with the introduction |
| `Exchange.Submit` | script.js:177-187 | Blank input leaves the state as it was. Otherwise one user message with the trimmed text is appended and the request is in flight; the active session ends linked iff the transcript was empty or a session was active. An empty transcript gets a new session at the front, titled after the trimmed text and made active, with the rest of the history unchanged; otherwise only the active session's messages change |
| `Exchange.Receive` | script.js:233-241 | Exactly one assistant message is appended (reply or fallback); the send control is enabled again; the active id and history size are kept, and only the active session's messages change |
| `Exchange.SendMessage` | script.js:176-243 | The send control ends enabled. The state is unchanged iff the input is blank. Otherwise exactly a user message with the trimmed text and then one assistant message are appended; a failure appends the fallback. From an empty transcript, exactly one new session is put in front of the unchanged history, titled after the trimmed text, made active and mirroring the transcript; otherwise only the active session's messages change |
| `Exchange.LoadDuringRequestStrandsQuestion` | script.js:186-234 | Counterexample to atomic turns: opening a past session while the request is in flight sends the reply to that session's transcript, and the new session keeps only the user message |
| `Exchange.RunTurns` | script.js:176-243 | Turns run one after another leave the send control enabled and only ever append to the transcript |
| `Exchange.AppendTurnAlternates` | script.js:186-187 | A user message followed by an assistant message keeps a transcript alternating |
| `Exchange.SendMessageKeepsValid` | script.js:176-243 | When the clock gives an id no session has, a turn keeps the ids unique and the active session mirroring the transcript |
| `Exchange.SendMessageAlternates` | script.js:176-243 | One turn keeps an alternating transcript alternating and adds two messages for non-blank input, none for blank input |
| `Exchange.RunTurnsAlternate` | script.js:176-243 | `n` answered turns add `2n` messages and keep user/assistant alternation |
| `Exchange.RunTurnsKeepLinked` | script.js:66-72 | Once the active session mirrors a non-empty transcript, later turns keep it mirrored, keep the id and create no session |
| `Exchange.RunTurnsFromEmpty` | script.js:66-69 | From an empty transcript, turns with at least one answer create exactly one session, which then mirrors the transcript |
| `Exchange.SendMessageReplyIntroduced` | script.js:228-238 | The assistant message a turn appends mentions the brand or the greeting |
| `Exchange.RunTurnsRepliesIntroduced` | script.js:228-238 | Every assistant message appended over a run of turns mentions the brand or the greeting |

## Left out

- DOM rendering is not modelled: message bubbles, the welcome banner, sidebar toggling and
  active marking (`updateActiveChatInSidebar`, `loadHistory`), the typing indicator,
  scrolling, `autoResize`, focus and the decorative pattern. These are UI side effects with
  no state beyond what the store holds.
- `fetch`, the URL, `encodeURIComponent` and the system-prompt text are not modelled. The
  answering service is external, so its result is the `Outcome` parameter: a failure, or a
  body text together with its parse.
- `JSON.parse` is not modelled either. Its result is part of the `Outcome` parameter and is
  not tied to the body text.
- Non-string JSON field values are left out: a field is either absent or a string. A truthy
  number, boolean or object in a field would make `.includes` throw and land in the
  fallback. An array is joined into text unless one element equals the brand or the
  greeting, in which case it passes `Array.prototype.includes` and is stored as an array.
- `localStorage`, `saveHistory` and JSON serialisation of the history are left out.
  Persistence is taken as identity: `Initial` receives the persisted history, assumed to
  hold well-formed sessions.
- `Exchange.SendMessage`: assumes storage never fails. `saveHistory` calls
  `localStorage.setItem` (script.js:283), which can throw when the quota is exceeded or
  storage is blocked. The user message's `addMessage` (script.js:187) is outside the `try`,
  so `sendMessage` would then abort with the send button still disabled; the model always
  ends `Idle`.
- `Exchange.Receive`: assumes storage never fails. If saving throws inside the assistant
  message's `addMessage` (script.js:234), the reply is already in the transcript and the
  `catch` appends the fallback as well, giving two assistant messages; the model appends
  exactly one.
- `Date.now()`, `toLocaleTimeString`, `toISOString` and `confirm` are not modelled; they
  become parameters. A `Clock` carries the three clock readings of one `addMessage` call;
  `ClearAllHistory` takes the confirmation as a boolean.
- Async interleaving of overlapping requests is left out.
- `Exchange.SendMessage`: requires the `Idle` phase, modelling one request at a time. The
  Enter-key path could start a second request while one is in flight, and that interleaving
  is not modelled.
- `Exchange.SendMessage`: a turn is atomic in the model. In the code, other handlers can run
  while `sendMessage` waits on `fetch` and `response.text()` (script.js:206-211): a history
  click (`loadChatFromHistory`, script.js:276), `newChat` or `clearAllHistory`. The reply is
  then appended to whatever transcript is current, and the session that received the
  question keeps only the user message (`Exchange.LoadDuringRequestStrandsQuestion`). After
  a `newChat` in that window the reply opens an empty transcript, so the next user message
  is not the first one (script.js:67) and no session is ever created for that conversation.
- `SessionStore.Title`: lengths count Unicode scalar values. JavaScript counts UTF-16 code
  units, so for text outside the Basic Multilingual Plane the 30-unit cut differs, and in
  JavaScript it can split a surrogate pair.
- `Text.DecimalString`: models `toString` only in its plain decimal form. JavaScript uses
  exponent notation from 10^21 up, which `Date.now()` does not reach.
