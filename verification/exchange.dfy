/** The exchange controller of the client (`sendMessage` without the rendering): rejects a
    blank input, appends the trimmed user message, waits for the answering service, picks the
    reply out of the body, forces the ORAMUSLIM-AI introduction and appends it, or appends the
    fixed fallback when the request fails; the send control is re-enabled in every case. */
module Exchange {
  import opened Wrappers
  import opened Text
  import opened SessionStore

  const Brand := "ORAMUSLIM-AI"
  const Salam := "Assalamu'alaikum"

  /** Put in front of a reply that mentions neither the brand nor the greeting. */
  const Intro := Salam + ". Saya " + Brand + ", asisten AI Islami buatan Oradev.\n\n"

  /** The reply used when no field and no body text is truthy. */
  const NoReply := "Maaf, tidak ada respons."

  /** The message appended instead of a reply when the request fails. */
  const Fallback := Salam + ". Maaf, " + Brand + " sedang mengalami gangguan teknis. Oradev mungkin sedang memperbaiki sistem."

  /** The string-valued fields of the parsed body that the reply is picked from. */
  datatype Fields = Fields(
    response: Option<string>,
    answer: Option<string>,
    data: Option<string>,
    content: Option<string>,
    message: Option<string>)

  /** What `JSON.parse` made of the body: not JSON at all, the JSON `null`, or any other JSON
      value (for which only the string fields above are seen; a number, boolean or string
      value has none of them). */
  datatype Parsed = NotJson | JsonNull | JsonValue(fields: Fields)

  /** What the answering service gave: a failure (network error or an unreadable body), or a
      body text together with its parse. The HTTP status is not looked at. */
  datatype Outcome = Failed | Received(body: string, parsed: Parsed)

  // ---------------------------------------------------------------------------------------
  // Reply selection

  /** The fields to read: a body that is not JSON is read as `{response: body}`; reading a
      field of JSON `null` throws, which is `None` here. */
  function FieldsOf(body: string, parsed: Parsed): (f: Option<Fields>)
    ensures f.None? <==> parsed.JsonNull?
    // a body that is not JSON is its own reply, or the default text when it is empty
    ensures parsed.NotJson? ==> SelectReply(f.value, body) == (if body != "" then body else NoReply)
  {
    match parsed
    case NotJson => Some(Fields(Some(body), None, None, None, None))
    case JsonNull => None
    case JsonValue(fields) => Some(fields)
  }

  /** The `||` chain of `sendMessage`: the first truthy field among response, answer, data,
      content and message, else the raw body when non-empty, else the default text. */
  function SelectReply(f: Fields, body: string): (r: string)
    ensures r != ""
  {
    if Truthy(f.response) then f.response.value
    else if Truthy(f.answer) then f.answer.value
    else if Truthy(f.data) then f.data.value
    else if Truthy(f.content) then f.content.value
    else if Truthy(f.message) then f.message.value
    else if body != "" then body
    else NoReply
  }

  /** The candidates of the reply, in the order they are tried. */
  function Candidates(f: Fields, body: string): seq<Option<string>> {
    [f.response, f.answer, f.data, f.content, f.message, Some(body), Some(NoReply)]
  }

  /** Reference definition: the first truthy value of a list of candidates. */
  function FirstTruthy(c: seq<Option<string>>): (r: Option<string>)
    ensures r.None? <==> forall k :: 0 <= k < |c| ==> !Truthy(c[k])
    ensures r.Some? ==> exists k :: 0 <= k < |c| && c[k] == r && Truthy(c[k]) &&
                                    forall j :: 0 <= j < k ==> !Truthy(c[j])
  {
    if c == [] then None
    else if Truthy(c[0]) then c[0]
    else
      var r := FirstTruthy(c[1..]);
      assert forall k :: 1 <= k < |c| ==> c[k] == c[1..][k - 1];
      r
  }

  /** The chain picks exactly the first truthy candidate. */
  lemma SelectReplyIsFirstTruthy(f: Fields, body: string)
    ensures FirstTruthy(Candidates(f, body)) == Some(SelectReply(f, body))
  {
    var c := Candidates(f, body);
    assert Truthy(c[6]);
    var r := FirstTruthy(c);
    var k :| 0 <= k < |c| && c[k] == r && Truthy(c[k]) && forall j :: 0 <= j < k ==> !Truthy(c[j]);
    if k == 0 { assert c[k] == f.response; }
    else if k == 1 { assert !Truthy(c[0]); }
    else if k == 2 { assert !Truthy(c[0]) && !Truthy(c[1]); }
    else if k == 3 { assert !Truthy(c[0]) && !Truthy(c[1]) && !Truthy(c[2]); }
    else if k == 4 { assert !Truthy(c[0]) && !Truthy(c[1]) && !Truthy(c[2]) && !Truthy(c[3]); }
    else if k == 5 {
      assert !Truthy(c[0]) && !Truthy(c[1]) && !Truthy(c[2]) && !Truthy(c[3]) && !Truthy(c[4]);
    } else {
      assert !Truthy(c[0]) && !Truthy(c[1]) && !Truthy(c[2]) && !Truthy(c[3]) && !Truthy(c[4]) && !Truthy(c[5]);
    }
  }

  // ---------------------------------------------------------------------------------------
  // The introduction

  /** Puts the introduction in front of a reply that mentions neither the brand nor the
      greeting. The reply itself is always kept whole at the end. */
  function EnsureIntro(reply: string): (r: string)
    ensures Contains(r, Brand) || Contains(r, Salam)
    ensures !Contains(reply, Salam) ==> Contains(r, Brand)
    ensures Contains(reply, Brand) || Contains(reply, Salam) ==> r == reply
    ensures |reply| <= |r| && r[|r| - |reply|..] == reply
  {
    if !Contains(reply, Brand) && !Contains(reply, Salam) then
      ContainsInfix(Salam + ". Saya ", Brand, ", asisten AI Islami buatan Oradev.\n\n" + reply);
      assert Intro + reply == Salam + ". Saya " + Brand + (", asisten AI Islami buatan Oradev.\n\n" + reply);
      Intro + reply
    else
      reply
  }

  /** Forcing the introduction twice is forcing it once. */
  lemma EnsureIntroIdempotent(reply: string)
    ensures EnsureIntro(EnsureIntro(reply)) == EnsureIntro(reply)
  {
  }

  /** The introduction step does not promise the brand: a reply carrying only the greeting
      passes through unchanged and never mentions ORAMUSLIM-AI. */
  lemma GreetingAloneSkipsBrand()
    ensures EnsureIntro(Salam) == Salam
    ensures !Contains(Salam, Brand)
  {
    ContainsPrefix(Salam, Salam);
    forall i | 0 <= i <= |Salam| ensures !(Brand <= Salam[i..]) {
      if i <= |Salam| - |Brand| {
        assert Salam[i] != 'O';
      }
    }
  }

  /** The text appended for the assistant after a request with the given outcome. */
  function ReplyText(outcome: Outcome): (r: string)
    ensures r != ""
    ensures Contains(r, Brand) || Contains(r, Salam)
    ensures outcome.Failed? ==> r == Fallback
    ensures outcome.Received? && outcome.parsed.JsonNull? ==> r == Fallback
    ensures outcome.Received? && outcome.parsed.NotJson? ==>
      r == EnsureIntro(if outcome.body != "" then outcome.body else NoReply)
    ensures outcome.Received? && outcome.parsed.JsonValue? ==>
      && FirstTruthy(Candidates(outcome.parsed.fields, outcome.body)).Some?
      && r == EnsureIntro(FirstTruthy(Candidates(outcome.parsed.fields, outcome.body)).value)
  {
    match outcome
    case Failed => FallbackMentionsBoth(); Fallback
    case Received(body, parsed) =>
      match FieldsOf(body, parsed)
      case None => FallbackMentionsBoth(); Fallback
      case Some(f) => SelectReplyIsFirstTruthy(f, body); EnsureIntro(SelectReply(f, body))
  }

  /** The fallback apology greets and names the assistant. */
  lemma FallbackMentionsBoth()
    ensures Contains(Fallback, Brand) && Contains(Fallback, Salam)
  {
    ContainsInfix(Salam + ". Maaf, ", Brand, " sedang mengalami gangguan teknis. Oradev mungkin sedang memperbaiki sistem.");
    ContainsPrefix(Fallback, Salam);
  }

  // ---------------------------------------------------------------------------------------
  // One turn

  /** `Idle` while the send control is enabled; `Awaiting` while the request for `query` is
      in flight and the send control is disabled. */
  datatype Phase = Idle | Awaiting(query: string)

  datatype App = App(store: Store, phase: Phase)

  /** The first half of `sendMessage`: a blank input is dropped; otherwise the trimmed text
      is appended as a user message and the request is issued. */
  function Submit(app: App, input: string, clock: Clock): (r: App)
    ensures Blank(input) ==> r == app
    ensures !Blank(input) ==>
      && r.phase == Awaiting(Trim(input))
      && r.store.chat == app.store.chat + [Message(User, Trim(input), clock.localTime)]
      && Synced(r.store)
      && (Linked(r.store) <==> app.store.chat == [] || HasActiveSession(app.store))
      && |r.store.history| == |app.store.history| + (if app.store.chat == [] then 1 else 0)
      && (app.store.chat != [] ==> r.store.chatId == app.store.chatId)
    // the history changes only by the new session or by the active session's messages
    ensures !Blank(input) && app.store.chat == [] ==>
      && r.store.history[0] == Session(DecimalString(clock.millis), Title(Trim(input)), r.store.chat, clock.isoTime, Trim(input))
      && r.store.history[1..] == app.store.history
      && r.store.chatId == Some(DecimalString(clock.millis))
    ensures !Blank(input) && app.store.chat != [] ==> ActiveMessagesOnly(app.store, r.store)
  {
    var content := Trim(input);
    if content == [] then app
    else App(AddMessage(app.store, content, true, clock), Awaiting(content))
  }

  /** The second half of `sendMessage`: exactly one assistant message, the processed reply
      or the fallback, is appended and the send control is enabled again. */
  function Receive(app: App, outcome: Outcome, clock: Clock): (r: App)
    requires app.phase.Awaiting?
    ensures r.phase == Idle
    ensures r.store.chat == app.store.chat + [Message(Ai, ReplyText(outcome), clock.localTime)]
    ensures r.store.chatId == app.store.chatId && |r.store.history| == |app.store.history|
    ensures Linked(r.store) <==> HasActiveSession(app.store)
    ensures ActiveMessagesOnly(app.store, r.store)
  {
    App(AddMessage(app.store, ReplyText(outcome), false, clock), Idle)
  }

  /** `sendMessage` as one sequential step: nothing happens for a blank input; otherwise one
      user message carrying the trimmed text and then one assistant message are appended, the
      active session mirrors the transcript, and the send control ends enabled. */
  function SendMessage(app: App, input: string, outcome: Outcome, userClock: Clock, aiClock: Clock): (r: App)
    requires app.phase == Idle
    ensures r.phase == Idle
    ensures Blank(input) <==> r == app
    ensures !Blank(input) ==>
      && r.store.chat == app.store.chat + [Message(User, Trim(input), userClock.localTime),
                                           Message(Ai, ReplyText(outcome), aiClock.localTime)]
      && (Linked(r.store) <==> app.store.chat == [] || HasActiveSession(app.store))
      && |r.store.history| == |app.store.history| + (if app.store.chat == [] then 1 else 0)
      && (app.store.chat != [] ==> r.store.chatId == app.store.chatId)
    ensures !Blank(input) && outcome.Failed? ==> r.store.chat[|r.store.chat| - 1].content == Fallback
    // the history changes only by the new session or by the active session's messages
    ensures !Blank(input) && app.store.chat == [] ==>
      && r.store.history[0] == Session(DecimalString(userClock.millis), Title(Trim(input)), r.store.chat, userClock.isoTime, Trim(input))
      && r.store.history[1..] == app.store.history
      && r.store.chatId == Some(DecimalString(userClock.millis))
    ensures !Blank(input) && app.store.chat != [] ==> ActiveMessagesOnly(app.store, r.store)
  {
    var submitted := Submit(app, input, userClock);
    if submitted.phase.Awaiting? then
      var r := Receive(submitted, outcome, aiClock);
      if app.store.chat == [] then
        assert r.store.history[1..] == submitted.store.history[1..];
        r
      else
        ActiveMessagesOnlyTrans(app.store, submitted.store, r.store);
        r
    else submitted
  }

  /** Counterexample to treating a turn as atomic: when a past session is opened while the
      request is in flight, the reply lands in that session's transcript, and the session just
      created for the question keeps only the user message. */
  lemma LoadDuringRequestStrandsQuestion(app: App, input: string, outcome: Outcome, userClock: Clock,
                                         aiClock: Clock, id: string)
    requires app.phase == Idle && app.store.chat == [] && !Blank(input)
    requires FindIndex(app.store.history, DecimalString(userClock.millis)) == -1
    requires FindIndex(app.store.history, id) >= 0
    ensures var submitted := Submit(app, input, userClock);
      var loaded := App(LoadChatFromHistory(submitted.store, id), submitted.phase);
      var r := Receive(loaded, outcome, aiClock);
      && r.store.history[0].messages == [Message(User, Trim(input), userClock.localTime)]
      && r.store.chat == app.store.history[FindIndex(app.store.history, id)].messages
                         + [Message(Ai, ReplyText(outcome), aiClock.localTime)]
  {
    var submitted := Submit(app, input, userClock);
    var h := submitted.store.history;
    var user := Message(User, Trim(input), userClock.localTime);
    assert h[0].id == DecimalString(userClock.millis) && h[0].messages == [user];
    assert h[1..] == app.store.history;
    FindIndexBehindFront(h, id);
    var loaded := App(LoadChatFromHistory(submitted.store, id), submitted.phase);
    assert loaded.store.history == h && loaded.store.chatId == Some(id);
    assert loaded.store.chat == app.store.history[FindIndex(app.store.history, id)].messages;
    var r := Receive(loaded, outcome, aiClock);
    assert ActiveMessagesOnly(loaded.store, r.store);
    assert r.store.history[0] == h[0];
  }

  // ---------------------------------------------------------------------------------------
  // Several turns

  datatype Turn = Turn(input: string, outcome: Outcome, userClock: Clock, aiClock: Clock)

  /** The turns in order, each run to completion before the next; they only ever append to
      the transcript. */
  function RunTurns(app: App, turns: seq<Turn>): (r: App)
    requires app.phase == Idle
    ensures r.phase == Idle
    ensures app.store.chat <= r.store.chat
    decreases |turns|
  {
    if turns == [] then app
    else
      var t := turns[0];
      RunTurns(SendMessage(app, t.input, t.outcome, t.userClock, t.aiClock), turns[1..])
  }

  /** The number of turns whose input is not blank. */
  function Answered(turns: seq<Turn>): nat {
    if turns == [] then 0
    else (if Blank(turns[0].input) then 0 else 1) + Answered(turns[1..])
  }

  /** User and assistant messages alternate, starting with the user, in complete turns. */
  predicate Alternating(msgs: seq<Message>) {
    && |msgs| % 2 == 0
    && forall i :: 0 <= i < |msgs| ==> msgs[i].role == (if i % 2 == 0 then User else Ai)
  }

  /** A user message followed by an assistant message extends an alternating transcript. */
  lemma AppendTurnAlternates(msgs: seq<Message>, user: Message, ai: Message)
    requires Alternating(msgs) && user.role == User && ai.role == Ai
    ensures Alternating(msgs + [user, ai])
  {
  }

  /** One turn keeps an alternating transcript alternating: it adds nothing for a blank
      input and a user message followed by an assistant message otherwise. */
  lemma SendMessageAlternates(app: App, input: string, outcome: Outcome, userClock: Clock, aiClock: Clock)
    requires app.phase == Idle && Alternating(app.store.chat)
    ensures var c := SendMessage(app, input, outcome, userClock, aiClock).store.chat;
      Alternating(c) && |c| == |app.store.chat| + (if Blank(input) then 0 else 2)
  {
    if !Blank(input) {
      AppendTurnAlternates(app.store.chat, Message(User, Trim(input), userClock.localTime),
                           Message(Ai, ReplyText(outcome), aiClock.localTime));
    }
  }

  /** Each answered turn adds one user and one assistant message, so an alternating
      transcript stays alternating and grows by two per answered turn. */
  lemma {:induction false} RunTurnsAlternate(app: App, turns: seq<Turn>)
    requires app.phase == Idle && Alternating(app.store.chat)
    ensures Alternating(RunTurns(app, turns).store.chat)
    ensures |RunTurns(app, turns).store.chat| == |app.store.chat| + 2 * Answered(turns)
    decreases |turns|
  {
    if turns != [] {
      var t := turns[0];
      var next := SendMessage(app, t.input, t.outcome, t.userClock, t.aiClock);
      assert RunTurns(app, turns) == RunTurns(next, turns[1..]);
      SendMessageAlternates(app, t.input, t.outcome, t.userClock, t.aiClock);
      RunTurnsAlternate(next, turns[1..]);
    }
  }

  /** One turn keeps the store's invariant when the clock gives a fresh id: ids stay unique
      and the active session mirrors the transcript. */
  lemma SendMessageKeepsValid(app: App, input: string, outcome: Outcome, userClock: Clock, aiClock: Clock)
    requires app.phase == Idle && Valid(app.store)
    requires FindIndex(app.store.history, DecimalString(userClock.millis)) == -1
    ensures Valid(SendMessage(app, input, outcome, userClock, aiClock).store)
  {
    var r := SendMessage(app, input, outcome, userClock, aiClock).store;
    if !Blank(input) {
      if app.store.chat == [] {
        FreshFrontKeepsIdsUnique(r.history, app.store.history);
      } else {
        ActiveMessagesOnlyKeepsIdsUnique(app.store, r);
      }
    }
  }

  /** Once the active session mirrors the transcript, later turns keep it that way and
      create no session. */
  lemma {:induction false} RunTurnsKeepLinked(app: App, turns: seq<Turn>)
    requires app.phase == Idle && Linked(app.store) && app.store.chat != []
    ensures var r := RunTurns(app, turns).store;
      Linked(r) && r.chatId == app.store.chatId && |r.history| == |app.store.history|
    decreases |turns|
  {
    if turns != [] {
      var t := turns[0];
      var next := SendMessage(app, t.input, t.outcome, t.userClock, t.aiClock);
      assert RunTurns(app, turns) == RunTurns(next, turns[1..]);
      RunTurnsKeepLinked(next, turns[1..]);
    }
  }

  /** From an empty transcript, the first answered turn creates exactly one session, and from
      then on that session mirrors the transcript. */
  lemma {:induction false} RunTurnsFromEmpty(app: App, turns: seq<Turn>)
    requires app.phase == Idle && app.store.chat == [] && Answered(turns) > 0
    ensures var r := RunTurns(app, turns).store;
      Linked(r) && |r.history| == |app.store.history| + 1
    decreases |turns|
  {
    var t := turns[0];
    var next := SendMessage(app, t.input, t.outcome, t.userClock, t.aiClock);
    assert RunTurns(app, turns) == RunTurns(next, turns[1..]);
    if Blank(t.input) {
      assert Answered(turns[1..]) == Answered(turns);
      RunTurnsFromEmpty(next, turns[1..]);
    } else {
      RunTurnsKeepLinked(next, turns[1..]);
    }
  }

  /** Messages appended after a transcript mention the brand or the greeting whenever they
      are assistant messages. */
  ghost predicate RepliesIntroducedFrom(c: seq<Message>, n: nat) {
    forall i :: n <= i < |c| && c[i].role == Ai ==>
      Contains(c[i].content, Brand) || Contains(c[i].content, Salam)
  }

  /** The assistant message one turn appends mentions the brand or the greeting. */
  lemma SendMessageReplyIntroduced(app: App, input: string, outcome: Outcome, userClock: Clock, aiClock: Clock)
    requires app.phase == Idle
    ensures RepliesIntroducedFrom(SendMessage(app, input, outcome, userClock, aiClock).store.chat, |app.store.chat|)
  {
    var c := SendMessage(app, input, outcome, userClock, aiClock).store.chat;
    if !Blank(input) {
      assert c == app.store.chat + [Message(User, Trim(input), userClock.localTime),
                                    Message(Ai, ReplyText(outcome), aiClock.localTime)];
      assert forall i :: |app.store.chat| <= i < |c| && c[i].role == Ai ==> c[i].content == ReplyText(outcome);
    }
  }

  /** Every assistant message a run of turns appends mentions the brand or the greeting. */
  lemma {:induction false} RunTurnsRepliesIntroduced(app: App, turns: seq<Turn>)
    requires app.phase == Idle
    ensures RepliesIntroducedFrom(RunTurns(app, turns).store.chat, |app.store.chat|)
    decreases |turns|
  {
    if turns != [] {
      var t := turns[0];
      var next := SendMessage(app, t.input, t.outcome, t.userClock, t.aiClock);
      assert RunTurns(app, turns) == RunTurns(next, turns[1..]);
      var c := RunTurns(next, turns[1..]).store.chat;
      SendMessageReplyIntroduced(app, t.input, t.outcome, t.userClock, t.aiClock);
      RunTurnsRepliesIntroduced(next, turns[1..]);
      forall i | |app.store.chat| <= i < |c| && c[i].role == Ai
        ensures Contains(c[i].content, Brand) || Contains(c[i].content, Salam)
      {
        if i < |next.store.chat| { assert c[i] == next.store.chat[i]; }
      }
    }
  }
}
