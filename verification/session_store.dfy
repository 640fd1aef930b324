/** The chat-session store of the client: the in-memory state `chatHistory` (sessions, newest
    first), `currentChat` (the live transcript) and `currentChatId` (the active session, if
    any), and the transitions that `addMessage`, `saveToHistory`,
    `updateCurrentChatInHistory`, `loadChatFromHistory`, `newChat` and `clearAllHistory`
    apply to it once rendering is stripped away. */
module SessionStore {
  import opened Wrappers
  import opened Text

  /** A clock reading rendered as text (`toLocaleTimeString` or `toISOString`); opaque here. */
  type Timestamp = string

  datatype Role = User | Ai

  datatype Message = Message(role: Role, content: string, timestamp: Timestamp)

  datatype Session = Session(
    id: string,
    title: string,
    messages: seq<Message>,
    timestamp: Timestamp,
    firstMessage: string)

  datatype Store = Store(history: seq<Session>, chat: seq<Message>, chatId: Option<string>)

  /** What one call of `addMessage` reads from the environment: `Date.now()` in milliseconds,
      the local time of the message and the ISO time of a session it creates. */
  datatype Clock = Clock(millis: nat, localTime: Timestamp, isoTime: Timestamp)

  /** Titles keep at most this many characters of the first message. */
  const TitleLimit: nat := 30

  const Ellipsis := "..."

  function RoleOf(isUser: bool): Role {
    if isUser then User else Ai
  }

  // ---------------------------------------------------------------------------------------
  // Titles

  /** The sidebar title of a session: the first message when it fits in the limit, else its
      first 30 characters followed by an ellipsis. */
  function Title(firstMessage: string): (t: string)
    ensures |t| <= TitleLimit + |Ellipsis|
    ensures |t| <= TitleLimit <==> |firstMessage| <= TitleLimit
    ensures |firstMessage| <= TitleLimit ==> t == firstMessage
    ensures |firstMessage| > TitleLimit ==> t[..TitleLimit] == firstMessage[..TitleLimit] && t[TitleLimit..] == Ellipsis
  {
    if |firstMessage| > TitleLimit then firstMessage[..TitleLimit] + Ellipsis else firstMessage
  }

  /** A message is its own title exactly when it fits, or when it already is a 30-character
      prefix followed by the ellipsis. */
  lemma TitleUnchangedIff(m: string)
    ensures Title(m) == m <==> |m| <= TitleLimit || (|m| == TitleLimit + |Ellipsis| && m[TitleLimit..] == Ellipsis)
  {
  }

  /** A title, once made, is stable: titling it again changes nothing. */
  lemma TitleIdempotent(m: string)
    ensures Title(Title(m)) == Title(m)
  {
  }

  // ---------------------------------------------------------------------------------------
  // Lookup by id

  /** `Array.prototype.findIndex` on session ids: the first position holding `id`, or -1. */
  function FindIndex(h: seq<Session>, id: string): (r: int)
    ensures -1 <= r < |h|
    ensures r == -1 <==> forall i :: 0 <= i < |h| ==> h[i].id != id
    ensures 0 <= r ==> h[r].id == id && forall i :: 0 <= i < r ==> h[i].id != id
  {
    if h == [] then -1
    else if h[0].id == id then 0
    else
      var k := FindIndex(h[1..], id);
      if k == -1 then -1 else k + 1
  }

  /** `Array.prototype.find` on session ids: the first session holding `id`, the same one
      `FindIndex` points at. */
  function Find(h: seq<Session>, id: string): (r: Option<Session>)
    ensures r.None? <==> FindIndex(h, id) == -1
    ensures r.Some? ==> r.value == h[FindIndex(h, id)]
  {
    if h == [] then None
    else if h[0].id == id then Some(h[0])
    else Find(h[1..], id)
  }

  /** Behind a front session with another id, a session is found one place further on. */
  lemma FindIndexBehindFront(h: seq<Session>, id: string)
    requires |h| > 0 && h[0].id != id && FindIndex(h[1..], id) >= 0
    ensures FindIndex(h, id) == FindIndex(h[1..], id) + 1
  {
  }

  /** Sequences with the same ids position by position answer every lookup alike. */
  lemma FindIndexSameIds(a: seq<Session>, b: seq<Session>, id: string)
    requires |a| == |b|
    requires forall i :: 0 <= i < |a| ==> a[i].id == b[i].id
    ensures FindIndex(a, id) == FindIndex(b, id)
  {
  }

  /** No id occurs twice in the history. */
  predicate UniqueIds(h: seq<Session>) {
    forall i, j :: 0 <= i < j < |h| ==> h[i].id != h[j].id
  }

  /** With unique ids, a session found by id is the one session carrying it. */
  lemma FindIndexUnique(h: seq<Session>, k: nat)
    requires UniqueIds(h) && k < |h|
    ensures FindIndex(h, h[k].id) == k
  {
  }

  // ---------------------------------------------------------------------------------------
  // Invariants of the store

  /** The active session is the one `updateCurrentChatInHistory` would write to: a truthy
      `currentChatId` whose session is in the history. */
  predicate HasActiveSession(st: Store) {
    Truthy(st.chatId) && FindIndex(st.history, st.chatId.value) >= 0
  }

  /** The history entry of the active session, if there is one, mirrors `currentChat`. */
  predicate Synced(st: Store) {
    HasActiveSession(st) ==> st.history[FindIndex(st.history, st.chatId.value)].messages == st.chat
  }

  /** There is an active session and it mirrors `currentChat`. */
  predicate Linked(st: Store) {
    HasActiveSession(st) && Synced(st)
  }

  /** `b` is `a` with at most the message lists changed, session by session. */
  predicate SameSessionsExceptMessages(a: seq<Session>, b: seq<Session>) {
    |a| == |b| && forall i :: 0 <= i < |a| ==> b[i] == a[i].(messages := b[i].messages)
  }

  /** `b` is `a` with the session at position `k` (if any) carrying `msgs` and no other change. */
  predicate OnlyMessagesAt(a: seq<Session>, b: seq<Session>, k: int, msgs: seq<Message>) {
    && |a| == |b|
    && (0 <= k < |a| ==> b[k] == a[k].(messages := msgs))
    && forall i :: 0 <= i < |a| && i != k ==> b[i] == a[i]
  }

  /** `b` is `a` where at most the active session's messages changed, to `b`'s transcript, and
      the active id is kept. */
  predicate ActiveMessagesOnly(a: Store, b: Store) {
    && b.chatId == a.chatId
    && (HasActiveSession(a) ==>
          OnlyMessagesAt(a.history, b.history, FindIndex(a.history, a.chatId.value), b.chat))
    && (!HasActiveSession(a) ==> b.history == a.history)
  }

  /** Two steps that each change only the active session's messages change only those. */
  lemma ActiveMessagesOnlyTrans(a: Store, b: Store, c: Store)
    requires ActiveMessagesOnly(a, b) && ActiveMessagesOnly(b, c)
    ensures ActiveMessagesOnly(a, c)
  {
    if HasActiveSession(a) {
      FindIndexSameIds(a.history, b.history, a.chatId.value);
    }
  }

  /** Putting a session with a fresh id in front of a history with unique ids keeps them unique. */
  lemma FreshFrontKeepsIdsUnique(h: seq<Session>, rest: seq<Session>)
    requires |h| > 0 && h[1..] == rest
    requires UniqueIds(rest) && FindIndex(rest, h[0].id) == -1
    ensures UniqueIds(h)
  {
    assert forall i :: 0 < i < |h| ==> h[i] == rest[i - 1];
  }

  /** Changing only the active session's messages keeps the ids unique. */
  lemma ActiveMessagesOnlyKeepsIdsUnique(a: Store, b: Store)
    requires ActiveMessagesOnly(a, b) && UniqueIds(a.history)
    ensures UniqueIds(b.history)
  {
    if HasActiveSession(a) {
      assert forall i :: 0 <= i < |b.history| ==> b.history[i].id == a.history[i].id;
    }
  }

  // ---------------------------------------------------------------------------------------
  // Transitions

  /** The state right after loading: the persisted history (or an empty one when nothing
      was stored), an empty transcript and no active session. */
  function Initial(persisted: Option<seq<Session>>): (st: Store)
    ensures st.chat == [] && st.chatId == None
    ensures persisted.Some? ==> st.history == persisted.value
    ensures persisted.None? ==> st.history == []
    ensures Synced(st) && !HasActiveSession(st)
  {
    Store(persisted.GetOr([]), [], None)
  }

  /** `saveToHistory`: a new session, titled after `firstMessage` and with no messages yet,
      goes to the front of the history and becomes the active one. */
  function SaveToHistory(st: Store, firstMessage: string, clock: Clock): (r: Store)
    ensures |r.history| == |st.history| + 1
    ensures forall i :: 0 <= i < |st.history| ==> r.history[i + 1] == st.history[i]
    ensures r.history[0].id == DecimalString(clock.millis)
    ensures r.history[0].title == Title(firstMessage) && r.history[0].firstMessage == firstMessage
    ensures r.history[0].messages == [] && r.history[0].timestamp == clock.isoTime
    ensures r.chatId == Some(r.history[0].id) && HasActiveSession(r) && FindIndex(r.history, r.chatId.value) == 0
    ensures r.chat == st.chat
  {
    var id := DecimalString(clock.millis);
    var s := Session(id, Title(firstMessage), [], clock.isoTime, firstMessage);
    Store([s] + st.history, st.chat, Some(id))
  }

  /** `updateCurrentChatInHistory`: copies `currentChat` into the active session; does
      nothing when the id is falsy or names no session. */
  function UpdateCurrentChatInHistory(st: Store): (r: Store)
    ensures r.chat == st.chat && r.chatId == st.chatId
    ensures Synced(r)
    ensures HasActiveSession(r) <==> HasActiveSession(st)
    ensures !HasActiveSession(st) ==> r == st
    ensures HasActiveSession(st) ==>
      OnlyMessagesAt(st.history, r.history, FindIndex(st.history, st.chatId.value), st.chat)
    ensures SameSessionsExceptMessages(st.history, r.history)
  {
    if !Truthy(st.chatId) then st
    else
      var i := FindIndex(st.history, st.chatId.value);
      if i == -1 then st
      else
        var h := st.history[i := st.history[i].(messages := st.chat)];
        FindIndexSameIds(st.history, h, st.chatId.value);
        Store(h, st.chat, st.chatId)
  }

  /** Writing the transcript into a session that already mirrors it changes nothing. */
  lemma UpdateWhenSyncedIsNoOp(st: Store)
    requires Synced(st)
    ensures UpdateCurrentChatInHistory(st) == st
  {
  }

  /** `addMessage` without the rendering: appends the message to `currentChat`, creates a
      session when this is a user message opening an empty transcript, then syncs the active
      session. */
  function AddMessage(st: Store, content: string, isUser: bool, clock: Clock): (r: Store)
    ensures r.chat == st.chat + [Message(RoleOf(isUser), content, clock.localTime)]
    ensures Synced(r)
    // a session is created exactly for a user message opening an empty transcript
    ensures isUser && st.chat == [] ==>
      && |r.history| == |st.history| + 1
      && r.history[0] == Session(DecimalString(clock.millis), Title(content), r.chat, clock.isoTime, content)
      && r.history[1..] == st.history
      && r.chatId == Some(DecimalString(clock.millis))
      && Linked(r) && FindIndex(r.history, r.chatId.value) == 0
    // otherwise only the active session's messages may change
    ensures !(isUser && st.chat == []) ==>
      && r.chatId == st.chatId
      && (HasActiveSession(r) <==> HasActiveSession(st))
      && (!HasActiveSession(st) ==> r.history == st.history)
      && (HasActiveSession(st) ==>
            OnlyMessagesAt(st.history, r.history, FindIndex(st.history, st.chatId.value), r.chat))
  {
    var pushed := st.(chat := st.chat + [Message(RoleOf(isUser), content, clock.localTime)]);
    var saved := if isUser && |pushed.chat| == 1 then SaveToHistory(pushed, content, clock) else pushed;
    UpdateCurrentChatInHistory(saved)
  }

  /** `loadChatFromHistory`: makes the session with `id` active and its messages the
      transcript; an unknown id changes nothing. The history itself never changes. */
  function LoadChatFromHistory(st: Store, id: string): (r: Store)
    ensures r.history == st.history
    ensures FindIndex(st.history, id) == -1 ==> r == st
    ensures FindIndex(st.history, id) >= 0 ==>
      r.chatId == Some(id) && r.chat == st.history[FindIndex(st.history, id)].messages
    ensures FindIndex(st.history, id) >= 0 ==> Synced(r) && (id != "" ==> Linked(r))
  {
    match Find(st.history, id)
    case None => st
    case Some(s) => Store(st.history, s.messages, Some(id))
  }

  /** `newChat`: syncs a non-empty transcript into its session, then starts an empty
      transcript with no active session. */
  function NewChat(st: Store): (r: Store)
    ensures r.chat == [] && r.chatId == None
    ensures SameSessionsExceptMessages(st.history, r.history)
    ensures st.chat != [] && HasActiveSession(st) ==>
      OnlyMessagesAt(st.history, r.history, FindIndex(st.history, st.chatId.value), st.chat)
    ensures st.chat == [] || !HasActiveSession(st) ==> r.history == st.history
  {
    var synced := if |st.chat| > 0 then UpdateCurrentChatInHistory(st) else st;
    Store(synced.history, [], None)
  }

  /** `clearAllHistory`: when the user confirms, everything is reset; otherwise nothing
      changes. */
  function ClearAllHistory(st: Store, confirmed: bool): (r: Store)
    ensures confirmed ==> r.history == [] && r.chat == [] && r.chatId == None
    ensures !confirmed ==> r == st
  {
    if confirmed then NewChat(Store([], [], None)) else st
  }

  // ---------------------------------------------------------------------------------------
  // Properties across transitions

  /** A store whose active session mirrors the transcript keeps its history when a new chat
      is started. */
  lemma NewChatKeepsSyncedHistory(st: Store)
    requires Synced(st)
    ensures NewChat(st).history == st.history
  {
  }

  /** Leaving a linked session for a new chat and loading it back restores the state exactly:
      selecting a past session reproduces its messages. */
  lemma NewChatThenLoadRestores(st: Store)
    requires Linked(st)
    ensures LoadChatFromHistory(NewChat(st), st.chatId.value) == st
  {
  }

  /** Adding messages to a loaded, non-empty session never creates a session: the history
      keeps its length and the loaded session stays active and mirrored. */
  lemma LoadedChatNeverCreates(st: Store, id: string, content: string, isUser: bool, clock: Clock)
    requires id != "" && FindIndex(st.history, id) >= 0
    requires st.history[FindIndex(st.history, id)].messages != []
    ensures var r := AddMessage(LoadChatFromHistory(st, id), content, isUser, clock);
      |r.history| == |st.history| && r.chatId == Some(id) && Linked(r)
  {
  }

  /** The messages of a session other than the active one are never touched by `addMessage`. */
  lemma AddMessageKeepsOtherSessions(st: Store, content: string, isUser: bool, clock: Clock, k: nat)
    requires !(isUser && st.chat == [])
    requires k < |st.history|
    requires !HasActiveSession(st) || k != FindIndex(st.history, st.chatId.value)
    ensures AddMessage(st, content, isUser, clock).history[k] == st.history[k]
  {
  }

  /** Ids stay unique under `addMessage` when the clock reading gives a fresh id. */
  lemma AddMessageKeepsIdsUnique(st: Store, content: string, isUser: bool, clock: Clock)
    requires UniqueIds(st.history)
    requires FindIndex(st.history, DecimalString(clock.millis)) == -1
    ensures UniqueIds(AddMessage(st, content, isUser, clock).history)
  {
  }

  /** The store's invariant: unique ids and a mirrored active session. Loading, starting a new
      chat and clearing keep it; a turn keeps it when the clock gives a fresh id
      (`Exchange.SendMessageKeepsValid`). */
  ghost predicate Valid(st: Store) {
    UniqueIds(st.history) && Synced(st)
  }

  lemma LoadAndNewChatAndClearKeepValid(st: Store, id: string, confirmed: bool)
    requires Valid(st)
    ensures Valid(LoadChatFromHistory(st, id))
    ensures Valid(NewChat(st))
    ensures Valid(ClearAllHistory(st, confirmed))
  {
  }
}
