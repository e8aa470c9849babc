/**
 * The conversation store (`app/conversations.py`) and the chat endpoint that wraps it
 * (`chat_endpoint` in `app/main.py`): conversations belong to one user, are hidden by a
 * soft delete, and collect the question and the answer of every chat exchange.
 */
module Conversations {
  import opened Wrappers
  import opened Text
  import opened Store
  import Schemas
  import Chat

  const NOT_FOUND_DETAIL := "Conversación no encontrada"
  const AUTO_TITLE := "Conversación "
  const CHAT_TITLE := "Chat sobre: "
  const CHAT_TITLE_LIMIT := 50
  const ELLIPSIS := "..."
  const INTERNAL_ERROR := 500
  const CHAT_ERROR_PREFIX := "Error al procesar consulta: "

  const CONVERSATION_NOT_FOUND := HttpError(NOT_FOUND, NOT_FOUND_DETAIL)

  // -------------------------------------------------------------- selections

  /** The conversation is the user's. */
  function OwnedBy(user: int): Conversation -> bool {
    (c: Conversation) => c.owner == user
  }

  /** The conversation is the user's and has not been deleted. */
  function OpenFor(user: int): Keyed<Conversation> -> bool {
    (e: Keyed<Conversation>) => e.row.owner == user && e.row.active
  }

  /** The message belongs to the conversation with key `id`. */
  function InConversation(id: int): Keyed<Message> -> bool {
    (e: Keyed<Message>) => e.row.conversation == id
  }

  /** The conversation under `id` exists, is the user's and is active: the condition of
      every query filtered on id, owner and `activa`. */
  predicate IsOpen(db: Db, user: int, id: int) {
    HasKey(db.conversations, id) && OpenFor(user)(Keyed(id, db.conversations[id - 1]))
  }

  /** The user's active conversations with their keys, in key order. */
  function OpenConversations(db: Db, user: int): (r: seq<Keyed<Conversation>>)
    ensures forall e :: e in r <==> e in Entries(db.conversations) && OpenFor(user)(e)
  {
    var r := Filter(Entries(db.conversations), OpenFor(user));
    forall e ensures e in r <==> e in Entries(db.conversations) && OpenFor(user)(e) {
      FilterMembers(Entries(db.conversations), OpenFor(user), e);
    }
    r
  }

  // ---------------------------------------------------------------- creation

  /** The table after an insertion and the inserted row with its key. */
  datatype Created = Created(db: Db, conversation: Keyed<Conversation>)

  /** The automatic title of a user's `n + 1`-th conversation. */
  function AutoTitle(n: nat): (t: string)
    ensures |t| > |AUTO_TITLE|
    ensures t[..|AUTO_TITLE|] == AUTO_TITLE && ParseInt(t[|AUTO_TITLE|..]) == Some(n + 1)
    ensures AllDigits(t[|AUTO_TITLE|..]) && t[|AUTO_TITLE|] != '0'
  {
    var t := AUTO_TITLE + IntToString(n + 1);
    assert t[|AUTO_TITLE|..] == IntToString(n + 1);
    IntToStringRoundTrip(n + 1);
    t
  }

  /** How many conversations the user has ever created, deleted ones included. */
  function CreatedCount(db: Db, user: int): nat {
    |Filter(db.conversations, OwnedBy(user))|
  }

  /** `crear_conversacion`: a missing or empty title is replaced by "Conversación n", n
      one more than the number of the user's conversations, deleted ones included. */
  function Create(db: Db, user: int, title: Option<string>, now: Time): (r: Created)
    ensures r.db == db.(conversations := db.conversations + [r.conversation.row])
    ensures r.conversation.id == |db.conversations| + 1
    ensures r.conversation.row.owner == user && r.conversation.row.active
    ensures r.conversation.row.started == now && r.conversation.row.lastActivity == now
    ensures r.conversation.row.title.Some?
    ensures title.Some? && title.value != "" ==> r.conversation.row.title == title
    ensures title.None? || title.value == "" ==>
              var t := r.conversation.row.title.value;
              |t| > |AUTO_TITLE| && t[..|AUTO_TITLE|] == AUTO_TITLE && ParseInt(t[|AUTO_TITLE|..]) == Some(CreatedCount(db, user) + 1)
  {
    var t := if title.Some? && title.value != "" then title.value else AutoTitle(CreatedCount(db, user));
    var c := Conversation(user, Some(t), now, now, true);
    Created(db.(conversations := Insert(db.conversations, c)), Keyed(|db.conversations| + 1, c))
  }

  /** A new conversation is open for its creator, and every other key is as before. */
  lemma CreateOpens(db: Db, user: int, title: Option<string>, now: Time, id: int)
    ensures var r := Create(db, user, title, now);
            IsOpen(r.db, user, r.conversation.id)
            && (id != r.conversation.id ==> (IsOpen(r.db, user, id) <==> IsOpen(db, user, id)))
  {
    var r := Create(db, user, title, now);
    assert r.db.conversations[|db.conversations|] == r.conversation.row;
    if HasKey(db.conversations, id) {
      assert r.db.conversations[id - 1] == db.conversations[id - 1];
    }
  }

  // ----------------------------------------------------------------- listing

  /** `obtener_conversaciones_usuario`: the user's active conversations, most recently
      active first, from position `skip`, at most `limit` of them. */
  function List(db: Db, user: int, skip: nat, limit: nat): (r: seq<Keyed<Conversation>>)
    ensures |r| <= limit
  {
    Page(SortBy(OpenConversations(db, user), NewestFirst()), skip, limit)
  }

  /** The listing key: later activity sorts first. */
  function NewestFirst(): Keyed<Conversation> -> int {
    (e: Keyed<Conversation>) => -(e.row.lastActivity as int)
  }

  /** Every listed conversation is an active one of the user's, the listing runs from the
      most to the least recently active, it holds as many as the window allows, it is the
      window at `skip` of the active conversations ordered newest first, and a window from
      the start that is wide enough lists every active conversation. */
  lemma ListSpec(db: Db, user: int, skip: nat, limit: nat)
    ensures var r := List(db, user, skip, limit);
            && (forall i :: 0 <= i < |r| ==>
                  Get(db.conversations, r[i].id) == Some(r[i].row) && r[i].row.owner == user && r[i].row.active)
            && (forall i, j :: 0 <= i < j < |r| ==> r[i].row.lastActivity >= r[j].row.lastActivity)
            && |r| == Min(limit, if skip <= |OpenConversations(db, user)| then |OpenConversations(db, user)| - skip else 0)
    ensures var open := OpenConversations(db, user);
            skip == 0 && limit >= |open| ==> multiset(List(db, user, skip, limit)) == multiset(open)
    ensures var r := List(db, user, skip, limit);
            exists s :: && multiset(s) == multiset(OpenConversations(db, user))
                        && SortedBy(s, NewestFirst())
                        && (forall i :: 0 <= i < |r| ==> skip + i < |s| && r[i] == s[skip + i])
  {
    ListRows(db, user, skip, limit);
    ListOrdered(db, user, skip, limit);
    var open := OpenConversations(db, user);
    if skip == 0 && limit >= |open| {
      SortBySpec(open, NewestFirst());
      assert List(db, user, skip, limit) == SortBy(open, NewestFirst());
    }
    ListWindow(db, user, skip, limit);
  }

  /** Every listed conversation is a stored, active conversation of the user's. */
  lemma ListRows(db: Db, user: int, skip: nat, limit: nat)
    ensures var r := List(db, user, skip, limit);
            forall i :: 0 <= i < |r| ==>
              Get(db.conversations, r[i].id) == Some(r[i].row) && r[i].row.owner == user && r[i].row.active
  {
    var open := OpenConversations(db, user);
    var sorted := SortBy(open, NewestFirst());
    SortBySpec(open, NewestFirst());
    var r := List(db, user, skip, limit);
    forall i | 0 <= i < |r|
      ensures Get(db.conversations, r[i].id) == Some(r[i].row) && r[i].row.owner == user && r[i].row.active
    {
      assert r[i] == sorted[skip + i];
      assert r[i] in multiset(open);
      EntriesAreRows(db.conversations, r[i]);
    }
  }

  /** The listing runs from the most to the least recently active conversation. */
  lemma ListOrdered(db: Db, user: int, skip: nat, limit: nat)
    ensures var r := List(db, user, skip, limit);
            forall i, j :: 0 <= i < j < |r| ==> r[i].row.lastActivity >= r[j].row.lastActivity
  {
    var sorted := SortBy(OpenConversations(db, user), NewestFirst());
    SortBySpec(OpenConversations(db, user), NewestFirst());
    var r := List(db, user, skip, limit);
    forall i, j | 0 <= i < j < |r|
      ensures r[i].row.lastActivity >= r[j].row.lastActivity
    {
      assert r[i] == sorted[skip + i] && r[j] == sorted[skip + j];
      assert NewestFirst()(sorted[skip + i]) <= NewestFirst()(sorted[skip + j]);
    }
  }

  /** The listing is the window at `skip` of the user's active conversations ordered
      newest first. */
  lemma ListWindow(db: Db, user: int, skip: nat, limit: nat)
    ensures var r := List(db, user, skip, limit);
            exists s :: && multiset(s) == multiset(OpenConversations(db, user))
                        && SortedBy(s, NewestFirst())
                        && (forall i :: 0 <= i < |r| ==> skip + i < |s| && r[i] == s[skip + i])
  {
    var sorted := SortBy(OpenConversations(db, user), NewestFirst());
    SortBySpec(OpenConversations(db, user), NewestFirst());
    var r := List(db, user, skip, limit);
    assert r == Page(sorted, skip, limit);
    assert forall i :: 0 <= i < |r| ==> skip + i < |sorted| && r[i] == sorted[skip + i];
  }

  // ---------------------------------------------------------------- fetching

  /** A conversation with its messages. */
  datatype WithMessages = WithMessages(conversation: Keyed<Conversation>, messages: seq<Keyed<Message>>)

  /** The messages of the conversation with key `id`, earliest first. */
  function MessagesOf(db: Db, id: int): (r: seq<Keyed<Message>>)
  {
    SortBy(Filter(Entries(db.messages), InConversation(id)), (e: Keyed<Message>) => e.row.timestamp)
  }

  /** A conversation's messages are all and only the messages stored for it, each once,
      in timestamp order. */
  lemma MessagesOfSpec(db: Db, id: int, m: Keyed<Message>)
    ensures var r := MessagesOf(db, id);
            && (forall i, j :: 0 <= i < j < |r| ==> r[i].row.timestamp <= r[j].row.timestamp)
            && (m in r <==> Get(db.messages, m.id) == Some(m.row) && m.row.conversation == id)
            && multiset(r)[m] <= 1
  {
    var mine := Filter(Entries(db.messages), InConversation(id));
    SortBySpec(mine, (e: Keyed<Message>) => e.row.timestamp);
    FilterMembers(Entries(db.messages), InConversation(id), m);
    EntriesAreRows(db.messages, m);
    assert m in MessagesOf(db, id) <==> m in multiset(mine);
    FilterDistinct(Entries(db.messages), InConversation(id));
    EntriesDistinct(db.messages);
  }

  /** No two positions of a sequence hold the same value. */
  ghost predicate Distinct<T>(s: seq<T>) {
    forall i, j :: 0 <= i < j < |s| ==> s[i] != s[j]
  }

  lemma EntriesDistinct<T>(t: seq<T>)
    ensures Distinct(Entries(t))
  {
  }

  lemma {:induction false} FilterDistinct<T>(s: seq<T>, p: T -> bool)
    ensures Distinct(s) ==> forall x :: multiset(Filter(s, p))[x] <= 1
  {
    if |s| > 0 && Distinct(s) {
      FilterDistinct(s[1..], p);
      assert Distinct(s[1..]) by {
        forall i, j | 0 <= i < j < |s[1..]| ensures s[1..][i] != s[1..][j] {
          assert s[1..][i] == s[i + 1] && s[1..][j] == s[j + 1];
        }
      }
      if p(s[0]) {
        FilterMembers(s[1..], p, s[0]);
        assert s[0] !in s[1..] by {
          forall i | 0 <= i < |s[1..]| ensures s[1..][i] != s[0] {
            assert s[1..][i] == s[i + 1];
          }
        }
        assert Filter(s, p) == [s[0]] + Filter(s[1..], p);
      }
    }
  }

  /** `obtener_conversacion_con_mensajes`: 404 unless the conversation exists, is the
      user's and is active; otherwise the conversation and its messages. */
  function Fetch(db: Db, user: int, id: int): (r: Result<WithMessages, HttpError>)
    ensures r.Success? <==> IsOpen(db, user, id)
    ensures r.Failure? ==> r.error == CONVERSATION_NOT_FOUND
    ensures r.Success? ==> r.value.conversation == Keyed(id, db.conversations[id - 1])
    ensures r.Success? ==> r.value.messages == MessagesOf(db, id)
  {
    if !IsOpen(db, user, id) then Failure(CONVERSATION_NOT_FOUND)
    else Success(WithMessages(Keyed(id, db.conversations[id - 1]), MessagesOf(db, id)))
  }

  // ---------------------------------------------------------------- deletion

  /** `eliminar_conversacion`: 404 unless the conversation is the user's; otherwise it is
      marked inactive, whatever its current state. */
  function Delete(db: Db, user: int, id: int): (r: Result<Db, HttpError>)
    ensures r.Success? <==> HasKey(db.conversations, id) && db.conversations[id - 1].owner == user
    ensures r.Failure? ==> r.error == CONVERSATION_NOT_FOUND
    ensures r.Success? ==> && r.value == db.(conversations := r.value.conversations)
                           && |r.value.conversations| == |db.conversations|
                           && r.value.conversations[id - 1] == db.conversations[id - 1].(active := false)
                           && forall k :: 0 <= k < |db.conversations| && k != id - 1
                                ==> r.value.conversations[k] == db.conversations[k]
  {
    if !(HasKey(db.conversations, id) && db.conversations[id - 1].owner == user) then Failure(CONVERSATION_NOT_FOUND)
    else Success(db.(conversations := Put(db.conversations, id, db.conversations[id - 1].(active := false))))
  }

  /** Deleting twice is deleting once. */
  lemma DeleteIdempotent(db: Db, user: int, id: int)
    requires Delete(db, user, id).Success?
    ensures Delete(Delete(db, user, id).value, user, id) == Delete(db, user, id)
  {
    var d := Delete(db, user, id).value;
    assert d.conversations[id - 1 := d.conversations[id - 1].(active := false)] == d.conversations;
  }

  /** A deleted conversation can no longer be fetched, renamed or continued, is no longer
      listed, and still counts towards the next automatic title. */
  lemma DeleteHides(db: Db, user: int, id: int, skip: nat, limit: nat)
    requires Delete(db, user, id).Success?
    ensures var d := Delete(db, user, id).value;
            && Fetch(d, user, id) == Failure(CONVERSATION_NOT_FOUND)
            && (forall e :: e in List(d, user, skip, limit) ==> e.id != id)
            && CreatedCount(d, user) == CreatedCount(db, user)
  {
    var d := Delete(db, user, id).value;
    ListSpec(d, user, skip, limit);
    OwnedCountPut(db.conversations, id, d.conversations[id - 1], user);
  }

  /** Overwriting a row with one of the same owner keeps the owner's count. */
  lemma OwnedCountPut(t: seq<Conversation>, id: int, c: Conversation, user: int)
    requires HasKey(t, id) && c.owner == t[id - 1].owner
    ensures |Filter(Put(t, id, c), OwnedBy(user))| == |Filter(t, OwnedBy(user))|
  {
    var i := id - 1;
    assert t == t[..i] + [t[i]] + t[i + 1..];
    assert Put(t, id, c) == t[..i] + [c] + t[i + 1..];
    FilterAppend(t[..i] + [t[i]], t[i + 1..], OwnedBy(user));
    FilterAppend(t[..i], [t[i]], OwnedBy(user));
    FilterAppend(t[..i] + [c], t[i + 1..], OwnedBy(user));
    FilterAppend(t[..i], [c], OwnedBy(user));
    assert |Filter([c], OwnedBy(user))| == |Filter([t[i]], OwnedBy(user))| by {
      assert [c][1..] == [] && [t[i]][1..] == [];
      assert OwnedBy(user)(c) == OwnedBy(user)(t[i]);
    }
  }

  // ------------------------------------------------------------- title update

  /** `actualizar_titulo_conversacion`: 404 unless the conversation is open for the user;
      otherwise the title is replaced as given and the activity time moves to `now`. */
  function UpdateTitle(db: Db, user: int, id: int, title: string, now: Time): (r: Result<Created, HttpError>)
    ensures r.Success? <==> IsOpen(db, user, id)
    ensures r.Failure? ==> r.error == CONVERSATION_NOT_FOUND
    ensures r.Success? ==> && r.value.conversation.id == id
                           && r.value.db == db.(conversations := db.conversations[id - 1 := r.value.conversation.row])
                           && r.value.conversation.row == db.conversations[id - 1].(title := Some(title), lastActivity := now)
  {
    if !IsOpen(db, user, id) then Failure(CONVERSATION_NOT_FOUND)
    else
      var c := db.conversations[id - 1].(title := Some(title), lastActivity := now);
      Success(Created(db.(conversations := Put(db.conversations, id, c)), Keyed(id, c)))
  }

  /** A renamed conversation is fetched with its new title and stays open. */
  lemma UpdateThenFetch(db: Db, user: int, id: int, title: string, now: Time)
    requires UpdateTitle(db, user, id, title, now).Success?
    ensures var d := UpdateTitle(db, user, id, title, now).value.db;
            Fetch(d, user, id).Success? && Fetch(d, user, id).value.conversation.row.title == Some(title)
  {
  }

  // ------------------------------------------------------------------ messages

  /** The table after a message was added and the new message's key. */
  datatype Added = Added(db: Db, message: int)

  /** `agregar_mensaje`: 404 unless the conversation exists and is active (its owner is not
      checked); otherwise the message is stored under the next key and the conversation's
      activity time moves to `now`. */
  function AddMessage(db: Db, id: int, role: Schemas.MessageRole, content: string, sql: Option<string>, now: Time)
    : (r: Result<Added, HttpError>)
    ensures r.Success? <==> HasKey(db.conversations, id) && db.conversations[id - 1].active
    ensures r.Failure? ==> r.error == CONVERSATION_NOT_FOUND
    ensures r.Success? ==>
              && r.value.message == |db.messages| + 1
              && r.value.db.messages == db.messages + [Message(id, Schemas.MessageRoleText(role), content, sql, now)]
              && r.value.db.conversations == db.conversations[id - 1 := db.conversations[id - 1].(lastActivity := now)]
              && r.value.db.users == db.users && r.value.db.terms == db.terms && r.value.db.configs == db.configs
  {
    if !(HasKey(db.conversations, id) && db.conversations[id - 1].active) then Failure(CONVERSATION_NOT_FOUND)
    else
      var m := Message(id, Schemas.MessageRoleText(role), content, sql, now);
      var c := db.conversations[id - 1].(lastActivity := now);
      Success(Added(db.(messages := Insert(db.messages, m), conversations := Put(db.conversations, id, c)), |db.messages| + 1))
  }

  /** An added message is among the messages its conversation is fetched with. */
  lemma AddThenFetch(db: Db, user: int, id: int, role: Schemas.MessageRole, content: string,
                     sql: Option<string>, now: Time)
    requires IsOpen(db, user, id)
    ensures var a := AddMessage(db, id, role, content, sql, now);
            && a.Success?
            && Fetch(a.value.db, user, id).Success?
            && Keyed(a.value.message, Message(id, Schemas.MessageRoleText(role), content, sql, now))
               in Fetch(a.value.db, user, id).value.messages
  {
    var a := AddMessage(db, id, role, content, sql, now).value;
    var m := Keyed(a.message, Message(id, Schemas.MessageRoleText(role), content, sql, now));
    MessagesOfSpec(a.db, id, m);
  }

  // ---------------------------------------------------------------- chat turn

  /** The title of a conversation opened by a chat question. */
  function ChatTitle(question: string): (t: string)
    ensures |t| <= |CHAT_TITLE| + CHAT_TITLE_LIMIT + |ELLIPSIS|
    ensures |t| >= |CHAT_TITLE| && t[..|CHAT_TITLE|] == CHAT_TITLE && EndsWith(t, ELLIPSIS)
    ensures |question| <= CHAT_TITLE_LIMIT ==> t == CHAT_TITLE + question + ELLIPSIS
    ensures |question| > CHAT_TITLE_LIMIT ==> t == CHAT_TITLE + question[..CHAT_TITLE_LIMIT] + ELLIPSIS
  {
    var t := CHAT_TITLE + question[..Min(CHAT_TITLE_LIMIT, |question|)] + ELLIPSIS;
    assert t[|t| - |ELLIPSIS|..] == ELLIPSIS;
    t
  }

  /** `ChatResponse`. */
  datatype ChatResponse = ChatResponse(answer: string, sql: Option<string>, conversation: int,
                                       message: int, context: Option<Chat.ContextData>)

  datatype Turn = Turn(db: Db, response: ChatResponse)

  /** The conversation a chat request continues, after creating one when the request names
      none (an id of 0 counts as none), or 404 when the named one is not open for the user. */
  function TurnConversation(db: Db, user: int, req: Schemas.ChatRequest, now: Time): (r: Result<Created, HttpError>)
    ensures r.Failure? <==> req.conversation.Some? && req.conversation.value != 0
                            && !IsOpen(db, user, req.conversation.value)
    ensures r.Failure? ==> r.error == CONVERSATION_NOT_FOUND
    ensures r.Success? ==> && IsOpen(r.value.db, user, r.value.conversation.id)
                           && r.value.db.messages == db.messages
                           && r.value.db.configs == db.configs && r.value.db.terms == db.terms
    ensures r.Success? && (req.conversation.None? || req.conversation.value == 0) ==>
              && r.value.conversation.id == |db.conversations| + 1
              && r.value.db.conversations[|db.conversations|].title == Some(ChatTitle(req.question))
    ensures r.Success? && req.conversation.Some? && req.conversation.value != 0 ==>
              r.value.db == db && r.value.conversation.id == req.conversation.value
  {
    if req.conversation.None? || req.conversation.value == 0 then
      var c := Create(db, user, Some(ChatTitle(req.question)), now);
      CreateOpens(db, user, Some(ChatTitle(req.question)), now, 0);
      Success(c)
    else if !IsOpen(db, user, req.conversation.value) then Failure(CONVERSATION_NOT_FOUND)
    else Success(Created(db, Keyed(req.conversation.value, db.conversations[req.conversation.value - 1])))
  }

  /** The key of the conversation a chat request continues: the one it names, or the one
      created for it. */
  function TurnId(db: Db, req: Schemas.ChatRequest): (id: int)
    ensures req.conversation.None? || req.conversation.value == 0 ==> id == |db.conversations| + 1
    ensures req.conversation.Some? && req.conversation.value != 0 ==> id == req.conversation.value
  {
    if req.conversation.None? || req.conversation.value == 0 then |db.conversations| + 1
    else req.conversation.value
  }

  /** How `procesar_mensaje_chat` ends. `Answered`: both messages are committed and the
      response is returned. `Refused`: an `HTTPException` is raised before anything is
      stored. `Aborted`: the question is committed, the generated SQL fails in the
      database, and since nothing rolls the session back, storing the answer raises. */
  datatype ChatOutcome = Answered(db: Db, response: ChatResponse)
                       | Refused(error: HttpError)
                       | Aborted(db: Db)

  /** `procesar_mensaje_chat` as written: store the question, answer it with the chat
      pipeline (in the default context), store the answer, and report the answer's key;
      a query the database rejected leaves the transaction aborted before the answer is
      stored. */
  function ProcessChat(db: Db, user: int, req: Schemas.ChatRequest, llm: Chat.Llm,
                       exec: string -> Chat.DbResult, asked: Time, answered: Time): (r: ChatOutcome)
    ensures r.Refused? ==> r.error == CONVERSATION_NOT_FOUND
  {
    match TurnConversation(db, user, req, asked)
    case Failure(e) => Refused(e)
    case Success(c) =>
      var id := c.conversation.id;
      match AddMessage(c.db, id, Schemas.Asker, req.question, None, asked)
      case Failure(e) => Refused(e)
      case Success(q) =>
        if Chat.QueryFailed(q.db.configs, q.db.terms, user, req.question, Chat.DEFAULT_CONTEXT, llm, exec) then
          Aborted(q.db)
        else
          var result := Chat.ProcessQuery(q.db.configs, q.db.terms, user, req.question, Chat.DEFAULT_CONTEXT, llm, exec);
          match AddMessage(q.db, id, Schemas.Assistant, result.answer, result.sql, answered)
          case Failure(e) => Refused(e)
          case Success(a) => Answered(a.db, ChatResponse(result.answer, result.sql, id, a.message, result.context))
  }

  /** `procesar_mensaje_chat` with the session rolled back after a failed query: the
      pipeline's error answer is then stored like any other. */
  function ProcessChatWithRollback(db: Db, user: int, req: Schemas.ChatRequest, llm: Chat.Llm,
                                   exec: string -> Chat.DbResult, asked: Time, answered: Time): (r: Result<Turn, HttpError>)
    ensures r.Failure? ==> r.error == CONVERSATION_NOT_FOUND
  {
    var c :- TurnConversation(db, user, req, asked);
    var id := c.conversation.id;
    var q :- AddMessage(c.db, id, Schemas.Asker, req.question, None, asked);
    var result := Chat.ProcessQuery(q.db.configs, q.db.terms, user, req.question, Chat.DEFAULT_CONTEXT, llm, exec);
    var a :- AddMessage(q.db, id, Schemas.Assistant, result.answer, result.sql, answered);
    Success(Turn(a.db, ChatResponse(result.answer, result.sql, id, a.message, result.context)))
  }

  /** Storing a question and then its answer in a conversation open for the user. */
  lemma StoreExchange(db: Db, user: int, id: int, question: string, answer: string, sql: Option<string>,
                      asked: Time, answered: Time)
    requires IsOpen(db, user, id)
    ensures var q := AddMessage(db, id, Schemas.Asker, question, None, asked);
            && q.Success?
            && q.value.db.configs == db.configs && q.value.db.terms == db.terms
            && q.value.db.messages == db.messages + [Message(id, "user", question, None, asked)]
            && IsOpen(q.value.db, user, id)
            && var a := AddMessage(q.value.db, id, Schemas.Assistant, answer, sql, answered);
               && a.Success?
               && a.value.message == |db.messages| + 2
               && a.value.db.messages == db.messages + [Message(id, "user", question, None, asked),
                                                        Message(id, "assistant", answer, sql, answered)]
               && IsOpen(a.value.db, user, id)
  {
    var q := AddMessage(db, id, Schemas.Asker, question, None, asked).value;
    assert q.db.conversations[id - 1] == db.conversations[id - 1].(lastActivity := asked);
    var a := AddMessage(q.db, id, Schemas.Assistant, answer, sql, answered).value;
    assert a.db.conversations[id - 1] == db.conversations[id - 1].(lastActivity := answered);
  }

  /** A chat turn is refused only for a named conversation that is not open for the user;
      otherwise the question is appended to the conversation, and the turn aborts exactly
      when the pipeline's query fails in the database. A turn that is not aborted appends
      the answer too, reports its key and relays the pipeline's result; a turn without a
      conversation id opens one titled after the question. */
  lemma ProcessChatSpec(db: Db, user: int, req: Schemas.ChatRequest, llm: Chat.Llm,
                        exec: string -> Chat.DbResult, asked: Time, answered: Time)
    ensures var r := ProcessChat(db, user, req, llm, exec, asked, answered);
            r.Refused? <==> req.conversation.Some? && req.conversation.value != 0
                            && !IsOpen(db, user, req.conversation.value)
    ensures var r := ProcessChat(db, user, req, llm, exec, asked, answered);
            r.Aborted? <==> !r.Refused?
                            && Chat.QueryFailed(db.configs, db.terms, user, req.question, Chat.DEFAULT_CONTEXT, llm, exec)
    ensures var r := ProcessChat(db, user, req, llm, exec, asked, answered);
            var id := TurnId(db, req);
            r.Aborted? ==>
              && r.db.messages == db.messages + [Message(id, "user", req.question, None, asked)]
              && IsOpen(r.db, user, id)
    ensures var r := ProcessChat(db, user, req, llm, exec, asked, answered);
            var result := Chat.ProcessQuery(db.configs, db.terms, user, req.question, Chat.DEFAULT_CONTEXT, llm, exec);
            var id := TurnId(db, req);
            r.Answered? ==>
              && r.db.messages == db.messages + [Message(id, "user", req.question, None, asked),
                                                 Message(id, "assistant", result.answer, result.sql, answered)]
              && r.response == ChatResponse(result.answer, result.sql, id, |db.messages| + 2, result.context)
              && IsOpen(r.db, user, id)
    ensures var r := ProcessChat(db, user, req, llm, exec, asked, answered);
            !r.Refused? && (req.conversation.None? || req.conversation.value == 0) ==>
              && (r.Answered? ==> r.db.conversations[|db.conversations|].title == Some(ChatTitle(req.question)))
              && (r.Aborted? ==> r.db.conversations[|db.conversations|].title == Some(ChatTitle(req.question)))
  {
    var t := TurnConversation(db, user, req, asked);
    if t.Success? {
      var c := t.value;
      var result := Chat.ProcessQuery(db.configs, db.terms, user, req.question, Chat.DEFAULT_CONTEXT, llm, exec);
      StoreExchange(c.db, user, c.conversation.id, req.question, result.answer, result.sql, asked, answered);
    }
  }

  /** With the rollback a chat turn fails only for a named conversation that is not open
      for the user; a successful one appends the question and then the answer to the same
      conversation, reports the answer's key, and relays the pipeline's result. */
  lemma ProcessChatWithRollbackSpec(db: Db, user: int, req: Schemas.ChatRequest, llm: Chat.Llm,
                                    exec: string -> Chat.DbResult, asked: Time, answered: Time)
    ensures var r := ProcessChatWithRollback(db, user, req, llm, exec, asked, answered);
            r.Failure? <==> req.conversation.Some? && req.conversation.value != 0
                            && !IsOpen(db, user, req.conversation.value)
    ensures var r := ProcessChatWithRollback(db, user, req, llm, exec, asked, answered);
            var result := Chat.ProcessQuery(db.configs, db.terms, user, req.question, Chat.DEFAULT_CONTEXT, llm, exec);
            var id := TurnId(db, req);
            r.Success? ==>
              && r.value.db.messages == db.messages + [Message(id, "user", req.question, None, asked),
                                                       Message(id, "assistant", result.answer, result.sql, answered)]
              && r.value.response == ChatResponse(result.answer, result.sql, id, |db.messages| + 2, result.context)
              && IsOpen(r.value.db, user, id)
    ensures var r := ProcessChatWithRollback(db, user, req, llm, exec, asked, answered);
            r.Success? && (req.conversation.None? || req.conversation.value == 0) ==>
              r.value.db.conversations[|db.conversations|].title == Some(ChatTitle(req.question))
  {
    var t := TurnConversation(db, user, req, asked);
    if t.Success? {
      var c := t.value;
      var result := Chat.ProcessQuery(db.configs, db.terms, user, req.question, Chat.DEFAULT_CONTEXT, llm, exec);
      StoreExchange(c.db, user, c.conversation.id, req.question, result.answer, result.sql, asked, answered);
    }
  }

  /** The rollback changes nothing about a turn that was answered. */
  lemma RollbackKeepsAnswered(db: Db, user: int, req: Schemas.ChatRequest, llm: Chat.Llm,
                              exec: string -> Chat.DbResult, asked: Time, answered: Time)
    ensures var r := ProcessChat(db, user, req, llm, exec, asked, answered);
            r.Answered? ==> ProcessChatWithRollback(db, user, req, llm, exec, asked, answered) == Success(Turn(r.db, r.response))
  {
    var t := TurnConversation(db, user, req, asked);
    if t.Success? {
      var id := t.value.conversation.id;
      var q := AddMessage(t.value.db, id, Schemas.Asker, req.question, None, asked);
      if q.Success? {
        var result := Chat.ProcessQuery(q.value.db.configs, q.value.db.terms, user, req.question, Chat.DEFAULT_CONTEXT, llm, exec);
        var a := AddMessage(q.value.db, id, Schemas.Assistant, result.answer, result.sql, answered);
        if a.Success? {
          var turn := Turn(a.value.db, ChatResponse(result.answer, result.sql, id, a.value.message, result.context));
          assert ProcessChatWithRollback(db, user, req, llm, exec, asked, answered) == Success(turn);
        }
      }
    }
  }

  /** With the rollback, an aborted turn is answered instead: with the database's error
      behind both prefixes, stored after the question the aborted turn kept. */
  lemma RollbackAnswersAborted(db: Db, user: int, req: Schemas.ChatRequest, llm: Chat.Llm,
                               exec: string -> Chat.DbResult, asked: Time, answered: Time)
    ensures var r := ProcessChat(db, user, req, llm, exec, asked, answered);
            var w := ProcessChatWithRollback(db, user, req, llm, exec, asked, answered);
            r.Aborted? ==>
              && Chat.QueryFailed(db.configs, db.terms, user, req.question, Chat.DEFAULT_CONTEXT, llm, exec)
              && var sql := Chat.GenerateSql(llm, Chat.FilteredQuestion(db.terms, user, req.question),
                                             Chat.PromptFor(db.configs, Chat.DEFAULT_CONTEXT)).value;
                 && w.Success?
                 && w.value.response.answer == Chat.PROCESSING_ERROR_PREFIX + (Chat.QUERY_ERROR_PREFIX + exec(sql).message)
                 && w.value.response.sql.None?
                 && w.value.db.messages == r.db.messages + [Message(TurnId(db, req), "assistant", w.value.response.answer, None, answered)]
  {
    var r := ProcessChat(db, user, req, llm, exec, asked, answered);
    if r.Aborted? {
      ProcessChatSpec(db, user, req, llm, exec, asked, answered);
      ProcessChatWithRollbackSpec(db, user, req, llm, exec, asked, answered);
      Chat.QueryFailedAnswer(db.configs, db.terms, user, req.question, Chat.DEFAULT_CONTEXT, llm, exec);
      var w := ProcessChatWithRollback(db, user, req, llm, exec, asked, answered);
      var result := Chat.ProcessQuery(db.configs, db.terms, user, req.question, Chat.DEFAULT_CONTEXT, llm, exec);
      var u := Message(TurnId(db, req), "user", req.question, None, asked);
      var a := Message(TurnId(db, req), "assistant", result.answer, result.sql, answered);
      assert w.value.db.messages == (db.messages + [u]) + [a];
    }
  }

  /** What `str()` gives for an `HTTPException`: status code and detail. */
  function ExceptionText(e: HttpError): string {
    IntToString(e.status) + ": " + e.detail
  }

  /** PostgreSQL's refusal of a statement sent in an aborted transaction. */
  const TRANSACTION_ABORTED := "current transaction is aborted, commands ignored until end of transaction block"

  /** What a request leaves behind: the committed tables and the HTTP response. */
  datatype Reply = Reply(db: Db, response: Result<ChatResponse, HttpError>)

  /** `chat_endpoint` as written: any exception, the 404 of a foreign or deleted
      conversation and the aborted transaction included, is turned into a 500; what was
      committed before it stays. */
  function ChatEndpointAsWritten(db: Db, user: int, req: Schemas.ChatRequest, llm: Chat.Llm,
                                 exec: string -> Chat.DbResult, asked: Time, answered: Time): (r: Reply)
    ensures r.response.Failure? ==> r.response.error.status == INTERNAL_ERROR
  {
    match ProcessChat(db, user, req, llm, exec, asked, answered)
    case Answered(d, response) => Reply(d, Success(response))
    case Refused(e) => Reply(db, Failure(HttpError(INTERNAL_ERROR, CHAT_ERROR_PREFIX + ExceptionText(e))))
    case Aborted(d) => Reply(d, Failure(HttpError(INTERNAL_ERROR, CHAT_ERROR_PREFIX + TRANSACTION_ABORTED)))
  }

  /** As written, the endpoint fails exactly for a named conversation that is not open for
      the user (with nothing stored) and for a query the database rejected (with the
      question stored and no answer). */
  lemma ChatEndpointAsWrittenSpec(db: Db, user: int, req: Schemas.ChatRequest, llm: Chat.Llm,
                                  exec: string -> Chat.DbResult, asked: Time, answered: Time)
    ensures var r := ChatEndpointAsWritten(db, user, req, llm, exec, asked, answered);
            var refused := req.conversation.Some? && req.conversation.value != 0
                           && !IsOpen(db, user, req.conversation.value);
            var failed := Chat.QueryFailed(db.configs, db.terms, user, req.question, Chat.DEFAULT_CONTEXT, llm, exec);
            && (r.response.Failure? <==> refused || failed)
            && (refused ==> r.db == db)
            && (!refused && failed ==>
                  r.db.messages == db.messages + [Message(TurnId(db, req), "user", req.question, None, asked)])
  {
    ProcessChatSpec(db, user, req, llm, exec, asked, answered);
  }

  /** `chat_endpoint` with both corrections: the session is rolled back after a failed
      query, and HTTP errors are passed through, as `registrar_usuario` does, so a
      conversation that is not open for the user is reported as not found. */
  function ChatEndpoint(db: Db, user: int, req: Schemas.ChatRequest, llm: Chat.Llm,
                        exec: string -> Chat.DbResult, asked: Time, answered: Time): (r: Result<Turn, HttpError>)
    ensures r.Failure? <==> req.conversation.Some? && req.conversation.value != 0
                            && !IsOpen(db, user, req.conversation.value)
    ensures r.Failure? ==> r.error == CONVERSATION_NOT_FOUND
  {
    ProcessChatWithRollbackSpec(db, user, req, llm, exec, asked, answered);
    ProcessChatWithRollback(db, user, req, llm, exec, asked, answered)
  }

  /** Continuing another user's conversation: the endpoint as written answers 500, the
      corrected one 404. */
  lemma ForeignConversationIs500(llm: Chat.Llm, exec: string -> Chat.DbResult)
    ensures var db := Db([], [Conversation(1, Some("Mine"), 0, 0, true)], [], [], []);
            var req := Schemas.ChatRequest("Who won?", Some(1));
            && ChatEndpointAsWritten(db, 2, req, llm, exec, 0, 0).response.Failure?
            && ChatEndpointAsWritten(db, 2, req, llm, exec, 0, 0).response.error.status == INTERNAL_ERROR
            && ChatEndpoint(db, 2, req, llm, exec, 0, 0) == Failure(CONVERSATION_NOT_FOUND)
  {
  }

  /** A new conversation whose generated SQL the database rejects: as written the request
      answers 500 and keeps only the question; with the rollback it answers with the
      database's error and stores that answer. */
  lemma FailedQueryIs500(db: Db, user: int, req: Schemas.ChatRequest, llm: Chat.Llm,
                         exec: string -> Chat.DbResult, asked: Time, answered: Time)
    requires req.conversation.None?
    requires Chat.QueryFailed(db.configs, db.terms, user, req.question, Chat.DEFAULT_CONTEXT, llm, exec)
    ensures var r := ChatEndpointAsWritten(db, user, req, llm, exec, asked, answered);
            && r.response.Failure? && r.response.error.status == INTERNAL_ERROR
            && r.db.messages == db.messages + [Message(|db.conversations| + 1, "user", req.question, None, asked)]
    ensures var w := ChatEndpoint(db, user, req, llm, exec, asked, answered);
            && w.Success? && StartsWith(w.value.response.answer, Chat.PROCESSING_ERROR_PREFIX)
            && |w.value.db.messages| == |db.messages| + 2
  {
    ChatEndpointAsWrittenSpec(db, user, req, llm, exec, asked, answered);
    RollbackAnswersAborted(db, user, req, llm, exec, asked, answered);
    ProcessChatSpec(db, user, req, llm, exec, asked, answered);
    ProcessChatWithRollbackSpec(db, user, req, llm, exec, asked, answered);
    var w := ChatEndpoint(db, user, req, llm, exec, asked, answered).value;
    assert w.response.answer[..|Chat.PROCESSING_ERROR_PREFIX|] == Chat.PROCESSING_ERROR_PREFIX;
  }

  // ------------------------------------------------------------------ summary

  /** The summary `obtener_estadisticas_conversaciones` returns. */
  datatype Stats = Stats(conversations: nat, messages: nat, lastActivity: Option<Time>)

  /** The message belongs to one of the user's active conversations (the join). */
  function InOpenConversation(db: Db, user: int): Message -> bool {
    (m: Message) => IsOpen(db, user, m.conversation)
  }

  /** The latest activity time among some conversations. */
  function Latest(s: seq<Keyed<Conversation>>): (r: Option<Time>)
    ensures r.None? <==> |s| == 0
    ensures r.Some? ==> (exists i :: 0 <= i < |s| && s[i].row.lastActivity == r.value)
                        && forall i :: 0 <= i < |s| ==> s[i].row.lastActivity <= r.value
  {
    if |s| == 0 then None
    else
      var rest := Latest(s[1..]);
      if rest.None? || s[0].row.lastActivity >= rest.value then Some(s[0].row.lastActivity)
      else
        assert forall i :: 1 <= i < |s| ==> s[i] == s[1..][i - 1];
        rest
  }

  /** `obtener_estadisticas_conversaciones`: the user's active conversations, the messages
      in them, and the latest activity among them. */
  function Summary(db: Db, user: int): (r: Stats)
    ensures r.conversations == |OpenConversations(db, user)|
    ensures r.lastActivity.None? <==> r.conversations == 0
    ensures r.messages == |Filter(db.messages, InOpenConversation(db, user))|
  {
    var open := OpenConversations(db, user);
    Stats(|open|, |Filter(db.messages, InOpenConversation(db, user))|, Latest(open))
  }

  /** The summary's latest activity is that of the first conversation of the listing. */
  lemma SummaryMatchesListing(db: Db, user: int)
    ensures var s := Summary(db, user);
            var top := List(db, user, 0, 1);
            s.lastActivity == (if top == [] then None else Some(top[0].row.lastActivity))
  {
    var open := OpenConversations(db, user);
    if |open| > 0 {
      SortByFirst(open, NewestFirst());
      var first := SortBy(open, NewestFirst())[0];
      assert List(db, user, 0, 1) == [first];
      var i :| 0 <= i < |open| && open[i].row.lastActivity == Latest(open).value;
      assert NewestFirst()(first) <= NewestFirst()(open[i]);
    }
  }

  /** The summary counts the stored messages that belong to one of the user's active
      conversations: a message is among them exactly when it is stored and its
      conversation is open for the user. */
  lemma SummaryMessages(db: Db, user: int, m: Message)
    ensures Summary(db, user).messages == |Filter(db.messages, InOpenConversation(db, user))|
    ensures m in Filter(db.messages, InOpenConversation(db, user))
            <==> m in db.messages && IsOpen(db, user, m.conversation)
  {
    FilterMembers(db.messages, InOpenConversation(db, user), m);
  }

  /** Adding a message raises the user's message count by one exactly when it goes to one
      of the user's active conversations, and leaves it unchanged otherwise. */
  lemma SummaryCountsAdded(db: Db, user: int, id: int, role: Schemas.MessageRole, content: string,
                           sql: Option<string>, now: Time)
    requires AddMessage(db, id, role, content, sql, now).Success?
    ensures Summary(AddMessage(db, id, role, content, sql, now).value.db, user).messages
            == Summary(db, user).messages + (if IsOpen(db, user, id) then 1 else 0)
  {
    var d := AddMessage(db, id, role, content, sql, now).value.db;
    var m := Message(id, Schemas.MessageRoleText(role), content, sql, now);
    assert forall c :: IsOpen(d, user, c) == IsOpen(db, user, c) by {
      forall c ensures IsOpen(d, user, c) == IsOpen(db, user, c) {
        if HasKey(db.conversations, c) {
          assert d.conversations[c - 1].owner == db.conversations[c - 1].owner;
          assert d.conversations[c - 1].active == db.conversations[c - 1].active;
        }
      }
    }
    FilterAppend(db.messages, [m], InOpenConversation(d, user));
    FilterSame(db.messages, InOpenConversation(d, user), InOpenConversation(db, user));
    assert [m][1..] == [];
  }
}
