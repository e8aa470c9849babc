/**
 * The record endpoints of `app/main.py` that are not conversations: a user's excluded
 * terms (listed, added lower-cased without active duplicates, soft-deleted), the
 * administrators' prompt configurations (listed, created, partially updated), and the
 * details of a stored answer, whose SQL is run again.
 */
module Admin {
  import opened Wrappers
  import opened Text
  import opened Store
  import Schemas
  import Chat
  import Conversations

  const TERM_EXISTS := "El término ya está en la lista de excluidos"
  const TERM_NOT_FOUND := "Término no encontrado"
  const CONFIG_NOT_FOUND := "Configuración no encontrada"
  const MESSAGE_NOT_FOUND := "Mensaje no encontrado"
  const DETAILS_SAMPLE := 10

  // ----------------------------------------------------------- excluded terms

  /** The term is one of the user's active ones. */
  function ActiveTermFor(user: int): Keyed<ExcludedTerm> -> bool {
    (e: Keyed<ExcludedTerm>) => Chat.ActiveTermOf(e.row, user)
  }

  /** `listar_terminos_excluidos`: the user's active terms, with their keys. */
  function ListTerms(db: Db, user: int): (r: seq<Keyed<ExcludedTerm>>)
    ensures forall e :: e in r <==> Get(db.terms, e.id) == Some(e.row) && e.row.owner == user && e.row.active
  {
    var r := Filter(Entries(db.terms), ActiveTermFor(user));
    forall e ensures e in r <==> Get(db.terms, e.id) == Some(e.row) && e.row.owner == user && e.row.active {
      FilterMembers(Entries(db.terms), ActiveTermFor(user), e);
      EntriesAreRows(db.terms, e);
    }
    r
  }

  /** An active term of the user with exactly this text. */
  predicate HasActiveTerm(terms: seq<ExcludedTerm>, user: int, text: string) {
    exists i :: 0 <= i < |terms| && Chat.ActiveTermOf(terms[i], user) && terms[i].term == text
  }

  /** The table after an insertion and the inserted row with its key. */
  datatype TermAdded = TermAdded(db: Db, term: Keyed<ExcludedTerm>)

  /** `agregar_termino_excluido`: 400 when the user already has the lower-cased term
      active; otherwise it is stored lower-cased, owned by the user, active. */
  function AddTerm(db: Db, user: int, term: string, now: Time): (r: Result<TermAdded, HttpError>)
    ensures r.Failure? <==> HasActiveTerm(db.terms, user, Lower(term))
    ensures r.Failure? ==> r.error == HttpError(BAD_REQUEST, TERM_EXISTS)
    ensures r.Success? ==> && r.value.term == Keyed(|db.terms| + 1, ExcludedTerm(user, Lower(term), true, now))
                           && r.value.db == db.(terms := db.terms + [r.value.term.row])
  {
    var lowered := Lower(term);
    var p := (t: ExcludedTerm) => Chat.ActiveTermOf(t, user) && t.term == lowered;
    FirstSpec(db.terms, p);
    if First(db.terms, p).Some? then Failure(HttpError(BAD_REQUEST, TERM_EXISTS))
    else
      var t := ExcludedTerm(user, lowered, true, now);
      Success(TermAdded(db.(terms := Insert(db.terms, t)), Keyed(|db.terms| + 1, t)))
  }

  /** `eliminar_termino_excluido`: 404 unless the term is the user's; otherwise it is
      marked inactive, whatever its current state. */
  function DeleteTerm(db: Db, user: int, id: int): (r: Result<Db, HttpError>)
    ensures r.Success? <==> HasKey(db.terms, id) && db.terms[id - 1].owner == user
    ensures r.Failure? ==> r.error == HttpError(NOT_FOUND, TERM_NOT_FOUND)
    ensures r.Success? ==> && r.value == db.(terms := r.value.terms)
                           && |r.value.terms| == |db.terms|
                           && r.value.terms[id - 1] == db.terms[id - 1].(active := false)
                           && forall k :: 0 <= k < |db.terms| && k != id - 1 ==> r.value.terms[k] == db.terms[k]
  {
    if !(HasKey(db.terms, id) && db.terms[id - 1].owner == user) then Failure(HttpError(NOT_FOUND, TERM_NOT_FOUND))
    else Success(db.(terms := Put(db.terms, id, db.terms[id - 1].(active := false))))
  }

  /** Deleting a term twice is deleting it once. */
  lemma DeleteTermIdempotent(db: Db, user: int, id: int)
    requires DeleteTerm(db, user, id).Success?
    ensures DeleteTerm(DeleteTerm(db, user, id).value, user, id) == DeleteTerm(db, user, id)
  {
    var d := DeleteTerm(db, user, id).value;
    assert d.terms[id - 1 := d.terms[id - 1].(active := false)] == d.terms;
  }

  /** The terms table as the endpoints keep it: every term lower-case, and no user with
      the same text active twice. */
  ghost predicate TermsInvariant(terms: seq<ExcludedTerm>) {
    && (forall i :: 0 <= i < |terms| ==> Lower(terms[i].term) == terms[i].term)
    && (forall i, j :: 0 <= i < j < |terms| && terms[i].active && terms[j].active && terms[i].owner == terms[j].owner
          ==> terms[i].term != terms[j].term)
  }

  /** Lower-casing twice is lower-casing once. */
  lemma LowerIdempotent(s: string)
    ensures Lower(Lower(s)) == Lower(s)
  {
    LowerIsLower(s);
    assert forall i :: 0 <= i < |s| ==> LowerChar(Lower(s)[i]) == Lower(s)[i];
  }

  /** Adding and deleting terms keep the table's invariant. */
  lemma TermsInvariantKept(db: Db, user: int, term: string, now: Time, id: int)
    requires TermsInvariant(db.terms)
    ensures AddTerm(db, user, term, now).Success? ==> TermsInvariant(AddTerm(db, user, term, now).value.db.terms)
    ensures DeleteTerm(db, user, id).Success? ==> TermsInvariant(DeleteTerm(db, user, id).value.terms)
  {
    LowerIdempotent(term);
    if AddTerm(db, user, term, now).Success? {
      var t := AddTerm(db, user, term, now).value.db.terms;
      forall i, j | 0 <= i < j < |t| && t[i].active && t[j].active && t[i].owner == t[j].owner
        ensures t[i].term != t[j].term
      {
        if j == |db.terms| {
          assert !(Chat.ActiveTermOf(db.terms[i], user) && db.terms[i].term == Lower(term));
        } else {
          assert t[i] == db.terms[i] && t[j] == db.terms[j];
        }
      }
    }
  }

  /** An added term is among the words the chat pipeline deletes from the user's
      questions. */
  lemma AddedTermFilters(db: Db, user: int, term: string, now: Time)
    requires AddTerm(db, user, term, now).Success?
    ensures Lower(term) in Chat.ExcludedTermsFor(AddTerm(db, user, term, now).value.db.terms, user)
  {
    var t := AddTerm(db, user, term, now).value.db.terms;
    LowerIdempotent(term);
    Chat.ExcludedTermsMembers(t, user, Lower(term));
    assert Chat.ActiveTermOf(t[|db.terms|], user) && Lower(term) == Lower(t[|db.terms|].term);
  }

  /** Once an active term is deleted the pipeline stops deleting its text, and the same
      text can be added again. */
  lemma DeletedTermReleased(db: Db, user: int, id: int, now: Time)
    requires TermsInvariant(db.terms)
    requires DeleteTerm(db, user, id).Success? && db.terms[id - 1].active
    ensures var d := DeleteTerm(db, user, id).value;
            && db.terms[id - 1].term !in Chat.ExcludedTermsFor(d.terms, user)
            && AddTerm(d, user, db.terms[id - 1].term, now).Success?
  {
    var d := DeleteTerm(db, user, id).value;
    var w := db.terms[id - 1].term;
    Chat.ExcludedTermsMembers(d.terms, user, w);
    forall i | 0 <= i < |d.terms| && Chat.ActiveTermOf(d.terms[i], user)
      ensures Lower(d.terms[i].term) != w && d.terms[i].term != w
    {
      assert i != id - 1;
      assert d.terms[i] == db.terms[i];
      assert db.terms[i].term != w;
    }
    assert Lower(w) == w;
  }

  // ---------------------------------------------------------- prompt configs

  /** `listar_configuraciones_prompt`: the active configurations, with their keys. */
  function ListConfigs(db: Db): (r: seq<Keyed<PromptConfig>>)
    ensures forall e :: e in r <==> Get(db.configs, e.id) == Some(e.row) && e.row.active
  {
    var p := (e: Keyed<PromptConfig>) => e.row.active;
    var r := Filter(Entries(db.configs), p);
    forall e ensures e in r <==> Get(db.configs, e.id) == Some(e.row) && e.row.active {
      FilterMembers(Entries(db.configs), p, e);
      EntriesAreRows(db.configs, e);
    }
    r
  }

  /** The table after an insertion or update and the written row with its key. */
  datatype ConfigWritten = ConfigWritten(db: Db, config: Keyed<PromptConfig>)

  /** `crear_configuracion_prompt`: a new active configuration recorded as the
      administrator's. */
  function CreateConfig(db: Db, admin: int, context: string, prompt: string, now: Time): (r: ConfigWritten)
    ensures r.config == Keyed(|db.configs| + 1, PromptConfig(context, prompt, admin, now, true))
    ensures r.db == db.(configs := db.configs + [r.config.row])
  {
    var c := PromptConfig(context, prompt, admin, now, true);
    ConfigWritten(db.(configs := Insert(db.configs, c)), Keyed(|db.configs| + 1, c))
  }

  /** A configuration created for a context that had none active becomes the prompt the
      chat pipeline uses for it. */
  lemma CreatedConfigServes(db: Db, admin: int, context: string, prompt: string, now: Time)
    requires forall i :: 0 <= i < |db.configs| ==> !Chat.ServesContext(db.configs[i], context)
    ensures Chat.PromptFor(CreateConfig(db, admin, context, prompt, now).db.configs, context) == prompt
  {
    var t := CreateConfig(db, admin, context, prompt, now).db.configs;
    Chat.PromptForSpec(t, context);
    assert Chat.ServesContext(t[|db.configs|], context);
    assert forall j :: 0 <= j < |db.configs| ==> t[j] == db.configs[j];
  }

  /** `actualizar_configuracion_prompt`: 404 for an unknown key (active or not is not
      checked); otherwise every field the update gives replaces the stored one, the others
      are kept, and the modification time moves to `now`. */
  function UpdateConfig(db: Db, id: int, update: Schemas.PromptConfigUpdate, now: Time): (r: Result<ConfigWritten, HttpError>)
    ensures r.Success? <==> HasKey(db.configs, id)
    ensures r.Failure? ==> r.error == HttpError(NOT_FOUND, CONFIG_NOT_FOUND)
    ensures r.Success? ==>
              var old_ := db.configs[id - 1];
              var c := r.value.config.row;
              && r.value.config.id == id
              && r.value.db == db.(configs := db.configs[id - 1 := c])
              && c.context == (if update.context.Some? then update.context.value else old_.context)
              && c.systemPrompt == (if update.systemPrompt.Some? then update.systemPrompt.value else old_.systemPrompt)
              && c.active == (if update.active.Some? then update.active.value else old_.active)
              && c.createdBy == old_.createdBy && c.modified == now
  {
    if !HasKey(db.configs, id) then Failure(HttpError(NOT_FOUND, CONFIG_NOT_FOUND))
    else
      var old_ := db.configs[id - 1];
      var c := PromptConfig(update.context.GetOr(old_.context), update.systemPrompt.GetOr(old_.systemPrompt),
                            old_.createdBy, now, update.active.GetOr(old_.active));
      Success(ConfigWritten(db.(configs := Put(db.configs, id, c)), Keyed(id, c)))
  }

  /** An update that gives no field only moves the modification time; applying an update a
      second time changes nothing but that time. */
  lemma UpdateConfigPartial(db: Db, id: int, update: Schemas.PromptConfigUpdate, now: Time, later: Time)
    requires HasKey(db.configs, id)
    ensures UpdateConfig(db, id, Schemas.EmptyPromptConfigUpdate(), now).value.config.row
            == db.configs[id - 1].(modified := now)
    ensures var once := UpdateConfig(db, id, update, now).value.db;
            UpdateConfig(once, id, update, later).value.db == UpdateConfig(db, id, update, later).value.db
  {
    var once := UpdateConfig(db, id, update, now).value.db;
    assert once.configs[id - 1 := UpdateConfig(db, id, update, later).value.config.row]
           == db.configs[id - 1 := UpdateConfig(db, id, update, later).value.config.row];
  }

  // ------------------------------------------------------------------ details

  /** The details of a stored message. `total` and `sample` are present when its SQL ran
      again, `error` when that run failed. */
  datatype Details = Details(message: int, sql: Option<string>, timestamp: Time, available: bool,
                             total: Option<nat>, sample: Option<seq<Chat.Row>>, error: Option<string>)

  /** The message under `id` belongs to a conversation of the user's (the join; whether
      the conversation is still active is not checked). */
  predicate MessageOf(db: Db, user: int, id: int) {
    && HasKey(db.messages, id)
    && HasKey(db.conversations, db.messages[id - 1].conversation)
    && db.conversations[db.messages[id - 1].conversation - 1].owner == user
  }

  /** `obtener_detalles_contexto`: 404 unless the message is the user's; its SQL, when
      non-empty, is run again: the row count and the first ten rows on success, the error's
      text on failure. */
  function MessageDetails(db: Db, user: int, id: int, exec: string -> Chat.DbResult): (r: Result<Details, HttpError>)
    ensures r.Success? <==> MessageOf(db, user, id)
    ensures r.Failure? ==> r.error == HttpError(NOT_FOUND, MESSAGE_NOT_FOUND)
    ensures r.Success? ==> && r.value.message == id
                           && r.value.sql == db.messages[id - 1].sql
                           && r.value.timestamp == db.messages[id - 1].timestamp
    ensures r.Success? ==> (r.value.available <==> r.value.sql.Some? && r.value.sql.value != ""
                                                   && Chat.ExecuteSql(exec, r.value.sql.value).Success?)
    ensures r.Success? && r.value.available ==>
              var rows := Chat.ExecuteSql(exec, r.value.sql.value).value;
              && r.value.total == Some(|rows|)
              && r.value.sample == Some(rows[..Min(DETAILS_SAMPLE, |rows|)])
              && r.value.error.None?
    ensures r.Success? && !r.value.available ==> r.value.total.None? && r.value.sample.None?
    ensures r.Success? && r.value.error.Some? ==>
              !r.value.available && StartsWith(r.value.error.value, Chat.QUERY_ERROR_PREFIX)
    ensures r.Success? && r.value.sql.Some? && r.value.sql.value != ""
            && Chat.ExecuteSql(exec, r.value.sql.value).Failure?
            ==> r.value.error == Some(Chat.ExecuteSql(exec, r.value.sql.value).error)
    ensures r.Success? && (r.value.sql.None? || r.value.sql.value == "") ==> r.value.error.None?
  {
    if !MessageOf(db, user, id) then Failure(HttpError(NOT_FOUND, MESSAGE_NOT_FOUND))
    else
      var m := db.messages[id - 1];
      var base := Details(id, m.sql, m.timestamp, false, None, None, None);
      if m.sql.None? || m.sql.value == "" then Success(base)
      else
        Chat.ExecuteSqlSpec(exec, m.sql.value, 0, 0);
        match Chat.ExecuteSql(exec, m.sql.value)
        case Success(rows) =>
          Success(base.(available := true, total := Some(|rows|), sample := Some(rows[..Min(DETAILS_SAMPLE, |rows|)])))
        case Failure(e) => Success(base.(error := Some(e)))
  }

  /** The answer a chat turn stores can be opened in the details view by the user who
      asked, with the SQL the turn reported; it stays reachable after the conversation is
      deleted. */
  lemma ChatAnswerDetails(db: Db, user: int, req: Schemas.ChatRequest, llm: Chat.Llm,
                          exec: string -> Chat.DbResult, asked: Time, answered: Time)
    requires Conversations.ProcessChat(db, user, req, llm, exec, asked, answered).Answered?
    ensures var t := Conversations.ProcessChat(db, user, req, llm, exec, asked, answered);
            var d := MessageDetails(t.db, user, t.response.message, exec);
            && d.Success? && d.value.sql == t.response.sql
            && var gone := Conversations.Delete(t.db, user, t.response.conversation);
               gone.Success? && MessageDetails(gone.value, user, t.response.message, exec).Success?
  {
    var t := Conversations.ProcessChat(db, user, req, llm, exec, asked, answered);
    Conversations.ProcessChatSpec(db, user, req, llm, exec, asked, answered);
    var k := t.response.message;
    assert t.db.messages[k - 1].conversation == t.response.conversation;
    assert t.db.messages[k - 1].sql == t.response.sql;
  }
}
