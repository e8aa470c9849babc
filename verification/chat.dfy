/**
 * The chat query pipeline (app/chat.py): the question is stripped of the user's
 * excluded terms, a language model turns it into SQL, the SQL runs against the medal
 * table, and the model phrases the rows as an answer. The language model and the
 * database are oracles passed in as functions.
 */
module Chat {
  import opened Wrappers
  import opened Text
  import opened Store

  // ------------------------------------------------------------ system prompt

  const DEFAULT_CONTEXT := "deportivo"

  /** The prompt used when no active configuration exists for the context. */
  const DEFAULT_PROMPT := "Eres un asistente especializado en análisis de datos olímpicos. \n"
    + "    Proporciona respuestas precisas y profesionales sobre medallas, atletas, \n"
    + "    países y estadísticas olímpicas."

  predicate ServesContext(c: PromptConfig, context: string) {
    c.context == context && c.active
  }

  /** `obtener_prompt_contexto`: the first active configuration for the context, else the
      default prompt. */
  function PromptFor(configs: seq<PromptConfig>, context: string): string {
    match First(configs, c => ServesContext(c, context))
    case Some(c) => c.systemPrompt
    case None => DEFAULT_PROMPT
  }

  /** The prompt comes from the first active configuration of the context in key order,
      and the default is used exactly when there is none. */
  lemma PromptForSpec(configs: seq<PromptConfig>, context: string)
    ensures (forall i :: 0 <= i < |configs| ==> !ServesContext(configs[i], context))
            ==> PromptFor(configs, context) == DEFAULT_PROMPT
    ensures forall i :: 0 <= i < |configs| && ServesContext(configs[i], context)
                        && (forall j :: 0 <= j < i ==> !ServesContext(configs[j], context))
                        ==> PromptFor(configs, context) == configs[i].systemPrompt
  {
    var p := (c: PromptConfig) => ServesContext(c, context);
    FirstSpec(configs, p);
    forall i | 0 <= i < |configs| && ServesContext(configs[i], context)
               && (forall j :: 0 <= j < i ==> !ServesContext(configs[j], context))
      ensures PromptFor(configs, context) == configs[i].systemPrompt
    {
      assert p(configs[i]);
      var k :| 0 <= k < |configs| && configs[k] == First(configs, p).value && p(configs[k])
               && forall j :: 0 <= j < k ==> !p(configs[j]);
      assert ServesContext(configs[k], context);
      assert k == i;
    }
  }

  // ----------------------------------------------------------- excluded terms

  predicate ActiveTermOf(t: ExcludedTerm, user: int) {
    t.owner == user && t.active
  }

  /** `w` is the lower-cased text of one of the user's active terms. */
  predicate ExcludedBy(terms: seq<ExcludedTerm>, user: int, w: string) {
    exists i :: 0 <= i < |terms| && ActiveTermOf(terms[i], user) && w == Lower(terms[i].term)
  }

  /** `obtener_terminos_excluidos`: the user's active terms, lower-cased, in table order. */
  function ExcludedTermsFor(terms: seq<ExcludedTerm>, user: int): (r: seq<string>)
    ensures |r| <= |terms|
    ensures forall k :: 0 <= k < |r| ==> ExcludedBy(terms, user, r[k])
  {
    if |terms| == 0 then []
    else
      var head := if ActiveTermOf(terms[0], user) then [Lower(terms[0].term)] else [];
      var rest := ExcludedTermsFor(terms[1..], user);
      assert forall k :: 0 <= k < |head| ==> ExcludedBy(terms, user, head[k]);
      assert forall k :: 0 <= k < |rest| ==> ExcludedBy(terms, user, rest[k]) by {
        forall k | 0 <= k < |rest| {
          ExcludedByTail(terms, user, rest[k]);
        }
      }
      head + rest
  }

  /** A term of the user's found after the first row is one of the user's terms. */
  lemma ExcludedByTail(terms: seq<ExcludedTerm>, user: int, w: string)
    requires |terms| > 0 && ExcludedBy(terms[1..], user, w)
    ensures ExcludedBy(terms, user, w)
  {
    var j :| 0 <= j < |terms[1..]| && ActiveTermOf(terms[1..][j], user) && w == Lower(terms[1..][j].term);
    assert terms[j + 1] == terms[1..][j];
  }

  /** A word is used for filtering exactly when it is the lower-cased text of one of the
      user's active terms. */
  lemma {:induction false} ExcludedTermsMembers(terms: seq<ExcludedTerm>, user: int, w: string)
    ensures w in ExcludedTermsFor(terms, user)
            <==> exists i :: 0 <= i < |terms| && ActiveTermOf(terms[i], user) && w == Lower(terms[i].term)
  {
    if |terms| > 0 {
      ExcludedTermsMembers(terms[1..], user, w);
      if exists i :: 0 <= i < |terms| && ActiveTermOf(terms[i], user) && w == Lower(terms[i].term) {
        var i :| 0 <= i < |terms| && ActiveTermOf(terms[i], user) && w == Lower(terms[i].term);
        if i > 0 {
          assert terms[1..][i - 1] == terms[i];
        }
      }
      if w in ExcludedTermsFor(terms[1..], user) {
        var i :| 0 <= i < |terms[1..]| && ActiveTermOf(terms[1..][i], user) && w == Lower(terms[1..][i].term);
        assert terms[i + 1] == terms[1..][i];
      }
    }
  }

  // --------------------------------------------------------- question filter

  /** Deleting every occurrence of each term, one term after the other in list order. */
  function RemoveTerms(q: string, terms: seq<string>): (r: string)
    ensures |r| <= |q|
    decreases terms
  {
    if |terms| == 0 then q else RemoveTerms(RemoveAll(q, terms[0]), terms[1..])
  }

  /** `filtrar_pregunta_por_terminos_excluidos`. An empty term list leaves the question
      exactly as typed; otherwise the terms are deleted and the whitespace is collapsed to
      single spaces, so the result is never longer than the question. */
  function FilterQuestion(q: string, terms: seq<string>): (r: string)
    ensures |terms| == 0 ==> r == q
    ensures |terms| > 0 ==> SingleSpaced(r)
    ensures |r| <= |q|
  {
    if |terms| == 0 then q
    else
      NormalizeShorter(RemoveTerms(q, terms));
      NormalizeSingleSpaced(RemoveTerms(q, terms));
      Normalize(RemoveTerms(q, terms))
  }

  /** With terms, the filtered question has the same words as the question after the
      deletions. */
  lemma FilterQuestionWords(q: string, terms: seq<string>)
    requires |terms| > 0
    ensures Words(FilterQuestion(q, terms)) == Words(RemoveTerms(q, terms))
  {
    WordsOfJoin(Words(RemoveTerms(q, terms)));
  }

  /** Terms that do not occur in the question delete nothing. */
  lemma {:induction false} RemoveAbsentTerms(q: string, terms: seq<string>)
    requires forall t :: t in terms ==> !Contains(q, t)
    ensures RemoveTerms(q, terms) == q
  {
    if |terms| > 0 {
      RemoveAllAbsent(q, terms[0]);
      assert forall t :: t in terms[1..] ==> t in terms;
      RemoveAbsentTerms(q, terms[1..]);
    }
  }

  /** Deleting a term can create a new occurrence of it: the result is not free of the
      terms in general. */
  lemma DeletionCanCreateTerm()
    ensures RemoveAll("aabb", "ab") == "ab"
  {
    assert "aabb"[0..2] != "ab" by {
      assert "aabb"[0..2][1] != "ab"[1];
    }
    assert "aabb"[1..3] == "ab";
    assert IndexFrom("aabb", "ab", 0) == Some(1);
    assert RemoveFrom("aabb", "ab", 3) == "b";
  }

  // ---------------------------------------------------------- SQL extraction

  const FENCE := "```"
  const SQL_FENCE := "```sql"

  /** The cleaning of the model's reply in `obtener_consulta_sql`: the text after the first
      "```sql" up to the next "```", or else the text between the first two "```", or else
      the reply itself. */
  function StripFences(s: string): (r: string)
    ensures Trimmed(s) ==> Trimmed(r)
  {
    if Contains(s, SQL_FENCE) then Strip(Split(Split(s, SQL_FENCE)[1], FENCE)[0])
    else if Contains(s, FENCE) then Strip(Split(s, FENCE)[1])
    else s
  }

  /** The SQL taken from a reply of the model: the reply is stripped, then unfenced. */
  function ExtractSql(reply: string): (r: string)
    ensures Trimmed(r)
  {
    StripFences(Strip(reply))
  }

  /** A fenced reply yields a trimmed text with no fence left in it; an unfenced reply
      yields the stripped reply. */
  lemma ExtractSqlSpec(reply: string)
    ensures Contains(Strip(reply), FENCE) ==> !Contains(ExtractSql(reply), FENCE)
    ensures !Contains(Strip(reply), FENCE) && !Contains(Strip(reply), SQL_FENCE)
            ==> ExtractSql(reply) == Strip(reply)
  {
    var s := Strip(reply);
    if Contains(s, SQL_FENCE) {
      var piece := Split(s, SQL_FENCE)[1];
      SplitPiecesLack(piece, FENCE, 0);
      assert Split(piece, FENCE)[0] in Split(piece, FENCE);
      StripKeepsAbsence(Split(piece, FENCE)[0], FENCE);
    } else if Contains(s, FENCE) {
      SplitPiecesLack(s, FENCE, 0);
      assert Split(s, FENCE)[1] in Split(s, FENCE);
      StripKeepsAbsence(Split(s, FENCE)[1], FENCE);
    }
  }

  /** Without "```sql", the SQL is the trimmed text between the first fence and the next
      one (or the end of the reply). */
  lemma ExtractPlainFence(reply: string, k: nat)
    requires !Contains(Strip(reply), SQL_FENCE)
    requires IndexOf(Strip(reply), FENCE) == Some(k)
    ensures ExtractSql(reply) == Strip(Strip(reply)[k + 3..match IndexFrom(Strip(reply), FENCE, k + 3)
                                                             case None => |Strip(reply)|
                                                             case Some(m) => m])
  {
    SplitSecond(Strip(reply), FENCE, k);
  }

  /** With "```sql" first at `k`, the SQL is the trimmed text after it, cut at the next
      "```sql" (or the end of the reply) and then at the first "```" of what remains; when
      no second "```sql" follows, that is the text up to the next "```" of the reply (or
      its end). */
  lemma ExtractSqlFence(reply: string, k: nat)
    requires IndexOf(Strip(reply), SQL_FENCE) == Some(k)
    ensures var s := Strip(reply);
      var piece := s[k + 6..match IndexFrom(s, SQL_FENCE, k + 6) case None => |s| case Some(m) => m];
      ExtractSql(reply) == Strip(piece[..match IndexOf(piece, FENCE) case None => |piece| case Some(j) => j])
    ensures var s := Strip(reply);
      IndexFrom(s, SQL_FENCE, k + 6).None? ==>
        ExtractSql(reply) == Strip(s[k + 6..match IndexFrom(s, FENCE, k + 6) case None => |s| case Some(m) => m])
  {
    SqlFenceCut(Strip(reply), k);
  }

  lemma SqlFenceCut(s: string, k: nat)
    requires IndexOf(s, SQL_FENCE) == Some(k)
    ensures var piece := s[k + 6..match IndexFrom(s, SQL_FENCE, k + 6) case None => |s| case Some(m) => m];
      StripFences(s) == Strip(piece[..match IndexOf(piece, FENCE) case None => |piece| case Some(j) => j])
    ensures IndexFrom(s, SQL_FENCE, k + 6).None? ==>
      StripFences(s) == Strip(s[k + 6..match IndexFrom(s, FENCE, k + 6) case None => |s| case Some(m) => m])
  {
    SecondThenFirst(s, SQL_FENCE, FENCE, k);
    if IndexFrom(s, SQL_FENCE, k + 6).None? {
      LastThenFirst(s, SQL_FENCE, FENCE, k);
    }
  }

  // ------------------------------------------------------------ the oracles

  /** What one call to the language model produced. `ApiError` is any `anthropic.APIError`
      (authentication failures included); `OtherError` is any other exception. */
  datatype LlmOutcome = Reply(text: string) | ApiError(message: string) | OtherError(message: string)

  /** A database value. `Temporal` stands for values with `isoformat` (dates, times,
      timestamps) and carries that ISO text; `Decimal` is a `NUMERIC` result (an average,
      say), which JSON cannot encode, and carries its digits. */
  datatype Value = Null | Bool(b: bool) | Int(i: int) | Str(s: string) | Temporal(iso: string)
                 | Decimal(digits: string)

  /** A result row as the pipeline hands it on: column name to value. */
  type Row = map<string, Value>

  /** The language model client: missing when it could not be initialised, otherwise one
      oracle for SQL generation and one for the final answer. */
  datatype Llm = NoClient
               | Client(sqlFor: (string, string) -> LlmOutcome,
                        answerFor: (seq<Row>, string, string) -> LlmOutcome)

  /** What `db.execute` produced: column names and raw rows, or the error's text. */
  datatype DbResult = Rows(columns: seq<string>, rows: seq<seq<Value>>) | DbFailure(message: string)

  const NO_CLIENT := "Cliente de Anthropic no inicializado"
  const API_ERROR_PREFIX := "Error de API de Anthropic: "
  const SQL_ERROR_PREFIX := "Error al generar consulta SQL: "

  /** `obtener_consulta_sql` after the prompt is built: a missing client fails before the
      call, a failed call is wrapped by kind, and a reply yields its extracted SQL. */
  function GenerateSql(llm: Llm, question: string, prompt: string): (r: Result<string, string>)
    ensures r.Success? <==> llm.Client? && llm.sqlFor(question, prompt).Reply?
    ensures r.Success? ==> r.value == ExtractSql(llm.sqlFor(question, prompt).text)
    ensures llm.NoClient? ==> r == Failure(NO_CLIENT)
    ensures llm.Client? && llm.sqlFor(question, prompt).ApiError? ==>
              r == Failure(API_ERROR_PREFIX + llm.sqlFor(question, prompt).message)
    ensures llm.Client? && llm.sqlFor(question, prompt).OtherError? ==>
              r == Failure(SQL_ERROR_PREFIX + llm.sqlFor(question, prompt).message)
  {
    match llm
    case NoClient => Failure(NO_CLIENT)
    case Client(sqlFor, _) =>
      match sqlFor(question, prompt)
      case Reply(text) => Success(ExtractSql(text))
      case ApiError(m) => Failure(API_ERROR_PREFIX + m)
      case OtherError(m) => Failure(SQL_ERROR_PREFIX + m)
  }

  // ------------------------------------------------------------ row conversion

  /** The JSON-ready form of a cell: values with `isoformat` become their ISO text, every
      other value is kept. */
  function Jsonable(v: Value): (w: Value)
    ensures !w.Temporal?
    ensures !v.Temporal? ==> w == v
    ensures v.Temporal? ==> w == Str(v.iso)
  {
    if v.Temporal? then Str(v.iso) else v
  }

  /** The dictionary built from the first `n` columns of a row; a repeated column name keeps
      the value of its last occurrence. */
  function Assemble(columns: seq<string>, cells: seq<Value>, n: nat): (m: Row)
    requires n <= |columns| <= |cells|
    ensures m.Keys == set i | 0 <= i < n :: columns[i]
  {
    if n == 0 then map[]
    else Assemble(columns, cells, n - 1)[columns[n - 1] := Jsonable(cells[n - 1])]
  }

  /** Each column name maps to the converted value of its last occurrence. */
  lemma {:induction false} AssembleLastWins(columns: seq<string>, cells: seq<Value>, n: nat, i: nat)
    requires n <= |columns| <= |cells| && i < n
    requires forall j :: i < j < n ==> columns[j] != columns[i]
    ensures Assemble(columns, cells, n)[columns[i]] == Jsonable(cells[i])
  {
    if i < n - 1 {
      AssembleLastWins(columns, cells, n - 1, i);
    }
  }

  const SHORT_ROW := "tuple index out of range"

  /** One row of `ejecutar_sql`'s loop: a row with fewer cells than columns raises. */
  function ConvertRow(columns: seq<string>, cells: seq<Value>): (r: Result<Row, string>)
    ensures r.Success? <==> |columns| <= |cells|
    ensures r.Success? ==> r.value.Keys == set i | 0 <= i < |columns| :: columns[i]
    ensures r.Failure? ==> r.error == SHORT_ROW
  {
    if |cells| < |columns| then Failure(SHORT_ROW) else Success(Assemble(columns, cells, |columns|))
  }

  /** All rows converted, in order; the first short row aborts the conversion. */
  function ConvertRows(columns: seq<string>, rows: seq<seq<Value>>): (r: Result<seq<Row>, string>)
    ensures r.Success? <==> forall i :: 0 <= i < |rows| ==> |columns| <= |rows[i]|
    ensures r.Success? ==> |r.value| == |rows|
    ensures r.Success? ==> forall i :: 0 <= i < |rows| ==> Success(r.value[i]) == ConvertRow(columns, rows[i])
  {
    if |rows| == 0 then Success([])
    else
      var head :- ConvertRow(columns, rows[0]);
      var tail :- ConvertRows(columns, rows[1..]);
      assert forall i :: 1 <= i < |rows| ==> rows[i] == rows[1..][i - 1];
      Success([head] + tail)
  }

  const QUERY_ERROR_PREFIX := "Error en la consulta: "

  /** `ejecutar_sql`: any failure, of the database or of the conversion, is re-raised with
      the "Error en la consulta: " prefix. */
  function ExecuteSql(exec: string -> DbResult, sql: string): (r: Result<seq<Row>, string>)
  {
    match exec(sql)
    case DbFailure(m) => Failure(QUERY_ERROR_PREFIX + m)
    case Rows(columns, rows) =>
      match ConvertRows(columns, rows)
      case Failure(e) => Failure(QUERY_ERROR_PREFIX + e)
      case Success(v) => Success(v)
  }

  /** Row count and order are kept, every row's keys are exactly the column names, each
      cell is the converted raw cell of its column's last occurrence, and every failure
      carries the prefix. */
  lemma ExecuteSqlSpec(exec: string -> DbResult, sql: string, i: nat, c: nat)
    ensures ExecuteSql(exec, sql).Failure? ==> StartsWith(ExecuteSql(exec, sql).error, QUERY_ERROR_PREFIX)
    ensures exec(sql).DbFailure? ==> ExecuteSql(exec, sql) == Failure(QUERY_ERROR_PREFIX + exec(sql).message)
    ensures ExecuteSql(exec, sql).Success? ==>
              exec(sql).Rows? && |ExecuteSql(exec, sql).value| == |exec(sql).rows|
    ensures ExecuteSql(exec, sql).Success? && i < |exec(sql).rows| ==>
              ExecuteSql(exec, sql).value[i].Keys == set j | 0 <= j < |exec(sql).columns| :: exec(sql).columns[j]
    ensures ExecuteSql(exec, sql).Success? && i < |exec(sql).rows| && c < |exec(sql).columns|
            && (forall j :: c < j < |exec(sql).columns| ==> exec(sql).columns[j] != exec(sql).columns[c]) ==>
              ExecuteSql(exec, sql).value[i][exec(sql).columns[c]] == Jsonable(exec(sql).rows[i][c])
  {
    var r := ExecuteSql(exec, sql);
    if r.Failure? {
      var e := r.error;
      assert e[..|QUERY_ERROR_PREFIX|] == QUERY_ERROR_PREFIX;
    }
    if r.Success? && i < |exec(sql).rows| {
      var columns := exec(sql).columns;
      var cells := exec(sql).rows[i];
      assert ConvertRow(columns, cells) == Success(r.value[i]);
      if c < |columns| && (forall j :: c < j < |columns| ==> columns[j] != columns[c]) {
        AssembleLastWins(columns, cells, |columns|, c);
      }
    }
  }

  // ----------------------------------------------------------- final answer

  /** `json.dumps` succeeds: no row holds a `Decimal`. */
  predicate JsonEncodable(rows: seq<Row>) {
    forall i, c :: 0 <= i < |rows| && c in rows[i] ==> !rows[i][c].Decimal?
  }

  const ANSWER_ERROR_PREFIX := "Error al generar respuesta: "
  const NOT_SERIALIZABLE := "Object of type Decimal is not JSON serializable"
  const NONE_CLIENT_ATTRIBUTE := "'NoneType' object has no attribute 'messages'"

  /** `generar_respuesta_final`: the rows are serialised to JSON while the prompt is built,
      outside the `try`, so a value JSON cannot encode raises unprefixed; a failed model call
      (a missing client included) is prefixed; a reply is returned stripped. */
  function GenerateAnswer(llm: Llm, rows: seq<Row>, question: string, prompt: string): (r: Result<string, string>)
    ensures r.Success? <==> JsonEncodable(rows) && llm.Client? && llm.answerFor(rows, question, prompt).Reply?
    ensures r.Success? ==> r.value == Strip(llm.answerFor(rows, question, prompt).text) && Trimmed(r.value)
    ensures !JsonEncodable(rows) ==> r == Failure(NOT_SERIALIZABLE)
    ensures JsonEncodable(rows) && llm.NoClient? ==> r == Failure(ANSWER_ERROR_PREFIX + NONE_CLIENT_ATTRIBUTE)
    ensures JsonEncodable(rows) && llm.Client? && !llm.answerFor(rows, question, prompt).Reply? ==>
              r == Failure(ANSWER_ERROR_PREFIX + llm.answerFor(rows, question, prompt).message)
  {
    if !JsonEncodable(rows) then Failure(NOT_SERIALIZABLE)
    else
      match llm
      case NoClient => Failure(ANSWER_ERROR_PREFIX + NONE_CLIENT_ATTRIBUTE)
      case Client(_, answerFor) =>
        match answerFor(rows, question, prompt)
        case Reply(text) => Success(Strip(text))
        case ApiError(m) => Failure(ANSWER_ERROR_PREFIX + m)
        case OtherError(m) => Failure(ANSWER_ERROR_PREFIX + m)
  }

  // -------------------------------------------------------------- pipeline

  /** `datos_contexto`: result count, a preview of the first rows and the SQL that ran. */
  datatype ContextData = ContextData(total: nat, sample: seq<Row>, executed: string)

  /** The dictionary `procesar_consulta_chat` returns. */
  datatype ChatResult = ChatResult(answer: string, sql: Option<string>, context: Option<ContextData>, error: bool)

  const SAMPLE_SIZE := 5
  const ONLY_EXCLUDED := "La pregunta contiene solo " + "términos excluidos. Por favor, reformula tu consulta."
  const PROCESSING_ERROR_PREFIX := "Ocurrió un error al procesar tu consulta: "

  /** The answer given when the filtered question is blank. */
  const BLANK_RESULT := ChatResult(ONLY_EXCLUDED, None, None, true)

  /** The answer given when any step raised: the exception's text behind a fixed prefix. */
  function ErrorResult(message: string): (r: ChatResult)
    ensures r.error && r.sql.None? && r.context.None?
    ensures StartsWith(r.answer, PROCESSING_ERROR_PREFIX)
    ensures r.answer[|PROCESSING_ERROR_PREFIX|..] == message
  {
    var r := ChatResult(PROCESSING_ERROR_PREFIX + message, None, None, true);
    assert r.answer[..|PROCESSING_ERROR_PREFIX|] == PROCESSING_ERROR_PREFIX;
    r
  }

  /** The preview of a successful query. */
  function Preview(rows: seq<Row>, sql: string): (d: ContextData)
    ensures d.total == |rows| && d.executed == sql
    ensures |d.sample| == Min(SAMPLE_SIZE, |rows|) && d.sample <= rows
  {
    ContextData(|rows|, rows[..Min(SAMPLE_SIZE, |rows|)], sql)
  }

  /** The model produced SQL for the question, the database ran it, and the model phrased
      an answer from its rows. */
  predicate StepsSucceed(llm: Llm, exec: string -> DbResult, question: string, prompt: string) {
    && GenerateSql(llm, question, prompt).Success?
    && ExecuteSql(exec, GenerateSql(llm, question, prompt).value).Success?
    && GenerateAnswer(llm, ExecuteSql(exec, GenerateSql(llm, question, prompt).value).value, question, prompt).Success?
  }

  /** Steps 4 to 7 of `procesar_consulta_chat`, for a question that is not blank: generate
      the SQL, run it, phrase the answer; the first failure ends the pipeline. */
  function Answer(llm: Llm, exec: string -> DbResult, question: string, prompt: string): (r: ChatResult)
    ensures r.error <==> r.sql.None?
    ensures r.error ==> r.context.None? && StartsWith(r.answer, PROCESSING_ERROR_PREFIX)
    ensures !r.error ==> r.context.Some? && r.context.value.executed == r.sql.value
    ensures !r.error <==> StepsSucceed(llm, exec, question, prompt)
    ensures StepsSucceed(llm, exec, question, prompt) ==>
              var sql := GenerateSql(llm, question, prompt).value;
              var rows := ExecuteSql(exec, sql).value;
              r == ChatResult(GenerateAnswer(llm, rows, question, prompt).value, Some(sql), Some(Preview(rows, sql)), false)
  {
    match GenerateSql(llm, question, prompt)
    case Failure(e) => ErrorResult(e)
    case Success(sql) =>
      match ExecuteSql(exec, sql)
      case Failure(e) => ErrorResult(e)
      case Success(rows) =>
        match GenerateAnswer(llm, rows, question, prompt)
        case Failure(e) => ErrorResult(e)
        case Success(answer) => ChatResult(answer, Some(sql), Some(Preview(rows, sql)), false)
  }

  /** A run succeeds exactly when every step does, and a successful run used the model's
      SQL, that SQL's rows and the model's answer. */
  lemma AnswerSuccess(llm: Llm, exec: string -> DbResult, question: string, prompt: string)
    ensures var r := Answer(llm, exec, question, prompt);
            StepsSucceed(llm, exec, question, prompt) ==>
              var sql := GenerateSql(llm, question, prompt).value;
              var rows := ExecuteSql(exec, sql).value;
              && !r.error
              && r == ChatResult(GenerateAnswer(llm, rows, question, prompt).value, Some(sql), Some(Preview(rows, sql)), false)
    ensures var r := Answer(llm, exec, question, prompt);
            !r.error ==>
              && GenerateSql(llm, question, prompt) == Success(r.sql.value)
              && ExecuteSql(exec, r.sql.value).Success?
              && r.context == Some(Preview(ExecuteSql(exec, r.sql.value).value, r.sql.value))
              && GenerateAnswer(llm, ExecuteSql(exec, r.sql.value).value, question, prompt) == Success(r.answer)
  {
  }

  /** The question as it reaches the language model. */
  function FilteredQuestion(terms: seq<ExcludedTerm>, user: int, question: string): string {
    FilterQuestion(question, ExcludedTermsFor(terms, user))
  }

  /** `procesar_consulta_chat` for the user with id `user`, on the tables' prompt
      configurations and excluded terms. */
  function ProcessQuery(configs: seq<PromptConfig>, terms: seq<ExcludedTerm>, user: int,
                        question: string, context: string,
                        llm: Llm, exec: string -> DbResult): (r: ChatResult)
    ensures r.error <==> r.sql.None?
    ensures r.error ==> r.context.None?
    ensures var filtered := FilteredQuestion(terms, user, question);
            !r.error <==> Strip(filtered) != "" && StepsSucceed(llm, exec, filtered, PromptFor(configs, context))
    ensures var filtered := FilteredQuestion(terms, user, question);
            Strip(filtered) != "" ==> r == Answer(llm, exec, filtered, PromptFor(configs, context))
  {
    var filtered := FilteredQuestion(terms, user, question);
    if Strip(filtered) == "" then BLANK_RESULT
    else Answer(llm, exec, filtered, PromptFor(configs, context))
  }

  /** The question is not blank, the model produced SQL for it, and the database rejected
      that SQL. `ejecutar_sql` re-raises the error without rolling the session back, so the
      session's transaction is left aborted: the database refuses every later statement of
      the request. */
  predicate QueryFailed(configs: seq<PromptConfig>, terms: seq<ExcludedTerm>, user: int,
                        question: string, context: string,
                        llm: Llm, exec: string -> DbResult)
  {
    var filtered := FilteredQuestion(terms, user, question);
    var sql := GenerateSql(llm, filtered, PromptFor(configs, context));
    Strip(filtered) != "" && sql.Success? && exec(sql.value).DbFailure?
  }

  /** A query the database rejected is answered with the database's error behind both
      prefixes, without SQL or preview. */
  lemma QueryFailedAnswer(configs: seq<PromptConfig>, terms: seq<ExcludedTerm>, user: int,
                          question: string, context: string,
                          llm: Llm, exec: string -> DbResult)
    requires QueryFailed(configs, terms, user, question, context, llm, exec)
    ensures var sql := GenerateSql(llm, FilteredQuestion(terms, user, question), PromptFor(configs, context)).value;
            var r := ProcessQuery(configs, terms, user, question, context, llm, exec);
            && r == ErrorResult(QUERY_ERROR_PREFIX + exec(sql).message)
            && r.answer == PROCESSING_ERROR_PREFIX + (QUERY_ERROR_PREFIX + exec(sql).message)
  {
    var filtered := FilteredQuestion(terms, user, question);
    var prompt := PromptFor(configs, context);
    var sql := GenerateSql(llm, filtered, prompt).value;
    assert ExecuteSql(exec, sql) == Failure(QUERY_ERROR_PREFIX + exec(sql).message);
    assert ProcessQuery(configs, terms, user, question, context, llm, exec) == Answer(llm, exec, filtered, prompt);
  }

  /** A question that filters down to blank gets the fixed refusal whatever the oracles
      would do, and no other question gets it. */
  lemma BlankQuestionRefused(configs: seq<PromptConfig>, terms: seq<ExcludedTerm>, user: int,
                             question: string, context: string,
                             llm: Llm, exec: string -> DbResult)
    ensures ProcessQuery(configs, terms, user, question, context, llm, exec) == BLANK_RESULT
            <==> AllSpace(FilteredQuestion(terms, user, question))
  {
    var filtered := FilteredQuestion(terms, user, question);
    if !AllSpace(filtered) {
      var r := Answer(llm, exec, filtered, PromptFor(configs, context));
      assert ONLY_EXCLUDED[0] == 'L';
      assert PROCESSING_ERROR_PREFIX[0] == 'O';
      assert r.error ==> r.answer[0] == PROCESSING_ERROR_PREFIX[0];
    }
  }

  /** Without active excluded terms the question reaches the model exactly as typed. */
  lemma NoTermsKeepsQuestion(terms: seq<ExcludedTerm>, user: int, question: string)
    requires forall i :: 0 <= i < |terms| ==> !ActiveTermOf(terms[i], user)
    ensures FilteredQuestion(terms, user, question) == question
  {
    NoActiveNoTerms(terms, user);
  }

  /** Without active terms of the user's, the term list is empty. */
  lemma {:induction false} NoActiveNoTerms(terms: seq<ExcludedTerm>, user: int)
    requires forall i :: 0 <= i < |terms| ==> !ActiveTermOf(terms[i], user)
    ensures ExcludedTermsFor(terms, user) == []
  {
    if |terms| > 0 {
      assert forall i :: 0 <= i < |terms[1..]| ==> terms[1..][i] == terms[i + 1];
      NoActiveNoTerms(terms[1..], user);
    }
  }

  /** Every error result is the refusal or carries the fixed prefix; a missing client is
      reported as such for any question that is not blank. */
  lemma FailuresBecomeErrors(configs: seq<PromptConfig>, terms: seq<ExcludedTerm>, user: int,
                             question: string, context: string,
                             llm: Llm, exec: string -> DbResult)
    ensures var r := ProcessQuery(configs, terms, user, question, context, llm, exec);
            r.error ==> r == BLANK_RESULT || (StartsWith(r.answer, PROCESSING_ERROR_PREFIX)
                                              && r.sql.None? && r.context.None?)
    ensures !AllSpace(FilteredQuestion(terms, user, question)) && llm.NoClient?
            ==> ProcessQuery(configs, terms, user, question, context, llm, exec) == ErrorResult(NO_CLIENT)
  {
  }

  /** A successful answer reports the SQL the model produced for the filtered question,
      the number of rows that SQL returned and the first five of them (all of them when
      there are fewer), and the model's stripped answer. */
  lemma SuccessShape(configs: seq<PromptConfig>, terms: seq<ExcludedTerm>, user: int,
                     question: string, context: string,
                     llm: Llm, exec: string -> DbResult)
    ensures var r := ProcessQuery(configs, terms, user, question, context, llm, exec);
            var filtered := FilteredQuestion(terms, user, question);
            var prompt := PromptFor(configs, context);
            !AllSpace(filtered) && StepsSucceed(llm, exec, filtered, prompt) ==>
              var sql := GenerateSql(llm, filtered, prompt).value;
              var rows := ExecuteSql(exec, sql).value;
              r == ChatResult(GenerateAnswer(llm, rows, filtered, prompt).value, Some(sql), Some(Preview(rows, sql)), false)
    ensures var r := ProcessQuery(configs, terms, user, question, context, llm, exec);
            var filtered := FilteredQuestion(terms, user, question);
            var prompt := PromptFor(configs, context);
            !r.error ==>
              && !AllSpace(filtered)
              && GenerateSql(llm, filtered, prompt) == Success(r.sql.value)
              && ExecuteSql(exec, r.sql.value).Success?
              && r.context == Some(Preview(ExecuteSql(exec, r.sql.value).value, r.sql.value))
              && GenerateAnswer(llm, ExecuteSql(exec, r.sql.value).value, filtered, prompt) == Success(r.answer)
  {
    AnswerSuccess(llm, exec, FilteredQuestion(terms, user, question), PromptFor(configs, context));
  }
}
