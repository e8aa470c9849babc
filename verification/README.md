# Olympic medals chatbot backend — a Dafny model

The system is a FastAPI backend for a Spanish-language chatbot. It answers questions about
Olympic medals. A logged-in user asks a question, and the backend handles it in these steps:

- It removes the user's excluded terms from the question.
- It asks a language model for a SQL query over the medals table.
- It runs the query against PostgreSQL.
- It asks the model again to phrase the rows as an answer.
- It stores the question and the answer as messages of a conversation.

Around that chat pipeline sit:

- user registration and login, with bcrypt hashes and JWT bearer tokens;
- CRUD on conversations, with soft deletes;
- endpoints where each signed-in user manages their own excluded terms (any authenticated user, `get_current_user`);
- admin-only endpoints for prompt configurations (`get_current_admin_user`);
- a message-details endpoint that re-runs a stored query;
- a CSV loader script that fills the medals table;
- two test harnesses, whose conversation-context rendering and DISTINCT/ORDER BY validation are themselves logic worth modelling.

The project models this core as pure functions over immutable data.

- **Database.** Each table is an append-only sequence. The row at index `i` has primary key `i + 1`. Updates replace a row in place (`Store.Put`), and deletes clear the `active` flag.
- **External services are parameters.**
  - The language model is a `Chat.Llm` value: either no client, or a client whose two replies are functions of the prompt.
  - Running SQL is a function `string -> DbResult`.
  - bcrypt is a `Auth.Hasher` pair.
  - JWT is a `Auth.TokenCodec` pair.
  - Clock readings are `Time` (a `nat`) arguments.
- **HTTP errors** are `HttpError(status, detail)` values in a `Result`. This mirrors FastAPI's `HTTPException`.

Modules follow the source files:

| module | file | source it models |
|---|---|---|
| `Wrappers` | `wrappers.dfy` | `Option`, `Result`, HTTP error values |
| `Text` | `text.dfy` | the Python string operations the code relies on: `strip`, `split()` with `" ".join`, `find`, `replace`, `split(sep, 1)`, `lower`, `title`, `int`/`str` |
| `Store` | `store.dfy` | the ORM tables of `app/models.py`; lookup by key, filtering, ordering, `offset`/`limit` |
| `Schemas` | `schemas.dfy` | `app/schemas.py` enums and request defaults |
| `Chat` | `chat.dfy` | `app/chat.py`, the question-to-answer pipeline |
| `ConversationContext` | `context.dfy` | `test_context_fix.py`, the history-to-prompt rendering |
| `SqlCheck` | `sqlcheck.dfy` | `test_sql_fix.py`, the DISTINCT/ORDER BY validator and the error classifier |
| `Ingest` | `ingest.dfy` | `scripts/ExtraerCSV_Olimpiadas.py`, separator detection, athlete names, row loading |
| `Auth` | `auth.dfy` | `app/auth.py` |
| `Conversations` | `conversations.dfy` | `app/conversations.py` and the chat endpoint of `app/main.py` |
| `Admin` | `admin.dfy` | the excluded-term endpoints (per user), the admin-only prompt-configuration endpoints and the details endpoint of `app/main.py` |

Some behaviour of `app/chat.py` that shapes the model:

- Generated SQL runs as the model wrote it. Nothing validates it, and a failed query is not retried.
- Excluded terms are deleted from the question text before the model sees it (`chat.py:96-102`).
- The conversation history is not part of the SQL prompt. Its rendering exists only in `test_context_fix.py`.
- Only values with `isoformat` (dates and times) are converted for JSON. A `Decimal` cell makes `json.dumps` raise in the answer step (`chat.py:201-205`, `226`).
- A failing step reaches the user as the exception's text behind a fixed prefix (`chat.py:324-331`).
- A query the database rejects is not rolled back (`chat.py:210-212`). The session's transaction stays aborted, so the chat request fails when it stores the answer.

## Model

| member | source | states |
|---|---|---|
| Chat.PromptForSpec | chatbot_olimpico_backend/app/chat.py:61-76 | With no active configuration for the context, the prompt is the built-in default; when one exists, the chosen prompt is that of the first active configuration for that context in key order |
| Chat.ExcludedTermsFor | chatbot_olimpico_backend/app/chat.py:78-87 | Every word on the user's term list is the lower-cased text of an active term owned by that user, and the list has no more entries than the term table |
| Chat.ExcludedTermsMembers | chatbot_olimpico_backend/app/chat.py:78-87 | A word is an excluded term for the user exactly when some active row owned by that user carries it |
| Chat.NoActiveNoTerms | chatbot_olimpico_backend/app/chat.py:78-87 | A user with no active terms has an empty term list |
| Chat.RemoveTerms | chatbot_olimpico_backend/app/chat.py:96-98 | Deleting terms never lengthens the question |
| Chat.FilterQuestion | chatbot_olimpico_backend/app/chat.py:89-102 | An empty term list returns the question unchanged, even its spacing; otherwise the result is single-spaced with no leading or trailing blanks and is no longer than the question |
| Chat.FilterQuestionWords | chatbot_olimpico_backend/app/chat.py:96-102 | After filtering, the words are exactly the words of the question with every term deleted |
| Chat.RemoveAbsentTerms | chatbot_olimpico_backend/app/chat.py:96-98 | Terms that do not occur in the question leave it untouched |
| Chat.DeletionCanCreateTerm | chatbot_olimpico_backend/app/chat.py:96-98 | A single left-to-right deletion pass can leave a new occurrence of the term behind ("aabb" without "ab" is "ab") |
| Chat.StripFences | chatbot_olimpico_backend/app/chat.py:160-169 | Fence stripping of an already trimmed reply yields a trimmed string |
| Chat.ExtractSql | chatbot_olimpico_backend/app/chat.py:160-169 | The extracted SQL is always trimmed |
| Chat.ExtractSqlSpec | chatbot_olimpico_backend/app/chat.py:160-169 | A fenced reply loses its fences; a reply with no fence is just stripped |
| Chat.ExtractPlainFence | chatbot_olimpico_backend/app/chat.py:164-168 | For a plain triple-backtick fence, the SQL is the stripped text between the first fence and the next one (or the end) |
| Chat.ExtractSqlFence | chatbot_olimpico_backend/app/chat.py:160-163 | With "```sql" first at k, the SQL is the stripped text after it, cut at the next "```sql" (or the end) and then at the first "```" of what remains; with no second "```sql", that is the text up to the next "```" (or the end) |
| Chat.GenerateSql | chatbot_olimpico_backend/app/chat.py:104-184 | The step succeeds exactly when a client is present and the model replies, and the SQL is then the reply with its fences removed; a missing client fails with the no-client message, an API error with the API-error prefix and any other exception with the SQL-generation prefix, each followed by the error's text |
| Chat.Jsonable | chatbot_olimpico_backend/app/chat.py:201-205 | Dates and datetimes become their ISO text; every other value passes through unchanged |
| Chat.Assemble | chatbot_olimpico_backend/app/chat.py:196-206 | A row's keys are exactly the first n column names |
| Chat.AssembleLastWins | chatbot_olimpico_backend/app/chat.py:196-206 | When a column name repeats, the dictionary keeps the value of the last column with that name |
| Chat.ConvertRow | chatbot_olimpico_backend/app/chat.py:194-206 | Conversion succeeds exactly when the row has a cell for every column; its keys are the column names |
| Chat.ConvertRows | chatbot_olimpico_backend/app/chat.py:194-208 | All rows convert, keeping count and order, or the whole result fails |
| Chat.ExecuteSqlSpec | chatbot_olimpico_backend/app/chat.py:186-212 | A database error comes back as the query-error prefix followed by the driver's message; on success row i, column c holds the JSON-safe form of the driver's cell |
| Chat.GenerateAnswer | chatbot_olimpico_backend/app/chat.py:214-266 | The step succeeds exactly when the rows can be JSON-encoded, a client is present and the model replies, and the answer is then the stripped reply; a Decimal cell fails with the serialisation error and no prefix, and a missing client or failed call fails with the answer-error prefix followed by the error's text |
| Chat.ErrorResult | chatbot_olimpico_backend/app/chat.py:324-331 | An error result carries no SQL and no context, and its answer is the processing-error prefix followed by the message |
| Chat.Preview | chatbot_olimpico_backend/app/chat.py:309-322 | The context data records the row count and the executed SQL, and its sample is the first min(5, count) rows |
| Chat.Answer | chatbot_olimpico_backend/app/chat.py:299-331 | A result is an error exactly when it has no SQL, and a success exactly when SQL generation, execution and phrasing all succeed; then it is the phrased answer with that SQL and a preview of its rows. Errors carry no context and the error prefix |
| Chat.AnswerSuccess | chatbot_olimpico_backend/app/chat.py:299-322 | When every step succeeds the result is a success with the steps' answer, SQL and preview; conversely a success used exactly the SQL, rows and answer the steps produced |
| Chat.ProcessQuery | chatbot_olimpico_backend/app/chat.py:268-332 | Error results and results without SQL are the same results, and errors never carry context; a question that is not blank after filtering gets the pipeline's answer, which succeeds exactly when every step does |
| Chat.BlankQuestionRefused | chatbot_olimpico_backend/app/chat.py:291-297 | A question that is blank after filtering gets the fixed refusal and the model is never asked |
| Chat.NoTermsKeepsQuestion | chatbot_olimpico_backend/app/chat.py:89-94 | With no active terms for the user, the question reaches the model unchanged |
| Chat.FailuresBecomeErrors | chatbot_olimpico_backend/app/chat.py:324-331 | A failing step surfaces as an error result with the prefixed message, e.g. a missing client on a non-blank question |
| Chat.QueryFailedAnswer | chatbot_olimpico_backend/app/chat.py:186-212 | When the database rejects the generated SQL, the answer is that error's text behind the processing-error and query-error prefixes, with no SQL and no preview |
| Chat.SuccessShape | chatbot_olimpico_backend/app/chat.py:309-322 | For a question that is not blank after filtering and whose steps all succeed, the result is the phrased answer with the generated SQL and a preview of its rows; conversely every success came from such a run |
| ConversationContext.Truncate | chatbot_olimpico_backend/test_context_fix.py:44-49 | Answers up to 800 characters are kept whole; longer ones keep their first 800 characters followed by an ellipsis |
| ConversationContext.BuildContext | chatbot_olimpico_backend/test_context_fix.py:36-53 | The context is empty exactly when there is no history; otherwise it is framed by the header and the footer |
| ConversationContext.RenderAllAppend | chatbot_olimpico_backend/test_context_fix.py:41-51 | Rendering a history is rendering its parts one after the other |
| ConversationContext.RenderAllSplit | chatbot_olimpico_backend/test_context_fix.py:41-51 | Each entry's rendering appears in place between its predecessors and successors |
| ConversationContext.EntryInContext | chatbot_olimpico_backend/test_context_fix.py:36-53 | Every entry of the history is rendered into the context |
| ConversationContext.UserQuestionKept | chatbot_olimpico_backend/test_context_fix.py:42-43 | Every user question appears verbatim, quoted, in the context |
| ConversationContext.AnswerPassageKept | chatbot_olimpico_backend/test_context_fix.py:44-49 | Any passage of an assistant answer's kept part appears in the context |
| ConversationContext.ShortAnswerKept | chatbot_olimpico_backend/test_context_fix.py:44-49 | Any passage of an assistant answer of at most 800 characters appears in the context |
| ConversationContext.EntryLines | chatbot_olimpico_backend/test_context_fix.py:42-51 | Assistant entries with SQL get the answer line and then the SQL line; without SQL only the answer line; other roles render nothing |
| ConversationContext.RankingHistory | chatbot_olimpico_backend/test_context_fix.py:14-27 | The test history holds two entries, the second being the ranking answer |
| ConversationContext.RankingKept | chatbot_olimpico_backend/test_context_fix.py:62-70 | Whatever history carries the ranking answer as an assistant entry, the context mentions third place, the third country and its medal count |
| ConversationContext.RankingSurvives | chatbot_olimpico_backend/test_context_fix.py:62-70 | The harness's check passes: the context of the test history mentions "3.", "Australia" and "798 total medals" |
| ConversationContext.RankingShort | chatbot_olimpico_backend/test_context_fix.py:44-49 | The test answer is short enough to escape truncation |
| SqlCheck.KindIgnoresCase | chatbot_olimpico_backend/test_sql_fix.py:160-171 | Classification looks at the lower-cased message, so the message's casing does not matter |
| SqlCheck.ClassifyRoundTrip | chatbot_olimpico_backend/test_sql_fix.py:160-171 | The class of an error can be read back from the classified message, which is the class prefix followed by the original message (except the fixed DISTINCT/ORDER BY message) |
| SqlCheck.DistinctMarkerWins | chatbot_olimpico_backend/test_sql_fix.py:160-165 | A message naming an invalid column reference or an ORDER BY that must appear in the select list always gets the DISTINCT/ORDER BY explanation |
| SqlCheck.SpaceRunSpec | chatbot_olimpico_backend/test_sql_fix.py:97 | A run of whitespace covers only whitespace and stops at the first non-space |
| SqlCheck.NextCharSpec | chatbot_olimpico_backend/test_sql_fix.py:97 | The character search finds the first occurrence after the start, or proves there is none |
| SqlCheck.LastOrderFitSpec | chatbot_olimpico_backend/test_sql_fix.py:97 | The ORDER BY chosen inside the aggregate is the last one that fits before the closing parenthesis, because the greedy `[^)]+` in front of `ORDER BY` gives characters back only as far as it must; none exists when none is found |
| SqlCheck.FirstComma | chatbot_olimpico_backend/test_sql_fix.py:97 | The DISTINCT group ends at the first comma after at least one blank and one character |
| SqlCheck.FindBounds | chatbot_olimpico_backend/test_sql_fix.py:97 | A found match starts with STRING_AGG(DISTINCT ignoring case and is bounded by the first comma, the first closing parenthesis, and the last fitting ORDER BY |
| SqlCheck.MatchAt | chatbot_olimpico_backend/test_sql_fix.py:97 | A match at a position starts there and ends within the query |
| SqlCheck.MatchAtSound | chatbot_olimpico_backend/test_sql_fix.py:97 | Every match reported at a position is an instance of the regular expression, with the groups it reports |
| SqlCheck.MatchAtComplete | chatbot_olimpico_backend/test_sql_fix.py:97 | Every instance of the regular expression at a position is reported there |
| SqlCheck.FindAllOrdered | chatbot_olimpico_backend/test_sql_fix.py:97 | `findall` reports matches in order and without overlap, each inside the query |
| SqlCheck.FoundGroupsShape | chatbot_olimpico_backend/test_sql_fix.py:97-105 | Every DISTINCT group found lacks a comma and every ORDER BY group lacks a closing parenthesis |
| SqlCheck.LowerCaseSqlPasses | chatbot_olimpico_backend/test_sql_fix.py:95-114 | The validator's guard is case-sensitive: SQL without the upper-case aggregate is accepted without inspection |
| Ingest.CommaName | chatbot_olimpico_backend/scripts/ExtraerCSV_Olimpiadas.py:260-276 | For a "Surname, Given" name, split at the first comma of the stripped name: the surname is the title-cased stripped text before it (which holds no comma), the given name the title-cased stripped text after it, and the full name is "given surname" (or whichever part is non-empty) |
| Ingest.SurnameFirstSpec | chatbot_olimpico_backend/scripts/ExtraerCSV_Olimpiadas.py:262-276 | The surname is the title-cased stripped text before the comma and the given name the title-cased stripped text after it; both are trimmed, the surname holds no comma when its side had none, and the full name is "given surname" with no stray blanks |
| Ingest.FullNameOf | chatbot_olimpico_backend/scripts/ExtraerCSV_Olimpiadas.py:274-275 | Joining and stripping two trimmed parts keeps both with one space, or just the first when the second is empty |
| Ingest.PlainName | chatbot_olimpico_backend/scripts/ExtraerCSV_Olimpiadas.py:278-290 | For a name without a comma, the full name is the stripped name title-cased; the surname is non-empty exactly when the full name has at least two words, and is then its last word, the words before it being the given name; otherwise the given name is the full name's only word (or empty) |
| Ingest.GivenFirstSpec | chatbot_olimpico_backend/scripts/ExtraerCSV_Olimpiadas.py:278-290 | The full name is the title-cased name; the surname is non-empty exactly when it has at least two words, and then its words are the given name's words followed by the surname; otherwise the given name is the normalised full name |
| Ingest.KohlerExample | chatbot_olimpico_backend/scripts/ExtraerCSV_Olimpiadas.py:248-276 | The documented example "KÖHLER, Christa" becomes given name "Christa", surname "Köhler", full name "Christa Köhler" |
| Ingest.DetectSeparator | chatbot_olimpico_backend/scripts/ExtraerCSV_Olimpiadas.py:66-74 | The chosen separator is one of comma, semicolon, tab and the pipe character, and no other candidate splits the first line into more fields |
| Ingest.MissingColumnsSpec | chatbot_olimpico_backend/scripts/ExtraerCSV_Olimpiadas.py:312-320 | A column is reported missing exactly when it is expected and absent, the missing columns come in their declared order (a subsequence of the expected list), and nothing is missing exactly when every expected column is present |
| Ingest.KeepSpec | chatbot_olimpico_backend/scripts/ExtraerCSV_Olimpiadas.py:333-391 | A row is inserted exactly when some input row converts to it and it passes the insert checks |
| Ingest.KeepAppend | chatbot_olimpico_backend/scripts/ExtraerCSV_Olimpiadas.py:333-391 | Loading two batches inserts the first batch's rows followed by the second's |
| Ingest.LoadTable | chatbot_olimpico_backend/scripts/ExtraerCSV_Olimpiadas.py:307-395 | Loading stops with the missing columns exactly when some expected column is absent; otherwise it never inserts more rows than it processed |
| Ingest.LoadTableSpec | chatbot_olimpico_backend/scripts/ExtraerCSV_Olimpiadas.py:323-391 | Only rows with no empty required field are processed; a row is inserted exactly when such a row converts to it (integer year) and all its required fields are non-empty |
| Ingest.ReportedSuccess | chatbot_olimpico_backend/scripts/ExtraerCSV_Olimpiadas.py:128-131 | Corrected: the loader reports success exactly when every expected column is present |
| Ingest.MissingColumnReportedAsSuccess | chatbot_olimpico_backend/scripts/ExtraerCSV_Olimpiadas.py:128-131 | As written, a file with only a City column stops at the column check yet is reported as loaded successfully |
| Auth.VerifyToken | chatbot_olimpico_backend/app/auth.py:40-49 | A token yields a username exactly when it decodes and carries a subject, and that subject is the username |
| Auth.VerifyIssued | chatbot_olimpico_backend/app/auth.py:40-49 | A token issued for a username verifies back to that username |
| Auth.FirstUser | chatbot_olimpico_backend/app/auth.py:51-57 | The lookup fails exactly when no row matches; a result is the first matching row in key order, under its key |
| Auth.UserBy | chatbot_olimpico_backend/app/auth.py:51-57 | The lookup by username or by email fails exactly when no user has that value, and otherwise returns a stored user with it |
| Auth.UserByUsernameUnique | chatbot_olimpico_backend/app/auth.py:51-53 | With unique usernames, the lookup returns exactly the user stored under that name |
| Auth.CreateUser | chatbot_olimpico_backend/app/auth.py:70-97 | Registration fails with 400 exactly when the username or email is taken, with the username message exactly when the username is taken and the email message when only the email is; otherwise it appends one active user with the hashed password and the requested role |
| Auth.CreateUserKeepsUnique | chatbot_olimpico_backend/app/auth.py:70-97 | Registration keeps usernames and emails unique |
| Auth.Authenticate | chatbot_olimpico_backend/app/auth.py:59-68 | Authentication returns the stored user of that name exactly when the password verifies against its hash and the account is active: such a user is always returned, and an unknown name, a wrong password or an inactive account gives nothing |
| Auth.RegisterThenAuthenticate | chatbot_olimpico_backend/app/auth.py:59-97 | A freshly registered user can log in with the password they registered |
| Auth.CurrentUser | chatbot_olimpico_backend/app/auth.py:99-126 | A token that verifies and names an active user always yields that user; a bad token or unknown name is 401, and the result is 403 exactly for a named user who is inactive |
| Auth.CurrentAdmin | chatbot_olimpico_backend/app/auth.py:132-139 | The admin gate passes exactly the authenticated admins; other authenticated users get 403, and authentication errors pass through unchanged |
| Auth.Login | chatbot_olimpico_backend/app/auth.py:141-160 | Login fails with 401 exactly when authentication fails; otherwise it issues a bearer token for the user |
| Auth.LoginThenAccess | chatbot_olimpico_backend/app/auth.py:99-160 | The token a successful login returns authenticates that same user |
| Auth.AdminGateFollowsRole | chatbot_olimpico_backend/app/auth.py:70-160 | A newly registered user passes the admin gate exactly when they registered with the admin role |
| Conversations.OpenConversations | chatbot_olimpico_backend/app/conversations.py:35-44 | The listing's candidates are exactly the stored conversations that the user owns and that are active |
| Conversations.AutoTitle | chatbot_olimpico_backend/app/conversations.py:19-23 | The automatic title is the fixed word followed by the decimal text of the count plus one: digits only, no leading zero, and parsing back to that number |
| Conversations.Create | chatbot_olimpico_backend/app/conversations.py:14-33 | Creation appends one active conversation owned by the user and stamped now, titled with the given title or, when none or empty, the automatic title numbered after all the user's conversations |
| Conversations.CreateOpens | chatbot_olimpico_backend/app/conversations.py:14-33 | The new conversation is open for its owner, and every conversation open before stays open |
| Conversations.List | chatbot_olimpico_backend/app/conversations.py:35-44 | The page is never longer than the limit |
| Conversations.ListSpec | chatbot_olimpico_backend/app/conversations.py:35-44 | The page is the window starting at the offset of some ordering of all the user's active conversations by newest activity first (ties in any order), has length min(limit, remaining), and holds only the user's active conversations |
| Conversations.ListWindow | chatbot_olimpico_backend/app/conversations.py:35-44 | Element i of the page is element skip + i of a newest-first ordering of exactly the user's active conversations |
| Conversations.ListRows | chatbot_olimpico_backend/app/conversations.py:35-44 | Every listed conversation is stored under its key, owned by the user and active |
| Conversations.ListOrdered | chatbot_olimpico_backend/app/conversations.py:35-44 | Along the page, the last activity never increases |
| Conversations.MessagesOfSpec | chatbot_olimpico_backend/app/conversations.py:61-64 | A conversation's messages are exactly the stored messages of that conversation, in timestamp order and without duplicates |
| Conversations.Fetch | chatbot_olimpico_backend/app/conversations.py:46-75 | Fetching succeeds exactly for the user's active conversations and otherwise gives 404; the conversation comes with exactly its messages in timestamp order (see Conversations.MessagesOfSpec) |
| Conversations.Delete | chatbot_olimpico_backend/app/conversations.py:77-96 | Deletion succeeds exactly for an existing conversation the user owns (even one already deleted), clears only its active flag, and otherwise gives 404 |
| Conversations.DeleteIdempotent | chatbot_olimpico_backend/app/conversations.py:77-96 | Deleting twice is the same as deleting once |
| Conversations.DeleteHides | chatbot_olimpico_backend/app/conversations.py:14-96 | A deleted conversation can no longer be fetched and appears in no listing page, while the count that numbers automatic titles is unchanged |
| Conversations.UpdateTitle | chatbot_olimpico_backend/app/conversations.py:98-119 | Renaming succeeds exactly for the user's active conversations, sets the title and the activity time, and otherwise gives 404 |
| Conversations.UpdateThenFetch | chatbot_olimpico_backend/app/conversations.py:46-119 | A renamed conversation is fetched back with the new title |
| Conversations.AddMessage | chatbot_olimpico_backend/app/conversations.py:121-152 | A message is added exactly to an active conversation, appended with the next id, and the conversation's activity time is bumped |
| Conversations.AddThenFetch | chatbot_olimpico_backend/app/conversations.py:46-152 | The message just added, under its new id, is among the messages the conversation is fetched with |
| Conversations.ChatTitle | chatbot_olimpico_backend/app/conversations.py:161-166 | A chat-created conversation's title is the fixed prefix, the question's first 50 characters (all of it when shorter), and an ellipsis |
| Conversations.TurnConversation | chatbot_olimpico_backend/app/conversations.py:160-180 | With no conversation id (or 0) a new conversation is opened; with one, it must be the user's active conversation or the turn fails with 404 |
| Conversations.StoreExchange | chatbot_olimpico_backend/app/conversations.py:182-204 | Storing an exchange appends the user's question, leaving the conversation open, and then the assistant's answer with its SQL under the next key but one |
| Conversations.ProcessChatSpec | chatbot_olimpico_backend/app/conversations.py:154-213 | A chat turn is refused exactly for a named conversation that is not the user's active one; otherwise the question is stored, and the turn aborts exactly when the database rejects the pipeline's query, keeping only the question; an answered turn also stores the answer with its SQL and returns the pipeline's result with the answer's key; a turn without a conversation id opens one titled after the question |
| Conversations.ProcessChatWithRollbackSpec | chatbot_olimpico_backend/app/conversations.py:154-213 | Corrected: with the rollback, a turn fails exactly for a named conversation that is not the user's active one; otherwise it stores the question and the pipeline's answer and returns that answer |
| Conversations.RollbackKeepsAnswered | chatbot_olimpico_backend/app/chat.py:186-212 | A turn whose query did not fail in the database is the same with or without the rollback |
| Conversations.RollbackAnswersAborted | chatbot_olimpico_backend/app/chat.py:186-212 | With the rollback, a turn that would abort is answered with the database's error behind both prefixes, stored after the question |
| Conversations.ChatEndpoint | chatbot_olimpico_backend/app/main.py:211-225 | Corrected: the endpoint fails exactly when the requested conversation is not the user's active one, and then with 404 |
| Conversations.ChatEndpointAsWritten | chatbot_olimpico_backend/app/main.py:211-225 | As written, every failure of the endpoint is a 500 |
| Conversations.ChatEndpointAsWrittenSpec | chatbot_olimpico_backend/app/main.py:211-225 | As written, the endpoint fails exactly for a conversation that is not the user's active one, with nothing stored, and for a query the database rejects, with the question stored and no answer |
| Conversations.ForeignConversationIs500 | chatbot_olimpico_backend/app/main.py:218-225 | As written, asking in another user's conversation gives 500, where the corrected endpoint gives 404 |
| Conversations.FailedQueryIs500 | chatbot_olimpico_backend/app/chat.py:210-212 | As written, a new conversation whose query the database rejects gets a 500 and keeps only the question; with the rollback it gets the error answer and both messages are stored |
| Conversations.Latest | chatbot_olimpico_backend/app/conversations.py:229-232 | The latest activity is absent exactly for no conversations, and is otherwise the largest activity time of some conversation |
| Conversations.Summary | chatbot_olimpico_backend/app/conversations.py:215-238 | The summary counts the user's active conversations and the stored messages belonging to them, and has a latest activity exactly when there is an active conversation |
| Conversations.SummaryMatchesListing | chatbot_olimpico_backend/app/conversations.py:215-238 | The summary's latest activity is that of the first conversation of the listing |
| Conversations.SummaryMessages | chatbot_olimpico_backend/app/conversations.py:224-227 | The summary's message count is the number of stored messages in the user's active conversations, and a message is among them exactly when its conversation is open for the user |
| Conversations.SummaryCountsAdded | chatbot_olimpico_backend/app/conversations.py:224-227 | Adding a message raises the user's message count by one exactly when it goes to one of the user's active conversations |
| Admin.ListTerms | chatbot_olimpico_backend/app/main.py:229-239 | The listed terms are exactly the user's own stored active terms |
| Admin.AddTerm | chatbot_olimpico_backend/app/main.py:241-268 | Adding fails with 400 exactly when the user already has the lower-cased term active; otherwise it appends it lower-cased and active |
| Admin.DeleteTerm | chatbot_olimpico_backend/app/main.py:270-290 | Deletion succeeds exactly for an existing term of the user's own, clears only its active flag, and otherwise gives 404 |
| Admin.DeleteTermIdempotent | chatbot_olimpico_backend/app/main.py:270-290 | Deleting a term twice is the same as deleting it once |
| Admin.TermsInvariantKept | chatbot_olimpico_backend/app/main.py:241-290 | Adding and deleting keep every term lower-case and no two active terms of one user equal |
| Admin.AddedTermFilters | chatbot_olimpico_backend/app/main.py:241-268 | A term just added is among the terms the pipeline removes from that user's questions |
| Admin.DeletedTermReleased | chatbot_olimpico_backend/app/main.py:270-290 | After deleting an active term, the pipeline no longer removes it and the user can add it again |
| Admin.ListConfigs | chatbot_olimpico_backend/app/main.py:294-303 | The listed configurations are exactly the stored active ones |
| Admin.CreateConfig | chatbot_olimpico_backend/app/main.py:305-320 | Creating appends one active configuration recording the admin and time |
| Admin.CreatedConfigServes | chatbot_olimpico_backend/app/main.py:305-320 | A configuration created for a context with no active one is the prompt the pipeline then uses for it |
| Admin.UpdateConfig | chatbot_olimpico_backend/app/main.py:322-350 | Updating succeeds exactly for an existing configuration, changes only the supplied fields, stamps the time, and otherwise gives 404 |
| Admin.UpdateConfigPartial | chatbot_olimpico_backend/app/main.py:322-350 | An update with no fields changes only the modification time, and applying an update a second time leaves the same table as applying it once at the later time |
| Admin.MessageDetails | chatbot_olimpico_backend/app/main.py:354-393 | Details exist exactly for a message in one of the user's conversations; the row count and the first ten rows appear exactly when there is non-empty SQL and its re-run succeeds, and a failing re-run reports exactly that run's error text; without SQL there is no error |
| Admin.ChatAnswerDetails | chatbot_olimpico_backend/app/main.py:354-393 | The answer message stored by an answered chat turn has details showing the turn's SQL, and still has them after the conversation is deleted |
| Schemas.UserRoleRoundTrip | chatbot_olimpico_backend/app/schemas.py:7-9 | User roles and their texts convert both ways without loss |
| Schemas.MessageRoleRoundTrip | chatbot_olimpico_backend/app/schemas.py:11-13 | Message roles and their texts convert both ways without loss |
| Schemas.MedalRoundTrip | chatbot_olimpico_backend/app/schemas.py:15-18 | Medals and their texts convert both ways without loss |
| Schemas.ParseUserRole | chatbot_olimpico_backend/app/schemas.py:7-9 | Exactly "user" and "admin" are roles |
| Schemas.NewUserCreate | chatbot_olimpico_backend/app/schemas.py:22-25 | A registration without a role gets the plain user role |
| Schemas.ValidatePassword | chatbot_olimpico_backend/app/schemas.py:30-34 | A password is accepted unchanged exactly when it has at least six characters; otherwise it is rejected with the fixed message |
| Schemas.NewChatRequest | chatbot_olimpico_backend/app/schemas.py:97-99 | A chat request without a conversation id starts a new conversation |
| Text.NormalizeIdempotent | chatbot_olimpico_backend/app/chat.py:101 | Collapsing whitespace twice is collapsing it once |
| Text.RemoveIsSplitConcat | chatbot_olimpico_backend/app/chat.py:98 | `replace(term, "")` equals splitting on the term and concatenating the pieces |
| Text.SplitJoin | chatbot_olimpico_backend/app/chat.py:164-167 | Splitting on a separator and joining the pieces back gives the original text |
| Text.IndexOfSpec | chatbot_olimpico_backend/scripts/ExtraerCSV_Olimpiadas.py:260-262 | `find` reports the first occurrence, or none exactly when the text does not occur |
| Text.LowerIsLower | chatbot_olimpico_backend/app/main.py:250-254 | Lower-casing leaves no upper-case letter |
| Text.IntToStringRoundTrip | chatbot_olimpico_backend/app/conversations.py:23 | Parsing a number's decimal text gives the number back |
| Store.GetInsert | chatbot_olimpico_backend/app/conversations.py:26-31 | A row inserted into a table is found under the key it receives, and every other key is unaffected |
| Store.GetPut | chatbot_olimpico_backend/app/conversations.py:93-94 | An updated row is read back under its key and nothing else changes |
| Store.FilterMembers | chatbot_olimpico_backend/app/conversations.py:39-42 | A filtered query holds exactly the rows satisfying its condition |
| Store.FirstSpec | chatbot_olimpico_backend/app/chat.py:65-68 | `.first()` yields the first row in key order satisfying the condition, or nothing exactly when none does |
| Store.FilterSubsequence | chatbot_olimpico_backend/scripts/ExtraerCSV_Olimpiadas.py:317 | Filtering keeps the selected elements in their original order |
| Store.SortBySpec | chatbot_olimpico_backend/app/conversations.py:42 | Ordering returns a permutation of the rows that is sorted by the key |
| Store.Page | chatbot_olimpico_backend/app/conversations.py:42 | `offset(skip).limit(limit)` returns the min(limit, remaining) rows that follow the first skip |

## Left out

- Prompt wording: the text of the prompts sent to the language model is not modelled. The model's two replies are function parameters of `Chat.Llm`, and only the system prompt's selection is modelled.
- Network, configuration and client construction: the Anthropic client (`anthropic.Anthropic`, `app/chat.py`) and the settings it is built from (`anthropic_api_key`, `anthropic_model` in `app/config.py`) are left out. Only "client present or not" is modelled.
- PostgreSQL: connections, sessions, `commit`/`refresh`/`rollback` and the table DDL are replaced by the sequence store. Query execution is a parameter. Transactions are modelled only as far as the aborted transaction after a rejected query goes (`Conversations.ProcessChat`).
- Password hashing and token signing: bcrypt and JWT are the `Hasher`/`TokenCodec` parameters. Token expiry and the signing key are not modelled, because they depend on clocks and cryptography.
- Auth.VerifyToken: assumes the decoded `sub` claim is a string or absent. A non-string claim is not modelled.
- File reading in the loader: encoding detection with chardet, pandas parsing and the DataFrame are replaced by a list of rows of cells.
- Admin seeding, the table-creation helpers, the health and root endpoints, CORS, logging and `print` diagnostics are not modelled. They compute nothing that the rest depends on.
- Text.Lower: case mapping covers ASCII and the Latin-1 letters À–Þ/à–þ (without × and ÷) only. Python's full Unicode case tables are not modelled. Within Latin-1, ß, ÿ, µ, ª and º are treated as uncased, though Python counts them as cased letters: it upper-cases ÿ to Ÿ, µ to Μ and ß to SS, and treats ª and º as lower-case.
- Text.Title: same case-mapping limits as Text.Lower. Python gives `"ßa".title() == "Ssa"` and `"ÿa".title() == "Ÿa"`, where the model gives "ßA" and "ÿA", because it does not count those letters as cased.
- Text.ParseInt: accepts surrounding blanks, an optional sign and ASCII digits only. Python's `int()` also accepts underscores between digits and non-ASCII digits.
- Chat.Jsonable: floats and other non-JSON Python values are not modelled apart from the Decimal case, which is kept as the value that makes encoding fail.
- Store.FirstSpec: `.first()` without ORDER BY returns whichever matching row PostgreSQL yields first, which is unspecified. The model fixes key order.
- Chat.PromptForSpec: with two active configurations for one context, which one `.first()` returns is unspecified (no ORDER BY). The model takes the first in key order.
- Chat.ExcludedTermsFor: `.all()` has no ORDER BY, so the order in which terms are deleted is unspecified. The order can change the filtered question (deleting "ab" and then "b" from "abb" leaves "", the other order leaves "a"). The model takes key order.
- Auth.FirstUser: `.first()` has no ORDER BY. Under the unique constraints on username and email at most one row matches, so key order is a choice only for tables that break them.
- Store.SortBy: the order among rows with equal activity time is unspecified, as in PostgreSQL. The model fixes one stable order and proves only sortedness and permutation.
- Conversations.List: `skip` and `limit` are natural numbers. Negative values, which PostgreSQL rejects, are not modelled.
- Ingest.ProcessAthleteName: the `except` fallback is not modelled. For a string argument none of the operations in the `try` block can raise.
- Ingest.DetectSeparator: only the first line is inspected, as in the source. Reading the line from the file is left out.
- Conversations.ChatEndpointAsWritten: the text of the wrapped exception is modelled as "status: detail", which is how Starlette renders an `HTTPException`. For the aborted transaction the detail is PostgreSQL's message alone. The driver's wrapping around it (the exception class, the statement and its parameters) is not modelled.
- Conversations.ProcessChatSpec: the query oracle `exec` is read-only. Generated SQL that writes (an UPDATE or DELETE the model produced) would run on the request's session and be committed with the answer. That effect is not modelled.
- Admin.MessageDetails: like the source, it does not check that the conversation is still active, so a message of a deleted conversation still has details.
- SqlCheck.Valid: the validator only inspects `STRING_AGG(DISTINCT …, … ORDER BY …)` written in that exact upper-case spelling. Other spellings pass unchecked, as the source does.
- SqlCheck.SameIgnoringCase: `re.IGNORECASE` matching is modelled by the lower-casing of Text.Lower (ASCII and Latin-1). Python's Unicode matching also folds ſ (long s) with s, K (Kelvin sign) with k, and İ/ı with i, which the model does not.
- test_conversational_memory.py: the scripted conversation against a live server is not modelled. It needs the running service.

## Findings

| source | as written | input that shows it | evidently intended | confidence | as-written member | corrected member |
|---|---|---|---|---|---|---|
| chatbot_olimpico_backend/scripts/ExtraerCSV_Olimpiadas.py:128-131 | `cargar_datos_olimpicos` ignores the `False` that `cargar_datos_en_tablas` returns when expected columns are missing (lines 317-320), prints success and returns `True` | a CSV whose only column is `City` | report failure when the table load stops at the column check | not executed | Ingest.MissingColumnReportedAsSuccess | Ingest.ReportedSuccess |
| chatbot_olimpico_backend/app/chat.py:210-212 | `ejecutar_sql` catches a database error and re-raises it without `db.rollback()`. The session (`autocommit=False`, database.py:22) stays in an aborted transaction, so storing the answer (conversations.py:194-203) raises and the endpoint answers 500, after the question was committed | a question in a new conversation whose generated SQL PostgreSQL rejects, such as a `STRING_AGG(DISTINCT …)` whose ORDER BY differs from its argument | roll the session back before re-raising, as test_sql_fix.py:126 and 133 announce ("Automatic rollback on SQL errors"), so the error answer is stored and returned | not executed | Conversations.FailedQueryIs500 | Conversations.ProcessChatWithRollback |
| chatbot_olimpico_backend/app/main.py:218-225 | the chat endpoint's `except Exception` also catches the 404 `HTTPException` raised for a foreign or closed conversation (conversations.py:176-180) and re-raises it as 500 | user 2 asks in conversation 1, owned by user 1 | let the 404 through, as the register endpoint does with `except HTTPException: raise` (main.py:127-139) | not executed | Conversations.ForeignConversationIs500 | Conversations.ChatEndpoint |
