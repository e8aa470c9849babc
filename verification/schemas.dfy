/**
 * Request and response shapes of the API (app/schemas.py): the string enums,
 * the password validator and the optional fields whose default is `None`.
 */
module Schemas {
  import opened Wrappers

  // ------------------------------------------------------------------ enums

  /** `RolUsuario`: the roles a user account can have. */
  datatype UserRole = RoleUser | RoleAdmin

  /** `RolMensaje`: who wrote a stored chat message. */
  datatype MessageRole = Asker | Assistant

  /** `TipoMedalla`: the medal colours of the data set. */
  datatype Medal = Gold | Silver | Bronze

  function UserRoleText(r: UserRole): (s: string)
    ensures s == "user" || s == "admin"
  {
    match r
    case RoleUser => "user"
    case RoleAdmin => "admin"
  }

  /** Parsing a role value, as pydantic does for a `str` enum: only the listed values pass. */
  function ParseUserRole(s: string): (r: Option<UserRole>)
    ensures r.Some? <==> (s == "user" || s == "admin")
  {
    if s == "user" then Some(RoleUser)
    else if s == "admin" then Some(RoleAdmin)
    else None
  }

  function MessageRoleText(r: MessageRole): (s: string)
    ensures s == "user" || s == "assistant"
  {
    match r
    case Asker => "user"
    case Assistant => "assistant"
  }

  function ParseMessageRole(s: string): (r: Option<MessageRole>)
    ensures r.Some? <==> (s == "user" || s == "assistant")
  {
    if s == "user" then Some(Asker)
    else if s == "assistant" then Some(Assistant)
    else None
  }

  function MedalText(m: Medal): (s: string)
    ensures s == "Gold" || s == "Silver" || s == "Bronze"
  {
    match m
    case Gold => "Gold"
    case Silver => "Silver"
    case Bronze => "Bronze"
  }

  function ParseMedal(s: string): (r: Option<Medal>)
    ensures r.Some? <==> (s == "Gold" || s == "Silver" || s == "Bronze")
  {
    if s == "Gold" then Some(Gold)
    else if s == "Silver" then Some(Silver)
    else if s == "Bronze" then Some(Bronze)
    else None
  }

  /** Each enum's text form parses back to the same member, and every accepted text is the
      text form of the member it parses to: the value sets are exactly the listed ones. */
  lemma UserRoleRoundTrip(r: UserRole, s: string)
    ensures ParseUserRole(UserRoleText(r)) == Some(r)
    ensures ParseUserRole(s).Some? ==> UserRoleText(ParseUserRole(s).value) == s
  {
  }

  lemma MessageRoleRoundTrip(r: MessageRole, s: string)
    ensures ParseMessageRole(MessageRoleText(r)) == Some(r)
    ensures ParseMessageRole(s).Some? ==> MessageRoleText(ParseMessageRole(s).value) == s
  {
  }

  lemma MedalRoundTrip(m: Medal, s: string)
    ensures ParseMedal(MedalText(m)) == Some(m)
    ensures ParseMedal(s).Some? ==> MedalText(ParseMedal(s).value) == s
  {
  }

  // ------------------------------------------------------- user registration

  const PASSWORD_MIN := 6
  const PASSWORD_TOO_SHORT := "La contraseña debe tener al menos 6 caracteres"

  /** `UsuarioCreate`: the registration body; `rol` defaults to `user`. */
  datatype UserCreate = UserCreate(username: string, email: string, password: string, role: UserRole)

  /** The registration body as sent, with `rol` possibly left out. */
  function NewUserCreate(username: string, email: string, password: string, role: Option<UserRole>): (u: UserCreate)
    ensures u.role == (if role.Some? then role.value else RoleUser)
    ensures u.username == username && u.email == email && u.password == password
  {
    UserCreate(username, email, password, role.GetOr(RoleUser))
  }

  /** `UsuarioCreate.validate_password`: shorter than six characters is rejected, anything
      else passes through unchanged. */
  function ValidatePassword(v: string): (r: Result<string, string>)
    ensures r.Success? <==> |v| >= PASSWORD_MIN
    ensures r.Success? ==> r.value == v
    ensures r.Failure? ==> r.error == PASSWORD_TOO_SHORT
  {
    if |v| < PASSWORD_MIN then Failure(PASSWORD_TOO_SHORT) else Success(v)
  }

  // ------------------------------------------------------------------- chat

  /** `ChatRequest`: the question and, optionally, the conversation it continues. */
  datatype ChatRequest = ChatRequest(question: string, conversation: Option<int>)

  /** A chat request with the conversation id left out. */
  function NewChatRequest(question: string): (c: ChatRequest)
    ensures c.question == question && c.conversation.None?
  {
    ChatRequest(question, None)
  }

  // ---------------------------------------------------------- prompt configs

  /** `ConfiguracionPromptUpdate`: every field may be left out, and then it is `None`. */
  datatype PromptConfigUpdate = PromptConfigUpdate(context: Option<string>, systemPrompt: Option<string>, active: Option<bool>)

  /** An update body with every field left out. */
  function EmptyPromptConfigUpdate(): (u: PromptConfigUpdate)
    ensures u.context.None? && u.systemPrompt.None? && u.active.None?
  {
    PromptConfigUpdate(None, None, None)
  }
}
