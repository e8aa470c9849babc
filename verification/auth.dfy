/**
 * Registration, authentication and the bearer-token gates of the API (`app/auth.py`).
 * Password hashing and token signing are library code and enter as parameters: a hasher
 * (`hash`, `verify`) and a token codec (`encode`, `decode`) that holds the secret key, the
 * algorithm and the expiry check.
 */
module Auth {
  import opened Wrappers
  import opened Store
  import Schemas

  /** The claims a token carries; only the subject is ever read back. */
  datatype Claims = Claims(sub: Option<string>)

  /** The password hasher: hashing a password, and checking a password against a hash. */
  datatype Hasher = Hasher(hash: string -> string, verify: (string, string) -> bool)

  /** The token library with the application's key: a signed token for some claims, and
      the claims of a token, `None` when its signature or its expiry does not check. */
  datatype TokenCodec = TokenCodec(encode: Claims -> string, decode: string -> Option<Claims>)

  /** The hasher accepts the password it hashed. */
  predicate Sound(hasher: Hasher, password: string) {
    hasher.verify(password, hasher.hash(password))
  }

  /** The codec reads back the claims it signed (the token has not expired). */
  predicate Faithful(codec: TokenCodec, c: Claims) {
    codec.decode(codec.encode(c)) == Some(c)
  }

  const ADMIN := "admin"
  const BEARER := "bearer"
  const USERNAME_TAKEN := "El username ya está registrado"
  const EMAIL_TAKEN := "El email ya está registrado"
  const BAD_CREDENTIALS := "No se pudieron validar las credenciales"
  const INACTIVE := "Usuario inactivo"
  const NOT_ADMIN := "No tienes permisos de administrador"
  const LOGIN_FAILED := "Username o contraseña incorrectos"

  // ------------------------------------------------------------------ tokens

  /** `verify_token`: the username a valid token names; `None` when the token does not
      decode or carries no subject. */
  function VerifyToken(codec: TokenCodec, token: string): (r: Option<string>)
    ensures r.None? <==> codec.decode(token).None? || codec.decode(token).value.sub.None?
    ensures r.Some? ==> codec.decode(token) == Some(Claims(r))
  {
    match codec.decode(token)
    case None => None
    case Some(c) => c.sub
  }

  /** A token issued for a username verifies to that username. */
  lemma VerifyIssued(codec: TokenCodec, username: string)
    requires Faithful(codec, Claims(Some(username)))
    ensures VerifyToken(codec, codec.encode(Claims(Some(username)))) == Some(username)
  {
  }

  // ------------------------------------------------------------------ lookup

  /** `.filter(cond).first()` on the users table: the earliest user satisfying `p`, with
      its key. */
  function FirstUser(users: seq<User>, p: User -> bool): (r: Option<Keyed<User>>)
    ensures r.None? <==> forall i :: 0 <= i < |users| ==> !p(users[i])
    ensures r.Some? ==> Get(users, r.value.id) == Some(r.value.row) && p(r.value.row)
    ensures r.Some? ==> forall j :: 0 <= j < r.value.id - 1 ==> !p(users[j])
  {
    var e := Entries(users);
    var q := (k: Keyed<User>) => p(k.row);
    FirstSpec(e, q);
    var r := First(e, q);
    assert r.None? ==> forall i :: 0 <= i < |users| ==> !p(users[i]) by {
      if r.None? {
        forall i | 0 <= i < |users| ensures !p(users[i]) {
          assert !q(e[i]);
        }
      }
    }
    assert r.Some? ==> forall j :: 0 <= j < r.value.id - 1 ==> !p(users[j]) by {
      if r.Some? {
        var i :| 0 <= i < |e| && e[i] == r.value && q(e[i]) && forall j :: 0 <= j < i ==> !q(e[j]);
        forall j | 0 <= j < r.value.id - 1 ensures !p(users[j]) {
          assert !q(e[j]);
        }
      }
    }
    r
  }

  /** The lookup of a user by one of its text columns: none exactly when no user has the
      value there, otherwise a stored user that has it. */
  function UserBy(users: seq<User>, key: User -> string, value: string): (r: Option<Keyed<User>>)
    ensures r.None? <==> forall i :: 0 <= i < |users| ==> key(users[i]) != value
    ensures r.Some? ==> Get(users, r.value.id) == Some(r.value.row) && key(r.value.row) == value
  {
    FirstUser(users, (u: User) => key(u) == value)
  }

  /** `get_user_by_username`. */
  function UserByUsername(users: seq<User>, username: string): Option<Keyed<User>> {
    UserBy(users, (u: User) => u.username, username)
  }

  /** `get_user_by_email`. */
  function UserByEmail(users: seq<User>, email: string): Option<Keyed<User>> {
    UserBy(users, (u: User) => u.email, email)
  }

  /** The database's `unique` constraints on `username` and `email`. */
  predicate Unique(users: seq<User>) {
    forall i, j :: 0 <= i < j < |users| ==>
      users[i].username != users[j].username && users[i].email != users[j].email
  }

  /** Under the constraints, the user a lookup finds is the only one with that username. */
  lemma UserByUsernameUnique(users: seq<User>, username: string, id: int)
    requires Unique(users)
    requires HasKey(users, id) && users[id - 1].username == username
    ensures UserByUsername(users, username) == Some(Keyed(id, users[id - 1]))
  {
    assert UserByUsername(users, username).Some?;
  }

  // ------------------------------------------------------------ registration

  /** The table after a registration and the stored user with its key. */
  datatype Registered = Registered(users: seq<User>, user: Keyed<User>)

  /** `create_user`: the username is checked before the email; a new user is stored with
      the password's hash, the requested role, as active. */
  function CreateUser(users: seq<User>, hasher: Hasher, req: Schemas.UserCreate, now: Time)
    : (r: Result<Registered, HttpError>)
    ensures r.Failure? <==> exists i :: 0 <= i < |users|
                              && (users[i].username == req.username || users[i].email == req.email)
    ensures r.Failure? ==> r.error.status == BAD_REQUEST
    ensures r.Failure? ==> (r.error.detail == USERNAME_TAKEN
                            <==> exists i :: 0 <= i < |users| && users[i].username == req.username)
    ensures r.Failure? && !(exists i :: 0 <= i < |users| && users[i].username == req.username)
            ==> r.error.detail == EMAIL_TAKEN
    ensures r.Success? ==> && r.value.users == users + [r.value.user.row]
                           && r.value.user.id == |users| + 1
                           && r.value.user.row == User(req.username, req.email, hasher.hash(req.password),
                                                       Schemas.UserRoleText(req.role), now, true)
  {
    if UserByUsername(users, req.username).Some? then Failure(HttpError(BAD_REQUEST, USERNAME_TAKEN))
    else if UserByEmail(users, req.email).Some? then Failure(HttpError(BAD_REQUEST, EMAIL_TAKEN))
    else
      var u := User(req.username, req.email, hasher.hash(req.password), Schemas.UserRoleText(req.role), now, true);
      Success(Registered(Insert(users, u), Keyed(|users| + 1, u)))
  }

  /** Registration keeps usernames and emails unique. */
  lemma CreateUserKeepsUnique(users: seq<User>, hasher: Hasher, req: Schemas.UserCreate, now: Time)
    requires Unique(users)
    ensures CreateUser(users, hasher, req, now).Success? ==> Unique(CreateUser(users, hasher, req, now).value.users)
  {
  }

  // ---------------------------------------------------------- authentication

  /** `authenticate_user`: the user with that username, when the password verifies against
      its hash and the account is active. */
  function Authenticate(users: seq<User>, hasher: Hasher, username: string, password: string)
    : (r: Option<Keyed<User>>)
    ensures r.Some? ==> && r == UserByUsername(users, username)
                        && hasher.verify(password, r.value.row.passwordHash) && r.value.row.active
    ensures UserByUsername(users, username).None? ==> r.None?
    ensures (UserByUsername(users, username).Some?
             && (!hasher.verify(password, UserByUsername(users, username).value.row.passwordHash)
                 || !UserByUsername(users, username).value.row.active)) ==> r.None?
    ensures (UserByUsername(users, username).Some?
             && hasher.verify(password, UserByUsername(users, username).value.row.passwordHash)
             && UserByUsername(users, username).value.row.active) ==> r == UserByUsername(users, username)
  {
    var user :- UserByUsername(users, username);
    if !hasher.verify(password, user.row.passwordHash) then None
    else if !user.row.active then None
    else Some(user)
  }

  /** A freshly registered user can sign in with the password they registered with. */
  lemma RegisterThenAuthenticate(users: seq<User>, hasher: Hasher, req: Schemas.UserCreate, now: Time)
    requires CreateUser(users, hasher, req, now).Success?
    requires Sound(hasher, req.password)
    ensures var reg := CreateUser(users, hasher, req, now).value;
            Authenticate(reg.users, hasher, req.username, req.password) == Some(reg.user)
  {
    var reg := CreateUser(users, hasher, req, now).value;
    var found := UserByUsername(reg.users, req.username);
    assert reg.users[|users|].username == req.username;
    assert found.Some?;
  }

  // ------------------------------------------------------------------- gates

  /** `get_current_user`: 401 for a token that does not verify or names no user, 403 for
      an inactive user, otherwise the user the token names. */
  function CurrentUser(users: seq<User>, codec: TokenCodec, token: string): (r: Result<Keyed<User>, HttpError>)
    ensures r.Success? ==> && VerifyToken(codec, token) == Some(r.value.row.username)
                           && UserByUsername(users, r.value.row.username) == Some(r.value)
                           && r.value.row.active
    ensures r.Failure? && r.error.status == UNAUTHORIZED
            <==> VerifyToken(codec, token).None? || UserByUsername(users, VerifyToken(codec, token).value).None?
    ensures r.Failure? ==> r.error == HttpError(UNAUTHORIZED, BAD_CREDENTIALS) || r.error == HttpError(FORBIDDEN, INACTIVE)
    ensures r.Failure? && r.error.status == FORBIDDEN
            <==> && VerifyToken(codec, token).Some?
                 && UserByUsername(users, VerifyToken(codec, token).value).Some?
                 && !UserByUsername(users, VerifyToken(codec, token).value).value.row.active
    ensures (&& VerifyToken(codec, token).Some?
             && UserByUsername(users, VerifyToken(codec, token).value).Some?
             && UserByUsername(users, VerifyToken(codec, token).value).value.row.active)
            ==> r == Success(UserByUsername(users, VerifyToken(codec, token).value).value)
  {
    match VerifyToken(codec, token)
    case None => Failure(HttpError(UNAUTHORIZED, BAD_CREDENTIALS))
    case Some(username) =>
      match UserByUsername(users, username)
      case None => Failure(HttpError(UNAUTHORIZED, BAD_CREDENTIALS))
      case Some(user) =>
        if !user.row.active then Failure(HttpError(FORBIDDEN, INACTIVE)) else Success(user)
  }

  /** `get_current_admin_user`: the current user, refused with 403 unless their stored
      role is exactly "admin". */
  function CurrentAdmin(users: seq<User>, codec: TokenCodec, token: string): (r: Result<Keyed<User>, HttpError>)
    ensures r.Success? <==> CurrentUser(users, codec, token).Success? && CurrentUser(users, codec, token).value.row.role == ADMIN
    ensures r.Success? ==> r == CurrentUser(users, codec, token)
    ensures CurrentUser(users, codec, token).Failure? ==> r == CurrentUser(users, codec, token)
    ensures CurrentUser(users, codec, token).Success? && r.Failure? ==> r.error == HttpError(FORBIDDEN, NOT_ADMIN)
  {
    var user :- CurrentUser(users, codec, token);
    if user.row.role != ADMIN then Failure(HttpError(FORBIDDEN, NOT_ADMIN)) else Success(user)
  }

  // ------------------------------------------------------------------- login

  /** The `Token` response: the signed token, its type and the user it was issued to. */
  datatype Token = Token(accessToken: string, tokenType: string, user: Keyed<User>)

  /** `login_user`: 401 unless authentication succeeds, otherwise a bearer token whose
      subject is the user's username. */
  function Login(users: seq<User>, hasher: Hasher, codec: TokenCodec, username: string, password: string)
    : (r: Result<Token, HttpError>)
    ensures r.Failure? <==> Authenticate(users, hasher, username, password).None?
    ensures r.Failure? ==> r.error == HttpError(UNAUTHORIZED, LOGIN_FAILED)
    ensures r.Success? ==> && r.value.tokenType == BEARER
                           && r.value.accessToken == codec.encode(Claims(Some(username)))
                           && Some(r.value.user) == Authenticate(users, hasher, username, password)
  {
    match Authenticate(users, hasher, username, password)
    case None => Failure(HttpError(UNAUTHORIZED, LOGIN_FAILED))
    case Some(user) => Success(Token(codec.encode(Claims(Some(user.row.username))), BEARER, user))
  }

  /** The token a successful login returns opens the current-user gate as the same user,
      as long as the table is unchanged and the token still decodes. */
  lemma LoginThenAccess(users: seq<User>, hasher: Hasher, codec: TokenCodec, username: string, password: string)
    requires Login(users, hasher, codec, username, password).Success?
    requires Faithful(codec, Claims(Some(username)))
    ensures var t := Login(users, hasher, codec, username, password).value;
            CurrentUser(users, codec, t.accessToken) == Success(t.user)
  {
    VerifyIssued(codec, username);
  }

  /** A registered user who signs in reaches the admin gate exactly when they registered
      as an administrator. */
  lemma AdminGateFollowsRole(users: seq<User>, hasher: Hasher, codec: TokenCodec, req: Schemas.UserCreate, now: Time)
    requires CreateUser(users, hasher, req, now).Success?
    requires Sound(hasher, req.password)
    requires Faithful(codec, Claims(Some(req.username)))
    ensures var reg := CreateUser(users, hasher, req, now).value;
            var t := Login(reg.users, hasher, codec, req.username, req.password);
            t.Success? && (CurrentAdmin(reg.users, codec, t.value.accessToken).Success? <==> req.role == Schemas.RoleAdmin)
  {
    var reg := CreateUser(users, hasher, req, now).value;
    RegisterThenAuthenticate(users, hasher, req, now);
    LoginThenAccess(reg.users, hasher, codec, req.username, req.password);
  }
}
