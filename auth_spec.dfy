/** What `AuthService` does to the database and returns, one function per method. Every function
    gives the method's result and the database after it. The random bcrypt salts and the clock
    reading that becomes a token's `iat` are parameters. */
module AuthSpec {
  import opened Common
  import opened Crypto
  import opened Records
  import Prisma
  import UsuarioSpec

  /** The secrets read from the configuration: AT_SECRET, RT_SECRET and JWT_SECRET. */
  datatype Config = Config(atSecret: string, rtSecret: string, jwtSecret: string)

  datatype Tokens = Tokens(accessToken: Token, refreshToken: Token)
  datatype UserLoginInfo = UserLoginInfo(email: string, name: string)
  datatype Auth = Auth(tokens: Tokens, user: UserLoginInfo)

  const EmailInUse := "E-mail já está em uso!"
  const SigninDenied := "Acesso negado, verifique seu usuário ou senha!"
  const AccessDenied := "Access Denied"
  const InvalidToken := "Invalid token"
  const OldPasswordIncorrect := "Old password is not correct"

  /** getTokens: an access token and a refresh token, both over the payload `{sub, email}`, signed
      with the access and the refresh secret respectively. */
  function GetTokens(cfg: Config, userId: Id, email: string, issuedAt: nat): (t: Tokens)
    ensures Verify(t.accessToken, cfg.atSecret) == Some(Session(userId, email))
    ensures Verify(t.refreshToken, cfg.rtSecret) == Some(Session(userId, email))
    ensures cfg.atSecret != cfg.rtSecret ==>
      Verify(t.accessToken, cfg.rtSecret).None? && Verify(t.refreshToken, cfg.atSecret).None?
  {
    var payload := Session(userId, email);
    Tokens(Sign(payload, cfg.atSecret, issuedAt), Sign(payload, cfg.rtSecret, issuedAt))
  }

  /** The token `sendEmailVerificationMail` puts into the link it mails: `{id}` signed with JWT_SECRET. */
  function VerificationToken(cfg: Config, userId: Id, issuedAt: nat): (t: Token)
    ensures Verify(t, cfg.jwtSecret).Some? && IdField(Verify(t, cfg.jwtSecret).value) == Some(userId)
  {
    Sign(EmailVerification(userId), cfg.jwtSecret, issuedAt)
  }

  /** The token `sendForgotPasswordLink` stores and mails: `{email}` signed with JWT_SECRET. */
  function ResetToken(cfg: Config, email: string, issuedAt: nat): (t: Token)
    ensures Verify(t, cfg.jwtSecret).Some? && EmailField(Verify(t, cfg.jwtSecret).value) == Some(email)
  {
    Sign(PasswordReset(email), cfg.jwtSecret, issuedAt)
  }

  /** The row of user `id` holds a refresh-token hash that `t` matches. */
  ghost predicate RtMatches(db: Db, id: Id, t: Token)
  {
    id in db.usuario && db.usuario[id].hashedRt.Some? && Matches(t, db.usuario[id].hashedRt.value)
  }

  /** The patch `updateRtHash` hands to updateUser. */
  function RtPatch(h: Digest<Token>): UsuarioPatch
  {
    UsuarioPatch(None, None, None, None, Some(Some(h)))
  }

  /** updateRtHash: overwrites the user's one stored refresh-token hash with a hash of `rt`; after
      it, `rt` is the only token that matches. Errors from updateUser are passed on. */
  ghost function UpdateRtHash(db: Db, userId: Id, rt: Token, salt: nat): (res: (Result<(), Error>, Db))
    ensures var (r, db') := res; r.Failure? ==> db' == db
    ensures var (r, db') := res;
      r.Success? <==> db.online && userId in db.usuario
    ensures var (r, db') := res;
      r.Success? ==>
        && db' == db.(usuario := db.usuario[userId := db.usuario[userId].(hashedRt := Some(Hash(rt, salt)))])
        && forall t :: RtMatches(db', userId, t) <==> t == rt
    ensures Valid(db) ==> Valid(res.1)
  {
    var (r, db') := UsuarioSpec.UpdateUser(db, userId, RtPatch(Hash(rt, salt)));
    match r
    case Success(_) => (Success(()), db')
    case Failure(e) => (Failure(e), db)
  }

  /** The catch block of signupLocal: only the e-mail-in-use error survives, everything else is 500. */
  function SignupError(e: Error): (e': Error)
    ensures e' == BadRequest(EmailInUse) || e' == InternalServerError
    ensures e' == BadRequest(EmailInUse) <==> e == BadRequest(EmailInUse)
  {
    if e == BadRequest(EmailInUse) then e else InternalServerError
  }

  /** signupLocal: refuses an e-mail in use, creates the user, issues tokens and stores the hash of
      the refresh token. The user row stays when the last step fails. */
  ghost function SignupLocal(db: Db, cfg: Config, dto: CreateUserDto, pwSalt: nat, rtSalt: nat, issuedAt: nat)
    : (res: (Result<Auth, Error>, Db))
    ensures var (r, db') := res;
      r.Failure? ==> r.error == BadRequest(EmailInUse) || r.error == InternalServerError
    ensures db.online && EmailTaken(db.usuario, dto.email) ==> res == (Failure(BadRequest(EmailInUse)), db)
    ensures !db.online ==> res == (Failure(InternalServerError), db)
    ensures var (r, db') := res;
      Valid(db) && db.online && !EmailTaken(db.usuario, dto.email) ==>
        && r == Success(Auth(GetTokens(cfg, db.nextId, dto.email, issuedAt), UserLoginInfo(dto.email, dto.name)))
        && db' == db.(usuario := db.usuario[db.nextId := Usuario(db.nextId, dto.email, dto.name, Some(Hash(dto.password, pwSalt)),
                                                                 false, Some(Hash(r.value.tokens.refreshToken, rtSalt)))],
                      nextId := db.nextId + 1)
        && db'.usuario.Keys == db.usuario.Keys + {db.nextId}
        && RtMatches(db', db.nextId, r.value.tokens.refreshToken)
        && (forall t :: RtMatches(db', db.nextId, t) ==> t == r.value.tokens.refreshToken)
        && Verify(r.value.tokens.refreshToken, cfg.rtSecret) == Some(Session(db.nextId, dto.email))
        && db'.usuario[db.nextId].password.Some? && Matches(dto.password, db'.usuario[db.nextId].password.value)
        && !db'.usuario[db.nextId].emailVerificado
    ensures Valid(db) ==> Valid(res.1)
  {
    match UsuarioSpec.FindByEmail(db, dto.email)
    case Failure(e) => (Failure(SignupError(e)), db)
    case Success(Some(_)) => (Failure(BadRequest(EmailInUse)), db)
    case Success(None) =>
      var (created, db1) := UsuarioSpec.CreateUser(db, dto, pwSalt);
      match created
      case Failure(e) => (Failure(SignupError(e)), db1)
      case Success(user) =>
        var tokens := GetTokens(cfg, user.id, user.email, issuedAt);
        var (stored, db2) := UpdateRtHash(db1, user.id, tokens.refreshToken, rtSalt);
        match stored
        case Failure(e) => (Failure(SignupError(e)), db2)
        case Success(_) => (Success(Auth(tokens, UserLoginInfo(user.email, user.nome))), db2)
  }

  /** signinLocal: an unknown e-mail and a wrong password get the same Forbidden error and write
      nothing; otherwise tokens are issued and the refresh-token hash is overwritten. */
  ghost function SigninLocal(db: Db, cfg: Config, email: string, password: string, rtSalt: nat, issuedAt: nat)
    : (res: (Result<Auth, Error>, Db))
    ensures var (r, db') := res; r.Failure? ==> db' == db
    ensures db.online && !EmailTaken(db.usuario, email) ==> res == (Failure(Forbidden(SigninDenied)), db)
    ensures !db.online ==> res == (Failure(InternalServerError), db)
    ensures var (r, db') := res;
      Valid(db) && r.Success? ==>
        exists id :: id in db.usuario && db.usuario[id].email == email
          && db.usuario[id].password.Some? && Matches(password, db.usuario[id].password.value)
          && db' == db.(usuario := db.usuario[id := db.usuario[id].(hashedRt := Some(Hash(r.value.tokens.refreshToken, rtSalt)))])
          && r.value.tokens == GetTokens(cfg, id, email, issuedAt)
          && Verify(r.value.tokens.refreshToken, cfg.rtSecret) == Some(Session(id, email))
          && r.value.user == UserLoginInfo(email, db.usuario[id].nome)
    ensures Valid(db) ==> Valid(res.1)
  {
    match UsuarioSpec.Find(db, UsuarioByEmail(email), true)
    case Failure(BadRequest(_)) => (Failure(Forbidden(SigninDenied)), db)
    case Failure(_) => (Failure(InternalServerError), db)
    case Success(user) =>
      if user.password.None? then (Failure(InternalServerError), db)
      else if !Matches(password, user.password.value) then (Failure(Forbidden(SigninDenied)), db)
      else
        var tokens := GetTokens(cfg, user.id, user.email, issuedAt);
        var (stored, db') := UpdateRtHash(db, user.id, tokens.refreshToken, rtSalt);
        match stored
        case Failure(e) => (Failure(e), db)
        case Success(_) => (Success(Auth(tokens, UserLoginInfo(user.email, user.nome))), db')
  }

  /** The `where` of logout: this user's row, and only while it holds a refresh-token hash. */
  function LogoutFilter(userId: Id): (f: Usuario -> bool)
    ensures forall u :: f(u) <==> u.id == userId && u.hashedRt.Some?
  {
    (u: Usuario) => u.id == userId && u.hashedRt.Some?
  }

  /** The `data` of logout. */
  const LogoutPatch := UsuarioPatch(None, None, None, None, Some(None))

  /** logout: clears the refresh-token hash of this user if it has one and answers true; no other
      row and no other column changes. */
  ghost function Logout(db: Db, userId: Id): (res: (Result<bool, Error>, Db))
    ensures var (r, db') := res; r.Failure? ==> db' == db && r.error == InternalServerError
    ensures var (r, db') := res; db.online <==> r == Success(true)
    ensures var (r, db') := res;
      r.Success? ==>
        && db'.usuario.Keys == db.usuario.Keys
        && (Valid(db) ==> forall k :: k in db.usuario && k != userId ==> db'.usuario[k] == db.usuario[k])
        && (Valid(db) && userId in db.usuario ==> db'.usuario[userId] == db.usuario[userId].(hashedRt := None))
        && db' == db.(usuario := db'.usuario)
    ensures Valid(db) ==> Valid(res.1)
  {
    var (r, db') := UsuarioSpec.UpdateMany(db, LogoutFilter(userId), LogoutPatch);
    match r
    case Failure(e) => (Failure(e), db)
    case Success(_) => (Success(true), db')
  }

  /** refreshTokens: an unknown user, a user without a stored hash and a presented token that does
      not match the hash are each refused with Forbidden and write nothing; otherwise a fresh pair
      is issued and the stored hash is overwritten. */
  ghost function RefreshTokens(db: Db, cfg: Config, userId: Id, rt: Token, rtSalt: nat, issuedAt: nat)
    : (res: (Result<Tokens, Error>, Db))
    ensures var (r, db') := res; r.Failure? ==> db' == db
    ensures db.online && !RtMatches(db, userId, rt) ==> res == (Failure(Forbidden(AccessDenied)), db)
    ensures !db.online ==> res == (Failure(InternalServerError), db)
    ensures var (r, db') := res;
      Valid(db) && db.online && RtMatches(db, userId, rt) ==>
        && r.Success?
        && r.value == GetTokens(cfg, userId, db.usuario[userId].email, issuedAt)
        && db' == db.(usuario := db.usuario[userId := db.usuario[userId].(hashedRt := Some(Hash(r.value.refreshToken, rtSalt)))])
    ensures Valid(db) ==> Valid(res.1)
  {
    match UsuarioSpec.FindById(db, userId)
    case Failure(BadRequest(_)) => (Failure(Forbidden(AccessDenied)), db)
    case Failure(_) => (Failure(InternalServerError), db)
    case Success(user) =>
      if user.hashedRt.None? then (Failure(Forbidden(AccessDenied)), db)
      else if !Matches(rt, user.hashedRt.value) then (Failure(Forbidden(AccessDenied)), db)
      else
        var tokens := GetTokens(cfg, user.id, user.email, issuedAt);
        var (stored, db') := UpdateRtHash(db, user.id, tokens.refreshToken, rtSalt);
        match stored
        case Failure(e) => (Failure(e), db)
        case Success(_) => (Success(tokens), db')
  }

  /** resendVerifyEmail: reads the user and mails a new verification link; the model returns the
      token that link carries. Nothing is written. */
  ghost function ResendVerifyEmail(db: Db, cfg: Config, userId: Id, issuedAt: nat): (r: Result<Token, Error>)
    ensures r.Success? <==> db.online && userId in db.usuario
    ensures r.Failure? ==> r.error == (if db.online then Forbidden(AccessDenied) else InternalServerError)
    ensures Valid(db) && r.Success? ==> r.value == VerificationToken(cfg, userId, issuedAt)
  {
    match UsuarioSpec.FindById(db, userId)
    case Failure(BadRequest(_)) => Failure(Forbidden(AccessDenied))
    case Failure(_) => Failure(InternalServerError)
    case Success(user) => Success(VerificationToken(cfg, user.id, issuedAt))
  }

  /** The patch verifyEmail hands to updateUser. */
  const VerifiedPatch := UsuarioPatch(None, None, None, Some(true), None)

  /** verifyEmail: a token that does not verify is BadRequest and writes nothing; a payload without
      `id` makes the lookup fail in the client; otherwise the user named in the payload is looked up
      and its verified flag is set to true, every other column kept. Errors of the lookup and the
      update are passed on. */
  ghost function VerifyEmail(db: Db, cfg: Config, token: Token): (res: (Result<Usuario, Error>, Db))
    ensures var (r, db') := res; r.Failure? ==> db' == db
    ensures Verify(token, cfg.jwtSecret).None? ==> res == (Failure(BadRequest(InvalidToken)), db)
    ensures (&& db.online && Verify(token, cfg.jwtSecret).Some? && IdField(Verify(token, cfg.jwtSecret).value).Some?
             && IdField(Verify(token, cfg.jwtSecret).value).value !in db.usuario) ==>
      res == (Failure(BadRequest(UsuarioSpec.UserNotFound)), db)
    ensures var (r, db') := res;
      r.Success? ==>
        && Verify(token, cfg.jwtSecret).Some?
        && IdField(Verify(token, cfg.jwtSecret).value).Some?
        && var id := IdField(Verify(token, cfg.jwtSecret).value).value;
           && id in db.usuario
           && r.value == db.usuario[id].(emailVerificado := true)
           && db' == db.(usuario := db.usuario[id := r.value])
    ensures var (r, db') := res;
      (&& db.online && Verify(token, cfg.jwtSecret).Some? && IdField(Verify(token, cfg.jwtSecret).value).Some?
       && IdField(Verify(token, cfg.jwtSecret).value).value in db.usuario) ==> r.Success?
    ensures Valid(db) ==> Valid(res.1)
  {
    match Verify(token, cfg.jwtSecret)
    case None => (Failure(BadRequest(InvalidToken)), db)
    case Some(payload) =>
      match IdField(payload)
      case None => (Failure(StoreError(Other)), db)
      case Some(id) =>
        match UsuarioSpec.FindById(db, id)
        case Failure(e) => (Failure(e), db)
        case Success(_) => UsuarioSpec.UpdateUser(db, id, VerifiedPatch)
  }

  /** The patch changePassword and resetPassword hand to updateUser. */
  function PasswordPatch(h: Digest<string>): UsuarioPatch
  {
    UsuarioPatch(None, None, Some(h), None, None)
  }

  /** changePassword: a wrong old password is Unauthorized and writes nothing; otherwise only the
      password hash is replaced, by a hash of the new password. Lookup and update errors are passed on. */
  ghost function ChangePassword(db: Db, id: Id, oldPassword: string, newPassword: string, salt: nat)
    : (res: (Result<Usuario, Error>, Db))
    ensures var (r, db') := res; r.Failure? ==> db' == db
    ensures (&& db.online && id in db.usuario && db.usuario[id].password.Some?
             && !Matches(oldPassword, db.usuario[id].password.value)) ==>
      res == (Failure(Unauthorized(OldPasswordIncorrect)), db)
    ensures var (r, db') := res;
      Valid(db) && r.Success? ==>
        && id in db.usuario
        && db.usuario[id].password.Some? && Matches(oldPassword, db.usuario[id].password.value)
        && r.value == db.usuario[id].(password := Some(Hash(newPassword, salt)))
        && r.value.hashedRt == db.usuario[id].hashedRt
        && db' == db.(usuario := db.usuario[id := r.value])
    ensures var (r, db') := res;
      Valid(db) && db.online && id in db.usuario && Matches(oldPassword, db.usuario[id].password.value) ==> r.Success?
    ensures Valid(db) ==> Valid(res.1)
  {
    match UsuarioSpec.FindById(db, id)
    case Failure(e) => (Failure(e), db)
    case Success(user) =>
      if user.password.None? then (Failure(InternalServerError), db)
      else if !Matches(oldPassword, user.password.value) then (Failure(Unauthorized(OldPasswordIncorrect)), db)
      else UsuarioSpec.UpdateUser(db, user.id, PasswordPatch(Hash(newPassword, salt)))
  }

  /** sendForgotPasswordLink: an unknown e-mail answers silently and writes nothing; any other lookup
      error falls through. Otherwise the one reset row for the e-mail is created or replaced with a
      new token, which is mailed; the model returns it. A failed upsert is 500. */
  ghost function SendForgotPasswordLink(db: Db, cfg: Config, email: string, issuedAt: nat)
    : (res: (Result<Option<Token>, Error>, Db))
    ensures var (r, db') := res; r.Failure? ==> db' == db && r.error == InternalServerError
    ensures !db.online ==> res == (Failure(InternalServerError), db)
    ensures db.online && !EmailTaken(db.usuario, email) ==> res == (Success(None), db)
    ensures var (r, db') := res;
      db.online && EmailTaken(db.usuario, email) ==>
        var token := ResetToken(cfg, email, issuedAt);
        && r == Success(Some(token))
        && db' == db.(forgotPassword := Prisma.UpsertRow(db.forgotPassword, ForgotPassword(email, token)))
        && ForgotPassword(email, token) in db'.forgotPassword
    ensures Valid(db) ==> Valid(res.1)
  {
    var found := UsuarioSpec.Find(db, UsuarioByEmail(email), false);
    if found.Failure? && found.error.BadRequest? then (Success(None), db)
    else
      var token := ResetToken(cfg, email, issuedAt);
      match Prisma.UpsertResetRequest(db, email, token)
      case Failure(_) => (Failure(InternalServerError), db)
      case Success(db') => (Success(Some(token)), db')
  }

  /** resetPassword: the token must be on a reset row, verify, and carry that row's e-mail; each
      failure is BadRequest and writes nothing. Then the user with that e-mail gets a hash of the new
      password. The reset row is kept. */
  ghost function ResetPassword(db: Db, cfg: Config, token: Token, newPassword: string, salt: nat)
    : (res: (Result<Usuario, Error>, Db))
    ensures var (r, db') := res; r.Failure? ==> db' == db
    ensures var (r, db') := res; db'.forgotPassword == db.forgotPassword
    ensures db.online && (forall j :: 0 <= j < |db.forgotPassword| ==> db.forgotPassword[j].token != token) ==>
      res == (Failure(BadRequest(InvalidToken)), db)
    ensures db.online && Verify(token, cfg.jwtSecret).None? ==> res == (Failure(BadRequest(InvalidToken)), db)
    ensures (&& db.online && Prisma.FindResetRequest(db, token).value.Some?
             && Verify(token, cfg.jwtSecret).Some?
             && EmailField(Verify(token, cfg.jwtSecret).value) != Some(Prisma.FindResetRequest(db, token).value.value.email)) ==>
      res == (Failure(BadRequest(InvalidToken)), db)
    ensures var (r, db') := res;
      Valid(db) && r.Success? ==>
        exists row :: row in db.forgotPassword && row.token == token
          && Verify(token, cfg.jwtSecret).Some? && EmailField(Verify(token, cfg.jwtSecret).value) == Some(row.email)
          && (exists id :: id in db.usuario && db.usuario[id].email == row.email
                && r.value == db.usuario[id].(password := Some(Hash(newPassword, salt)))
                && db' == db.(usuario := db.usuario[id := r.value]))
    ensures Valid(db) ==> Valid(res.1)
  {
    match Prisma.FindResetRequest(db, token)
    case Failure(f) => (Failure(StoreError(f)), db)
    case Success(None) => (Failure(BadRequest(InvalidToken)), db)
    case Success(Some(row)) =>
      match Verify(token, cfg.jwtSecret)
      case None => (Failure(BadRequest(InvalidToken)), db)
      case Some(payload) =>
        if EmailField(payload) != Some(row.email) then (Failure(BadRequest(InvalidToken)), db)
        else
          match UsuarioSpec.Find(db, UsuarioByEmail(row.email), false)
          case Failure(e) => (Failure(e), db)
          case Success(user) => UsuarioSpec.UpdateUser(db, user.id, PasswordPatch(Hash(newPassword, salt)))
  }
}
