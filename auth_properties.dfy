/** Properties of the account lifecycle that relate several `AuthService` calls. */
module AuthProperties {
  import opened Common
  import opened Crypto
  import opened Records
  import Prisma
  import UsuarioSpec
  import opened AuthSpec

  /** `rt` is the one refresh token the stored hash of user `id` accepts. */
  ghost predicate OnlyRefreshToken(db: Db, id: Id, rt: Token)
  {
    forall t :: RtMatches(db, id, t) <==> t == rt
  }

  /** Some user has this e-mail and this password. */
  ghost predicate Credentials(db: Db, email: string, password: string)
  {
    exists k :: k in db.usuario && db.usuario[k].email == email
      && db.usuario[k].password.Some? && Matches(password, db.usuario[k].password.value)
  }

  /** While `rt` is the only accepted refresh token, refreshTokens succeeds for it and refuses
      every other token with Forbidden, writing nothing. */
  lemma RefreshAcceptsOnlyLatest(db: Db, cfg: Config, id: Id, rt: Token, t: Token, salt: nat, issuedAt: nat)
    requires Valid(db) && db.online && OnlyRefreshToken(db, id, rt)
    ensures var (r, db') := RefreshTokens(db, cfg, id, t, salt, issuedAt);
      && (r.Success? <==> t == rt)
      && (t != rt ==> r == Failure(Forbidden(AccessDenied)) && db' == db)
  {
    assert RtMatches(db, id, t) <==> t == rt;
  }

  /** After a successful refresh only the refresh token just issued is accepted. */
  lemma RefreshRotates(db: Db, cfg: Config, id: Id, rt: Token, salt: nat, issuedAt: nat)
    requires Valid(db) && RefreshTokens(db, cfg, id, rt, salt, issuedAt).0.Success?
    ensures var (r, db') := RefreshTokens(db, cfg, id, rt, salt, issuedAt);
      Valid(db') && db'.online && OnlyRefreshToken(db', id, r.value.refreshToken)
  {
    var (r, db') := RefreshTokens(db, cfg, id, rt, salt, issuedAt);
    forall t ensures RtMatches(db', id, t) <==> t == r.value.refreshToken {
      assert db'.usuario[id].hashedRt == Some(Hash(r.value.refreshToken, salt));
    }
  }

  /** After a successful signin only the refresh token it issued is accepted for that user. */
  lemma SigninRotates(db: Db, cfg: Config, email: string, password: string, salt: nat, issuedAt: nat)
    requires Valid(db) && SigninLocal(db, cfg, email, password, salt, issuedAt).0.Success?
    ensures var (r, db') := SigninLocal(db, cfg, email, password, salt, issuedAt);
      && Valid(db') && db'.online
      && exists id :: Verify(r.value.tokens.refreshToken, cfg.rtSecret) == Some(Session(id, email))
                     && OnlyRefreshToken(db', id, r.value.tokens.refreshToken)
  {
    var (r, db') := SigninLocal(db, cfg, email, password, salt, issuedAt);
    var id :| id in db.usuario && db.usuario[id].email == email
          && db' == db.(usuario := db.usuario[id := db.usuario[id].(hashedRt := Some(Hash(r.value.tokens.refreshToken, salt)))])
          && Verify(r.value.tokens.refreshToken, cfg.rtSecret) == Some(Session(id, email));
    forall t ensures RtMatches(db', id, t) <==> t == r.value.tokens.refreshToken {
      assert db'.usuario[id].hashedRt == Some(Hash(r.value.tokens.refreshToken, salt));
    }
  }

  /** After a successful signup only the refresh token it issued is accepted for the new user. */
  lemma SignupRotates(db: Db, cfg: Config, dto: CreateUserDto, pwSalt: nat, rtSalt: nat, issuedAt: nat)
    requires Valid(db) && db.online && !EmailTaken(db.usuario, dto.email)
    ensures var (r, db') := SignupLocal(db, cfg, dto, pwSalt, rtSalt, issuedAt);
      && r.Success? && Valid(db') && db'.online
      && Verify(r.value.tokens.refreshToken, cfg.rtSecret) == Some(Session(db.nextId, dto.email))
      && OnlyRefreshToken(db', db.nextId, r.value.tokens.refreshToken)
  {
    var (r, db') := SignupLocal(db, cfg, dto, pwSalt, rtSalt, issuedAt);
    assert db'.online by {
      var (c, db1) := UsuarioSpec.CreateUser(db, dto, pwSalt);
      assert db1.online;
    }
    forall t ensures RtMatches(db', db.nextId, t) <==> t == r.value.tokens.refreshToken {
    }
  }

  /** After logout no refresh token is accepted for that user, and the refusal writes nothing. */
  lemma LogoutRevokesRefresh(db: Db, cfg: Config, id: Id, t: Token, salt: nat, issuedAt: nat)
    requires Valid(db)
    ensures var db1 := Logout(db, id).1;
      RefreshTokens(db1, cfg, id, t, salt, issuedAt)
        == (Failure(if db.online then Forbidden(AccessDenied) else InternalServerError), db1)
  {
    var db1 := Logout(db, id).1;
    assert db1.online == db.online;
    if db.online && id in db.usuario {
      assert db1.usuario[id] == db.usuario[id].(hashedRt := None);
    }
  }

  /** A second logout answers the same and changes nothing. */
  lemma LogoutIdempotent(db: Db, id: Id)
    requires Valid(db)
    ensures Logout(Logout(db, id).1, id) == Logout(db, id)
  {
    var (r1, db1) := Logout(db, id);
    var (r2, db2) := Logout(db1, id);
    if db.online {
      assert db2.usuario == db1.usuario by {
        forall k | k in db1.usuario ensures db2.usuario[k] == db1.usuario[k] {
          if k == id {
            assert db1.usuario[id] == db.usuario[id].(hashedRt := None);
          }
        }
      }
    }
  }

  /** signin succeeds exactly for a stored e-mail with its password; every refusal writes nothing. */
  lemma SigninSucceedsIffCredentials(db: Db, cfg: Config, email: string, password: string, salt: nat, issuedAt: nat)
    requires Valid(db)
    ensures var (r, db') := SigninLocal(db, cfg, email, password, salt, issuedAt);
      && (r.Success? <==> db.online && Credentials(db, email, password))
      && (r.Failure? ==> db' == db)
  {
    var (r, db') := SigninLocal(db, cfg, email, password, salt, issuedAt);
    var found := UsuarioSpec.Find(db, UsuarioByEmail(email), true);
    if found.Success? {
      var k :| k in db.usuario && UsuarioAt(db.usuario, k, UsuarioByEmail(email))
            && found.value == UsuarioSpec.Fetched(db.usuario[k], true);
      if Credentials(db, email, password) {
        var j :| j in db.usuario && db.usuario[j].email == email
              && db.usuario[j].password.Some? && Matches(password, db.usuario[j].password.value);
        Prisma.UsuarioKeyNamesOneRow(db, UsuarioByEmail(email), j, k);
      }
    }
  }

  /** An unknown e-mail and a wrong password are refused with the same message, writing nothing. */
  lemma SigninDeniesAlike(db: Db, cfg: Config, email: string, password: string, salt: nat, issuedAt: nat)
    requires Valid(db) && db.online && !Credentials(db, email, password)
    ensures SigninLocal(db, cfg, email, password, salt, issuedAt) == (Failure(Forbidden(SigninDenied)), db)
  {
    SigninSucceedsIffCredentials(db, cfg, email, password, salt, issuedAt);
    var found := UsuarioSpec.Find(db, UsuarioByEmail(email), true);
    if found.Success? {
      var k :| k in db.usuario && UsuarioAt(db.usuario, k, UsuarioByEmail(email))
            && found.value == UsuarioSpec.Fetched(db.usuario[k], true);
      assert !Matches(password, found.value.password.value);
    }
  }

  /** The account signup creates can sign in with the signup's e-mail and password. */
  lemma SignupThenSignin(db: Db, cfg: Config, dto: CreateUserDto, pwSalt: nat, rtSalt: nat, issuedAt: nat,
                         rtSalt2: nat, issuedAt2: nat)
    requires Valid(db) && db.online && !EmailTaken(db.usuario, dto.email)
    ensures var db1 := SignupLocal(db, cfg, dto, pwSalt, rtSalt, issuedAt).1;
      SigninLocal(db1, cfg, dto.email, dto.password, rtSalt2, issuedAt2).0.Success?
  {
    var db1 := SignupLocal(db, cfg, dto, pwSalt, rtSalt, issuedAt).1;
    SignupRotates(db, cfg, dto, pwSalt, rtSalt, issuedAt);
    SigninSucceedsIffCredentials(db1, cfg, dto.email, dto.password, rtSalt2, issuedAt2);
    assert db1.usuario[db.nextId].email == dto.email by {
      var (c, dbc) := UsuarioSpec.CreateUser(db, dto, pwSalt);
      assert c.value.id == db.nextId;
    }
    assert Credentials(db1, dto.email, dto.password);
  }

  /** After changePassword the new password signs in, the old one (when different) is refused, and
      the stored refresh-token hash still accepts exactly what it accepted before. */
  lemma ChangePasswordThenSignin(db: Db, cfg: Config, id: Id, oldPassword: string, newPassword: string, salt: nat,
                                 rtSalt: nat, issuedAt: nat)
    requires Valid(db) && ChangePassword(db, id, oldPassword, newPassword, salt).0.Success?
    ensures var db1 := ChangePassword(db, id, oldPassword, newPassword, salt).1;
      && id in db.usuario
      && SigninLocal(db1, cfg, db.usuario[id].email, newPassword, rtSalt, issuedAt).0.Success?
      && (oldPassword != newPassword ==>
            SigninLocal(db1, cfg, db.usuario[id].email, oldPassword, rtSalt, issuedAt)
              == (Failure(Forbidden(SigninDenied)), db1))
      && forall t :: RtMatches(db1, id, t) <==> RtMatches(db, id, t)
  {
    var db1 := ChangePassword(db, id, oldPassword, newPassword, salt).1;
    var email := db.usuario[id].email;
    assert db1.usuario[id].email == email;
    SigninSucceedsIffCredentials(db1, cfg, email, newPassword, rtSalt, issuedAt);
    assert Credentials(db1, email, newPassword);
    if oldPassword != newPassword {
      assert !Credentials(db1, email, oldPassword);
      SigninDeniesAlike(db1, cfg, email, oldPassword, rtSalt, issuedAt);
    }
  }

  /** verifyEmail never clears a verified flag and changes no other row. */
  lemma VerifyEmailOnlyRaisesFlag(db: Db, cfg: Config, token: Token)
    requires Valid(db)
    ensures var db' := VerifyEmail(db, cfg, token).1;
      && db'.usuario.Keys == db.usuario.Keys
      && forall k :: k in db.usuario ==>
           && (db.usuario[k].emailVerificado ==> db'.usuario[k].emailVerificado)
           && db'.usuario[k] == db.usuario[k].(emailVerificado := db'.usuario[k].emailVerificado)
  {
  }

  /** Verifying the same e-mail twice gives the same user and the same database as once. */
  lemma VerifyEmailIdempotent(db: Db, cfg: Config, token: Token)
    requires Valid(db) && VerifyEmail(db, cfg, token).0.Success?
    ensures var (r, db1) := VerifyEmail(db, cfg, token);
      VerifyEmail(db1, cfg, token) == (r, db1)
  {
    var (r, db1) := VerifyEmail(db, cfg, token);
    var id := IdField(Verify(token, cfg.jwtSecret).value).value;
    assert db1.usuario[id] == r.value;
    assert db1.usuario[id := db1.usuario[id].(emailVerificado := true)] == db1.usuario;
  }

  /** The token a verification mail carries verifies the user it was sent to. */
  lemma ResendThenVerify(db: Db, cfg: Config, id: Id, issuedAt: nat)
    requires Valid(db) && ResendVerifyEmail(db, cfg, id, issuedAt).Success?
    ensures var (r, db') := VerifyEmail(db, cfg, ResendVerifyEmail(db, cfg, id, issuedAt).value);
      && r.Success? && r.value.id == id && r.value.emailVerificado
      && db'.usuario == db.usuario[id := db.usuario[id].(emailVerificado := true)]
  {
    var token := ResendVerifyEmail(db, cfg, id, issuedAt).value;
    assert Verify(token, cfg.jwtSecret) == Some(EmailVerification(id));
  }

  /** Every reset row whose token carries a reset payload names the row's own e-mail; the only
      writer of the table keeps this. */
  ghost predicate ResetRowsTied(s: seq<ForgotPassword>)
  {
    forall row :: row in s && row.token.Jwt? && row.token.payload.PasswordReset? ==> row.token.payload.email == row.email
  }

  lemma SendForgotKeepsRowsTied(db: Db, cfg: Config, email: string, issuedAt: nat)
    requires Valid(db) && ResetRowsTied(db.forgotPassword)
    ensures ResetRowsTied(SendForgotPasswordLink(db, cfg, email, issuedAt).1.forgotPassword)
  {
    var db' := SendForgotPasswordLink(db, cfg, email, issuedAt).1;
    forall row | row in db'.forgotPassword && row.token.Jwt? && row.token.payload.PasswordReset?
      ensures row.token.payload.email == row.email
    {
      if db'.forgotPassword != db.forgotPassword {
        var token := ResetToken(cfg, email, issuedAt);
        assert db'.forgotPassword == Prisma.UpsertRow(db.forgotPassword, ForgotPassword(email, token));
      }
    }
  }

  /** The reset link mailed for a registered e-mail resets that user's password, and the reset row
      stays in place. */
  lemma ForgotThenReset(db: Db, cfg: Config, email: string, issuedAt: nat, newPassword: string, salt: nat)
    requires Valid(db) && ResetRowsTied(db.forgotPassword)
    requires db.online && EmailTaken(db.usuario, email)
    ensures var (sent, db1) := SendForgotPasswordLink(db, cfg, email, issuedAt);
      && sent.Success? && sent.value.Some?
      && var (r, db2) := ResetPassword(db1, cfg, sent.value.value, newPassword, salt);
         && r.Success? && r.value.email == email && r.value.password == Some(Hash(newPassword, salt))
         && db2.forgotPassword == db1.forgotPassword
  {
    var (sent, db1) := SendForgotPasswordLink(db, cfg, email, issuedAt);
    var token := ResetToken(cfg, email, issuedAt);
    SendForgotKeepsRowsTied(db, cfg, email, issuedAt);
    var found := Prisma.FindResetRequest(db1, token);
    assert found.Success? && found.value.Some?;
    var row := found.value.value;
    assert row.email == email;
    ResetReachesUser(db1, cfg, token, row, newPassword, salt);
  }

  /** Once the request row for a token is found and the token carries its e-mail, resetPassword
      succeeds for a registered e-mail. */
  lemma ResetReachesUser(db: Db, cfg: Config, token: Token, row: ForgotPassword, newPassword: string, salt: nat)
    requires Valid(db) && db.online
    requires Prisma.FindResetRequest(db, token) == Success(Some(row))
    requires Verify(token, cfg.jwtSecret).Some? && EmailField(Verify(token, cfg.jwtSecret).value) == Some(row.email)
    requires EmailTaken(db.usuario, row.email)
    ensures var (r, db') := ResetPassword(db, cfg, token, newPassword, salt);
      && r.Success? && r.value.email == row.email && r.value.password == Some(Hash(newPassword, salt))
      && db'.forgotPassword == db.forgotPassword
  {
    var user := UsuarioSpec.Find(db, UsuarioByEmail(row.email), false);
    var k :| k in db.usuario && UsuarioAt(db.usuario, k, UsuarioByEmail(row.email))
          && user.value == UsuarioSpec.Fetched(db.usuario[k], false);
    assert user.value.id in db.usuario;
  }

  /** The row is never deleted, so a reset token that worked once works again. */
  lemma ResetReplayable(db: Db, cfg: Config, token: Token, pw1: string, salt1: nat, pw2: string, salt2: nat)
    requires Valid(db) && ResetPassword(db, cfg, token, pw1, salt1).0.Success?
    ensures ResetPassword(ResetPassword(db, cfg, token, pw1, salt1).1, cfg, token, pw2, salt2).0.Success?
  {
    var (r, db1) := ResetPassword(db, cfg, token, pw1, salt1);
    var row := Prisma.FindResetRequest(db, token).value.value;
    assert Prisma.FindResetRequest(db1, token) == Success(Some(row));
    var id :| id in db.usuario && db.usuario[id].email == row.email
           && r.value == db.usuario[id].(password := Some(Hash(pw1, salt1)))
           && db1 == db.(usuario := db.usuario[id := r.value]);
    assert db1.usuario[id].email == row.email;
    ResetReachesUser(db1, cfg, token, row, pw2, salt2);
  }
}
