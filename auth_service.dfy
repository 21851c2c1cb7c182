/** `AuthService`: the account lifecycle, step by step over the user service and the Prisma
    client. Each method is proved to do what the function of the same name in `AuthSpec` says. */
module AuthImpl {
  import opened Common
  import opened Crypto
  import opened Records
  import opened Store
  import UsuarioImpl
  import AuthSpec

  class AuthService {
    const prismaService: PrismaService
    const userService: UsuarioImpl.UsuarioService
    const config: AuthSpec.Config

    /** The user service works on the same database as this service. */
    predicate Wired()
    {
      userService.prismaService == prismaService
    }

    constructor (prismaService: PrismaService, userService: UsuarioImpl.UsuarioService, config: AuthSpec.Config)
      requires userService.prismaService == prismaService
      ensures Wired()
      ensures this.prismaService == prismaService && this.userService == userService && this.config == config
    {
      this.prismaService := prismaService;
      this.userService := userService;
      this.config := config;
    }

    method SignupLocal(dto: CreateUserDto, pwSalt: nat, rtSalt: nat, issuedAt: nat) returns (r: Result<AuthSpec.Auth, Error>)
      requires Wired() && prismaService.Valid()
      modifies prismaService
      ensures prismaService.Valid()
      ensures (r, prismaService.State())
              == AuthSpec.SignupLocal(old(prismaService.State()), config, dto, pwSalt, rtSalt, issuedAt)
    {
      var userEmail := userService.FindByEmail(dto.email);
      if userEmail.Failure? {
        return Failure(AuthSpec.SignupError(userEmail.error));
      }
      if userEmail.value.Some? {
        return Failure(BadRequest(AuthSpec.EmailInUse));
      }
      var created := userService.CreateUser(dto, pwSalt);
      match created {
        case Failure(e) =>
          return Failure(AuthSpec.SignupError(e));
        case Success(user) =>
          var tokens := AuthSpec.GetTokens(config, user.id, user.email, issuedAt);
          var stored := UpdateRtHash(user.id, tokens.refreshToken, rtSalt);
          match stored {
            case Failure(e) => return Failure(AuthSpec.SignupError(e));
            case Success(_) => return Success(AuthSpec.Auth(tokens, AuthSpec.UserLoginInfo(user.email, user.nome)));
          }
      }
    }

    method SigninLocal(email: string, password: string, rtSalt: nat, issuedAt: nat) returns (r: Result<AuthSpec.Auth, Error>)
      requires Wired() && prismaService.Valid()
      modifies prismaService
      ensures prismaService.Valid()
      ensures (r, prismaService.State())
              == AuthSpec.SigninLocal(old(prismaService.State()), config, email, password, rtSalt, issuedAt)
    {
      var user := userService.Find(UsuarioByEmail(email), true);
      if user.Failure? {
        if user.error.BadRequest? {
          return Failure(Forbidden(AuthSpec.SigninDenied));
        }
        return Failure(InternalServerError);
      }
      if user.value.password.None? {
        return Failure(InternalServerError);
      }
      var passwordMatches := Matches(password, user.value.password.value);
      if !passwordMatches {
        return Failure(Forbidden(AuthSpec.SigninDenied));
      }
      var tokens := AuthSpec.GetTokens(config, user.value.id, user.value.email, issuedAt);
      var stored := UpdateRtHash(user.value.id, tokens.refreshToken, rtSalt);
      match stored {
        case Failure(e) => return Failure(e);
        case Success(_) => return Success(AuthSpec.Auth(tokens, AuthSpec.UserLoginInfo(user.value.email, user.value.nome)));
      }
    }

    method Logout(userId: Id) returns (r: Result<bool, Error>)
      requires Wired() && prismaService.Valid()
      modifies prismaService
      ensures prismaService.Valid()
      ensures (r, prismaService.State()) == AuthSpec.Logout(old(prismaService.State()), userId)
    {
      var updated := userService.UpdateMany(AuthSpec.LogoutFilter(userId), AuthSpec.LogoutPatch);
      if updated.Failure? {
        return Failure(updated.error);
      }
      return Success(true);
    }

    method RefreshTokens(userId: Id, rt: Token, rtSalt: nat, issuedAt: nat) returns (r: Result<AuthSpec.Tokens, Error>)
      requires Wired() && prismaService.Valid()
      modifies prismaService
      ensures prismaService.Valid()
      ensures (r, prismaService.State())
              == AuthSpec.RefreshTokens(old(prismaService.State()), config, userId, rt, rtSalt, issuedAt)
    {
      var user := userService.FindById(userId);
      if user.Failure? {
        if user.error.BadRequest? {
          return Failure(Forbidden(AuthSpec.AccessDenied));
        }
        return Failure(InternalServerError);
      }
      if user.value.hashedRt.None? {
        return Failure(Forbidden(AuthSpec.AccessDenied));
      }
      var rtMatches := Matches(rt, user.value.hashedRt.value);
      if !rtMatches {
        return Failure(Forbidden(AuthSpec.AccessDenied));
      }
      var tokens := AuthSpec.GetTokens(config, user.value.id, user.value.email, issuedAt);
      var stored := UpdateRtHash(user.value.id, tokens.refreshToken, rtSalt);
      match stored {
        case Failure(e) => return Failure(e);
        case Success(_) => return Success(tokens);
      }
    }

    method UpdateRtHash(userId: Id, rt: Token, salt: nat) returns (r: Result<(), Error>)
      requires Wired() && prismaService.Valid()
      modifies prismaService
      ensures prismaService.Valid()
      ensures (r, prismaService.State()) == AuthSpec.UpdateRtHash(old(prismaService.State()), userId, rt, salt)
    {
      var hash := Hash(rt, salt);
      var updated := userService.UpdateUser(userId, AuthSpec.RtPatch(hash));
      if updated.Failure? {
        return Failure(updated.error);
      }
      return Success(());
    }

    method ResendVerifyEmail(userId: Id, issuedAt: nat) returns (r: Result<Token, Error>)
      requires Wired() && prismaService.Valid()
      ensures r == AuthSpec.ResendVerifyEmail(prismaService.State(), config, userId, issuedAt)
    {
      var user := userService.FindById(userId);
      if user.Failure? {
        if user.error.BadRequest? {
          return Failure(Forbidden(AuthSpec.AccessDenied));
        }
        return Failure(InternalServerError);
      }
      return Success(AuthSpec.VerificationToken(config, user.value.id, issuedAt));
    }

    method VerifyEmail(token: Token) returns (r: Result<Usuario, Error>)
      requires Wired() && prismaService.Valid()
      modifies prismaService
      ensures prismaService.Valid()
      ensures (r, prismaService.State()) == AuthSpec.VerifyEmail(old(prismaService.State()), config, token)
    {
      var userFromTokenPayload := Verify(token, config.jwtSecret);
      if userFromTokenPayload.None? {
        return Failure(BadRequest(AuthSpec.InvalidToken));
      }
      var id := IdField(userFromTokenPayload.value);
      if id.None? {
        return Failure(StoreError(Other));
      }
      var user := userService.FindById(id.value);
      if user.Failure? {
        return Failure(user.error);
      }
      r := userService.UpdateUser(id.value, AuthSpec.VerifiedPatch);
    }

    method ChangePassword(id: Id, oldPassword: string, newPassword: string, salt: nat) returns (r: Result<Usuario, Error>)
      requires Wired() && prismaService.Valid()
      modifies prismaService
      ensures prismaService.Valid()
      ensures (r, prismaService.State())
              == AuthSpec.ChangePassword(old(prismaService.State()), id, oldPassword, newPassword, salt)
    {
      var user := userService.FindById(id);
      if user.Failure? {
        return Failure(user.error);
      }
      if user.value.password.None? {
        return Failure(InternalServerError);
      }
      var isOldPasswordCorrect := Matches(oldPassword, user.value.password.value);
      if !isOldPasswordCorrect {
        return Failure(Unauthorized(AuthSpec.OldPasswordIncorrect));
      }
      var password := Hash(newPassword, salt);
      r := userService.UpdateUser(user.value.id, AuthSpec.PasswordPatch(password));
    }

    method SendForgotPasswordLink(email: string, issuedAt: nat) returns (r: Result<Option<Token>, Error>)
      requires Wired() && prismaService.Valid()
      modifies prismaService
      ensures prismaService.Valid()
      ensures (r, prismaService.State())
              == AuthSpec.SendForgotPasswordLink(old(prismaService.State()), config, email, issuedAt)
    {
      var found := userService.Find(UsuarioByEmail(email), false);
      if found.Failure? && found.error.BadRequest? {
        return Success(None);
      }
      var token := AuthSpec.ResetToken(config, email, issuedAt);
      var upserted := prismaService.UpsertResetRequest(email, token);
      if upserted.Failure? {
        return Failure(InternalServerError);
      }
      return Success(Some(token));
    }

    method ResetPassword(token: Token, newPassword: string, salt: nat) returns (r: Result<Usuario, Error>)
      requires Wired() && prismaService.Valid()
      modifies prismaService
      ensures prismaService.Valid()
      ensures (r, prismaService.State())
              == AuthSpec.ResetPassword(old(prismaService.State()), config, token, newPassword, salt)
    {
      var forgotToken := prismaService.FindResetRequest(token);
      if forgotToken.Failure? {
        return Failure(StoreError(forgotToken.error));
      }
      if forgotToken.value.None? {
        return Failure(BadRequest(AuthSpec.InvalidToken));
      }
      var row := forgotToken.value.value;
      var emailFromToken := Verify(token, config.jwtSecret);
      if emailFromToken.None? {
        return Failure(BadRequest(AuthSpec.InvalidToken));
      }
      if EmailField(emailFromToken.value) != Some(row.email) {
        return Failure(BadRequest(AuthSpec.InvalidToken));
      }
      var hashedPassword := Hash(newPassword, salt);
      var user := userService.Find(UsuarioByEmail(row.email), false);
      if user.Failure? {
        return Failure(user.error);
      }
      r := userService.UpdateUser(user.value.id, AuthSpec.PasswordPatch(hashedPassword));
    }
  }
}
