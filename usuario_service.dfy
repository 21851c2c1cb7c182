/** `UsuarioService`: the user table's service, step by step over the Prisma client. */
module UsuarioImpl {
  import opened Common
  import opened Crypto
  import opened Records
  import opened Store
  import UsuarioSpec

  class UsuarioService {
    const prismaService: PrismaService

    constructor (prismaService: PrismaService)
      ensures this.prismaService == prismaService
    {
      this.prismaService := prismaService;
    }

    method FindById(id: Id) returns (r: Result<Usuario, Error>)
      requires prismaService.Valid()
      ensures r == UsuarioSpec.FindById(prismaService.State(), id)
    {
      var user := prismaService.FindUsuario(UsuarioById(id));
      if user.Failure? {
        return Failure(StoreError(user.error));
      }
      if user.value.None? {
        return Failure(BadRequest(UsuarioSpec.UserNotFound));
      }
      return Success(user.value.value);
    }

    method FindByEmail(email: string) returns (r: Result<Option<Usuario>, Error>)
      requires prismaService.Valid()
      ensures r == UsuarioSpec.FindByEmail(prismaService.State(), email)
    {
      var user := prismaService.FindUsuario(UsuarioByEmail(email));
      if user.Failure? {
        return Failure(StoreError(user.error));
      }
      return Success(user.value);
    }

    method Find(key: UsuarioKey, withPassword: bool) returns (r: Result<Usuario, Error>)
      requires prismaService.Valid()
      ensures r == UsuarioSpec.Find(prismaService.State(), key, withPassword)
    {
      var user := prismaService.FindUsuario(key);
      if user.Failure? {
        return Failure(StoreError(user.error));
      }
      if user.value.None? {
        return Failure(BadRequest(UsuarioSpec.UserNotFound));
      }
      var fetched := user.value.value;
      if !withPassword {
        fetched := fetched.(password := None);
      }
      return Success(fetched);
    }

    method CreateUser(dto: CreateUserDto, salt: nat) returns (r: Result<Usuario, Error>)
      requires prismaService.Valid()
      modifies prismaService
      ensures prismaService.Valid()
      ensures (r, prismaService.State()) == UsuarioSpec.CreateUser(old(prismaService.State()), dto, salt)
    {
      var password := Hash(dto.password, salt);
      var newUser := prismaService.CreateUsuario(dto.email, dto.name, password);
      match newUser
      case Success(u) => r := Success(u);
      case Failure(UniqueViolation) => r := Failure(Forbidden(UsuarioSpec.CredentialsIncorrect));
      case Failure(f) => r := Failure(StoreError(f));
    }

    method RegisterUser(dto: CreateAccountDto, salt: nat) returns (r: Result<Usuario, Error>)
      requires prismaService.Valid()
      modifies prismaService
      ensures prismaService.Valid()
      ensures (r, prismaService.State()) == UsuarioSpec.RegisterUser(old(prismaService.State()), dto, salt)
    {
      var password := Hash(dto.password, salt);
      var newUser := prismaService.CreateUsuarioWithClinica(dto.email, dto.name, password,
                                                            dto.clinicaCnpj, dto.clinicaName);
      match newUser
      case Success(u) => r := Success(u);
      case Failure(UniqueViolation) => r := Failure(Forbidden(UsuarioSpec.CredentialsIncorrect));
      case Failure(f) => r := Failure(StoreError(f));
    }

    method UpdateUser(id: Id, properties: UsuarioPatch) returns (r: Result<Usuario, Error>)
      requires prismaService.Valid()
      modifies prismaService
      ensures prismaService.Valid()
      ensures (r, prismaService.State()) == UsuarioSpec.UpdateUser(old(prismaService.State()), id, properties)
    {
      if Truthy(properties.email) {
        var hasEmail := prismaService.FindUsuario(UsuarioByEmail(properties.email.value));
        if hasEmail.Failure? {
          return Failure(InternalServerError);
        }
        if hasEmail.value.Some? {
          return Failure(BadRequest(UsuarioSpec.EmailInUseByOther));
        }
      }
      var updatedUser := prismaService.UpdateUsuario(id, properties);
      if updatedUser.Failure? {
        return Failure(UsuarioSpec.UpdateUserError(updatedUser.error));
      }
      return Success(updatedUser.value);
    }

    method UpdateMany(where: Usuario -> bool, data: UsuarioPatch) returns (r: Result<nat, Error>)
      requires prismaService.Valid()
      modifies prismaService
      ensures prismaService.Valid()
      ensures (r, prismaService.State()) == UsuarioSpec.UpdateMany(old(prismaService.State()), where, data)
    {
      var updated := prismaService.UpdateManyUsuario(where, data);
      if updated.Failure? {
        return Failure(UsuarioSpec.UpdateManyError(updated.error));
      }
      return Success(updated.value);
    }
  }
}
