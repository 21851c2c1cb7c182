/** What `UsuarioService` does to the database and returns, one function per method. A pair
    `(r, db')` is the method's result and the database after it. */
module UsuarioSpec {
  import opened Common
  import opened Crypto
  import opened Records
  import Prisma

  const UserNotFound := "User does not found"
  const CredentialsIncorrect := "Credentials incorrect"
  const EmailInUseByOther := "E-mail já está em uso por outro usuário!"
  const UsuarioNotFound := "Usuário não encontrado!"

  predicate UsuarioKeyPresent(m: map<Id, Usuario>, key: UsuarioKey)
  {
    exists k :: k in m && UsuarioAt(m, k, key)
  }

  /** findById: the stored row, or BadRequest when there is none. */
  ghost function FindById(db: Db, id: Id): (r: Result<Usuario, Error>)
    ensures r.Success? <==> db.online && id in db.usuario
    ensures r.Success? ==> r.value == db.usuario[id]
    ensures r.Failure? ==> r.error == (if db.online then BadRequest(UserNotFound) else StoreError(Other))
  {
    match Prisma.FindUsuario(db, UsuarioById(id))
    case Failure(f) => Failure(StoreError(f))
    case Success(None) => Failure(BadRequest(UserNotFound))
    case Success(Some(u)) => Success(u)
  }

  /** findByEmail: never raises for a missing e-mail; the result is then undefined. */
  ghost function FindByEmail(db: Db, email: string): (r: Result<Option<Usuario>, Error>)
    ensures r.Failure? <==> !db.online
    ensures r.Failure? ==> r.error == StoreError(Other)
    ensures r.Success? ==> (r.value.Some? <==> EmailTaken(db.usuario, email))
    ensures r.Success? && r.value.Some? ==> r.value.value in db.usuario.Values && r.value.value.email == email
  {
    match Prisma.FindUsuario(db, UsuarioByEmail(email))
    case Failure(f) => Failure(StoreError(f))
    case Success(found) => Success(found)
  }

  /** The fetched row as `find` hands it back: without its password unless asked for. */
  function Fetched(u: Usuario, withPassword: bool): (v: Usuario)
    ensures v.password == (if withPassword then u.password else None)
    ensures v.(password := u.password) == u
  {
    if withPassword then u else u.(password := None)
  }

  /** find: the row the key names, with the password removed unless `withPassword`; BadRequest when
      there is none. */
  ghost function Find(db: Db, key: UsuarioKey, withPassword: bool): (r: Result<Usuario, Error>)
    ensures r.Success? <==> db.online && UsuarioKeyPresent(db.usuario, key)
    ensures r.Success? ==> exists k :: k in db.usuario && UsuarioAt(db.usuario, k, key) && r.value == Fetched(db.usuario[k], withPassword)
    ensures r.Success? ==> (r.value.password.None? <== !withPassword)
    ensures r.Failure? ==> r.error == (if db.online then BadRequest(UserNotFound) else StoreError(Other))
  {
    match Prisma.FindUsuario(db, key)
    case Failure(f) => Failure(StoreError(f))
    case Success(None) => Failure(BadRequest(UserNotFound))
    case Success(Some(u)) => Success(Fetched(u, withPassword))
  }

  /** createUser: stores the e-mail, the name and a hash of the password. A duplicate e-mail is
      Forbidden and adds nothing; any other error is passed on unchanged. */
  ghost function CreateUser(db: Db, dto: CreateUserDto, salt: nat): (res: (Result<Usuario, Error>, Db))
    ensures var (r, db') := res;
      && (r.Success? <==> db.online && !EmailTaken(db.usuario, dto.email))
      && (r.Failure? ==> db' == db)
      && (r.Failure? ==> r.error == (if db.online then Forbidden(CredentialsIncorrect) else StoreError(Other)))
    ensures var (r, db') := res;
      r.Success? ==>
        && r.value.email == dto.email && r.value.nome == dto.name
        && r.value.password.Some? && Matches(dto.password, r.value.password.value)
        && !r.value.emailVerificado && r.value.hashedRt.None?
        && db' == db.(usuario := db.usuario[r.value.id := r.value], nextId := db.nextId + 1)
    ensures Valid(db) ==> Valid(res.1) && (res.0.Success? ==> res.0.value.id !in db.usuario)
  {
    match Prisma.CreateUsuario(db, dto.email, dto.name, Hash(dto.password, salt))
    case Success((u, db')) => (Success(u), db')
    case Failure(UniqueViolation) => (Failure(Forbidden(CredentialsIncorrect)), db)
    case Failure(f) => (Failure(StoreError(f)), db)
  }

  /** registerUser: the user, exactly one admin membership and a new clinica with the given CNPJ and
      name, all in one write; on a unique violation nothing is created. */
  ghost function RegisterUser(db: Db, dto: CreateAccountDto, salt: nat): (res: (Result<Usuario, Error>, Db))
    ensures var (r, db') := res;
      && (r.Success? <==> db.online && !EmailTaken(db.usuario, dto.email) && !ClinicaCnpjTaken(db.clinica, dto.clinicaCnpj))
      && (r.Failure? ==> db' == db)
      && (r.Failure? ==> r.error == (if db.online then Forbidden(CredentialsIncorrect) else StoreError(Other)))
    ensures var (r, db') := res;
      r.Success? ==>
        var u := r.value;
        && u.email == dto.email && u.nome == dto.name
        && u.password.Some? && Matches(dto.password, u.password.value)
        && !u.emailVerificado && u.hashedRt.None?
        && db'.usuario == db.usuario[u.id := u]
        && |db'.membership| == |db.membership| + 1
        && db'.membership[..|db.membership|] == db.membership
        && (var m := db'.membership[|db.membership|];
            && m.usuarioId == u.id && m.admin
            && db'.clinica == db.clinica[m.clinicaId := Clinica(m.clinicaId, dto.clinicaCnpj, dto.clinicaName)])
        && db'.clinic == db.clinic && db'.forgotPassword == db.forgotPassword && db'.online == db.online
    ensures Valid(db) && res.0.Success? ==>
      && Valid(res.1)
      && res.0.value.id !in db.usuario
      && res.1.membership[|db.membership|].clinicaId !in db.clinica
  {
    match Prisma.CreateUsuarioWithClinica(db, dto.email, dto.name, Hash(dto.password, salt),
                                          dto.clinicaCnpj, dto.clinicaName)
    case Success((u, db')) => (Success(u), db')
    case Failure(UniqueViolation) => (Failure(Forbidden(CredentialsIncorrect)), db)
    case Failure(f) => (Failure(StoreError(f)), db)
  }

  /** The catch block of updateUser. */
  function UpdateUserError(f: StoreFault): Error
  {
    if f == NotFound then BadRequest(UsuarioNotFound) else InternalServerError
  }

  /** updateUser: a truthy e-mail already held by any user, the same user included, is refused
      before anything is written; otherwise the supplied columns of row `id` are overwritten and
      every other column and row stays. */
  ghost function UpdateUser(db: Db, id: Id, p: UsuarioPatch): (res: (Result<Usuario, Error>, Db))
    ensures var (r, db') := res; r.Failure? ==> db' == db
    ensures var (r, db') := res;
      r.Failure? ==> r.error in {BadRequest(EmailInUseByOther), BadRequest(UsuarioNotFound), InternalServerError}
    ensures db.online && Truthy(p.email) && EmailTaken(db.usuario, p.email.value) ==>
      res == (Failure(BadRequest(EmailInUseByOther)), db)
    ensures !db.online ==> res == (Failure(InternalServerError), db)
    ensures db.online && !(Truthy(p.email) && EmailTaken(db.usuario, p.email.value)) && id !in db.usuario ==>
      res == (Failure(BadRequest(UsuarioNotFound)), db)
    ensures var (r, db') := res;
      r.Success? ==>
        && id in db.usuario
        && r.value == ApplyUsuarioPatch(db.usuario[id], p)
        && db' == db.(usuario := db.usuario[id := r.value])
    ensures var (r, db') := res;
      Valid(db) && db.online && id in db.usuario && (p.email.Some? ==> !EmailTaken(db.usuario, p.email.value)) ==> r.Success?
    ensures Valid(db) ==> Valid(res.1)
  {
    if Truthy(p.email) && !db.online then (Failure(InternalServerError), db)
    else if Truthy(p.email) && EmailTaken(db.usuario, p.email.value) then (Failure(BadRequest(EmailInUseByOther)), db)
    else
      match Prisma.UpdateUsuario(db, id, p)
      case Success((v, db')) => (Success(v), db')
      case Failure(f) => (Failure(UpdateUserError(f)), db)
  }

  /** The catch block of updateMany. */
  function UpdateManyError(f: StoreFault): Error
  {
    if f == NotFound then BadRequest(UserNotFound) else InternalServerError
  }

  /** updateMany: every row satisfying `where` is patched, possibly none; the result is how many.
      Prisma's updateMany does not report P2025, so a failure is always InternalServerError. */
  ghost function UpdateMany(db: Db, where: Usuario -> bool, p: UsuarioPatch): (res: (Result<nat, Error>, Db))
    ensures var (r, db') := res; r.Failure? ==> db' == db && r.error == InternalServerError
    ensures db.online && p.email.None? ==> res.0.Success?
    ensures var (r, db') := res;
      r.Success? ==>
        && r.value == |Prisma.UsuarioMatches(db.usuario, where)|
        && db'.usuario.Keys == db.usuario.Keys
        && (forall k :: k in db.usuario && where(db.usuario[k]) ==> db'.usuario[k] == ApplyUsuarioPatch(db.usuario[k], p))
        && (forall k :: k in db.usuario && !where(db.usuario[k]) ==> db'.usuario[k] == db.usuario[k])
        && db' == db.(usuario := db'.usuario)
    ensures Valid(db) ==> Valid(res.1)
  {
    match Prisma.UpdateManyUsuario(db, where, p)
    case Success((n, db')) => (Success(n), db')
    case Failure(f) => (Failure(UpdateManyError(f)), db)
  }
}
