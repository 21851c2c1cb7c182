/** The rows of the tables the services use, the partial updates applied to them, and the
    database as one value with the invariant every table keeps. */
module Records {
  import opened Common
  import opened Crypto

  /** A `usuario` row. `password` is absent only on a row fetched by `find` without the password. */
  datatype Usuario = Usuario(
    id: Id,
    email: string,
    nome: string,
    password: Option<Digest<string>>,
    emailVerificado: bool,
    hashedRt: Option<Digest<Token>>)

  /** The properties of an update object for a `usuario` row; `None` is a property the object does not
      have, so the spread leaves that column as it is. `hashedRt := Some(None)` writes null. */
  datatype UsuarioPatch = UsuarioPatch(
    email: Option<string>,
    nome: Option<string>,
    password: Option<Digest<string>>,
    emailVerificado: Option<bool>,
    hashedRt: Option<Option<Digest<Token>>>)

  /** A `clinica` row, created by the nested write of `registerUser`. */
  datatype Clinica = Clinica(id: Id, cnpj: string, nome: string)

  datatype ClinicaPatch = ClinicaPatch(cnpj: Option<string>, nome: Option<string>)

  /** A row of the join table between `usuario` and `clinica`. */
  datatype Membership = Membership(usuarioId: Id, clinicaId: Id, admin: bool)

  /** A `clinic` row. */
  datatype Clinic = Clinic(id: Id, cnpj: string, name: string, responsibleUserId: Id)

  datatype ClinicPatch = ClinicPatch(cnpj: Option<string>, name: Option<string>, responsibleUserId: Option<Id>)

  /** A `forgotPassword` row: the last reset token issued for an e-mail address. */
  datatype ForgotPassword = ForgotPassword(email: string, token: Token)

  /** The unique keys a `findUnique` can name. */
  datatype UsuarioKey = UsuarioById(id: Id) | UsuarioByEmail(email: string)
  datatype ClinicKey = ClinicById(id: Id) | ClinicByCnpj(cnpj: string)
  datatype ClinicaKey = ClinicaById(id: Id) | ClinicaByCnpj(cnpj: string)

  /** Row `k` of the table is the one `key` names: its id is `k`, or its unique column holds the value. */
  predicate UsuarioAt(m: map<Id, Usuario>, k: Id, key: UsuarioKey)
  {
    k in m && if key.UsuarioById? then k == key.id else m[k].email == key.email
  }

  predicate ClinicAt(m: map<Id, Clinic>, k: Id, key: ClinicKey)
  {
    k in m && if key.ClinicById? then k == key.id else m[k].cnpj == key.cnpj
  }

  predicate ClinicaAt(m: map<Id, Clinica>, k: Id, key: ClinicaKey)
  {
    k in m && if key.ClinicaById? then k == key.id else m[k].cnpj == key.cnpj
  }

  function Pick<T>(supplied: Option<T>, current: T): T
  {
    if supplied.Some? then supplied.value else current
  }

  /** The `{...properties}` spread of `prisma.usuario.update`: every supplied column takes the supplied
      value, every other column keeps its value. */
  function ApplyUsuarioPatch(u: Usuario, p: UsuarioPatch): (v: Usuario)
    ensures v.id == u.id
    ensures v.email == (if p.email.Some? then p.email.value else u.email)
    ensures v.nome == (if p.nome.Some? then p.nome.value else u.nome)
    ensures v.password == (if p.password.Some? then p.password else u.password)
    ensures v.emailVerificado == (if p.emailVerificado.Some? then p.emailVerificado.value else u.emailVerificado)
    ensures v.hashedRt == (if p.hashedRt.Some? then p.hashedRt.value else u.hashedRt)
  {
    Usuario(u.id, Pick(p.email, u.email), Pick(p.nome, u.nome),
            if p.password.Some? then p.password else u.password,
            Pick(p.emailVerificado, u.emailVerificado), Pick(p.hashedRt, u.hashedRt))
  }

  function ApplyClinicPatch(c: Clinic, p: ClinicPatch): (v: Clinic)
    ensures v.id == c.id
    ensures v.cnpj == (if p.cnpj.Some? then p.cnpj.value else c.cnpj)
    ensures v.name == (if p.name.Some? then p.name.value else c.name)
    ensures v.responsibleUserId == (if p.responsibleUserId.Some? then p.responsibleUserId.value else c.responsibleUserId)
  {
    Clinic(c.id, Pick(p.cnpj, c.cnpj), Pick(p.name, c.name), Pick(p.responsibleUserId, c.responsibleUserId))
  }

  function ApplyClinicaPatch(c: Clinica, p: ClinicaPatch): (v: Clinica)
    ensures v.id == c.id
    ensures v.cnpj == (if p.cnpj.Some? then p.cnpj.value else c.cnpj)
    ensures v.nome == (if p.nome.Some? then p.nome.value else c.nome)
  {
    Clinica(c.id, Pick(p.cnpj, c.cnpj), Pick(p.nome, c.nome))
  }

  /** Applying the same patch twice is applying it once. */
  lemma UsuarioPatchIdempotent(u: Usuario, p: UsuarioPatch)
    ensures ApplyUsuarioPatch(ApplyUsuarioPatch(u, p), p) == ApplyUsuarioPatch(u, p)
  {
  }

  // Unique secondary keys.

  predicate EmailsUnique(m: map<Id, Usuario>)
  {
    forall a, b :: a in m && b in m && m[a].email == m[b].email ==> a == b
  }

  predicate ClinicCnpjsUnique(m: map<Id, Clinic>)
  {
    forall a, b :: a in m && b in m && m[a].cnpj == m[b].cnpj ==> a == b
  }

  predicate ClinicaCnpjsUnique(m: map<Id, Clinica>)
  {
    forall a, b :: a in m && b in m && m[a].cnpj == m[b].cnpj ==> a == b
  }

  predicate ResetEmailsUnique(s: seq<ForgotPassword>)
  {
    forall i, j :: 0 <= i < |s| && 0 <= j < |s| && s[i].email == s[j].email ==> i == j
  }

  /** The `findFirst({where: {email}})` probe the update methods run before writing. */
  predicate EmailTaken(m: map<Id, Usuario>, e: string)
  {
    exists k :: k in m && m[k].email == e
  }

  predicate ClinicCnpjTaken(m: map<Id, Clinic>, n: string)
  {
    exists k :: k in m && m[k].cnpj == n
  }

  predicate ClinicaCnpjTaken(m: map<Id, Clinica>, n: string)
  {
    exists k :: k in m && m[k].cnpj == n
  }

  /** The whole database. `nextId` is the next identity to hand out; `online` is false when the
      database cannot be reached, and then every call fails. */
  datatype Db = Db(
    usuario: map<Id, Usuario>,
    membership: seq<Membership>,
    clinica: map<Id, Clinica>,
    clinic: map<Id, Clinic>,
    forgotPassword: seq<ForgotPassword>,
    nextId: nat,
    online: bool)

  ghost predicate UsuariosKeyed(m: map<Id, Usuario>, next: nat)
  {
    forall k :: k in m ==> m[k].id == k && k < next && m[k].password.Some?
  }

  ghost predicate ClinicasKeyed(m: map<Id, Clinica>, next: nat)
  {
    forall k :: k in m ==> m[k].id == k && k < next
  }

  ghost predicate ClinicsKeyed(m: map<Id, Clinic>, next: nat)
  {
    forall k :: k in m ==> m[k].id == k && k < next
  }

  /** The database invariant: every row is stored under its own id, ids below `nextId`, every user has
      a password, and the unique columns (user e-mail, clinic and clinica CNPJ, reset-request e-mail)
      hold no duplicates. */
  ghost predicate Valid(db: Db)
  {
    && UsuariosKeyed(db.usuario, db.nextId)
    && EmailsUnique(db.usuario)
    && ClinicasKeyed(db.clinica, db.nextId)
    && ClinicaCnpjsUnique(db.clinica)
    && ClinicsKeyed(db.clinic, db.nextId)
    && ClinicCnpjsUnique(db.clinic)
    && ResetEmailsUnique(db.forgotPassword)
  }

  /** The input of `createUser` and of the plain signup. */
  datatype CreateUserDto = CreateUserDto(email: string, password: string, name: string)

  /** The input of self-service registration with a clinica. */
  datatype CreateAccountDto = CreateAccountDto(name: string, email: string, password: string,
                                               clinicaCnpj: string, clinicaName: string)
}
