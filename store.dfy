/** The Prisma client the services are given: one object holding every table, whose calls change
    the tables in place. */
module Store {
  import opened Common
  import opened Crypto
  import opened Records
  import Prisma

  class PrismaService {
    var usuario: map<Id, Usuario>
    var membership: seq<Membership>
    var clinica: map<Id, Clinica>
    var clinic: map<Id, Clinic>
    var forgotPassword: seq<ForgotPassword>
    var nextId: nat
    /** False when the database cannot be reached: then every call fails with `Other`. */
    const online: bool

    /** The tables as one value. */
    ghost function State(): Db
      reads this
    {
      Db(usuario, membership, clinica, clinic, forgotPassword, nextId, online)
    }

    ghost predicate Valid()
      reads this
    {
      Records.Valid(State())
    }

    /** A client connected to an existing database. */
    constructor (db: Db)
      requires Records.Valid(db)
      ensures Valid()
      ensures State() == db
    {
      usuario, membership, clinica, clinic, forgotPassword, nextId :=
        db.usuario, db.membership, db.clinica, db.clinic, db.forgotPassword, db.nextId;
      online := db.online;
    }

    // ------------------------------------------------------------ usuario

    method FindUsuario(key: UsuarioKey) returns (r: Result<Option<Usuario>, StoreFault>)
      requires Valid()
      ensures r == Prisma.FindUsuario(State(), key)
    {
      if !online {
        return Failure(Other);
      }
      if k :| k in usuario && UsuarioAt(usuario, k, key) {
        forall j | UsuarioAt(usuario, j, key) ensures j == k {
          Prisma.UsuarioKeyNamesOneRow(State(), key, j, k);
        }
        return Success(Some(usuario[k]));
      }
      return Success(None);
    }

    method CreateUsuario(email: string, nome: string, password: Digest<string>) returns (r: Result<Usuario, StoreFault>)
      requires Valid()
      modifies this
      ensures Valid()
      ensures Prisma.Performed(Prisma.CreateUsuario(old(State()), email, nome, password), r, old(State()), State())
    {
      if !online {
        return Failure(Other);
      }
      if EmailTaken(usuario, email) {
        return Failure(UniqueViolation);
      }
      var u := Usuario(nextId, email, nome, Some(password), false, None);
      usuario := usuario[u.id := u];
      nextId := nextId + 1;
      return Success(u);
    }

    method CreateUsuarioWithClinica(email: string, nome: string, password: Digest<string>,
                                    cnpj: string, clinicaNome: string)
      returns (r: Result<Usuario, StoreFault>)
      requires Valid()
      modifies this
      ensures Valid()
      ensures Prisma.Performed(Prisma.CreateUsuarioWithClinica(old(State()), email, nome, password, cnpj, clinicaNome),
                               r, old(State()), State())
    {
      if !online {
        return Failure(Other);
      }
      if EmailTaken(usuario, email) || ClinicaCnpjTaken(clinica, cnpj) {
        return Failure(UniqueViolation);
      }
      var u := Usuario(nextId, email, nome, Some(password), false, None);
      var c := Clinica(nextId + 1, cnpj, clinicaNome);
      usuario, clinica, membership, nextId :=
        usuario[u.id := u], clinica[c.id := c], membership + [Membership(u.id, c.id, true)], nextId + 2;
      return Success(u);
    }

    method UpdateUsuario(id: Id, p: UsuarioPatch) returns (r: Result<Usuario, StoreFault>)
      requires Valid()
      modifies this
      ensures Valid()
      ensures Prisma.Performed(Prisma.UpdateUsuario(old(State()), id, p), r, old(State()), State())
    {
      if !online {
        return Failure(Other);
      }
      if id !in usuario {
        return Failure(NotFound);
      }
      if p.email.Some? && Prisma.EmailHeldByOther(usuario, id, p.email.value) {
        return Failure(UniqueViolation);
      }
      var v := ApplyUsuarioPatch(usuario[id], p);
      usuario := usuario[id := v];
      return Success(v);
    }

    method UpdateManyUsuario(where: Usuario -> bool, p: UsuarioPatch) returns (r: Result<nat, StoreFault>)
      requires Valid()
      modifies this
      ensures Valid()
      ensures Prisma.Performed(Prisma.UpdateManyUsuario(old(State()), where, p), r, old(State()), State())
    {
      if !online {
        return Failure(Other);
      }
      var m := Prisma.PatchUsuarios(usuario, where, p);
      if p.email.Some? && !EmailsUnique(m) {
        return Failure(UniqueViolation);
      }
      var count := |Prisma.UsuarioMatches(usuario, where)|;
      usuario := m;
      return Success(count);
    }

    // ------------------------------------------------------------ clinic

    method FindClinic(key: ClinicKey) returns (r: Result<Option<Clinic>, StoreFault>)
      requires Valid()
      ensures r == Prisma.FindClinic(State(), key)
    {
      if !online {
        return Failure(Other);
      }
      if k :| k in clinic && ClinicAt(clinic, k, key) {
        forall j | ClinicAt(clinic, j, key) ensures j == k {
          Prisma.ClinicKeyNamesOneRow(State(), key, j, k);
        }
        return Success(Some(clinic[k]));
      }
      return Success(None);
    }

    method CreateClinic(cnpj: string, name: string, responsible: Id) returns (r: Result<Clinic, StoreFault>)
      requires Valid()
      modifies this
      ensures Valid()
      ensures Prisma.Performed(Prisma.CreateClinic(old(State()), cnpj, name, responsible), r, old(State()), State())
    {
      if !online {
        return Failure(Other);
      }
      if ClinicCnpjTaken(clinic, cnpj) {
        return Failure(UniqueViolation);
      }
      var c := Clinic(nextId, cnpj, name, responsible);
      clinic := clinic[c.id := c];
      nextId := nextId + 1;
      return Success(c);
    }

    method UpdateClinic(id: Id, p: ClinicPatch) returns (r: Result<Clinic, StoreFault>)
      requires Valid()
      modifies this
      ensures Valid()
      ensures Prisma.Performed(Prisma.UpdateClinic(old(State()), id, p), r, old(State()), State())
    {
      if !online {
        return Failure(Other);
      }
      if id !in clinic {
        return Failure(NotFound);
      }
      if p.cnpj.Some? && Prisma.ClinicCnpjHeldByOther(clinic, id, p.cnpj.value) {
        return Failure(UniqueViolation);
      }
      var v := ApplyClinicPatch(clinic[id], p);
      clinic := clinic[id := v];
      return Success(v);
    }

    method UpdateManyClinic(where: Clinic -> bool, p: ClinicPatch) returns (r: Result<nat, StoreFault>)
      requires Valid()
      modifies this
      ensures Valid()
      ensures Prisma.Performed(Prisma.UpdateManyClinic(old(State()), where, p), r, old(State()), State())
    {
      if !online {
        return Failure(Other);
      }
      var m := Prisma.PatchClinics(clinic, where, p);
      if p.cnpj.Some? && !ClinicCnpjsUnique(m) {
        return Failure(UniqueViolation);
      }
      var count := |set k | k in clinic && where(clinic[k])|;
      clinic := m;
      return Success(count);
    }

    // ------------------------------------------------------------ clinica

    method FindClinica(key: ClinicaKey) returns (r: Result<Option<Clinica>, StoreFault>)
      requires Valid()
      ensures r == Prisma.FindClinica(State(), key)
    {
      if !online {
        return Failure(Other);
      }
      if k :| k in clinica && ClinicaAt(clinica, k, key) {
        forall j | ClinicaAt(clinica, j, key) ensures j == k {
          Prisma.ClinicaKeyNamesOneRow(State(), key, j, k);
        }
        return Success(Some(clinica[k]));
      }
      return Success(None);
    }

    method UpdateClinica(id: Id, p: ClinicaPatch) returns (r: Result<Clinica, StoreFault>)
      requires Valid()
      modifies this
      ensures Valid()
      ensures Prisma.Performed(Prisma.UpdateClinica(old(State()), id, p), r, old(State()), State())
    {
      if !online {
        return Failure(Other);
      }
      if id !in clinica {
        return Failure(NotFound);
      }
      if p.cnpj.Some? && Prisma.ClinicaCnpjHeldByOther(clinica, id, p.cnpj.value) {
        return Failure(UniqueViolation);
      }
      var v := ApplyClinicaPatch(clinica[id], p);
      clinica := clinica[id := v];
      return Success(v);
    }

    method UpdateManyClinica(where: Clinica -> bool, p: ClinicaPatch) returns (r: Result<nat, StoreFault>)
      requires Valid()
      modifies this
      ensures Valid()
      ensures Prisma.Performed(Prisma.UpdateManyClinica(old(State()), where, p), r, old(State()), State())
    {
      if !online {
        return Failure(Other);
      }
      var m := Prisma.PatchClinicas(clinica, where, p);
      if p.cnpj.Some? && !ClinicaCnpjsUnique(m) {
        return Failure(UniqueViolation);
      }
      var count := |set k | k in clinica && where(clinica[k])|;
      clinica := m;
      return Success(count);
    }

    // ------------------------------------------------------------ forgotPassword

    method FindResetRequest(token: Token) returns (r: Result<Option<ForgotPassword>, StoreFault>)
      requires Valid()
      ensures r == Prisma.FindResetRequest(State(), token)
    {
      if !online {
        return Failure(Other);
      }
      var i := Prisma.FirstWhere(forgotPassword, Prisma.HoldsToken(token));
      if i.None? {
        return Success(None);
      }
      return Success(Some(forgotPassword[i.value]));
    }

    method UpsertResetRequest(email: string, token: Token) returns (r: Result<(), StoreFault>)
      requires Valid()
      modifies this
      ensures Valid()
      ensures match Prisma.UpsertResetRequest(old(State()), email, token)
              case Success(db') => r == Success(()) && State() == db'
              case Failure(f) => r == Failure(f) && State() == old(State())
    {
      if !online {
        return Failure(Other);
      }
      forgotPassword := Prisma.UpsertRow(forgotPassword, ForgotPassword(email, token));
      return Success(());
    }
  }
}
