/** Round trips through the record services: what a create or an update writes is what the
    lookups then return, under both of the row's keys, and the other rows read as before. */
module RecordProperties {
  import opened Common
  import opened Crypto
  import opened Records
  import Prisma
  import UsuarioSpec
  import ClinicSpec
  import ClinicaSpec

  /** A created user is found by its id and by its e-mail; the password is hidden unless asked for. */
  lemma CreateUserThenFind(db: Db, dto: CreateUserDto, salt: nat, withPassword: bool)
    requires Valid(db) && UsuarioSpec.CreateUser(db, dto, salt).0.Success?
    ensures var (r, db') := UsuarioSpec.CreateUser(db, dto, salt);
      && UsuarioSpec.FindById(db', r.value.id) == Success(r.value)
      && UsuarioSpec.Find(db', UsuarioByEmail(dto.email), withPassword) == Success(UsuarioSpec.Fetched(r.value, withPassword))
      && UsuarioSpec.FindByEmail(db', dto.email) == Success(Some(r.value))
  {
    var (r, db') := UsuarioSpec.CreateUser(db, dto, salt);
    FoundByEmail(db', r.value.id, withPassword);
  }

  /** In a valid database the row holding an e-mail is what every e-mail lookup returns. */
  lemma FoundByEmail(db: Db, id: Id, withPassword: bool)
    requires Valid(db) && db.online && id in db.usuario
    ensures UsuarioSpec.Find(db, UsuarioByEmail(db.usuario[id].email), withPassword)
            == Success(UsuarioSpec.Fetched(db.usuario[id], withPassword))
    ensures UsuarioSpec.FindByEmail(db, db.usuario[id].email) == Success(Some(db.usuario[id]))
  {
    var key := UsuarioByEmail(db.usuario[id].email);
    var r := UsuarioSpec.Find(db, key, withPassword);
    var k :| k in db.usuario && UsuarioAt(db.usuario, k, key) && r.value == UsuarioSpec.Fetched(db.usuario[k], withPassword);
    Prisma.UsuarioKeyNamesOneRow(db, key, k, id);
    var s := UsuarioSpec.FindByEmail(db, db.usuario[id].email);
    assert s.value.value in db.usuario.Values;
    var j :| j in db.usuario && db.usuario[j] == s.value.value;
    Prisma.UsuarioKeyNamesOneRow(db, key, j, id);
  }

  /** After a successful registration the user is found by e-mail and its clinica by CNPJ, and the
      new membership links the two as admin. */
  lemma RegisterUserThenFind(db: Db, dto: CreateAccountDto, salt: nat)
    requires Valid(db) && UsuarioSpec.RegisterUser(db, dto, salt).0.Success?
    ensures var (r, db') := UsuarioSpec.RegisterUser(db, dto, salt);
      && UsuarioSpec.FindById(db', r.value.id) == Success(r.value)
      && var m := db'.membership[|db.membership|];
         && m.usuarioId == r.value.id && m.admin
         && ClinicaSpec.Find(db', ClinicaByCnpj(dto.clinicaCnpj)) == Success(Clinica(m.clinicaId, dto.clinicaCnpj, dto.clinicaName))
  {
    var (r, db') := UsuarioSpec.RegisterUser(db, dto, salt);
    var m := db'.membership[|db.membership|];
    var c := ClinicaSpec.Find(db', ClinicaByCnpj(dto.clinicaCnpj));
    assert ClinicaAt(db'.clinica, m.clinicaId, ClinicaByCnpj(dto.clinicaCnpj));
    var k :| k in db'.clinica && ClinicaAt(db'.clinica, k, ClinicaByCnpj(dto.clinicaCnpj)) && c.value == db'.clinica[k];
    Prisma.ClinicaKeyNamesOneRow(db', ClinicaByCnpj(dto.clinicaCnpj), k, m.clinicaId);
  }

  /** A successful updateUser is what findById then returns for that id, and every other id reads
      as before. Repeating an update that sets an e-mail is refused: the user itself now holds it. */
  lemma UpdateUserThenFind(db: Db, id: Id, p: UsuarioPatch, other: Id)
    requires Valid(db) && UsuarioSpec.UpdateUser(db, id, p).0.Success?
    ensures var (r, db') := UsuarioSpec.UpdateUser(db, id, p);
      && UsuarioSpec.FindById(db', id) == Success(r.value)
      && (other != id ==> UsuarioSpec.FindById(db', other) == UsuarioSpec.FindById(db, other))
      && (Truthy(p.email) ==>
            UsuarioSpec.UpdateUser(db', id, p) == (Failure(BadRequest(UsuarioSpec.EmailInUseByOther)), db'))
  {
    var (r, db') := UsuarioSpec.UpdateUser(db, id, p);
    if Truthy(p.email) {
      assert db'.usuario[id].email == p.email.value;
    }
  }

  /** A clinic created on signup is found by its id and by its CNPJ. */
  lemma CreateClinicThenFind(db: Db, cnpj: string, name: string, responsibleUserId: Id)
    requires Valid(db) && ClinicSpec.CreateClinicOnSignup(db, cnpj, name, responsibleUserId).0.Success?
    ensures var (r, db') := ClinicSpec.CreateClinicOnSignup(db, cnpj, name, responsibleUserId);
      && ClinicSpec.FindById(db', r.value.id) == Success(r.value)
      && ClinicSpec.Find(db', ClinicByCnpj(cnpj)) == Success(r.value)
  {
    var (r, db') := ClinicSpec.CreateClinicOnSignup(db, cnpj, name, responsibleUserId);
    assert ClinicAt(db'.clinic, r.value.id, ClinicByCnpj(cnpj));
    var c := ClinicSpec.Find(db', ClinicByCnpj(cnpj));
    var k :| k in db'.clinic && ClinicAt(db'.clinic, k, ClinicByCnpj(cnpj)) && c.value == db'.clinic[k];
    Prisma.ClinicKeyNamesOneRow(db', ClinicByCnpj(cnpj), k, r.value.id);
  }

  /** A successful clinic update is what findById then returns, and other clinics read as before. */
  lemma UpdateClinicThenFind(db: Db, id: Id, p: ClinicPatch, other: Id)
    requires Valid(db) && ClinicSpec.UpdateClinic(db, id, p).0.Success?
    ensures var (r, db') := ClinicSpec.UpdateClinic(db, id, p);
      && ClinicSpec.FindById(db', id) == Success(r.value)
      && (other != id ==> ClinicSpec.FindById(db', other) == ClinicSpec.FindById(db, other))
      && (p.cnpj.Some? ==> ClinicSpec.Find(db', ClinicByCnpj(p.cnpj.value)) == Success(r.value))
  {
    var (r, db') := ClinicSpec.UpdateClinic(db, id, p);
    if p.cnpj.Some? {
      var key := ClinicByCnpj(p.cnpj.value);
      assert ClinicAt(db'.clinic, id, key);
      var c := ClinicSpec.Find(db', key);
      var k :| k in db'.clinic && ClinicAt(db'.clinic, k, key) && c.value == db'.clinic[k];
      Prisma.ClinicKeyNamesOneRow(db', key, k, id);
    }
  }

  /** A successful clinica update is what findById then returns, and other clinicas read as before. */
  lemma UpdateClinicaThenFind(db: Db, id: Id, p: ClinicaPatch, other: Id)
    requires Valid(db) && ClinicaSpec.UpdateClinic(db, id, p).0.Success?
    ensures var (r, db') := ClinicaSpec.UpdateClinic(db, id, p);
      && ClinicaSpec.FindById(db', id) == Success(r.value)
      && (other != id ==> ClinicaSpec.FindById(db', other) == ClinicaSpec.FindById(db, other))
      && (p.cnpj.Some? ==> ClinicaSpec.Find(db', ClinicaByCnpj(p.cnpj.value)) == Success(r.value))
  {
    var (r, db') := ClinicaSpec.UpdateClinic(db, id, p);
    if p.cnpj.Some? {
      var key := ClinicaByCnpj(p.cnpj.value);
      assert ClinicaAt(db'.clinica, id, key);
      var c := ClinicaSpec.Find(db', key);
      var k :| k in db'.clinica && ClinicaAt(db'.clinica, k, key) && c.value == db'.clinica[k];
      Prisma.ClinicaKeyNamesOneRow(db', key, k, id);
    }
  }
}
