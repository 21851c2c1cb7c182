/** What the Prisma client calls used by the services do to the database, as functions of the
    database value. Each call fails with `Other` when the database is offline, with `NotFound`
    (P2025) when the row to update is missing, and with `UniqueViolation` (P2002) when a write would
    duplicate a unique column. */
module Prisma {
  import opened Common
  import opened Crypto
  import opened Records

  // ---------------------------------------------------------------- usuario

  /** `usuario.findUnique` / `usuario.findFirst` on one unique key. */
  ghost function FindUsuario(db: Db, key: UsuarioKey): (r: Result<Option<Usuario>, StoreFault>)
    ensures r.Failure? <==> !db.online
    ensures r.Failure? ==> r.error == Other
    ensures r.Success? && r.value.Some? ==> exists k :: UsuarioAt(db.usuario, k, key) && r.value.value == db.usuario[k]
    ensures r.Success? && r.value.None? ==> forall k :: !UsuarioAt(db.usuario, k, key)
    ensures r.Success? && key.UsuarioById? ==> (r.value.Some? <==> key.id in db.usuario)
    ensures r.Success? && !key.UsuarioById? ==> (r.value.Some? <==> EmailTaken(db.usuario, key.email))
  {
    if !db.online then Failure(Other)
    else if key.UsuarioById? then
      if key.id in db.usuario then Success(Some(db.usuario[key.id])) else Success(None)
    else if EmailTaken(db.usuario, key.email) then
      var k :| k in db.usuario && db.usuario[k].email == key.email;
      Success(Some(db.usuario[k]))
    else Success(None)
  }

  /** On a valid database a key names at most one row. */
  lemma UsuarioKeyNamesOneRow(db: Db, key: UsuarioKey, a: Id, b: Id)
    requires Valid(db) && UsuarioAt(db.usuario, a, key) && UsuarioAt(db.usuario, b, key)
    ensures a == b
  {
  }

  /** `usuario.create`: a new row with a fresh id, the e-mail not yet verified and no refresh token. */
  ghost function CreateUsuario(db: Db, email: string, nome: string, password: Digest<string>)
    : (r: Result<(Usuario, Db), StoreFault>)
    ensures r.Success? <==> db.online && !EmailTaken(db.usuario, email)
    ensures r.Failure? ==> r.error == (if db.online then UniqueViolation else Other)
    ensures r.Success? ==>
      var (u, db') := r.value;
      && u == Usuario(db.nextId, email, nome, Some(password), false, None)
      && db' == db.(usuario := db.usuario[u.id := u], nextId := db.nextId + 1)
    ensures Valid(db) && r.Success? ==> r.value.0.id !in db.usuario && Valid(r.value.1)
  {
    if !db.online then Failure(Other)
    else if EmailTaken(db.usuario, email) then Failure(UniqueViolation)
    else
      var u := Usuario(db.nextId, email, nome, Some(password), false, None);
      Success((u, db.(usuario := db.usuario[u.id := u], nextId := db.nextId + 1)))
  }

  /** The nested `usuario.create` of self-service registration: the user, one admin membership and
      the new clinica, written together or not at all. */
  ghost function CreateUsuarioWithClinica(db: Db, email: string, nome: string, password: Digest<string>,
                                          cnpj: string, clinicaNome: string)
    : (r: Result<(Usuario, Db), StoreFault>)
    ensures r.Success? <==> db.online && !EmailTaken(db.usuario, email) && !ClinicaCnpjTaken(db.clinica, cnpj)
    ensures r.Failure? ==> r.error == (if db.online then UniqueViolation else Other)
    ensures r.Success? ==>
      var (u, db') := r.value;
      var c := Clinica(db.nextId + 1, cnpj, clinicaNome);
      && u == Usuario(db.nextId, email, nome, Some(password), false, None)
      && db'.usuario == db.usuario[u.id := u]
      && db'.clinica == db.clinica[c.id := c]
      && db'.membership == db.membership + [Membership(u.id, c.id, true)]
      && db'.clinic == db.clinic && db'.forgotPassword == db.forgotPassword
      && db'.online == db.online && db'.nextId == db.nextId + 2
    ensures Valid(db) && r.Success? ==>
      r.value.0.id !in db.usuario && db.nextId + 1 !in db.clinica && Valid(r.value.1)
  {
    if !db.online then Failure(Other)
    else if EmailTaken(db.usuario, email) || ClinicaCnpjTaken(db.clinica, cnpj) then Failure(UniqueViolation)
    else
      var u := Usuario(db.nextId, email, nome, Some(password), false, None);
      var c := Clinica(db.nextId + 1, cnpj, clinicaNome);
      Success((u, db.(usuario := db.usuario[u.id := u],
                      clinica := db.clinica[c.id := c],
                      membership := db.membership + [Membership(u.id, c.id, true)],
                      nextId := db.nextId + 2)))
  }

  predicate EmailHeldByOther(m: map<Id, Usuario>, id: Id, e: string)
  {
    exists k :: k in m && k != id && m[k].email == e
  }

  /** `usuario.update({where: {id}, data})`. */
  ghost function UpdateUsuario(db: Db, id: Id, p: UsuarioPatch): (r: Result<(Usuario, Db), StoreFault>)
    ensures r.Failure? ==> r.error == (if !db.online then Other else if id !in db.usuario then NotFound else UniqueViolation)
    ensures r.Success? <==>
      db.online && id in db.usuario && !(p.email.Some? && EmailHeldByOther(db.usuario, id, p.email.value))
    ensures r.Success? ==>
      var (v, db') := r.value;
      && v == ApplyUsuarioPatch(db.usuario[id], p)
      && db' == db.(usuario := db.usuario[id := v])
    ensures Valid(db) && r.Success? ==> Valid(r.value.1)
  {
    if !db.online then Failure(Other)
    else if id !in db.usuario then Failure(NotFound)
    else if p.email.Some? && EmailHeldByOther(db.usuario, id, p.email.value) then Failure(UniqueViolation)
    else
      var v := ApplyUsuarioPatch(db.usuario[id], p);
      UpdatedEmailsUnique(db.usuario, id, v);
      Success((v, db.(usuario := db.usuario[id := v])))
  }

  lemma UpdatedEmailsUnique(m: map<Id, Usuario>, id: Id, v: Usuario)
    ensures EmailsUnique(m) && !EmailHeldByOther(m, id, v.email) ==> EmailsUnique(m[id := v])
  {
    if EmailsUnique(m) && !EmailHeldByOther(m, id, v.email) {
      var m' := m[id := v];
      forall a, b | a in m' && b in m' && m'[a].email == m'[b].email
        ensures a == b
      {
      }
    }
  }

  /** The rows `updateMany` rewrites. */
  function UsuarioMatches(m: map<Id, Usuario>, where: Usuario -> bool): set<Id>
  {
    set k | k in m && where(m[k])
  }

  function PatchUsuarios(m: map<Id, Usuario>, where: Usuario -> bool, p: UsuarioPatch): (m': map<Id, Usuario>)
    ensures m'.Keys == m.Keys
    ensures forall k :: k in m ==> m'[k] == if where(m[k]) then ApplyUsuarioPatch(m[k], p) else m[k]
  {
    map k | k in m :: if where(m[k]) then ApplyUsuarioPatch(m[k], p) else m[k]
  }

  /** `usuario.updateMany({where, data})`: every row satisfying `where` is patched, the others are kept,
      and the result is the number of rows rewritten. It never reports P2025. */
  ghost function UpdateManyUsuario(db: Db, where: Usuario -> bool, p: UsuarioPatch)
    : (r: Result<(nat, Db), StoreFault>)
    ensures r.Failure? ==> r.error != NotFound
    ensures r.Failure? ==> (r.error == Other <==> !db.online)
    ensures db.online && p.email.None? ==> r.Success?
    ensures r.Success? ==>
      var (count, db') := r.value;
      && count == |UsuarioMatches(db.usuario, where)|
      && db' == db.(usuario := PatchUsuarios(db.usuario, where, p))
    ensures Valid(db) && r.Success? ==> Valid(r.value.1)
  {
    if !db.online then Failure(Other)
    else
      var m' := PatchUsuarios(db.usuario, where, p);
      if p.email.Some? && !EmailsUnique(m') then Failure(UniqueViolation)
      else
        PatchKeepsEmails(db.usuario, where, p);
        Success((|UsuarioMatches(db.usuario, where)|, db.(usuario := m')))
  }

  lemma PatchKeepsEmails(m: map<Id, Usuario>, where: Usuario -> bool, p: UsuarioPatch)
    ensures EmailsUnique(m) && p.email.None? ==> EmailsUnique(PatchUsuarios(m, where, p))
  {
    if EmailsUnique(m) && p.email.None? {
      var m' := PatchUsuarios(m, where, p);
      forall a, b | a in m' && b in m' && m'[a].email == m'[b].email
        ensures a == b
      {
        assert m'[a].email == m[a].email && m'[b].email == m[b].email;
      }
    }
  }

  // ---------------------------------------------------------------- clinic

  /** `clinic.findUnique` / `clinic.findFirst` on one unique key. */
  ghost function FindClinic(db: Db, key: ClinicKey): (r: Result<Option<Clinic>, StoreFault>)
    ensures r.Failure? <==> !db.online
    ensures r.Failure? ==> r.error == Other
    ensures r.Success? && r.value.Some? ==> exists k :: ClinicAt(db.clinic, k, key) && r.value.value == db.clinic[k]
    ensures r.Success? && r.value.None? ==> forall k :: !ClinicAt(db.clinic, k, key)
    ensures r.Success? && key.ClinicById? ==> (r.value.Some? <==> key.id in db.clinic)
    ensures r.Success? && !key.ClinicById? ==> (r.value.Some? <==> ClinicCnpjTaken(db.clinic, key.cnpj))
  {
    if !db.online then Failure(Other)
    else if key.ClinicById? then
      if key.id in db.clinic then Success(Some(db.clinic[key.id])) else Success(None)
    else if ClinicCnpjTaken(db.clinic, key.cnpj) then
      var k :| k in db.clinic && db.clinic[k].cnpj == key.cnpj;
      Success(Some(db.clinic[k]))
    else Success(None)
  }

  lemma ClinicKeyNamesOneRow(db: Db, key: ClinicKey, a: Id, b: Id)
    requires Valid(db) && ClinicAt(db.clinic, a, key) && ClinicAt(db.clinic, b, key)
    ensures a == b
  {
  }

  /** `clinic.create`. */
  ghost function CreateClinic(db: Db, cnpj: string, name: string, responsible: Id): (r: Result<(Clinic, Db), StoreFault>)
    ensures r.Success? <==> db.online && !ClinicCnpjTaken(db.clinic, cnpj)
    ensures r.Failure? ==> r.error == (if db.online then UniqueViolation else Other)
    ensures r.Success? ==>
      var (c, db') := r.value;
      && c == Clinic(db.nextId, cnpj, name, responsible)
      && db' == db.(clinic := db.clinic[c.id := c], nextId := db.nextId + 1)
    ensures Valid(db) && r.Success? ==> r.value.0.id !in db.clinic && Valid(r.value.1)
  {
    if !db.online then Failure(Other)
    else if ClinicCnpjTaken(db.clinic, cnpj) then Failure(UniqueViolation)
    else
      var c := Clinic(db.nextId, cnpj, name, responsible);
      Success((c, db.(clinic := db.clinic[c.id := c], nextId := db.nextId + 1)))
  }

  predicate ClinicCnpjHeldByOther(m: map<Id, Clinic>, id: Id, n: string)
  {
    exists k :: k in m && k != id && m[k].cnpj == n
  }

  /** `clinic.update({where: {id}, data})`. */
  ghost function UpdateClinic(db: Db, id: Id, p: ClinicPatch): (r: Result<(Clinic, Db), StoreFault>)
    ensures r.Failure? ==> r.error == (if !db.online then Other else if id !in db.clinic then NotFound else UniqueViolation)
    ensures r.Success? <==>
      db.online && id in db.clinic && !(p.cnpj.Some? && ClinicCnpjHeldByOther(db.clinic, id, p.cnpj.value))
    ensures r.Success? ==>
      var (v, db') := r.value;
      && v == ApplyClinicPatch(db.clinic[id], p)
      && db' == db.(clinic := db.clinic[id := v])
    ensures Valid(db) && r.Success? ==> Valid(r.value.1)
  {
    if !db.online then Failure(Other)
    else if id !in db.clinic then Failure(NotFound)
    else if p.cnpj.Some? && ClinicCnpjHeldByOther(db.clinic, id, p.cnpj.value) then Failure(UniqueViolation)
    else
      var v := ApplyClinicPatch(db.clinic[id], p);
      UpdatedClinicCnpjsUnique(db.clinic, id, v);
      Success((v, db.(clinic := db.clinic[id := v])))
  }

  function PatchClinics(m: map<Id, Clinic>, where: Clinic -> bool, p: ClinicPatch): (m': map<Id, Clinic>)
    ensures m'.Keys == m.Keys
    ensures forall k :: k in m ==> m'[k] == if where(m[k]) then ApplyClinicPatch(m[k], p) else m[k]
  {
    map k | k in m :: if where(m[k]) then ApplyClinicPatch(m[k], p) else m[k]
  }

  /** `clinic.updateMany({where, data})`. */
  ghost function UpdateManyClinic(db: Db, where: Clinic -> bool, p: ClinicPatch): (r: Result<(nat, Db), StoreFault>)
    ensures r.Failure? ==> r.error != NotFound
    ensures r.Failure? ==> (r.error == Other <==> !db.online)
    ensures db.online && p.cnpj.None? ==> r.Success?
    ensures r.Success? ==>
      var (count, db') := r.value;
      && count == |set k | k in db.clinic && where(db.clinic[k])|
      && db' == db.(clinic := PatchClinics(db.clinic, where, p))
    ensures Valid(db) && r.Success? ==> Valid(r.value.1)
  {
    if !db.online then Failure(Other)
    else
      var m' := PatchClinics(db.clinic, where, p);
      if p.cnpj.Some? && !ClinicCnpjsUnique(m') then Failure(UniqueViolation)
      else
        PatchKeepsClinicCnpjs(db.clinic, where, p);
        Success((|set k | k in db.clinic && where(db.clinic[k])|, db.(clinic := m')))
  }

  lemma UpdatedClinicCnpjsUnique(m: map<Id, Clinic>, id: Id, v: Clinic)
    ensures ClinicCnpjsUnique(m) && !ClinicCnpjHeldByOther(m, id, v.cnpj) ==> ClinicCnpjsUnique(m[id := v])
  {
    if ClinicCnpjsUnique(m) && !ClinicCnpjHeldByOther(m, id, v.cnpj) {
      var m' := m[id := v];
      forall a, b | a in m' && b in m' && m'[a].cnpj == m'[b].cnpj ensures a == b {
      }
    }
  }

  lemma PatchKeepsClinicCnpjs(m: map<Id, Clinic>, where: Clinic -> bool, p: ClinicPatch)
    ensures ClinicCnpjsUnique(m) && p.cnpj.None? ==> ClinicCnpjsUnique(PatchClinics(m, where, p))
  {
    if ClinicCnpjsUnique(m) && p.cnpj.None? {
      var m' := PatchClinics(m, where, p);
      forall a, b | a in m' && b in m' && m'[a].cnpj == m'[b].cnpj ensures a == b {
        assert m'[a].cnpj == m[a].cnpj && m'[b].cnpj == m[b].cnpj;
      }
    }
  }

  // ---------------------------------------------------------------- clinica

  /** `clinica.findUnique` / `clinica.findFirst` on one unique key. */
  ghost function FindClinica(db: Db, key: ClinicaKey): (r: Result<Option<Clinica>, StoreFault>)
    ensures r.Failure? <==> !db.online
    ensures r.Failure? ==> r.error == Other
    ensures r.Success? && r.value.Some? ==> exists k :: ClinicaAt(db.clinica, k, key) && r.value.value == db.clinica[k]
    ensures r.Success? && r.value.None? ==> forall k :: !ClinicaAt(db.clinica, k, key)
    ensures r.Success? && key.ClinicaById? ==> (r.value.Some? <==> key.id in db.clinica)
    ensures r.Success? && !key.ClinicaById? ==> (r.value.Some? <==> ClinicaCnpjTaken(db.clinica, key.cnpj))
  {
    if !db.online then Failure(Other)
    else if key.ClinicaById? then
      if key.id in db.clinica then Success(Some(db.clinica[key.id])) else Success(None)
    else if ClinicaCnpjTaken(db.clinica, key.cnpj) then
      var k :| k in db.clinica && db.clinica[k].cnpj == key.cnpj;
      Success(Some(db.clinica[k]))
    else Success(None)
  }

  lemma ClinicaKeyNamesOneRow(db: Db, key: ClinicaKey, a: Id, b: Id)
    requires Valid(db) && ClinicaAt(db.clinica, a, key) && ClinicaAt(db.clinica, b, key)
    ensures a == b
  {
  }

  predicate ClinicaCnpjHeldByOther(m: map<Id, Clinica>, id: Id, n: string)
  {
    exists k :: k in m && k != id && m[k].cnpj == n
  }

  /** `clinica.update({where: {id}, data})`. */
  ghost function UpdateClinica(db: Db, id: Id, p: ClinicaPatch): (r: Result<(Clinica, Db), StoreFault>)
    ensures r.Failure? ==> r.error == (if !db.online then Other else if id !in db.clinica then NotFound else UniqueViolation)
    ensures r.Success? <==>
      db.online && id in db.clinica && !(p.cnpj.Some? && ClinicaCnpjHeldByOther(db.clinica, id, p.cnpj.value))
    ensures r.Success? ==>
      var (v, db') := r.value;
      && v == ApplyClinicaPatch(db.clinica[id], p)
      && db' == db.(clinica := db.clinica[id := v])
    ensures Valid(db) && r.Success? ==> Valid(r.value.1)
  {
    if !db.online then Failure(Other)
    else if id !in db.clinica then Failure(NotFound)
    else if p.cnpj.Some? && ClinicaCnpjHeldByOther(db.clinica, id, p.cnpj.value) then Failure(UniqueViolation)
    else
      var v := ApplyClinicaPatch(db.clinica[id], p);
      UpdatedClinicaCnpjsUnique(db.clinica, id, v);
      Success((v, db.(clinica := db.clinica[id := v])))
  }

  function PatchClinicas(m: map<Id, Clinica>, where: Clinica -> bool, p: ClinicaPatch): (m': map<Id, Clinica>)
    ensures m'.Keys == m.Keys
    ensures forall k :: k in m ==> m'[k] == if where(m[k]) then ApplyClinicaPatch(m[k], p) else m[k]
  {
    map k | k in m :: if where(m[k]) then ApplyClinicaPatch(m[k], p) else m[k]
  }

  /** `clinica.updateMany({where, data})`. */
  ghost function UpdateManyClinica(db: Db, where: Clinica -> bool, p: ClinicaPatch): (r: Result<(nat, Db), StoreFault>)
    ensures r.Failure? ==> r.error != NotFound
    ensures r.Failure? ==> (r.error == Other <==> !db.online)
    ensures db.online && p.cnpj.None? ==> r.Success?
    ensures r.Success? ==>
      var (count, db') := r.value;
      && count == |set k | k in db.clinica && where(db.clinica[k])|
      && db' == db.(clinica := PatchClinicas(db.clinica, where, p))
    ensures Valid(db) && r.Success? ==> Valid(r.value.1)
  {
    if !db.online then Failure(Other)
    else
      var m' := PatchClinicas(db.clinica, where, p);
      if p.cnpj.Some? && !ClinicaCnpjsUnique(m') then Failure(UniqueViolation)
      else
        PatchKeepsClinicaCnpjs(db.clinica, where, p);
        Success((|set k | k in db.clinica && where(db.clinica[k])|, db.(clinica := m')))
  }

  lemma UpdatedClinicaCnpjsUnique(m: map<Id, Clinica>, id: Id, v: Clinica)
    ensures ClinicaCnpjsUnique(m) && !ClinicaCnpjHeldByOther(m, id, v.cnpj) ==> ClinicaCnpjsUnique(m[id := v])
  {
    if ClinicaCnpjsUnique(m) && !ClinicaCnpjHeldByOther(m, id, v.cnpj) {
      var m' := m[id := v];
      forall a, b | a in m' && b in m' && m'[a].cnpj == m'[b].cnpj ensures a == b {
      }
    }
  }

  lemma PatchKeepsClinicaCnpjs(m: map<Id, Clinica>, where: Clinica -> bool, p: ClinicaPatch)
    ensures ClinicaCnpjsUnique(m) && p.cnpj.None? ==> ClinicaCnpjsUnique(PatchClinicas(m, where, p))
  {
    if ClinicaCnpjsUnique(m) && p.cnpj.None? {
      var m' := PatchClinicas(m, where, p);
      forall a, b | a in m' && b in m' && m'[a].cnpj == m'[b].cnpj ensures a == b {
        assert m'[a].cnpj == m[a].cnpj && m'[b].cnpj == m[b].cnpj;
      }
    }
  }

  // ---------------------------------------------------------------- forgotPassword

  /** The position of the first reset row satisfying `p`, in table order: the one `findFirst`
      returns, and the one `upsert` replaces. */
  function FirstWhere(s: seq<ForgotPassword>, p: ForgotPassword -> bool): (r: Option<nat>)
    ensures r.Some? ==> r.value < |s| && p(s[r.value])
    ensures r.Some? ==> forall j :: 0 <= j < r.value ==> !p(s[j])
    ensures r.None? ==> forall j :: 0 <= j < |s| ==> !p(s[j])
  {
    if |s| == 0 then None
    else if p(s[0]) then Some(0)
    else
      match FirstWhere(s[1..], p)
      case None => None
      case Some(i) => Some(i + 1)
  }

  /** The `where: {token}` of the reset lookup. */
  function HoldsToken(token: Token): (f: ForgotPassword -> bool)
    ensures forall row :: f(row) <==> row.token == token
  {
    (row: ForgotPassword) => row.token == token
  }

  /** The `where: {email}` of the upsert. */
  function ForEmail(email: string): (f: ForgotPassword -> bool)
    ensures forall row :: f(row) <==> row.email == email
  {
    (row: ForgotPassword) => row.email == email
  }

  /** `forgotPassword.findFirst({where: {token}})`. */
  ghost function FindResetRequest(db: Db, token: Token): (r: Result<Option<ForgotPassword>, StoreFault>)
    ensures r.Failure? <==> !db.online
    ensures r.Failure? ==> r.error == Other
    ensures r.Success? && r.value.Some? ==> r.value.value in db.forgotPassword && r.value.value.token == token
    ensures r.Success? && r.value.None? ==> forall j :: 0 <= j < |db.forgotPassword| ==> db.forgotPassword[j].token != token
  {
    if !db.online then Failure(Other)
    else
      match FirstWhere(db.forgotPassword, HoldsToken(token))
      case None => Success(None)
      case Some(i) => Success(Some(db.forgotPassword[i]))
  }

  /** The table after upserting `row` by its e-mail: the row for that e-mail is replaced in place,
      or the row is appended when there is none. */
  function UpsertRow(s: seq<ForgotPassword>, row: ForgotPassword): (s': seq<ForgotPassword>)
    ensures row in s'
    ensures forall j :: 0 <= j < |s| && s[j].email != row.email ==> s[j] in s'
    ensures ResetEmailsUnique(s) ==> forall x :: x in s' ==> x == row || (x in s && x.email != row.email)
    ensures ResetEmailsUnique(s) ==> ResetEmailsUnique(s')
  {
    match FirstWhere(s, ForEmail(row.email))
    case Some(i) =>
      ReplacedRow(s, i, row);
      s[i := row]
    case None => s + [row]
  }

  lemma ReplacedRow(s: seq<ForgotPassword>, i: nat, row: ForgotPassword)
    requires i < |s| && s[i].email == row.email
    ensures row in s[i := row]
    ensures forall j :: 0 <= j < |s| && s[j].email != row.email ==> s[j] in s[i := row]
    ensures ResetEmailsUnique(s) ==> forall x :: x in s[i := row] ==> x == row || (x in s && x.email != row.email)
  {
    var s' := s[i := row];
    assert s'[i] == row;
    forall j | 0 <= j < |s| && s[j].email != row.email ensures s[j] in s' {
      assert s'[j] == s[j];
    }
    if ResetEmailsUnique(s) {
      forall x | x in s' ensures x == row || (x in s && x.email != row.email) {
        var j :| 0 <= j < |s'| && s'[j] == x;
        if j != i { assert s[j] == x; }
      }
    }
  }

  /** `forgotPassword.upsert({where: {email}, create: {email, token}, update: {email, token}})`. */
  ghost function UpsertResetRequest(db: Db, email: string, token: Token): (r: Result<Db, StoreFault>)
    ensures r.Failure? <==> !db.online
    ensures r.Failure? ==> r.error == Other
    ensures r.Success? ==>
      r.value == db.(forgotPassword := UpsertRow(db.forgotPassword, ForgotPassword(email, token)))
    ensures Valid(db) && r.Success? ==> Valid(r.value)
  {
    if !db.online then Failure(Other)
    else Success(db.(forgotPassword := UpsertRow(db.forgotPassword, ForgotPassword(email, token))))
  }

  /** `r` and the database `after` are what running `call` on `before` gives: its value and new
      database on success, its fault and the database untouched on failure. */
  ghost predicate Performed<T>(call: Result<(T, Db), StoreFault>, r: Result<T, StoreFault>, before: Db, after: Db)
  {
    match call
    case Success((v, db')) => r == Success(v) && after == db'
    case Failure(f) => r == Failure(f) && after == before
  }
}
