# nest-api account core in Dafny

This project models the core of a NestJS back end for veterinary clinics. The core is the
authentication service (`AuthService`) and the three record services it depends on: users
(`UsuarioService`), clinics (`ClinicService`) and clinicas (`ClinicaService`). The services
work through the Prisma client. The model proves what each operation returns and writes, and
which errors it raises. It also proves how the operations compose, for example that the model's
stored refresh-token hash accepts only the latest refresh token. Real bcrypt reads only the first
72 bytes of its input, so in the program that rotation guarantee does not hold (see "## Left out").

The model has four layers.

- **Values.**
  - `Common` holds results, store faults and the HTTP error classes.
  - `Crypto` holds bcrypt and JWT.
    - A bcrypt digest records its secret and the random salt drawn for the call. `Matches` holds
      for that secret only.
    - A JWT records its payload, its key and its `iat`. `Verify` accepts only a token signed
      with the same key.
  - `Records` holds:
    - the table rows and the partial-update patches;
    - the whole database `Db`;
    - the database invariant `Valid`: rows keyed by their id, every user has a password, and
      e-mail and CNPJ are unique.
- **The Prisma client.**
  - `Prisma` gives each client call used by the services as a function on `Db`.
  - `Store.PrismaService` is a class that holds the tables as fields. Its methods update those
    fields in place and are proved equal to those functions.
- **Service specifications.** `UsuarioSpec`, `ClinicSpec`, `ClinicaSpec` and `AuthSpec` give
  each service method as a function. It maps the database before the call to the method's result
  and the database after it.
- **Services.** `UsuarioImpl`, `ClinicImpl`, `ClinicaImpl` and `AuthImpl` hold the service
  classes. Their methods follow the source step by step: lookups, early returns, catch blocks
  turned into error mappings. Each method is proved equal to its specification function.

Two further modules, `AuthProperties` and `RecordProperties`, prove lemmas that relate several
calls.

The outside world enters as parameters:

- bcrypt's random salt (`salt`, `pwSalt`, `rtSalt`);
- the clock reading that becomes a token's `iat` (`issuedAt`);
- the configuration secrets (`AuthSpec.Config`);
- whether the database can be reached (`Db.online`, or `PrismaService.online`). When it cannot,
  every Prisma call fails.

Places where the code and the documented behaviour of the project differ. The model follows the
code.

- `verifyEmail` passes on `findById`'s BadRequest `'User does not found'` unchanged. It does not
  turn it into a Forbidden error.
- `signinLocal` does not check that the e-mail is verified.
- `auth.service.ts` imports a `UserService` whose fields are `name` and `email_verified`. The
  model uses `UsuarioService` in its place, with the fields `nome` and `email_verificado`
  (`emailVerificado` here). So `Auth.user.name` is the user's `nome`.

Several specification contracts carry the premise `Valid(db)`. Examples are the clauses that
rely on a row being stored under its own id, or on an e-mail naming one user. That invariant
holds of every database the store can reach. `Store.PrismaService.Valid` states it, and every
store and service method preserves it.

## Model

| member | source | states |
|---|---|---|
| Crypto.Hash | src/auth/auth.service.ts:143 | the model's bcrypt digest matches the secret it was made from and no other secret (real bcrypt reads only 72 bytes; see Left out) |
| Crypto.HashIsSalted | src/auth/auth.service.ts:237 | two hashes of one secret with different salts are different digests, so no model step relies on `hash(s) == hash(s)` |
| Crypto.Sign | src/auth/auth.service.ts:154-163 | a signed token verifies under its key to the signed payload and fails under every other key |
| Crypto.IdField | src/auth/auth.service.ts:209 | the payload carries an `id` exactly when it is the e-mail verification payload, and then it is that payload's id |
| Crypto.EmailField | src/auth/auth.service.ts:303 | the payload carries an `email` exactly when it is not the verification payload, and then it is the e-mail the session or reset payload was signed with |
| Crypto.VerifyOnlySigned | src/auth/auth.service.ts:203-207 | whatever verifies under a key is a token signed with that key over the decoded payload |
| Crypto.SignInjective | src/auth/auth.service.ts:154-163 | two signatures are equal exactly when payload, key and issue time are equal |
| Records.ApplyUsuarioPatch | src/usuario/usuario.service.ts:133-140 | the `...properties` spread: each supplied column takes the new value, the id and every other column keep theirs |
| Records.ApplyClinicPatch | src/clinic/clinic.service.ts:80-87 | the spread on a clinic: only the supplied columns change |
| Records.ApplyClinicaPatch | src/clinica/clinica.service.ts:53-60 | the spread on a clinica: only the supplied columns change |
| Records.UsuarioPatchIdempotent | src/usuario/usuario.service.ts:133-140 | applying the same patch twice equals applying it once |
| Prisma.FindUsuario | src/usuario/usuario.service.ts:23-27 | fails exactly when offline; returns a row the key names, or nothing exactly when no row has that id or e-mail |
| Prisma.UsuarioKeyNamesOneRow | src/usuario/usuario.service.ts:36-40 | in a valid database an id or an e-mail names at most one user |
| Prisma.CreateUsuario | src/usuario/usuario.service.ts:62-69 | inserts an unverified user without a refresh token under a fresh id; a taken e-mail is a unique violation and nothing is written |
| Prisma.CreateUsuarioWithClinica | src/usuario/usuario.service.ts:86-106 | the user, one admin membership and a new clinica are written together; a taken e-mail or CNPJ writes none of them |
| Prisma.UpdateUsuario | src/usuario/usuario.service.ts:133-140 | patches one row; a missing id is NotFound and an e-mail held by another user is a unique violation, both writing nothing |
| Prisma.UpdatedEmailsUnique | src/usuario/usuario.service.ts:133-140 | replacing a row whose e-mail no other row holds keeps e-mails unique |
| Prisma.PatchUsuarios | src/usuario/usuario.service.ts:159-161 | the rows matching the criterion are patched and the others are kept |
| Prisma.UpdateManyUsuario | src/usuario/usuario.service.ts:159-161 | patches every matching row, possibly none, and counts them; refused when the patched e-mails collide |
| Prisma.PatchKeepsEmails | src/usuario/usuario.service.ts:159-161 | a patch that sets no e-mail leaves every e-mail as it was |
| Prisma.FindClinic | src/clinic/clinic.service.ts:20-24 | as FindUsuario, on the clinic table by id or CNPJ |
| Prisma.ClinicKeyNamesOneRow | src/clinic/clinic.service.ts:33 | in a valid database an id or a CNPJ names at most one clinic |
| Prisma.CreateClinic | src/clinic/clinic.service.ts:46-53 | inserts the given CNPJ, name and responsible user under a fresh id; a taken CNPJ writes nothing |
| Prisma.UpdateClinic | src/clinic/clinic.service.ts:80-87 | patches one clinic; missing id or a CNPJ held by another clinic writes nothing |
| Prisma.UpdatedClinicCnpjsUnique | src/clinic/clinic.service.ts:80-87 | replacing a clinic whose CNPJ no other clinic holds keeps CNPJs unique |
| Prisma.PatchClinics | src/clinic/clinic.service.ts:106-108 | matching clinics are patched, others kept |
| Prisma.UpdateManyClinic | src/clinic/clinic.service.ts:106-108 | patches every matching clinic and counts them |
| Prisma.PatchKeepsClinicCnpjs | src/clinic/clinic.service.ts:106-108 | a patch that sets no CNPJ leaves every clinic CNPJ as it was |
| Prisma.FindClinica | src/clinica/clinica.service.ts:19-23 | as FindUsuario, on the clinica table by id or CNPJ |
| Prisma.ClinicaKeyNamesOneRow | src/clinica/clinica.service.ts:32 | in a valid database an id or a CNPJ names at most one clinica |
| Prisma.UpdateClinica | src/clinica/clinica.service.ts:53-60 | patches one clinica; missing id or a CNPJ held by another clinica writes nothing |
| Prisma.UpdatedClinicaCnpjsUnique | src/clinica/clinica.service.ts:53-60 | replacing a clinica whose CNPJ no other clinica holds keeps CNPJs unique |
| Prisma.PatchClinicas | src/clinica/clinica.service.ts:79-81 | matching clinicas are patched, others kept |
| Prisma.UpdateManyClinica | src/clinica/clinica.service.ts:79-81 | patches every matching clinica and counts them |
| Prisma.PatchKeepsClinicaCnpjs | src/clinica/clinica.service.ts:79-81 | a patch that sets no CNPJ leaves every clinica CNPJ as it was |
| Prisma.FirstWhere | src/auth/auth.service.ts:285-289 | the position of the first reset row satisfying the `where`, with no earlier row satisfying it, or none exactly when no row does; used for the lookup by token and for the upsert by e-mail |
| Prisma.FindResetRequest | src/auth/auth.service.ts:285-289 | fails exactly when offline; returns a stored row holding the token, or nothing when no row holds it |
| Prisma.UpsertRow | src/auth/auth.service.ts:261-273 | the row is in the table afterwards, rows of other e-mails stay, no row is added for the e-mail beyond the new one, and e-mails stay unique |
| Prisma.ReplacedRow | src/auth/auth.service.ts:268-271 | the update branch of the upsert replaces the e-mail's row in place and keeps every other row |
| Prisma.UpsertResetRequest | src/auth/auth.service.ts:261-273 | fails exactly when offline; otherwise the table is the upserted one and stays valid |
| Store.PrismaService.constructor | src/auth/auth.service.ts:23 | the injected client works on an existing database that satisfies the invariant: its tables are exactly that database |
| Store.PrismaService.FindUsuario | src/usuario/usuario.service.ts:23-27 | the lookup on the stored tables is Prisma.FindUsuario of their value |
| Store.PrismaService.CreateUsuario | src/usuario/usuario.service.ts:62-69 | the insert on the stored tables performs Prisma.CreateUsuario and keeps the invariant |
| Store.PrismaService.CreateUsuarioWithClinica | src/usuario/usuario.service.ts:86-106 | the nested insert performs Prisma.CreateUsuarioWithClinica and keeps the invariant |
| Store.PrismaService.UpdateUsuario | src/usuario/usuario.service.ts:133-140 | the in-place update performs Prisma.UpdateUsuario and keeps the invariant |
| Store.PrismaService.UpdateManyUsuario | src/usuario/usuario.service.ts:159-161 | the in-place bulk update performs Prisma.UpdateManyUsuario and keeps the invariant |
| Store.PrismaService.FindClinic | src/clinic/clinic.service.ts:20-24 | the lookup is Prisma.FindClinic of the stored tables |
| Store.PrismaService.CreateClinic | src/clinic/clinic.service.ts:46-53 | the insert performs Prisma.CreateClinic and keeps the invariant |
| Store.PrismaService.UpdateClinic | src/clinic/clinic.service.ts:80-87 | the in-place update performs Prisma.UpdateClinic and keeps the invariant |
| Store.PrismaService.UpdateManyClinic | src/clinic/clinic.service.ts:106-108 | the bulk update performs Prisma.UpdateManyClinic and keeps the invariant |
| Store.PrismaService.FindClinica | src/clinica/clinica.service.ts:19-23 | the lookup is Prisma.FindClinica of the stored tables |
| Store.PrismaService.UpdateClinica | src/clinica/clinica.service.ts:53-60 | the in-place update performs Prisma.UpdateClinica and keeps the invariant |
| Store.PrismaService.UpdateManyClinica | src/clinica/clinica.service.ts:79-81 | the bulk update performs Prisma.UpdateManyClinica and keeps the invariant |
| Store.PrismaService.FindResetRequest | src/auth/auth.service.ts:285-289 | the lookup is Prisma.FindResetRequest of the stored table |
| Store.PrismaService.UpsertResetRequest | src/auth/auth.service.ts:261-273 | the in-place upsert performs Prisma.UpsertResetRequest and keeps the invariant |
| UsuarioSpec.FindById | src/usuario/usuario.service.ts:22-33 | succeeds exactly when the id is stored, with that row; otherwise BadRequest 'User does not found' |
| UsuarioSpec.FindByEmail | src/usuario/usuario.service.ts:35-43 | never raises for a missing e-mail: it returns nothing exactly when no user has it, else a user with that e-mail |
| UsuarioSpec.Fetched | src/usuario/usuario.service.ts:53-55 | the password is removed unless asked for, and nothing else of the row changes |
| UsuarioSpec.Find | src/usuario/usuario.service.ts:45-57 | the row the key names with the password removed unless `withPassword`; BadRequest 'User does not found' when there is none |
| UsuarioSpec.CreateUser | src/usuario/usuario.service.ts:59-81 | stores the e-mail, `nome := name` and a digest matching the password; a taken e-mail is Forbidden 'Credentials incorrect' and writes nothing; other errors pass unchanged |
| UsuarioSpec.RegisterUser | src/usuario/usuario.service.ts:83-118 | one new unverified user without a refresh token, exactly one appended membership linking it as admin to one new clinica with the given CNPJ and name, and no other table touched; any refusal writes nothing |
| UsuarioSpec.UpdateUser | src/usuario/usuario.service.ts:120-153 | a truthy e-mail held by any user, this one included, is BadRequest 'E-mail já está em uso por outro usuário!'; a missing id is BadRequest 'Usuário não encontrado!'; others are 500; a refusal writes nothing; success changes only the supplied columns of that row |
| UsuarioSpec.UpdateMany | src/usuario/usuario.service.ts:155-171 | patches exactly the matching rows and reports how many; every failure is 500 and writes nothing |
| UsuarioImpl.UsuarioService.constructor | src/usuario/usuario.service.ts:20 | the service keeps the client it is given |
| UsuarioImpl.UsuarioService.FindById | src/usuario/usuario.service.ts:22-33 | returns UsuarioSpec.FindById of the current database |
| UsuarioImpl.UsuarioService.FindByEmail | src/usuario/usuario.service.ts:35-43 | returns UsuarioSpec.FindByEmail of the current database |
| UsuarioImpl.UsuarioService.Find | src/usuario/usuario.service.ts:45-57 | returns UsuarioSpec.Find of the current database |
| UsuarioImpl.UsuarioService.CreateUser | src/usuario/usuario.service.ts:59-81 | result and new database are UsuarioSpec.CreateUser of the old one |
| UsuarioImpl.UsuarioService.RegisterUser | src/usuario/usuario.service.ts:83-118 | result and new database are UsuarioSpec.RegisterUser of the old one |
| UsuarioImpl.UsuarioService.UpdateUser | src/usuario/usuario.service.ts:120-153 | the e-mail probe, then the update; result and new database are UsuarioSpec.UpdateUser of the old one |
| UsuarioImpl.UsuarioService.UpdateMany | src/usuario/usuario.service.ts:155-171 | result and new database are UsuarioSpec.UpdateMany of the old one |
| ClinicSpec.FindById | src/clinic/clinic.service.ts:19-30 | the stored clinic, or BadRequest 'Clinic does not found' exactly when the id is absent |
| ClinicSpec.Find | src/clinic/clinic.service.ts:32-39 | the clinic the key names, or BadRequest 'Clinic does not found' |
| ClinicSpec.CreateClinicOnSignup | src/clinic/clinic.service.ts:41-65 | stores exactly the given CNPJ, name and responsible user; a taken CNPJ is Forbidden 'Credentials incorrect' and adds no clinic |
| ClinicSpec.UpdateClinic | src/clinic/clinic.service.ts:67-100 | a truthy CNPJ on any clinic is BadRequest 'CNPJ já está em uso!'; a missing id is BadRequest 'Clinica não encontrada!'; others 500; refusals write nothing; success changes only supplied columns |
| ClinicSpec.UpdateMany | src/clinic/clinic.service.ts:102-118 | patches exactly the matching clinics and counts them; failures are 500 and write nothing |
| ClinicImpl.ClinicService.constructor | src/clinic/clinic.service.ts:17 | the service keeps the client it is given |
| ClinicImpl.ClinicService.FindById | src/clinic/clinic.service.ts:19-30 | returns ClinicSpec.FindById of the current database |
| ClinicImpl.ClinicService.Find | src/clinic/clinic.service.ts:32-39 | returns ClinicSpec.Find of the current database |
| ClinicImpl.ClinicService.CreateClinicOnSignup | src/clinic/clinic.service.ts:41-65 | result and new database are ClinicSpec.CreateClinicOnSignup of the old one |
| ClinicImpl.ClinicService.UpdateClinic | src/clinic/clinic.service.ts:67-100 | the CNPJ probe, then the update; as ClinicSpec.UpdateClinic |
| ClinicImpl.ClinicService.UpdateMany | src/clinic/clinic.service.ts:102-118 | as ClinicSpec.UpdateMany |
| ClinicaSpec.FindById | src/clinica/clinica.service.ts:18-29 | the stored clinica, or BadRequest 'Clinic does not found' exactly when the id is absent |
| ClinicaSpec.Find | src/clinica/clinica.service.ts:31-38 | the clinica the key names, or BadRequest 'Clinica nao encontrada' |
| ClinicaSpec.UpdateClinic | src/clinica/clinica.service.ts:40-73 | a truthy CNPJ on any clinica is BadRequest 'CNPJ já está em uso!'; a missing id is BadRequest 'Clinica não encontrada!'; others 500; refusals write nothing; success changes only supplied columns |
| ClinicaSpec.UpdateMany | src/clinica/clinica.service.ts:75-91 | patches exactly the matching clinicas and counts them; failures are 500 and write nothing |
| ClinicaImpl.ClinicaService.constructor | src/clinica/clinica.service.ts:16 | the service keeps the client it is given |
| ClinicaImpl.ClinicaService.FindById | src/clinica/clinica.service.ts:18-29 | returns ClinicaSpec.FindById of the current database |
| ClinicaImpl.ClinicaService.Find | src/clinica/clinica.service.ts:31-38 | returns ClinicaSpec.Find of the current database |
| ClinicaImpl.ClinicaService.UpdateClinic | src/clinica/clinica.service.ts:40-73 | the CNPJ probe, then the update; as ClinicaSpec.UpdateClinic |
| ClinicaImpl.ClinicaService.UpdateMany | src/clinica/clinica.service.ts:75-91 | as ClinicaSpec.UpdateMany |
| AuthSpec.GetTokens | src/auth/auth.service.ts:148-169 | both tokens verify to `{sub: id, email}`, the access token under AT_SECRET and the refresh token under RT_SECRET; with distinct secrets neither verifies under the other's |
| AuthSpec.VerificationToken | src/auth/auth.service.ts:172-178 | the mailed token verifies under JWT_SECRET to a payload whose `id` is the user's |
| AuthSpec.ResetToken | src/auth/auth.service.ts:253-259 | the reset token verifies under JWT_SECRET to a payload whose `email` is the requested one |
| AuthSpec.UpdateRtHash | src/auth/auth.service.ts:142-146 | succeeds exactly for a stored user; overwrites only its `hashedRt`, after which the given token is the only one the model's digest matches |
| AuthSpec.SignupError | src/auth/auth.service.ts:53-61 | only BadRequest 'E-mail já está em uso!' survives the catch; everything else becomes 500 |
| AuthSpec.SignupLocal | src/auth/auth.service.ts:30-62 | a taken e-mail is BadRequest 'E-mail já está em uso!' and writes nothing; every other failure is 500; otherwise it returns the token pair for `{sub: new id, email}` and `{email, name}`, and the only write is one new unverified user with that e-mail, name, a digest of the password and a digest of the returned refresh token, which is the only refresh token it accepts |
| AuthSpec.SigninLocal | src/auth/auth.service.ts:64-101 | an unknown e-mail is Forbidden 'Acesso negado, verifique seu usuário ou senha!' and writes nothing; success happens only for a stored e-mail whose password matches, returns the token pair for `{sub: id, email}` and that user's name, and overwrites only that user's refresh-token hash |
| AuthSpec.LogoutFilter | src/auth/auth.service.ts:105-110 | selects exactly this user's row and only while it holds a refresh-token hash |
| AuthSpec.Logout | src/auth/auth.service.ts:103-116 | answers true exactly when the database is reachable; clears only this user's refresh-token hash; no other row changes |
| AuthSpec.RefreshTokens | src/auth/auth.service.ts:118-140 | an unknown user, a missing hash and a non-matching token are each Forbidden 'Access Denied' and write nothing; a matching token gets a fresh pair whose refresh token replaces the stored hash |
| AuthSpec.ResendVerifyEmail | src/auth/auth.service.ts:185-197 | reads only; a stored user gets the verification token for its id, a missing one Forbidden 'Access Denied' |
| AuthSpec.VerifyEmail | src/auth/auth.service.ts:199-219 | a token that does not verify is BadRequest 'Invalid token' and writes nothing; a valid token for a user that no longer exists is BadRequest 'User does not found' and writes nothing; success sets `email_verificado := true` on the user named in the payload and keeps every other column |
| AuthSpec.ChangePassword | src/auth/auth.service.ts:221-242 | a wrong old password is Unauthorized 'Old password is not correct' and writes nothing; success replaces only the password, by a digest of the new one, and keeps `hashedRt` |
| AuthSpec.SendForgotPasswordLink | src/auth/auth.service.ts:244-282 | an unknown e-mail answers silently and writes nothing; otherwise the e-mail's single reset row is created or replaced with the new token; a failed upsert is 500 |
| AuthSpec.ResetPassword | src/auth/auth.service.ts:284-318 | no row with the token, a token that does not verify, and a verified token whose e-mail differs from the row's are each BadRequest 'Invalid token' and write nothing; success needs a row with the token whose e-mail the token carries, sets that user's password, and never removes a reset row |
| AuthImpl.AuthService.constructor | src/auth/auth.service.ts:22-28 | the service and its user service share one database client |
| AuthImpl.AuthService.SignupLocal | src/auth/auth.service.ts:30-62 | result and new database are AuthSpec.SignupLocal of the old one |
| AuthImpl.AuthService.SigninLocal | src/auth/auth.service.ts:64-101 | as AuthSpec.SigninLocal |
| AuthImpl.AuthService.Logout | src/auth/auth.service.ts:103-116 | as AuthSpec.Logout |
| AuthImpl.AuthService.RefreshTokens | src/auth/auth.service.ts:118-140 | as AuthSpec.RefreshTokens |
| AuthImpl.AuthService.UpdateRtHash | src/auth/auth.service.ts:142-146 | as AuthSpec.UpdateRtHash |
| AuthImpl.AuthService.ResendVerifyEmail | src/auth/auth.service.ts:185-197 | returns AuthSpec.ResendVerifyEmail of the current database |
| AuthImpl.AuthService.VerifyEmail | src/auth/auth.service.ts:199-219 | as AuthSpec.VerifyEmail |
| AuthImpl.AuthService.ChangePassword | src/auth/auth.service.ts:221-242 | as AuthSpec.ChangePassword |
| AuthImpl.AuthService.SendForgotPasswordLink | src/auth/auth.service.ts:244-282 | as AuthSpec.SendForgotPasswordLink |
| AuthImpl.AuthService.ResetPassword | src/auth/auth.service.ts:284-318 | as AuthSpec.ResetPassword |
| AuthProperties.RefreshAcceptsOnlyLatest | src/auth/auth.service.ts:130-134 | while one token is the accepted one, refresh succeeds for it alone and refuses every other token with Forbidden 'Access Denied', writing nothing, under the model's collision-free bcrypt |
| AuthProperties.RefreshRotates | src/auth/auth.service.ts:136-137 | after a refresh only the refresh token just issued is accepted, so the presented one is no longer accepted unless it is identical, under the model's collision-free bcrypt |
| AuthProperties.SigninRotates | src/auth/auth.service.ts:91-92 | after a signin only the refresh token it issued is accepted for that user, under the model's collision-free bcrypt |
| AuthProperties.SignupRotates | src/auth/auth.service.ts:40-42 | after a signup only the refresh token it issued is accepted for the new user, under the model's collision-free bcrypt |
| AuthProperties.LogoutRevokesRefresh | src/auth/auth.service.ts:103-116 | after logout every refresh for that user is Forbidden 'Access Denied' and writes nothing |
| AuthProperties.LogoutIdempotent | src/auth/auth.service.ts:103-116 | a second logout answers the same and leaves the database as the first left it |
| AuthProperties.SigninSucceedsIffCredentials | src/auth/auth.service.ts:64-101 | signin succeeds exactly when the database is reachable and some user has the e-mail and the password; every refusal writes nothing |
| AuthProperties.SigninDeniesAlike | src/auth/auth.service.ts:76-89 | an unknown e-mail and a wrong password give the identical Forbidden error and leave the database unchanged |
| AuthProperties.SignupThenSignin | src/auth/auth.service.ts:30-101 | the account a signup creates can sign in with the signup's e-mail and password |
| AuthProperties.ChangePasswordThenSignin | src/auth/auth.service.ts:221-242 | after a password change the new password signs in, a different old one is refused, and the accepted refresh tokens are unchanged |
| AuthProperties.VerifyEmailOnlyRaisesFlag | src/auth/auth.service.ts:211-216 | verifyEmail never clears a verified flag and changes nothing but that flag |
| AuthProperties.VerifyEmailIdempotent | src/auth/auth.service.ts:199-219 | verifying twice with one token gives the same user and database as once |
| AuthProperties.ResendThenVerify | src/auth/auth.service.ts:185-219 | the token a verification mail carries verifies the user it was sent to |
| AuthProperties.SendForgotKeepsRowsTied | src/auth/auth.service.ts:253-273 | every stored reset token with a reset payload names its row's e-mail, and sending a link keeps that so |
| AuthProperties.ForgotThenReset | src/auth/auth.service.ts:244-318 | the link mailed for a registered e-mail resets that user's password, and the reset row stays |
| AuthProperties.ResetReachesUser | src/auth/auth.service.ts:285-316 | once the row is found and the token carries its e-mail, the reset reaches the registered user and sets its password |
| AuthProperties.ResetReplayable | src/auth/auth.service.ts:284-318 | the row is never deleted, so a reset token that worked once works again |
| RecordProperties.CreateUserThenFind | src/usuario/usuario.service.ts:22-81 | a created user is then found by id, by e-mail (password hidden unless asked) and by findByEmail |
| RecordProperties.FoundByEmail | src/usuario/usuario.service.ts:35-57 | in a valid database every e-mail lookup returns the one row holding the e-mail |
| RecordProperties.RegisterUserThenFind | src/usuario/usuario.service.ts:83-118 | after registration the user is found by id, and the clinica linked by the admin membership is found by its CNPJ |
| RecordProperties.UpdateUserThenFind | src/usuario/usuario.service.ts:120-153 | findById then returns the updated row, other ids read as before, and repeating an update that sets an e-mail is refused because the user itself now holds it |
| RecordProperties.CreateClinicThenFind | src/clinic/clinic.service.ts:19-65 | a clinic created on signup is then found by id and by CNPJ |
| RecordProperties.UpdateClinicThenFind | src/clinic/clinic.service.ts:19-100 | findById then returns the updated clinic, other ids read as before, and a new CNPJ finds it |
| RecordProperties.UpdateClinicaThenFind | src/clinica/clinica.service.ts:18-73 | findById then returns the updated clinica, other ids read as before, and a new CNPJ finds it |

## Left out

- Expiry and time. The `expiresIn` options of every signature are not modelled, and a token never
  expires. The clock enters only as the `iat` parameter.
- Tokens issued in the same second. Two signatures with the same payload, key and `iat` are the
  same token, as with real JWTs. So "only the latest refresh token is accepted" is stated of tokens
  different from the latest one.
- bcrypt internals. The digest is modelled as collision-free: it matches its own secret only. The
  cost factor 10 is not modelled. Real bcrypt hashes only the first 72 bytes of its input. A
  refresh JWT starts with its 36-character header, a dot, and the base64 of `{"sub":<id>,...`;
  its `iat` lies beyond byte 72. So in the program every refresh token issued to one user
  matches the stored hash, and `bcrypt.compare` at `src/auth/auth.service.ts:132` accepts an
  earlier, unexpired refresh token. The "only `rt` matches" clauses of Crypto.Hash and
  AuthSpec.UpdateRtHash, and the lemmas RefreshAcceptsOnlyLatest, RefreshRotates,
  SigninRotates and SignupRotates, hold of the model's bcrypt only. Passwords are unaffected
  unless they exceed 72 bytes.
- Concurrency. This covers the `Promise.all` in `getTokens`, the un-awaited verification mail in
  `signupLocal`, and two refreshes racing on one user. Every call runs to completion before the
  next one starts.
- Mail delivery (`MailService`) and building the links from `FRONTEND_URL`. A send is a no-op.
  `resendVerifyEmail` and `sendForgotPasswordLink` return the token the mail would carry. The
  verification mail sent by `signupLocal` is not represented, and a failing reset mail (which the
  source reports as 500) is not modelled.
- Database failures. The only kind modelled is the whole database being unreachable: every call
  then fails with a non-Prisma error. The model has no partial failure such as one table or one
  call failing at random.
- The `createUser` unique violation inside `signupLocal`. The upfront e-mail check makes it
  reachable only when a concurrent signup slips in between. The code path is modelled (it maps to
  500), but no sequential run reaches it.
- A user row without a password cannot be reached, because every create stores one. The code's
  `bcrypt.compare` on a missing hash, which throws and so surfaces as 500, is modelled only as
  that 500.
- The foreign key from `clinic.responsible_user_id` to a user. Prisma's check of it is not
  modelled: any id is accepted.
- Patches do not carry `id`, `created_at` and `updated_at`. Updating a primary key or the
  timestamps through the `...properties` spread is left out.
- The Prisma filter language. `updateMany` and `find` take a criterion as a Dafny predicate or a
  unique key (id or e-mail / CNPJ), not general `where` objects.
- The token's user id for `refreshTokens` and `logout`. In the application the guard takes it from
  the verified token; here it is a parameter.
- The optional `clinic` field of the `Auth` result, which nothing shown fills in.
- Module wiring, controllers and DTO validation decorators.
- AuthSpec.SignupLocal: its success clauses (the returned tokens and user, the new row, the
  only accepted refresh token) are stated under the database invariant `Valid`, which the store
  keeps on every state it can reach.
- AuthSpec.SigninLocal: the clause naming the signed-in row and its tokens is stated under
  `Valid`, because it relies on a row being stored under its own id.
- AuthSpec.RefreshTokens: the success clause is stated under `Valid`, for the same reason.
- AuthSpec.ChangePassword: the success clauses are stated under `Valid`, for the same reason.
- AuthSpec.ResetPassword: the success clause is stated under `Valid`, for the same reason.
- AuthSpec.ResendVerifyEmail: the clause naming the token's id is stated under `Valid`, for the
  same reason.
- AuthSpec.Logout: the clauses about rows other than this user's are stated under `Valid`, for the
  same reason.
