/** The two cryptographic collaborators of the auth core, modelled abstractly:
    bcrypt (hash and compare) and JSON web tokens (sign and verify). */
module Crypto {
  import opened Common

  /** A bcrypt digest. `salt` stands for the random salt bcrypt draws on every call, so hashing the
      same secret twice gives two different digests. */
  datatype Digest<S> = Digest(secret: S, salt: nat)

  /** bcrypt.compare: a digest matches the secret it was computed from and nothing else. */
  predicate Matches<S(==, !new)>(s: S, h: Digest<S>)
  {
    h.secret == s
  }

  /** bcrypt.hash(s, 10) with the salt drawn for this call. */
  function Hash<S(==, !new)>(s: S, salt: nat): (h: Digest<S>)
    ensures Matches(s, h)
    ensures forall t :: Matches(t, h) ==> t == s
  {
    Digest(s, salt)
  }

  /** Two hashes of one secret differ when their salts differ. */
  lemma HashIsSalted<S(!new)>(s: S, salt1: nat, salt2: nat)
    requires salt1 != salt2
    ensures Hash(s, salt1) != Hash(s, salt2)
  {
    assert Hash(s, salt1).salt != Hash(s, salt2).salt;
  }

  /** The three payload shapes the auth core signs: session tokens `{sub, email}`, the e-mail
      verification token `{id}` and the password-reset token `{email}`. */
  datatype Payload =
    | Session(sub: Id, email: string)
    | EmailVerification(id: Id)
    | PasswordReset(email: string)

  /** The `id` property of a decoded payload; undefined on the shapes that have none. */
  function IdField(p: Payload): (r: Option<Id>)
    ensures r.Some? <==> p.EmailVerification?
    ensures p.EmailVerification? ==> r == Some(p.id)
  {
    if p.EmailVerification? then Some(p.id) else None
  }

  /** The `email` property of a decoded payload; undefined on the verification payload. */
  function EmailField(p: Payload): (r: Option<string>)
    ensures r.Some? <==> !p.EmailVerification?
    ensures p.Session? ==> r == Some(p.email)
    ensures p.PasswordReset? ==> r == Some(p.email)
  {
    match p
    case Session(_, e) => Some(e)
    case PasswordReset(e) => Some(e)
    case EmailVerification(_) => None
  }

  /** A token string: either one produced by signing, or any other text a client may present. */
  datatype Token = Jwt(payload: Payload, secret: string, issuedAt: nat) | Malformed(text: string)

  /** jwtService.sign(payload, {secret}); `issuedAt` is the clock reading (the `iat` claim). */
  function Sign(p: Payload, secret: string, issuedAt: nat): (t: Token)
    ensures Verify(t, secret) == Some(p)
    ensures forall other :: other != secret ==> Verify(t, other).None?
  {
    Jwt(p, secret, issuedAt)
  }

  /** jwtService.verify(token, {secret}): the payload of a token signed with this secret, and
      failure for every other input. */
  function Verify(t: Token, secret: string): Option<Payload>
  {
    if t.Jwt? && t.secret == secret then Some(t.payload) else None
  }

  /** Only a token signed with the secret verifies, and it yields the payload that was signed. */
  lemma VerifyOnlySigned(t: Token, secret: string)
    requires Verify(t, secret).Some?
    ensures t == Sign(Verify(t, secret).value, secret, t.issuedAt)
  {
  }

  /** Two signatures are the same token exactly when payload, secret and issue time agree. */
  lemma SignInjective(p: Payload, q: Payload, k: string, l: string, i: nat, j: nat)
    ensures Sign(p, k, i) == Sign(q, l, j) <==> p == q && k == l && i == j
  {
  }
}
