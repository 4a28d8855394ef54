/** TokenService: HS256-signed JWTs (RFC 7519 with the HS256 algorithm of
    section 3.2 of RFC 7518) whose subject is the login identifier, and the
    check that derives a role by looking that identifier up in the role's
    table. The signature is symbolic: a token verifies under a key exactly
    when its signature is the MAC of its own claims under that key. */
module TokenService {
  import opened Common
  import opened JavaText
  import opened Entities
  import opened Repository

  /** `7L * 24 * 60 * 60 * 1000`. */
  const SevenDaysMs: int := 7 * 24 * 60 * 60 * 1000

  /** The registered claims the service sets. `iat` and `exp` are JWT
      NumericDates: whole seconds since the Unix epoch. */
  datatype Claims = Claims(subject: Option<string>, issuedAt: int, expiration: int)

  datatype Signature = Mac(key: string, claims: Claims)

  /** A token string: either a well-formed compact JWS (kept as its decoded
      parts) or any other text. */
  datatype Token = Compact(claims: Claims, signature: Signature) | Text(raw: string)

  /** The configured `jwt.secret` and the wall clock in milliseconds. */
  datatype Env = Env(secret: string, nowMs: nat)

  /** `token == null || token.isBlank()`. A compact JWS always contains its
      two dots, so only other text can be blank. */
  predicate MissingToken(t: Option<Token>) {
    t.None? || (t.value.Text? && JavaIsBlank(t.value.raw))
  }

  /** `generateToken(identifier)`: subject, issued now, expiring seven days later. */
  function GenerateToken(env: Env, identifier: Option<string>): (t: Token)
    ensures t.Compact? && t.claims.subject == identifier
    ensures t.claims.issuedAt == env.nowMs / 1000
    ensures t.claims.expiration == (env.nowMs + SevenDaysMs) / 1000
  {
    var c := Claims(identifier, env.nowMs / 1000, (env.nowMs + SevenDaysMs) / 1000);
    Compact(c, Mac(env.secret, c))
  }

  /** The parser's expiry test: expired when the clock is after `exp`. */
  predicate Expired(c: Claims, nowMs: int) {
    nowMs > c.expiration * 1000
  }

  /** `extractIdentifier(token)`: the subject of a token signed with the
      secret and not expired; null for a null, malformed, tampered, foreign
      or expired token (the parser's exceptions are caught). */
  function ExtractIdentifier(env: Env, t: Option<Token>): (r: Option<string>)
    ensures r.Some? ==> t.Some? && t.value.Compact? && r == t.value.claims.subject
  {
    if t.None? || t.value.Text? then None
    else if t.value.signature != Mac(env.secret, t.value.claims) then None
    else if Expired(t.value.claims, env.nowMs) then None
    else t.value.claims.subject
  }

  /** `extractEmail` delegates to `extractIdentifier`. */
  function ExtractEmail(env: Env, t: Option<Token>): Option<string> {
    ExtractIdentifier(env, t)
  }

  /** `validateToken(token, user)`: the role is compared case-insensitively and
      the identifier must name exactly one row of that role's table (a finder
      that sees two rows throws, and the exception yields false). */
  function ValidateToken(S: Db, env: Env, t: Option<Token>, user: Option<string>): bool {
    var id := ExtractIdentifier(env, t);
    if id.None? || user.None? then false
    else
      var role := ToLower(user.value);
      if role == "admin" then AdminByUsername(S, id).Unique?
      else if role == "doctor" then DoctorByEmail(S, id).Unique?
      else if role == "patient" then PatientByEmail(S, id).Unique?
      else false
  }

  // ---------------------------------------------------------------- lemmas

  /** The expiry is exactly seven days after the issue time, in seconds. */
  lemma TokenLifetime(env: Env, identifier: Option<string>)
    ensures var c := GenerateToken(env, identifier).claims;
      c.expiration - c.issuedAt == SevenDaysMs / 1000
  {
    var n := env.nowMs;
    assert n + SevenDaysMs == (n / 1000 + SevenDaysMs / 1000) * 1000 + n % 1000;
  }

  /** Round trip: a token issued at `issued` yields its subject at any later
      instant up to its `exp` second, and null after it. */
  lemma RoundTrip(secret: string, issued: nat, later: nat, identifier: Option<string>)
    requires issued <= later
    ensures ExtractIdentifier(Env(secret, later), Some(GenerateToken(Env(secret, issued), identifier)))
      == if later <= issued + SevenDaysMs - issued % 1000 then identifier else None
  {
    var c := GenerateToken(Env(secret, issued), identifier).claims;
    assert issued + SevenDaysMs == (issued / 1000 + SevenDaysMs / 1000) * 1000 + issued % 1000;
    assert c.expiration * 1000 == issued + SevenDaysMs - issued % 1000;
  }

  /** Consequently a token is honoured for at least seven days less one
      second, and never after seven days. */
  lemma TokenWindow(secret: string, issued: nat, later: nat, identifier: Option<string>)
    requires issued <= later
    ensures later <= issued + SevenDaysMs - 999 ==>
      ExtractIdentifier(Env(secret, later), Some(GenerateToken(Env(secret, issued), identifier))) == identifier
    ensures later > issued + SevenDaysMs ==>
      ExtractIdentifier(Env(secret, later), Some(GenerateToken(Env(secret, issued), identifier))).None?
  {
    RoundTrip(secret, issued, later, identifier);
  }

  /** A token signed with another key yields null. This restates the
      assumption built into the symbolic `Mac` signature (distinct keys give
      distinct signatures), not a property the service itself establishes. */
  lemma ForeignKeyRejected(secret: string, other: string, issued: nat, now: nat, identifier: Option<string>)
    requires other != secret
    ensures ExtractIdentifier(Env(secret, now), Some(GenerateToken(Env(other, issued), identifier))).None?
  {
  }

  /** Changing the claims of a signed token (a new subject or expiry) breaks
      the signature. Like `ForeignKeyRejected`, this restates the symbolic
      `Mac`'s injectivity in its claims, an assumption about the JWT library
      and not a property the service itself establishes. */
  lemma TamperedRejected(env: Env, c: Claims, forged: Claims)
    requires forged != c
    ensures ExtractIdentifier(env, Some(Compact(forged, Mac(env.secret, c)))).None?
  {
  }

  /** A token validated for "doctor" names a stored doctor's email (and, by
      `DuplicateDoctorRefused`, only one doctor has it). */
  lemma DoctorTokenNamesOneDoctor(S: Db, env: Env, t: Option<Token>)
    requires ValidateToken(S, env, t, Some("doctor"))
    ensures var id := ExtractIdentifier(env, t);
      id.Some? && exists i :: 0 <= i < |S.doctors| && S.doctors[i].email == id
  {
    assert ToLower("doctor") == "doctor";
    var id := ExtractIdentifier(env, t);
    var d := DoctorByEmail(S, id).value;
    var i :| 0 <= i < |S.doctors| && S.doctors[i] == d;
  }

  /** Two doctors sharing the email make the lookup throw: the token is refused. */
  lemma DuplicateDoctorRefused(S: Db, env: Env, t: Option<Token>, i: int, j: int)
    requires 0 <= i < j < |S.doctors|
    requires S.doctors[i].email == ExtractIdentifier(env, t) && S.doctors[j].email == ExtractIdentifier(env, t)
    ensures !ValidateToken(S, env, t, Some("doctor"))
  {
    assert ToLower("doctor") == "doctor";
    Tables.TwoIndicesInFilter(S.doctors, DoctorEmailIs, ExtractIdentifier(env, t), i, j);
  }

  /** The role name is matched ignoring letter case. */
  lemma RoleIgnoresCase(S: Db, env: Env, t: Option<Token>, user: string, role: string)
    requires ToLower(user) == ToLower(role)
    ensures ValidateToken(S, env, t, Some(user)) == ValidateToken(S, env, t, Some(role))
  {
  }

  /** A correctly signed, unexpired token whose subject is a patient's email
      and no doctor's email and no admin's username passes only as "patient". */
  lemma PatientTokenOnlyForPatients(S: Db, env: Env, t: Option<Token>, email: string)
    requires ExtractIdentifier(env, t) == Some(email)
    requires forall i :: 0 <= i < |S.doctors| ==> S.doctors[i].email != Some(email)
    requires forall i :: 0 <= i < |S.admins| ==> S.admins[i].username != Some(email)
    ensures !ValidateToken(S, env, t, Some("doctor"))
    ensures !ValidateToken(S, env, t, Some("admin"))
  {
    assert ToLower("doctor") == "doctor";
    assert ToLower("admin") == "admin";
  }

  /** A role other than admin, doctor or patient is always refused. */
  lemma UnknownRoleRefused(S: Db, env: Env, t: Option<Token>, user: string)
    requires ToLower(user) != "admin" && ToLower(user) != "doctor" && ToLower(user) != "patient"
    ensures !ValidateToken(S, env, t, Some(user))
  {
  }

  /** Without a role, or with a token that yields no identifier, the answer is false. */
  lemma NoIdentifierRefused(S: Db, env: Env, t: Option<Token>, user: Option<string>)
    requires ExtractIdentifier(env, t).None? || user.None?
    ensures !ValidateToken(S, env, t, user)
  {
  }
}
