/** The API's token service: the login check against the one hard-coded
    credential pair, the bearer token it issues, and the validation rules
    the JWT bearer handler is configured with.

    Times are whole seconds since the Unix epoch (UTC). The HMAC-SHA256
    signature is idealised as the constructor `Mac(key, payload)`: only a
    holder of `key` can build it, and it binds exactly that payload. */
module Tokens {
  import opened Optional

  /** The `Jwt:Key`, `Jwt:Issuer` and `Jwt:Audience` settings. */
  datatype Config = Config(key: string, issuer: string, audience: string)

  /** The claims a token carries: `sub`, the name claim and the role claim. */
  datatype Claims = Claims(subject: string, name: string, role: string)

  datatype Payload = Payload(issuer: string, audience: string, claims: Claims, expires: int)

  /** An idealised message authentication code over a payload. */
  datatype Mac = Mac(key: string, payload: Payload)

  datatype Token = Token(payload: Payload, mac: Mac)

  /** The login body; either field may be missing (null). */
  datatype LoginRequest = LoginRequest(email: Option<string>, password: Option<string>)

  const AdminEmail: string := "admin@miniops.local"
  const AdminPassword: string := "123456"
  const AdminRole: string := "Admin"

  /** A token expires one minute after it is issued. */
  const Lifetime: int := 60

  /** Validation tolerates 30 seconds of clock skew past expiry. */
  const ClockSkew: int := 30

  /** The credential check: both fields present and equal, ordinally, to the
      hard-coded pair. */
  predicate IsAdmin(req: LoginRequest) {
    req.email == Some(AdminEmail) && req.password == Some(AdminPassword)
  }

  predicate SignatureValid(key: string, t: Token) {
    t.mac == Mac(key, t.payload)
  }

  /** Issues a token for the admin at time `now`, or nothing for any other
      credentials. */
  function Issue(cfg: Config, req: LoginRequest, now: int): (r: Option<Token>)
    ensures r.Some? <==> IsAdmin(req)
    ensures r.Some? ==>
      && r.value.payload.claims == Claims(AdminEmail, AdminEmail, AdminRole)
      && r.value.payload.issuer == cfg.issuer
      && r.value.payload.audience == cfg.audience
      && r.value.payload.expires == now + Lifetime
      && SignatureValid(cfg.key, r.value)
  {
    if !IsAdmin(req) then
      None
    else
      var email := req.email.value;
      var payload := Payload(cfg.issuer, cfg.audience, Claims(email, email, AdminRole), now + Lifetime);
      Some(Token(payload, Mac(cfg.key, payload)))
  }

  /** Validation as configured: signature, issuer, audience and lifetime
      (with clock skew) are all checked. */
  predicate Accepts(cfg: Config, t: Token, now: int) {
    && SignatureValid(cfg.key, t)
    && t.payload.issuer == cfg.issuer
    && t.payload.audience == cfg.audience
    && now <= t.payload.expires + ClockSkew
  }

  /** A freshly issued token is accepted up to and including 90 seconds
      after issue, and rejected from then on. */
  lemma IssuedTokenWindow(cfg: Config, req: LoginRequest, issuedAt: int, now: int)
    requires IsAdmin(req)
    ensures Accepts(cfg, Issue(cfg, req, issuedAt).value, now) <==> now <= issuedAt + Lifetime + ClockSkew
  {
  }

  /** Once a token is rejected for being too old it stays rejected: a token
      accepted at `later` was accepted at every earlier time. */
  lemma AcceptanceOnlyExpires(cfg: Config, t: Token, earlier: int, later: int)
    requires earlier <= later && Accepts(cfg, t, later)
    ensures Accepts(cfg, t, earlier)
  {
  }

  /** A token whose payload was altered without the key is rejected, at any
      time and whatever else it claims. */
  lemma TamperedTokenRejected(cfg: Config, t: Token, p: Payload, now: int)
    requires Accepts(cfg, t, now) && p != t.payload
    ensures !Accepts(cfg, Token(p, t.mac), now)
  {
  }

  /** A token issued under one configuration is rejected under another
      with a different key, issuer or audience. */
  lemma OtherConfigRejects(cfg: Config, other: Config, req: LoginRequest, issuedAt: int, now: int)
    requires IsAdmin(req) && other != cfg
    ensures !Accepts(other, Issue(cfg, req, issuedAt).value, now)
  {
  }

  /** The credential comparison is case-sensitive. */
  lemma LoginIsCaseSensitive(cfg: Config, now: int)
    ensures Issue(cfg, LoginRequest(Some("Admin@miniops.local"), Some(AdminPassword)), now).None?
  {
  }
}
