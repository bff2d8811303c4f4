// JWT claims: building a token and decoding it again. Signing is abstract: a
// token is its claims, and whether a token was signed with the service's
// secret is for the caller to say (AuthService keeps the set it has issued).
module Tokens {
  import opened Ids

  // A claim's value: the text of a UUID, other text, an integer, or other JSON.
  datatype Value = UuidText(id: Uuid) | Text(text: string) | Number(n: int) | Json(json: string)

  type Claims = map<string, Value>

  datatype TokenType = Access | Refresh

  function TypeName(t: TokenType): string
  {
    match t
    case Access => "access"
    case Refresh => "refresh"
  }

  const RESERVED: set<string> := {"sub", "type", "iat", "exp", "jti"}

  // Further claims the JWT library looks at: the rest of section 4.1 of
  // RFC 7519, and at_hash.
  const LIBRARY_CLAIMS: set<string> := {"iss", "aud", "nbf", "at_hash"}

  const MICROS: nat := 1_000_000

  // int(t.timestamp()), for a time in microseconds
  function Seconds(micros: nat): nat
  {
    micros / MICROS
  }

  datatype Built = Token(claims: Claims) | ReservedClaims(overlap: set<string>)

  function StandardClaims(sub: Value, kind: TokenType, ttl: nat, now: nat, jti: Uuid): Claims
  {
    map["sub" := sub, "type" := Text(TypeName(kind)), "iat" := Number(Seconds(now)),
        "exp" := Number(Seconds(now + ttl * MICROS)), "jti" := UuidText(jti)]
  }

  function ExtraClaims(extra: Option<Claims>): Claims
  {
    match extra
    case None => map[]
    case Some(e) => e
  }

  function Build(sub: Value, kind: TokenType, ttl: nat, extra: Option<Claims>, now: nat, jti: Uuid): Built
  {
    var overlap := RESERVED * ExtraClaims(extra).Keys;
    if overlap != {} then ReservedClaims(overlap)
    else Token(StandardClaims(sub, kind, ttl, now, jti) + ExtraClaims(extra))
  }

  // _build_token, for a ttl in seconds
  method BuildToken(sub: Value, kind: TokenType, ttl: nat, extra: Option<Claims>, now: nat, jti: Uuid)
    returns (r: Built)
    ensures r == Build(sub, kind, ttl, extra, now, jti)
  {
    var claims: Claims := map[];
    claims := claims["sub" := sub];
    claims := claims["type" := Text(TypeName(kind))];
    claims := claims["iat" := Number(Seconds(now))];
    claims := claims["exp" := Number(Seconds(now + ttl * MICROS))];
    claims := claims["jti" := UuidText(jti)];
    assert claims == StandardClaims(sub, kind, ttl, now, jti);
    if extra.Some? && extra.value != map[] {
      var overlap := RESERVED * extra.value.Keys;
      if overlap != {} {
        return ReservedClaims(overlap);
      }
      claims := claims + extra.value;
    }
    r := Token(claims);
    assert StandardClaims(sub, kind, ttl, now, jti) + map[] == StandardClaims(sub, kind, ttl, now, jti);
  }

  // ---------------------------------------------------------------------
  // Decoding
  // ---------------------------------------------------------------------

  datatype Decoded =
    | Payload(sub: Value, kind: TokenType, iat: int, exp: int, jti: Value, extra: Claims)
    | TokenExpired
    | InvalidToken

  // What is left open about the library: whether a token still passes in the
  // second it expires, and what it makes of claims this service never sets.
  datatype Library = Library(acceptsLastSecond: bool, acceptsOther: Claims -> bool)

  predicate IsText(v: Value)
  {
    v.UuidText? || v.Text?
  }

  // TokenPayload.model_validate
  function Validate(c: Claims): Decoded
  {
    if && RESERVED <= c.Keys
       && IsText(c["sub"]) && IsText(c["jti"]) && c["iat"].Number? && c["exp"].Number?
       && (c["type"] == Text("access") || c["type"] == Text("refresh"))
    then Payload(c["sub"], if c["type"] == Text("access") then Access else Refresh,
                 c["iat"].n, c["exp"].n, c["jti"], c - RESERVED)
    else InvalidToken
  }

  // decode_token on a token with a good signature
  function Decode(c: Claims, now: nat, lib: Library): Decoded
  {
    var s := Seconds(now);
    if "exp" in c && c["exp"].Number? && (c["exp"].n < s || (c["exp"].n == s && !lib.acceptsLastSecond)) then
      TokenExpired
    else if !(c.Keys !! LIBRARY_CLAIMS) && !lib.acceptsOther(c) then InvalidToken
    else Validate(c)
  }

  // A token is built exactly when no extra claim has a reserved name; then,
  // for its configured lifetime, it decodes to exactly what was put in.
  lemma BuiltTokenDecodes(sub: Value, kind: TokenType, ttl: nat, extra: Option<Claims>, now: nat, jti: Uuid,
                          later: nat, lib: Library)
    requires IsText(sub)
    requires ExtraClaims(extra).Keys !! LIBRARY_CLAIMS
    ensures var r := Build(sub, kind, ttl, extra, now, jti);
            && (r.Token? <==> ExtraClaims(extra).Keys !! RESERVED)
            && (r.Token? && Seconds(later) < Seconds(now) + ttl ==>
                  Decode(r.claims, later, lib) ==
                  Payload(sub, kind, Seconds(now), Seconds(now) + ttl, UuidText(jti), ExtraClaims(extra)))
            && (r.Token? && Seconds(later) > Seconds(now) + ttl ==> Decode(r.claims, later, lib) == TokenExpired)
  {
    var r := Build(sub, kind, ttl, extra, now, jti);
    if r.Token? {
      var std, ex := StandardClaims(sub, kind, ttl, now, jti), ExtraClaims(extra);
      assert std.Keys == RESERVED;
      assert r.claims.Keys == RESERVED + ex.Keys;
      assert r.claims - RESERVED == ex;
      assert r.claims.Keys !! LIBRARY_CLAIMS;
      ExpiryIsTtl(now, ttl);
    }
  }

  // The other way round: a token decodes to a payload exactly when it consists
  // of that payload's claims and its time has not passed.
  lemma DecodesExactly(c: Claims, now: nat, lib: Library,
                       sub: Value, kind: TokenType, iat: int, exp: int, jti: Value, extra: Claims)
    ensures Decode(c, now, lib) == Payload(sub, kind, iat, exp, jti, extra) <==>
            && IsText(sub) && IsText(jti) && RESERVED !! extra.Keys
            && c == PayloadClaims(sub, kind, iat, exp, jti) + extra
            && NotPast(exp, now, lib) && (c.Keys !! LIBRARY_CLAIMS || lib.acceptsOther(c))
  {
    var std := PayloadClaims(sub, kind, iat, exp, jti);
    if Validate(c) == Payload(sub, kind, iat, exp, jti, extra) {
      assert std.Keys == RESERVED;
      assert c.Keys == (std + extra).Keys;
      assert c == std + extra;
    }
    if RESERVED !! extra.Keys && c == std + extra {
      assert c - RESERVED == extra;
    }
  }

  function PayloadClaims(sub: Value, kind: TokenType, iat: int, exp: int, jti: Value): Claims
  {
    map["sub" := sub, "type" := Text(if kind == Access then "access" else "refresh"),
        "iat" := Number(iat), "exp" := Number(exp), "jti" := jti]
  }

  predicate NotPast(exp: int, now: nat, lib: Library)
  {
    Seconds(now) < exp || (Seconds(now) == exp && lib.acceptsLastSecond)
  }

  // A token is reported as expired exactly when its time has passed.
  lemma ExpiredExactly(c: Claims, now: nat, lib: Library)
    ensures Decode(c, now, lib) == TokenExpired <==> "exp" in c && c["exp"].Number? && !NotPast(c["exp"].n, now, lib)
  {}

  // What a refused build reports: the reserved names among the extra claims.
  lemma OverlapIsReported(sub: Value, kind: TokenType, ttl: nat, extra: Option<Claims>, now: nat, jti: Uuid)
    ensures var r := Build(sub, kind, ttl, extra, now, jti);
            r.ReservedClaims? ==>
              forall k :: k in r.overlap <==> k in ExtraClaims(extra) && k in {"sub", "type", "iat", "exp", "jti"}
  {}

  lemma ExpiryIsTtl(now: nat, ttl: nat)
    ensures Seconds(now + ttl * 1_000_000) == Seconds(now) + ttl
  {}
}
