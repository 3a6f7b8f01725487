/**
 * Model of jwt/jwt.go: extraction of the token from a bearer header value,
 * the claims the three issuers put into a token, and the acceptance rule of
 * DecryptToken. Signing, encoding and parsing belong to the golang-jwt
 * library; they are abstract parameters here (a signer, and a library
 * record of three oracles), and the clock reading is a parameter too.
 */
module Jwt {
  import opened Results
  import opened StringUtil
  import Number

  /** Package-level names; immutable constants here. */
  const AuthorizationHeader: string := "Authorization"
  const TokenPrefix: string := "bearer"

  // ---------------------------------------------------------------------
  // Claims and tokens
  // ---------------------------------------------------------------------

  /** A JSON value stored in a claim map: a number, a string or null. */
  datatype ClaimValue = Num(n: int) | Text(s: string) | Null

  /** golang-jwt's MapClaims. */
  type MapClaims = map<string, ClaimValue>

  /** Go's `uint` (64 bits). */
  type Uint = x: int | 0 <= x < 0x1_0000_0000_0000_0000

  /** The three claim shapes of the package; each embeds a MapClaims under "details". */
  datatype Claims =
    | JwtClaim(id: Uint, username: string, details: MapClaims)
    | UsernameJwtClaim(username: string, details: MapClaims)
    | FileJwtClaim(ownerKey: string, fileIds: seq<string>, details: MapClaims)

  /** The families of signing methods golang-jwt knows; `Unsecured` is the "none" algorithm. */
  datatype Family = Hmac | Rsa | RsaPss | Ecdsa | EdDsa | Unsecured

  datatype SigningMethod = SigningMethod(family: Family, alg: string)

  const HS256 := SigningMethod(Hmac, "HS256")

  /** An unsigned token, as built by `jwt.NewWithClaims`. */
  datatype Token = Token(signingMethod: SigningMethod, claims: Claims)

  /** JwtWrapper: the signing key, the issuer and the issuing settings. */
  datatype JwtWrapper = JwtWrapper(secretKey: string, issuer: string, issueAt: Number.int64, expirationHours: Number.int64)

  type Nanos = x: int | 0 <= x < 1_000_000_000

  /** A clock reading: Unix seconds and the nanoseconds within that second. */
  datatype Instant = Instant(unix: int, nsec: Nanos)

  /** `token.SignedString(key)`: encoding and HMAC signing, done by the library. */
  type Signer = (Token, string) -> Result<string, string>

  // ---------------------------------------------------------------------
  // Expiry: time.Now().Local().Add(time.Hour * time.Duration(h)).Unix()
  // ---------------------------------------------------------------------

  /** The largest number of hours whose duration in nanoseconds fits in an int64. */
  const MaxHours: int := 2_562_047

  /**
   * The expiry the source computes, with Go's arithmetic: the duration
   * `time.Hour * time.Duration(h)` is an int64 number of nanoseconds that
   * wraps around, and `Time.Add` splits it into truncated seconds and a
   * nanosecond remainder that may carry into the clock's seconds.
   */
  function ExpiresAtAsWritten(now: Instant, hours: Number.int64): (exp: int)
    ensures -MaxHours <= hours as int <= MaxHours ==> exp == now.unix + 3600 * hours as int
  {
    var d := Number.WrapInt64(3_600_000_000_000 * hours as int) as int;
    var dsec := if d >= 0 then d / 1_000_000_000 else -((-d) / 1_000_000_000);
    var nsec := now.nsec + (d - dsec * 1_000_000_000);
    if nsec >= 1_000_000_000 then now.unix + dsec + 1
    else if nsec < 0 then now.unix + dsec - 1
    else now.unix + dsec
  }

  /** The intended expiry: exactly `hours` hours after the clock reading, whatever the number of hours. */
  function ExpiresAt(now: Instant, hours: Number.int64): (exp: int)
    ensures exp - now.unix == 3600 * hours as int
    ensures hours > 0 ==> exp > now.unix
    ensures hours == 0 ==> exp == now.unix
    ensures -MaxHours <= hours as int <= MaxHours ==> exp == ExpiresAtAsWritten(now, hours)
  {
    now.unix + 3600 * hours as int
  }

  /** With 2562048 hours the duration overflows and the token is already expired when it is issued. */
  lemma ExpiryOverflow()
    ensures ExpiresAtAsWritten(Instant(0, 0), 2_562_048) < 0
    ensures ExpiresAt(Instant(0, 0), 2_562_048) > 0
  {
    var d := Number.WrapInt64(3_600_000_000_000 * 2_562_048) as int;
    assert d == 3_600_000_000_000 * 2_562_048 - 0x1_0000_0000_0000_0000;
  }

  // ---------------------------------------------------------------------
  // Issuers
  // ---------------------------------------------------------------------

  /** The registered claims every issuer sets: expiry, issuer, issued-at. */
  function RegisteredClaims(j: JwtWrapper, exp: ClaimValue): (m: MapClaims)
    ensures m.Keys == {"exp", "iss", "iat"}
    ensures m["exp"] == exp
    ensures m["iss"] == Text(j.issuer) && m["iat"] == Num(j.issueAt as int)
  {
    map["exp" := exp, "iss" := Text(j.issuer), "iat" := Num(j.issueAt as int)]
  }

  /**
   * The token EncryptToken signs: id, username, and an expiry `ExpirationHours`
   * after the clock. The expiry is the corrected one (ExpiresAt), which agrees
   * with the code's wrapping computation whenever the duration fits in an int64.
   */
  function UserToken(j: JwtWrapper, now: Instant, userId: Uint, username: string): (t: Token)
    ensures t.signingMethod == HS256
    ensures t.claims.JwtClaim? && t.claims.id == userId && t.claims.username == username
    ensures t.claims.details.Keys == {"exp", "iss", "iat"}
    ensures t.claims.details["exp"] == Num(now.unix + 3600 * j.expirationHours as int)
    ensures -MaxHours <= j.expirationHours as int <= MaxHours ==>
              t.claims.details["exp"] == Num(ExpiresAtAsWritten(now, j.expirationHours))
    ensures t.claims.details["iss"] == Text(j.issuer) && t.claims.details["iat"] == Num(j.issueAt as int)
  {
    Token(HS256, JwtClaim(userId, username, RegisteredClaims(j, Num(ExpiresAt(now, j.expirationHours)))))
  }

  /** EncryptToken: the signer applied to UserToken with the wrapper's secret key. */
  function EncryptToken(j: JwtWrapper, now: Instant, userId: Uint, username: string, sign: Signer): (r: Result<string, string>)
    ensures r == sign(UserToken(j, now, userId, username), j.secretKey)
  {
    sign(UserToken(j, now, userId, username), j.secretKey)
  }

  /** The token EncryptTokenByUsername signs: the username and the same registered claims. */
  function UsernameToken(j: JwtWrapper, now: Instant, username: string): (t: Token)
    ensures t.signingMethod == HS256
    ensures t.claims.UsernameJwtClaim? && t.claims.username == username
    ensures t.claims.details.Keys == {"exp", "iss", "iat"}
    ensures t.claims.details["exp"] == Num(now.unix + 3600 * j.expirationHours as int)
    ensures -MaxHours <= j.expirationHours as int <= MaxHours ==>
              t.claims.details["exp"] == Num(ExpiresAtAsWritten(now, j.expirationHours))
    ensures t.claims.details["iss"] == Text(j.issuer) && t.claims.details["iat"] == Num(j.issueAt as int)
  {
    Token(HS256, UsernameJwtClaim(username, RegisteredClaims(j, Num(ExpiresAt(now, j.expirationHours)))))
  }

  /** EncryptTokenByUsername: the signer applied to UsernameToken with the wrapper's secret key. */
  function EncryptTokenByUsername(j: JwtWrapper, now: Instant, username: string, sign: Signer): (r: Result<string, string>)
    ensures r == sign(UsernameToken(j, now, username), j.secretKey)
  {
    sign(UsernameToken(j, now, username), j.secretKey)
  }

  /** The token FileEncryptSharedToken signs: no expiry (null) exactly when ExpirationHours is 0. */
  function FileSharedToken(j: JwtWrapper, now: Instant, ownerKey: string, fileIds: seq<string>): (t: Token)
    ensures t.signingMethod == HS256
    ensures t.claims.FileJwtClaim? && t.claims.ownerKey == ownerKey && t.claims.fileIds == fileIds
    ensures t.claims.details.Keys == {"exp", "iss", "iat"}
    ensures t.claims.details["exp"] == Null <==> j.expirationHours == 0
    ensures j.expirationHours != 0 ==> t.claims.details["exp"] == Num(now.unix + 3600 * j.expirationHours as int)
    ensures j.expirationHours != 0 && -MaxHours <= j.expirationHours as int <= MaxHours ==>
              t.claims.details["exp"] == Num(ExpiresAtAsWritten(now, j.expirationHours))
    ensures t.claims.details["iss"] == Text(j.issuer) && t.claims.details["iat"] == Num(j.issueAt as int)
  {
    if j.expirationHours == 0 then
      Token(HS256, FileJwtClaim(ownerKey, fileIds, RegisteredClaims(j, Null)))
    else
      Token(HS256, FileJwtClaim(ownerKey, fileIds, RegisteredClaims(j, Num(ExpiresAt(now, j.expirationHours)))))
  }

  /** FileEncryptSharedToken: the signer applied to FileSharedToken with the wrapper's secret key. */
  function FileEncryptSharedToken(j: JwtWrapper, now: Instant, ownerKey: string, fileIds: seq<string>, sign: Signer): (r: Result<string, string>)
    ensures r == sign(FileSharedToken(j, now, ownerKey, fileIds), j.secretKey)
  {
    sign(FileSharedToken(j, now, ownerKey, fileIds), j.secretKey)
  }

  /** The clock decides only the expiry: two issuings at different instants differ in "exp" alone. */
  lemma OnlyExpiryDependsOnClock(j: JwtWrapper, now1: Instant, now2: Instant, userId: Uint, username: string)
    ensures UserToken(j, now1, userId, username).claims.details - {"exp"}
         == UserToken(j, now2, userId, username).claims.details - {"exp"}
    ensures UserToken(j, now1, userId, username).claims.details["exp"].n
          - UserToken(j, now2, userId, username).claims.details["exp"].n == now1.unix - now2.unix
  {
    var m1 := UserToken(j, now1, userId, username).claims.details - {"exp"};
    var m2 := UserToken(j, now2, userId, username).claims.details - {"exp"};
    assert m1.Keys == m2.Keys == {"iss", "iat"};
  }

  // ---------------------------------------------------------------------
  // DecryptToken
  // ---------------------------------------------------------------------

  /** The errors DecryptToken can return. */
  datatype JwtError =
    | Malformed(reason: string)                              // the library could not decode the token
    | UnexpectedSigningMethod(alg: string)                   // the key function refused the algorithm
    | Invalid(claimsInvalid: bool, signatureInvalid: bool)   // claims or signature failed validation

  /** A token decoded but not yet verified: its method, claims, signed text and signature. */
  datatype ParsedToken = ParsedToken(signingMethod: SigningMethod, claims: MapClaims, signingInput: string, signature: string)

  /**
   * The golang-jwt operations DecryptToken relies on, as oracles: decoding a
   * token string, validating the time claims against the clock, and checking
   * a signature with a key.
   */
  datatype JwtLibrary = JwtLibrary(
    parseUnverified: string -> Result<ParsedToken, string>,
    claimsValid: MapClaims -> bool,
    verify: (SigningMethod, string, string, string) -> bool)

  /** What `jwt.Parse` returns: the token (if decoded), its Valid flag, and an error. */
  datatype Parsed = Parsed(token: Option<ParsedToken>, valid: bool, err: Option<JwtError>)

  /** The key function DecryptToken passes to the parser: only HMAC-family methods get the secret key. */
  function KeyFunc(t: ParsedToken, secretKey: string): (r: Result<string, JwtError>)
    ensures r.Success? <==> t.signingMethod.family == Hmac
    ensures r.Success? ==> r.value == secretKey
    ensures r.Failure? ==> r.error == UnexpectedSigningMethod(t.signingMethod.alg)
  {
    if t.signingMethod.family != Hmac then Failure(UnexpectedSigningMethod(t.signingMethod.alg))
    else Success(secretKey)
  }

  /**
   * `jwt.Parse` in golang-jwt v4: decode, ask the key function for a key,
   * validate the claims, verify the signature; the token is Valid exactly
   * when no step failed.
   */
  function Parse(lib: JwtLibrary, tokenString: string, keyFunc: ParsedToken -> Result<string, JwtError>): (p: Parsed)
    ensures p.valid <==> p.err.None?
    ensures p.valid ==> p.token.Some? && lib.parseUnverified(tokenString) == Success(p.token.value)
  {
    match lib.parseUnverified(tokenString)
    case Failure(reason) => Parsed(None, false, Some(Malformed(reason)))
    case Success(t) =>
      match keyFunc(t)
      case Failure(e) => Parsed(Some(t), false, Some(e))
      case Success(key) =>
        var claimsOk := lib.claimsValid(t.claims);
        var signatureOk := lib.verify(t.signingMethod, t.signingInput, t.signature, key);
        if claimsOk && signatureOk then Parsed(Some(t), true, None)
        else Parsed(Some(t), false, Some(Invalid(!claimsOk, !signatureOk)))
  }

  /** DecryptToken's outcomes: `(claims, nil)`, `(nil, err)`, and `(nil, nil)`. */
  datatype Decrypted = Claims(claims: MapClaims) | Error(err: JwtError) | NoClaims

  /** What DecryptToken makes of the parser's answer: an error wins, then a valid token gives its claims. */
  function DecryptResult(p: Parsed): (r: Decrypted)
    ensures r.Error? <==> p.err.Some?
    ensures r.Error? ==> r.err == p.err.value
    ensures r.Claims? <==> p.err.None? && p.token.Some? && p.valid
    ensures r.Claims? ==> r.claims == p.token.value.claims
    ensures r.NoClaims? <==> p.err.None? && !(p.token.Some? && p.valid)
  {
    if p.err.Some? then Error(p.err.value)
    else if p.token.Some? && p.valid then Claims(p.token.value.claims)
    else NoClaims
  }

  /** DecryptToken: parse with the HMAC-only key function and report the claims of a valid token. */
  function DecryptToken(tokenString: string, secretKey: string, lib: JwtLibrary): (r: Decrypted)
    ensures r.Claims? ==>
              && lib.parseUnverified(tokenString).Success?
              && lib.parseUnverified(tokenString).value.signingMethod.family == Hmac
              && r.claims == lib.parseUnverified(tokenString).value.claims
    ensures !r.NoClaims?
  {
    DecryptResult(Parse(lib, tokenString, t => KeyFunc(t, secretKey)))
  }

  /** A token whose algorithm is not HMAC-family (RSA, ECDSA, "none", ...) is refused before any check. */
  lemma DecryptRejectsNonHmac(tokenString: string, secretKey: string, lib: JwtLibrary, t: ParsedToken)
    requires lib.parseUnverified(tokenString) == Success(t)
    requires t.signingMethod.family != Hmac
    ensures DecryptToken(tokenString, secretKey, lib) == Error(UnexpectedSigningMethod(t.signingMethod.alg))
  {
  }

  /** A decoded token yields its claims exactly when it is HMAC-signed, its claims are valid and its signature verifies under the secret key. */
  lemma DecryptAcceptsExactly(tokenString: string, secretKey: string, lib: JwtLibrary, t: ParsedToken)
    requires lib.parseUnverified(tokenString) == Success(t)
    ensures DecryptToken(tokenString, secretKey, lib).Claims? <==>
              && t.signingMethod.family == Hmac
              && lib.claimsValid(t.claims)
              && lib.verify(t.signingMethod, t.signingInput, t.signature, secretKey)
  {
  }

  /** A token the library cannot decode is reported with the library's reason. */
  lemma DecryptMalformed(tokenString: string, secretKey: string, lib: JwtLibrary, reason: string)
    requires lib.parseUnverified(tokenString) == Failure(reason)
    ensures DecryptToken(tokenString, secretKey, lib) == Error(Malformed(reason))
  {
  }

  // ---------------------------------------------------------------------
  // ExtractToken
  // ---------------------------------------------------------------------

  datatype ExtractError = TokenRequired | BearerRequired | TokenInvalid

  /** The text of each error. */
  function ErrorMessage(e: ExtractError): (msg: string)
    ensures msg != ""
  {
    match e
    case TokenRequired => "token is required"
    case BearerRequired => "bearer is required"
    case TokenInvalid => "token is invalid"
  }

  /** A caller can tell the three errors apart by their text. */
  lemma ErrorMessagesDistinct(e1: ExtractError, e2: ExtractError)
    ensures ErrorMessage(e1) == ErrorMessage(e2) <==> e1 == e2
  {
    if e1 != e2 {
      assert |ErrorMessage(e1)| != |ErrorMessage(e2)|;
    }
  }

  /**
   * ExtractToken's outcomes: the token, an error, or the index-out-of-range
   * panic of reading the second field of a header that has only one.
   */
  datatype Extracted = Extracted(token: string) | Rejected(error: ExtractError) | IndexOutOfRange

  /**
   * ExtractToken: the second space-separated field of a `bearer <token>`
   * header value, provided the first field is "bearer" in any case and the
   * second has three '.'-separated segments.
   */
  function ExtractToken(token: string): (r: Extracted)
    ensures r == Rejected(TokenRequired) <==> token == ""
    ensures r.Extracted? ==> ' ' !in r.token && multiset(r.token)['.'] == 2
  {
    if IsEmpty(token) then Rejected(TokenRequired)
    else
      var getSplitToken := Split(token, " ");
      var getBearer := ToLower(getSplitToken[0]);
      if getBearer != TokenPrefix then Rejected(BearerRequired)
      else if |getSplitToken| < 2 then IndexOutOfRange
      else
        var getToken := getSplitToken[1];
        if |Split(getToken, ".")| != 3 then Rejected(TokenInvalid)
        else
          SplitSpec(token, " ");
          ContainsChar(getToken, ' ');
          SplitCharCount(getToken, '.');
          Extracted(getToken)
  }

  /** "bearer" is accepted in any mix of cases. */
  lemma BearerAnyCase(w: string)
    ensures ToLower(w) == TokenPrefix <==> CaseVariantOf(w, TokenPrefix)
  {
    ToLowerMatches(w, TokenPrefix);
  }

  /**
   * The outcome for a header `w t rest` whose first field is `w`, second
   * field `t`, and whose remainder (if any) starts at the next space.
   */
  lemma ExtractTokenFields(w: string, t: string, rest: string)
    requires ' ' !in w && ' ' !in t && (rest == "" || rest[0] == ' ')
    ensures ExtractToken(w + " " + t + rest) ==
              if ToLower(w) != TokenPrefix then Rejected(BearerRequired)
              else if multiset(t)['.'] == 2 then Extracted(t)
              else Rejected(TokenInvalid)
  {
    var token := w + " " + t + rest;
    HeaderFields(w, t, rest);
    ExtractTokenOfFields(token);
  }

  /** The first two space-separated fields of `w t rest`. */
  lemma HeaderFields(w: string, t: string, rest: string)
    requires ' ' !in w && ' ' !in t && (rest == "" || rest[0] == ' ')
    ensures var fields := Split(w + " " + t + rest, " ");
            |fields| >= 2 && fields[0] == w && fields[1] == t
  {
    var token := w + " " + t + rest;
    assert token == w + [' '] + (t + rest);
    SplitNCharHead(w, ' ', t + rest, -1);
    FirstField(t, rest);
  }

  /** The first space-separated field of `t rest` is `t`. */
  lemma FirstField(t: string, rest: string)
    requires ' ' !in t && (rest == "" || rest[0] == ' ')
    ensures SplitN(t + rest, " ", -1)[0] == t
  {
    assert " " == [' '];
    if rest == "" {
      assert t + rest == t;
      SplitNCharNone(t, ' ', -1);
    } else {
      var x := rest[1..];
      assert rest == [' '] + x;
      assert t + rest == t + [' '] + x;
      SplitNCharHead(t, ' ', x, -1);
      assert SplitN(t + rest, [' '], -1) == [t] + SplitN(x, [' '], -1);
    }
  }

  /** ExtractToken on a header with at least two fields, in terms of those fields. */
  lemma ExtractTokenOfFields(token: string)
    requires |Split(token, " ")| >= 2
    ensures var fields := Split(token, " ");
            ExtractToken(token) ==
              if ToLower(fields[0]) != TokenPrefix then Rejected(BearerRequired)
              else if multiset(fields[1])['.'] == 2 then Extracted(fields[1])
              else Rejected(TokenInvalid)
  {
    var fields := Split(token, " ");
    SplitSpec(token, " ");
    assert token != "";
    SplitCharCount(fields[1], '.');
  }

  /** A non-empty header without a space has a single field: "bearer" alone panics, anything else lacks the prefix. */
  lemma ExtractTokenSingleField(w: string)
    requires w != "" && ' ' !in w
    ensures ExtractToken(w) == if ToLower(w) == TokenPrefix then IndexOutOfRange else Rejected(BearerRequired)
  {
    SplitNCharNone(w, ' ', -1);
  }

  /**
   * A successful extraction means the header is "bearer" (any case), one
   * space, the token, and then either nothing or a space.
   */
  lemma ExtractTokenSuccess(token: string)
    requires ExtractToken(token).Extracted?
    ensures var t := ExtractToken(token).token;
            && |token| >= 7 + |t|
            && CaseVariantOf(token[..6], TokenPrefix)
            && token[6] == ' '
            && token[7..7 + |t|] == t
            && (|token| == 7 + |t| || token[7 + |t|] == ' ')
  {
    var fields := Split(token, " ");
    SplitSpec(token, " ");
    assert |fields| >= 2;
    ExtractTokenOfFields(token);
    var t := fields[1];
    assert ExtractToken(token).token == t;
    BearerAnyCase(fields[0]);
    assert |fields[0]| == 6;
    var tail := JoinFirstTwo(fields, " ");
    assert token == fields[0] + " " + t + tail;
    assert tail == "" || tail[0] == ' ';
    assert token[..6] == fields[0];
    assert token[7..7 + |t|] == t;
  }

  /** A join of at least two pieces: the first, the separator, the second, and the rest starting with the separator. */
  lemma JoinFirstTwo(parts: seq<string>, sep: string) returns (tail: string)
    requires |parts| >= 2
    ensures Join(parts, sep) == parts[0] + sep + parts[1] + tail
    ensures tail == "" || (|sep| <= |tail| && tail[..|sep|] == sep)
  {
    if |parts| == 2 {
      tail := "";
    } else {
      tail := sep + Join(parts[2..], sep);
      assert parts[1..][1..] == parts[2..];
    }
  }

  /** The sample headers, field by field. */
  lemma SampleHeaders()
    ensures "Bearer a.b.c" == "Bearer" + " " + "a.b.c" + ""
    ensures "BEARER a.b.c x" == "BEARER" + " " + "a.b.c" + " x"
    ensures "Bearer abc" == "Bearer" + " " + "abc" + ""
    ensures "Bearer  a.b.c" == "Bearer" + " " + "" + " a.b.c"
  {
  }

  /** The sample token "a.b.c" has three segments, "abc" only one. */
  lemma SampleTokenDots()
    ensures ' ' !in "a.b.c" && multiset("a.b.c")['.'] == 2
    ensures ' ' !in "abc" && multiset("abc")['.'] == 0
  {
  }

  /** "Bearer" is a spelling of the prefix. */
  lemma CapitalisedPrefix()
    ensures ToLower("Bearer") == TokenPrefix
  {
    BearerAnyCase("Bearer");
  }

  /** "BEARER" is a spelling of the prefix. */
  lemma UpperCasePrefix()
    ensures ToLower("BEARER") == TokenPrefix
  {
    BearerAnyCase("BEARER");
  }

  /** Sample header "Bearer a.b.c": a well-formed bearer token is returned as it is. */
  lemma ExtractTokenAcceptsBearer()
    ensures ExtractToken("Bearer a.b.c") == Extracted("a.b.c")
  {
    SampleHeaders();
    CapitalisedPrefix();
    SampleTokenDots();
    ExtractTokenFields("Bearer", "a.b.c", "");
  }

  /** Sample header "BEARER a.b.c x": an upper-case prefix is accepted and fields after the token are dropped. */
  lemma ExtractTokenDropsExtraFields()
    ensures ExtractToken("BEARER a.b.c x") == Extracted("a.b.c")
  {
    SampleHeaders();
    UpperCasePrefix();
    SampleTokenDots();
    ExtractTokenFields("BEARER", "a.b.c", " x");
  }

  /** Sample header "a.b.c": a token without the prefix is refused. */
  lemma ExtractTokenRefusesMissingPrefix()
    ensures ExtractToken("a.b.c") == Rejected(BearerRequired)
  {
    assert ToLower("a.b.c") != TokenPrefix;
    ExtractTokenSingleField("a.b.c");
  }

  /** Sample header "Bearer abc": a token with one segment is refused. */
  lemma ExtractTokenRefusesOneSegment()
    ensures ExtractToken("Bearer abc") == Rejected(TokenInvalid)
  {
    SampleHeaders();
    CapitalisedPrefix();
    SampleTokenDots();
    ExtractTokenFields("Bearer", "abc", "");
  }

  /** Sample header "Bearer  a.b.c": two spaces leave an empty second field, which is refused. */
  lemma ExtractTokenRefusesDoubleSpace()
    ensures ExtractToken("Bearer  a.b.c") == Rejected(TokenInvalid)
  {
    SampleHeaders();
    CapitalisedPrefix();
    ExtractTokenFields("Bearer", "", " a.b.c");
  }

  /** Sample header "bearer": the prefix alone reads a missing second field. */
  lemma ExtractTokenPanicsOnLonePrefix()
    ensures ExtractToken(TokenPrefix) == IndexOutOfRange
  {
    BearerAnyCase(TokenPrefix);
    ExtractTokenSingleField(TokenPrefix);
  }
}
