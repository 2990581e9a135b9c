/**
 * The two authentication endpoints, `GET /api/auth/check` and
 * `POST /api/auth/validate`, as decision tables from the optional
 * `Authorization` header to a status code and a `TokenValidationResponse`.
 */
module AuthEndpoints {
  import opened Wrappers
  import opened JavaStrings
  import opened Http
  import opened Tokens

  /** The body `{valid, message}` both endpoints answer with. */
  datatype TokenValidationResponse = TokenValidationResponse(valid: bool, message: string)

  const CHECK_VALID_MESSAGE: string := "Authentication token is valid"
  const CHECK_INVALID_MESSAGE: string := "Authentication header is invalid or token is expired"
  const CHECK_NO_TOKEN_MESSAGE: string := "No authentication token provided"

  const MISSING_HEADER_MESSAGE: string := "Authorization header is missing"
  const BAD_FORMAT_MESSAGE: string := "Invalid Authorization header format. Use: Bearer <token>"
  const TOKEN_VALID_MESSAGE: string := "Token is valid"
  const TOKEN_INVALID_MESSAGE: string := "Token is invalid or expired"

  /**
   * `checkAuth`: always 200; `valid` exactly when the header is `"Bearer "`
   * followed by an accepted token; the message tells a missing or blank header
   * apart from a present one that fails.
   */
  function CheckAuth(tokenProvider: TokenProvider, authHeader: Option<string>): (r: ResponseEntity<TokenValidationResponse>)
    ensures r.status == OK
    ensures r.body.valid <==> AcceptsHeader(tokenProvider.secretKey, tokenProvider.allowedTokensConfig, authHeader)
    ensures authHeader.None? || IsBlank(authHeader.value) ==>
      r.body == TokenValidationResponse(false, CHECK_NO_TOKEN_MESSAGE)
    ensures authHeader.Some? && !IsBlank(authHeader.value) ==>
      r.body.message == if r.body.valid then CHECK_VALID_MESSAGE else CHECK_INVALID_MESSAGE
  {
    AcceptsHeaderExtracts(tokenProvider.secretKey, tokenProvider.allowedTokensConfig, authHeader);
    BearerHeaderFacts(authHeader);
    if authHeader.Some? && !IsBlank(authHeader.value) then
      var token := ExtractToken(authHeader);
      if token.Some? && Accepts(tokenProvider.secretKey, tokenProvider.allowedTokensConfig, token) then
        ResponseEntity(OK, TokenValidationResponse(true, CHECK_VALID_MESSAGE))
      else
        ResponseEntity(OK, TokenValidationResponse(false, CHECK_INVALID_MESSAGE))
    else
      ResponseEntity(OK, TokenValidationResponse(false, CHECK_NO_TOKEN_MESSAGE))
  }

  /**
   * `validateToken`: 400 for a missing or blank header, 400 for a header
   * without the `"Bearer "` prefix, then 200 or 401 as the token validates;
   * `valid` is true exactly on the 200 answer.
   */
  function ValidateToken(tokenProvider: TokenProvider, authHeader: Option<string>): (r: ResponseEntity<TokenValidationResponse>)
    ensures r.body.valid <==> r.status == OK
    ensures r.body.valid <==> AcceptsHeader(tokenProvider.secretKey, tokenProvider.allowedTokensConfig, authHeader)
    ensures authHeader.None? || IsBlank(authHeader.value) ==>
      r == ResponseEntity(BAD_REQUEST, TokenValidationResponse(false, MISSING_HEADER_MESSAGE))
    ensures authHeader.Some? && !IsBlank(authHeader.value) && !StartsWith(authHeader.value, BEARER_PREFIX) ==>
      r == ResponseEntity(BAD_REQUEST, TokenValidationResponse(false, BAD_FORMAT_MESSAGE))
    ensures forall t :: authHeader == Some(BEARER_PREFIX + t) ==>
      r == if Accepts(tokenProvider.secretKey, tokenProvider.allowedTokensConfig, Some(t))
           then ResponseEntity(OK, TokenValidationResponse(true, TOKEN_VALID_MESSAGE))
           else ResponseEntity(UNAUTHORIZED, TokenValidationResponse(false, TOKEN_INVALID_MESSAGE))
  {
    AcceptsHeaderExtracts(tokenProvider.secretKey, tokenProvider.allowedTokensConfig, authHeader);
    BearerHeaderFacts(authHeader);
    if authHeader.None? || IsBlank(authHeader.value) then
      ResponseEntity(BAD_REQUEST, TokenValidationResponse(false, MISSING_HEADER_MESSAGE))
    else
      var token := ExtractToken(authHeader);
      if token.None? then
        ResponseEntity(BAD_REQUEST, TokenValidationResponse(false, BAD_FORMAT_MESSAGE))
      else if Accepts(tokenProvider.secretKey, tokenProvider.allowedTokensConfig, token) then
        ResponseEntity(OK, TokenValidationResponse(true, TOKEN_VALID_MESSAGE))
      else
        ResponseEntity(UNAUTHORIZED, TokenValidationResponse(false, TOKEN_INVALID_MESSAGE))
  }

  /** `/auth/check` reports `valid` exactly when `/auth/validate` answers 200. */
  lemma CheckAgreesWithValidate(tokenProvider: TokenProvider, authHeader: Option<string>)
    ensures CheckAuth(tokenProvider, authHeader).body.valid <==> ValidateToken(tokenProvider, authHeader).status == OK
  {
  }

  /**
   * The header `"Bearer "` carries the empty token: extraction succeeds, so the
   * answer is 401 and not 400.
   */
  lemma EmptyBearerTokenUnauthorized(tokenProvider: TokenProvider, authHeader: Option<string>)
    requires authHeader == Some(BEARER_PREFIX)
    ensures ValidateToken(tokenProvider, authHeader).status == UNAUTHORIZED
  {
    assert BEARER_PREFIX + "" == BEARER_PREFIX;
    BlankTokenRejected(tokenProvider.secretKey, tokenProvider.allowedTokensConfig, Some(""));
  }

  /** `"Basic xyz"` is a malformed header: 400. */
  lemma OtherSchemeBadRequest(tokenProvider: TokenProvider, authHeader: Option<string>)
    requires authHeader == Some("Basic xyz")
    ensures ValidateToken(tokenProvider, authHeader) ==
      ResponseEntity(BAD_REQUEST, TokenValidationResponse(false, BAD_FORMAT_MESSAGE))
  {
    var h := authHeader.value;
    assert !IsWhitespace(h[0]);
    assert h[1] != BEARER_PREFIX[1];
  }

  /** With the secret `"X"`, the header `"Bearer X"` validates and `"Bearer wrong"` does not. */
  lemma SecretHeaderExamples(tokenProvider: TokenProvider, good: Option<string>, wrong: Option<string>)
    requires tokenProvider.secretKey == "X" && tokenProvider.allowedTokensConfig == ""
    requires good == Some(BEARER_PREFIX + "X") && wrong == Some(BEARER_PREFIX + "wrong")
    ensures ValidateToken(tokenProvider, good) == ResponseEntity(OK, TokenValidationResponse(true, TOKEN_VALID_MESSAGE))
    ensures ValidateToken(tokenProvider, wrong) ==
      ResponseEntity(UNAUTHORIZED, TokenValidationResponse(false, TOKEN_INVALID_MESSAGE))
  {
    SecretExample(tokenProvider.secretKey, "X");
    SecretExample(tokenProvider.secretKey, "wrong");
    assert "wrong" != "X" by { assert |"wrong"| != |"X"|; }
  }
}
