# Bearer-token gate of springboot-demo, in Dafny

This project models the request-authentication core of the `springboot-demo`
service: the token service that extracts a bearer token from an
`Authorization` header and validates it against a configured secret key and a
comma-separated allow-list, the two `/api/auth` endpoints that report on a
header, the per-request filter that marks a request as authenticated, the
builder of the `/api/server-status` snapshot, and the global exception
handlers that turn exceptions into `ApiError` bodies.

Files, one per source component:

- `Wrappers.dfy` – `Option`, standing for a Java reference that may be `null`.
- `JavaStrings.dfy` – `isBlank`, `strip`, `startsWith` and `split(",")` on `seq<char>`, with Java's white-space set and Java's dropping of trailing empty pieces.
- `Http.dfy`, `JavaTime.dfy` – status codes, `ResponseEntity`, and `Instant` as a caller-supplied clock reading.
- `TokenProvider.dfy` (module `Tokens`) – the specification predicate `Accepts` (validity against the set of allowed tokens, `AcceptsAmong`, taken for the configured allow-list), the pure `ExtractToken`, and the class `TokenProvider` whose `ValidateToken` is `validateToken`'s loop with early returns, proved equal to `Accepts`.
- `AuthController.dfy` (module `AuthEndpoints`) – `checkAuth` and `validateToken` as decision tables from the optional header to a status and a `TokenValidationResponse`.
- `TokenAuthenticationFilter.dfy` (module `AuthFilter`) – the security context and filter chain as classes, and `doFilterInternal` as a method that changes them.
- `ServerStatusResponse.dfy` (module `ServerStatus`) – `ServerStatusResponse.of` with both clock reads as parameters and Java `long` subtraction written out with its 64-bit wrap-around.
- `GlobalExceptionHandler.dfy` (module `ErrorHandling`) – the three handlers and the keep-first field-error collector as a fold over a sequence into a `map`.

The endpoint functions are pure, so they use the predicate `Tokens.Accepts`
where `AuthController` calls `validateToken`. The method
`Tokens.TokenProvider.ValidateToken` is proved to return exactly `Accepts`, so
the two are interchangeable.

Validation tests `isBlank`, not emptiness: a token or a secret key made only
of white space counts as missing, just like the empty one. The model follows
the code in this.

## Model

| member | source | states |
|---|---|---|
| `Tokens.TokenProvider.ValidateToken` | springboot-demo/src/main/java/com/example/demo/security/TokenProvider.java:30-55 | the loop over the split allow-list returns true exactly when the token is present, not blank, and equals a non-blank secret key or some stripped allow-list entry (`Accepts`) |
| `Tokens.BlankTokenRejected` | springboot-demo/src/main/java/com/example/demo/security/TokenProvider.java:31-34 | a null or blank token is rejected whatever the secret key and allow-list |
| `Tokens.SecretKeyMatch` | springboot-demo/src/main/java/com/example/demo/security/TokenProvider.java:37-40 | a non-blank secret key validates itself; with a blank secret key only the allow-list can accept a token |
| `Tokens.SecretExample` | springboot-demo/src/main/java/com/example/demo/security/TokenProvider.java:37-40 | with secret `"X"` and no allow-list, `"X"` is the only valid token |
| `Tokens.AllowedTokensCoverPieces` | springboot-demo/src/main/java/com/example/demo/security/TokenProvider.java:43-46 | for a non-blank configuration, every non-empty piece between commas, once stripped, is an allowed token |
| `Tokens.AllowedTokenShape` | springboot-demo/src/main/java/com/example/demo/security/TokenProvider.java:44-46 | an allowed token never contains a comma and neither starts nor ends with white space |
| `Tokens.AllowedTokensMembership` | springboot-demo/src/main/java/com/example/demo/security/TokenProvider.java:43-51 | the allow-list definition unfolded (a token is allowed exactly when the configuration is not blank and some entry of its comma split strips to it); it is the bridge between the set `AllowedTokens` and the entry-by-entry loop invariant of `ValidateToken` |
| `Tokens.EveryEntryAccepted` | springboot-demo/src/main/java/com/example/demo/security/TokenProvider.java:43-51 | every non-blank entry of the raw comma split, stripped, validates, even though Java drops trailing empty pieces |
| `Tokens.AllowListExample` | springboot-demo/src/main/java/com/example/demo/security/TokenProvider.java:43-51 | with the allow-list `"A, B,C"` exactly `A`, `B` and `C` validate (so `D` does not) |
| `Tokens.AllowedTokensExample` | springboot-demo/src/main/java/com/example/demo/security/TokenProvider.java:44-46 | `"A, B,C"` admits exactly `{"A", "B", "C"}`, the space before `B` stripped |
| `Tokens.UnstrippedTokenNotAllowed` | springboot-demo/src/main/java/com/example/demo/security/TokenProvider.java:46 | the token itself is not stripped: a token starting or ending with white space (such as `" B"`) is never an allowed entry |
| `Tokens.EmptyEntriesAdmitNothing` | springboot-demo/src/main/java/com/example/demo/security/TokenProvider.java:43-54 | with `"a,,b"` only `a`, `b` or the secret key validate; the empty entry matches no token |
| `Tokens.BlankAllowListNeverMatches` | springboot-demo/src/main/java/com/example/demo/security/TokenProvider.java:43-54 | with a blank allow-list a token validates exactly when it is non-blank and equals the secret key; otherwise the result is false |
| `Tokens.ExtractToken` | springboot-demo/src/main/java/com/example/demo/security/TokenProvider.java:64-69 | extraction succeeds exactly when the header is present and starts with `"Bearer "`, and then the header is `"Bearer "` followed by the result |
| `Tokens.ExtractRoundTrip` | springboot-demo/src/main/java/com/example/demo/security/TokenProvider.java:65-66 | `"Bearer " + t` extracts to `t` for every `t`, the empty one included |
| `Tokens.ExtractRejectsExamples` | springboot-demo/src/main/java/com/example/demo/security/TokenProvider.java:64-69 | a null header, `"bearer x"`, `"Basic x"` and `"Bearer"` all extract to null |
| `Tokens.AcceptsHeaderExtracts` | springboot-demo/src/main/java/com/example/demo/security/TokenProvider.java:64-69 | a header authenticates exactly when extraction succeeds and the extracted token validates |
| `JavaStrings.WhitespaceExamples` | springboot-demo/src/main/java/com/example/demo/security/TokenProvider.java:31 | the white space that `isBlank` skips: blank, tab, newline, U+001F, the Unicode space and line separators such as U+2003, U+2028 and U+3000; not the no-break spaces U+00A0, U+2007 and U+202F, nor U+0085 or U+200B; so `" \t\n"` is blank and `" " + U+00A0` is not |
| `JavaStrings.StartsWith` | springboot-demo/src/main/java/com/example/demo/security/TokenProvider.java:65 | `startsWith` holds exactly when the string is the prefix followed by some rest, the form `substring(7)` then takes apart |
| `JavaStrings.Strip` | springboot-demo/src/main/java/com/example/demo/security/TokenProvider.java:46 | `strip` returns the infix of the string left after cutting off characters at both ends, every cut-off character being white space; the result neither starts nor ends with white space, and it is empty exactly for a blank string |
| `JavaStrings.StripFixesStripped` | springboot-demo/src/main/java/com/example/demo/security/TokenProvider.java:46 | `strip` leaves a string unchanged exactly when it is empty or neither starts nor ends with white space |
| `JavaStrings.StripKeepsOut` | springboot-demo/src/main/java/com/example/demo/security/TokenProvider.java:46 | stripping adds no character: a character the string lacks, such as the comma of a split piece, is missing from the result too |
| `JavaStrings.Split` | springboot-demo/src/main/java/com/example/demo/security/TokenProvider.java:44 | `split(",")` of a string without a comma is that string alone; otherwise it is the pieces between commas with only the trailing empty pieces removed, so the last piece kept is non-empty; no piece contains a comma |
| `JavaStrings.SplitThree` | springboot-demo/src/main/java/com/example/demo/security/TokenProvider.java:44 | three comma-free pieces joined by two commas, the last one non-empty, split back into exactly those three pieces, empty first or middle pieces kept |
| `JavaStrings.SplitPieces` | springboot-demo/src/main/java/com/example/demo/security/TokenProvider.java:44 | `split(",")` keeps every non-empty piece between commas and adds none |
| `JavaStrings.JoinSplitOn` | springboot-demo/src/main/java/com/example/demo/security/TokenProvider.java:44 | the pieces between commas joined with commas give back the configuration string |
| `AuthEndpoints.CheckAuth` | springboot-demo/src/main/java/com/example/demo/controller/AuthController.java:55-80 | always 200; `valid` exactly when the header is `"Bearer "` plus a valid token; "No authentication token provided" for a null or blank header, otherwise the valid or invalid message |
| `AuthEndpoints.ValidateToken` | springboot-demo/src/main/java/com/example/demo/controller/AuthController.java:99-131 | 400 "missing" for a null or blank header, 400 "format" without the `"Bearer "` prefix, then 200/true or 401/false as the token validates; `valid` exactly when the status is 200 |
| `AuthEndpoints.CheckAgreesWithValidate` | springboot-demo/src/main/java/com/example/demo/controller/AuthController.java:55-131 | `checkAuth` reports valid exactly when `validateToken` answers 200 |
| `AuthEndpoints.EmptyBearerTokenUnauthorized` | springboot-demo/src/main/java/com/example/demo/controller/AuthController.java:108-130 | the header `"Bearer "` is answered 401, not 400, since the empty token extracts and then fails validation |
| `AuthEndpoints.OtherSchemeBadRequest` | springboot-demo/src/main/java/com/example/demo/controller/AuthController.java:108-115 | `"Basic xyz"` is answered 400 with the format message |
| `AuthEndpoints.SecretHeaderExamples` | springboot-demo/src/main/java/com/example/demo/controller/AuthController.java:118-130 | with secret `"X"`, `"Bearer X"` gets 200/true and `"Bearer wrong"` gets 401/false |
| `AuthFilter.TokenAuthenticationFilter.DoFilterInternal` | springboot-demo/src/main/java/com/example/demo/security/TokenAuthenticationFilter.java:36-63 | the chain is invoked exactly once; the api-client authentication is set exactly when the header is `"Bearer "` plus a valid token, otherwise the context is unchanged; the chain runs after that update and sees the resulting authentication; on a fresh context the request ends up authenticated exactly when `checkAuth` would call its header valid |
| `AuthFilter.SecurityContext.SetAuthentication` | springboot-demo/src/main/java/com/example/demo/security/TokenAuthenticationFilter.java:54 | the context then holds the given authentication |
| `AuthFilter.FilterChain.DoFilter` | springboot-demo/src/main/java/com/example/demo/security/TokenAuthenticationFilter.java:62 | one more invocation of the rest of the chain, which records the authentication the context holds when it runs |
| `ServerStatus.Of` | springboot-demo/src/main/java/com/example/demo/dto/ServerStatusResponse.java:23-43 | status is `"UP"`; version, processors, total and free memory are copied; used memory and uptime are the two `long` differences, exact whenever they fit |
| `ServerStatus.LongSub` | springboot-demo/src/main/java/com/example/demo/dto/ServerStatusResponse.java:29-30 | Java `long` subtraction agrees with the exact difference modulo 2^64 and equals it when it fits |
| `ServerStatus.UsedMemoryIsTotalMinusFree` | springboot-demo/src/main/java/com/example/demo/dto/ServerStatusResponse.java:29 | with `0 <= free <= total`, used memory is exactly total minus free and lies between 0 and the total |
| `ServerStatus.UptimeNonNegative` | springboot-demo/src/main/java/com/example/demo/dto/ServerStatusResponse.java:30 | for a start time not before the epoch and a later clock reading, uptime is the exact, non-negative elapsed time |
| `ServerStatus.UptimeMonotonic` | springboot-demo/src/main/java/com/example/demo/dto/ServerStatusResponse.java:30 | a later clock reading gives a larger uptime, strictly larger for a strictly later reading |
| `ServerStatus.UptimeWrapsOnOverflow` | springboot-demo/src/main/java/com/example/demo/dto/ServerStatusResponse.java:30 | without bounds the subtraction wraps: start time `Long.MIN_VALUE` read at 0 gives a negative uptime |
| `ErrorHandling.CollectInto` | springboot-demo/src/main/java/com/example/demo/exception/GlobalExceptionHandler.java:39-46 | collecting into a map adds exactly the fields of the errors to its keys, keeps the value of every key already present, and gives each new field the message of the first error about it |
| `ErrorHandling.CollectFieldErrors` | springboot-demo/src/main/java/com/example/demo/exception/GlobalExceptionHandler.java:39-46 | the field-error map has exactly the fields of the errors as keys, and each field maps to the message of the first error about it, as the merge function keeps the existing value |
| `ErrorHandling.CollectIntoAppend` | springboot-demo/src/main/java/com/example/demo/exception/GlobalExceptionHandler.java:45 | collecting `errors + [e]` is collecting `errors` and then merging `e`, which adds its field only when it is not yet a key |
| `ErrorHandling.LaterDuplicateIgnored` | springboot-demo/src/main/java/com/example/demo/exception/GlobalExceptionHandler.java:45 | a later error about a field already in the map changes nothing |
| `ErrorHandling.FieldErrorExample` | springboot-demo/src/main/java/com/example/demo/exception/GlobalExceptionHandler.java:39-46 | `[a: null, a: "x", b: "y"]` collects into `{a: "Invalid value", b: "y"}` |
| `ErrorHandling.HandleValidationException` | springboot-demo/src/main/java/com/example/demo/exception/GlobalExceptionHandler.java:34-59 | 400, "Validation failed", the request description as path, the body's status equal to the response's, and the first-message field map |
| `ErrorHandling.HandleRuntimeException` | springboot-demo/src/main/java/com/example/demo/exception/GlobalExceptionHandler.java:68-84 | 500 with "An unexpected error occurred", an empty errors map and the body's status equal to the response's |
| `ErrorHandling.RuntimeFaultHidesDetail` | springboot-demo/src/main/java/com/example/demo/exception/GlobalExceptionHandler.java:75-83 | the 500 body is the same whatever the exception's message, so that message never reaches the caller |
| `ErrorHandling.HandleIllegalArgumentException` | springboot-demo/src/main/java/com/example/demo/exception/GlobalExceptionHandler.java:93-109 | 400 carrying the exception's message (possibly null), an empty errors map and the body's status equal to the response's |

## Left out

- Logging: every `log` call is dropped; none affects a result.
- Clocks: `System.currentTimeMillis()` and `Instant.now()` are parameters of `ServerStatus.Of` and of the exception handlers.
- `SecurityContextHolder`: its thread-local context is an explicit `SecurityContext` object passed to the filter; the servlet request and response are reduced to the optional `Authorization` header, and the rest of the chain to an invocation counter.
- `WebRequest.getDescription(false)` is a string parameter; its format belongs to Spring.
- Spring's choice of handler (the most specific `@ExceptionHandler` for an `IllegalArgumentException`, which is also a `RuntimeException`) is framework behaviour; each handler is modelled on its own.
- `ServerStatusService`, `ServerStatusController`, `TestController`, `SecurityConfig` and `SwaggerConfig` are not part of this model: they read the JVM's counters, format JSON, or configure Spring's own route rules.
- `HashMap` iteration order is not modelled; the field-error map is a mathematical `map`.
- White space is the fixed list of code points for which `Character.isWhitespace` holds; supplementary-plane characters and UTF-16 surrogate pairs are not distinguished from `char` values.
- ServerStatus.UptimeNonNegative: also requires `0 <= startTime`, because with an unbounded start time the `long` subtraction can wrap to a negative uptime (`ServerStatus.UptimeWrapsOnOverflow`).
- ServerStatus.UptimeMonotonic: also requires `0 <= startTime`, for the same reason.
