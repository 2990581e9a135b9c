/**
 * The per-request authentication filter: it marks a request as authenticated
 * when it carries a valid bearer token, never rejects it, and always hands it
 * on down the filter chain.
 */
module AuthFilter {
  import opened Wrappers
  import opened JavaStrings
  import opened Tokens
  import AuthEndpoints

  /** `UsernamePasswordAuthenticationToken`: principal, credentials and granted authorities. */
  datatype Authentication =
    UsernamePasswordAuthenticationToken(principal: string, credentials: Option<string>, authorities: seq<string>)

  /** The fixed pseudo-identity given to every API token: no credentials, no roles. */
  const API_CLIENT_AUTHENTICATION: Authentication :=
    UsernamePasswordAuthenticationToken("api-client", None, [])

  /** The request's security context; `None` is an unauthenticated request. */
  class SecurityContext {
    var authentication: Option<Authentication>

    constructor ()
      ensures authentication == None
    {
      authentication := None;
    }

    method SetAuthentication(auth: Authentication)
      modifies this
      ensures authentication == Some(auth)
    {
      authentication := Some(auth);
    }
  }

  /**
   * The rest of the filter chain, observed through how often it is invoked
   * and the authentication each invocation finds in the security context.
   */
  class FilterChain {
    var invocations: nat
    var authenticationSeen: seq<Option<Authentication>>

    constructor ()
      ensures invocations == 0 && authenticationSeen == []
    {
      invocations := 0;
      authenticationSeen := [];
    }

    method DoFilter(context: SecurityContext)
      modifies this
      ensures invocations == old(invocations) + 1
      ensures authenticationSeen == old(authenticationSeen) + [context.authentication]
    {
      invocations := invocations + 1;
      authenticationSeen := authenticationSeen + [context.authentication];
    }
  }

  class TokenAuthenticationFilter {
    const tokenProvider: TokenProvider

    constructor (tokenProvider: TokenProvider)
      ensures this.tokenProvider == tokenProvider
    {
      this.tokenProvider := tokenProvider;
    }

    /**
     * `doFilterInternal`: only a `"Bearer "` header whose token validates
     * attaches the api-client authentication; any other request leaves the
     * context as it was. The chain is invoked exactly once on every path, and
     * only after the context is marked, so it sees the final authentication. On
     * a fresh context the request ends up authenticated exactly when
     * `/auth/check` would call its header valid.
     */
    method DoFilterInternal(authHeader: Option<string>, context: SecurityContext, chain: FilterChain)
      modifies context, chain
      ensures chain.invocations == old(chain.invocations) + 1
      ensures chain.authenticationSeen == old(chain.authenticationSeen) + [context.authentication]
      ensures context.authentication ==
        if AcceptsHeader(tokenProvider.secretKey, tokenProvider.allowedTokensConfig, authHeader)
        then Some(API_CLIENT_AUTHENTICATION)
        else old(context.authentication)
      ensures old(context.authentication).None? ==>
        (context.authentication.Some? <==> AuthEndpoints.CheckAuth(tokenProvider, authHeader).body.valid)
    {
      AcceptsHeaderExtracts(tokenProvider.secretKey, tokenProvider.allowedTokensConfig, authHeader);
      if authHeader.Some? && StartsWith(authHeader.value, BEARER_PREFIX) {
        var token := ExtractToken(authHeader);
        // Under the prefix test extraction cannot fail, so `doFilterInternal`'s null check never fires.
        assert token.Some?;
        var valid := false;
        if token.Some? {
          valid := tokenProvider.ValidateToken(token);
        }
        if token.Some? && valid {
          context.SetAuthentication(API_CLIENT_AUTHENTICATION);
        }
      }
      chain.DoFilter(context);
    }
  }
}
