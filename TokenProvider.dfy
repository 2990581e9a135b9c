/**
 * Validation of API tokens: a token is accepted when it equals the configured
 * secret key or one of the entries of the comma-separated allow-list, and a
 * bearer token is taken out of an `Authorization` header.
 */
module Tokens {
  import opened Wrappers
  import opened JavaStrings

  /** The literal prefix of a bearer `Authorization` header, space included. */
  const BEARER_PREFIX: string := "Bearer "

  /** The allow-list separator. */
  const SEPARATOR: char := ','

  /**
   * The tokens admitted by the allow-list configuration: nothing when the
   * configuration is blank; otherwise every entry of the comma split, stripped
   * of surrounding white space.
   */
  function AllowedTokens(allowedTokensConfig: string): set<string>
  {
    if IsBlank(allowedTokensConfig) then {} else StrippedEntries(Split(allowedTokensConfig, SEPARATOR))
  }

  /**
   * Every non-empty piece between the commas of a non-blank configuration,
   * once stripped, is an allowed token.
   */
  lemma AllowedTokensCoverPieces(allowedTokensConfig: string, k: nat)
    requires !IsBlank(allowedTokensConfig)
    requires k < |SplitOn(allowedTokensConfig, SEPARATOR)| && SplitOn(allowedTokensConfig, SEPARATOR)[k] != []
    ensures Strip(SplitOn(allowedTokensConfig, SEPARATOR)[k]) in AllowedTokens(allowedTokensConfig)
  {
    var entries := Split(allowedTokensConfig, SEPARATOR);
    if SEPARATOR in allowedTokensConfig {
      assert k < |entries| && entries[k] == SplitOn(allowedTokensConfig, SEPARATOR)[k];
    } else {
      NoSeparatorSplitsToItself(allowedTokensConfig, SEPARATOR);
    }
  }

  /** An allowed token never holds a comma and neither starts nor ends with white space. */
  lemma AllowedTokenShape(allowedTokensConfig: string, t: string)
    requires t in AllowedTokens(allowedTokensConfig)
    ensures SEPARATOR !in t
    ensures |t| > 0 ==> !IsWhitespace(t[0]) && !IsWhitespace(t[|t| - 1])
  {
    var entries := Split(allowedTokensConfig, SEPARATOR);
    assert t in StrippedEntries(entries);
    var k :| 0 <= k < |entries| && Strip(entries[k]) == t;
    StripKeepsOut(entries[k], SEPARATOR);
  }

  /** The entries of a split allow-list, each stripped of surrounding white space. */
  function StrippedEntries(entries: seq<string>): set<string>
  {
    set k | 0 <= k < |entries| :: Strip(entries[k])
  }

  /**
   * Reference definition of a valid token against a set of allowed tokens:
   * present, not blank, and equal (without stripping) either to a non-blank
   * secret key or to an allowed token.
   */
  predicate AcceptsAmong(secretKey: string, allowed: set<string>, token: Option<string>)
  {
    && token.Some?
    && !IsBlank(token.value)
    && ((!IsBlank(secretKey) && token.value == secretKey) || token.value in allowed)
  }

  /** A valid token for the configured secret key and allow-list. */
  predicate Accepts(secretKey: string, allowedTokensConfig: string, token: Option<string>)
  {
    AcceptsAmong(secretKey, AllowedTokens(allowedTokensConfig), token)
  }

  /**
   * `extractToken`: the rest of the header after an exact, case-sensitive
   * `"Bearer "`; `None` for a missing header or any other header.
   */
  function ExtractToken(authHeader: Option<string>): (token: Option<string>)
    ensures token.Some? <==> authHeader.Some? && StartsWith(authHeader.value, BEARER_PREFIX)
    ensures token.Some? ==> authHeader.value == BEARER_PREFIX + token.value
  {
    if authHeader.Some? && StartsWith(authHeader.value, BEARER_PREFIX) then
      Some(authHeader.value[|BEARER_PREFIX|..])
    else
      None
  }

  /**
   * A header authenticates when it is `"Bearer "` followed by an accepted token.
   */
  ghost predicate AcceptsHeader(secretKey: string, allowedTokensConfig: string, authHeader: Option<string>)
  {
    exists t :: authHeader == Some(BEARER_PREFIX + t) && Accepts(secretKey, allowedTokensConfig, Some(t))
  }

  /** `AcceptsHeader` is extraction followed by validation. */
  lemma AcceptsHeaderExtracts(secretKey: string, allowedTokensConfig: string, authHeader: Option<string>)
    ensures AcceptsHeader(secretKey, allowedTokensConfig, authHeader) <==>
      ExtractToken(authHeader).Some? && Accepts(secretKey, allowedTokensConfig, ExtractToken(authHeader))
  {
    var token := ExtractToken(authHeader);
    if token.Some? && Accepts(secretKey, allowedTokensConfig, token) {
      assert authHeader == Some(BEARER_PREFIX + token.value);
    }
    if AcceptsHeader(secretKey, allowedTokensConfig, authHeader) {
      var t :| authHeader == Some(BEARER_PREFIX + t) && Accepts(secretKey, allowedTokensConfig, Some(t));
      ExtractRoundTrip(t);
    }
  }

  /**
   * A header that starts with `"Bearer "` is never blank, and `"Bearer " + t`
   * extracts to `t`.
   */
  lemma BearerHeaderFacts(authHeader: Option<string>)
    ensures authHeader.Some? && StartsWith(authHeader.value, BEARER_PREFIX) ==> !IsBlank(authHeader.value)
    ensures forall t :: authHeader == Some(BEARER_PREFIX + t) ==> ExtractToken(authHeader) == Some(t)
  {
    if authHeader.Some? && StartsWith(authHeader.value, BEARER_PREFIX) {
      assert authHeader.value[0] == 'B';
    }
    forall t | authHeader == Some(BEARER_PREFIX + t) ensures ExtractToken(authHeader) == Some(t) {
      ExtractRoundTrip(t);
    }
  }

  /**
   * The token service. Its two configuration strings are injected once and
   * never written afterwards, so every validation with the same token agrees.
   */
  class TokenProvider {
    const secretKey: string
    const allowedTokensConfig: string

    constructor (secretKey: string, allowedTokensConfig: string)
      ensures this.secretKey == secretKey && this.allowedTokensConfig == allowedTokensConfig
    {
      this.secretKey := secretKey;
      this.allowedTokensConfig := allowedTokensConfig;
    }

    /**
     * `validateToken`: rejects a missing or blank token, then compares with the
     * secret key, then searches the split allow-list entry by entry.
     */
    method ValidateToken(token: Option<string>) returns (valid: bool)
      ensures valid == Accepts(secretKey, allowedTokensConfig, token)
    {
      if token.None? || IsBlank(token.value) {
        return false;
      }
      var t := token.value;
      if !IsBlank(secretKey) && t == secretKey {
        return true;
      }
      if !IsBlank(allowedTokensConfig) {
        var allowedTokens := Split(allowedTokensConfig, SEPARATOR);
        var i := 0;
        while i < |allowedTokens|
          invariant 0 <= i <= |allowedTokens|
          invariant forall j :: 0 <= j < i ==> Strip(allowedTokens[j]) != t
        {
          var allowed := Strip(allowedTokens[i]);
          if t == allowed {
            AllowedTokensMembership(allowedTokensConfig, t);
            return true;
          }
          assert forall j :: 0 <= j < i + 1 ==> Strip(allowedTokens[j]) != t;
          i := i + 1;
        }
      }
      AllowedTokensMembership(allowedTokensConfig, t);
      return false;
    }
  }

  /**
   * The allow-list definition unfolded: `t` is allowed exactly when some entry
   * of the split, once stripped, equals `t`. This links the set
   * `AllowedTokens` to the entry-by-entry loop of `ValidateToken`.
   */
  lemma AllowedTokensMembership(allowedTokensConfig: string, t: string)
    ensures t in AllowedTokens(allowedTokensConfig) <==>
      && !IsBlank(allowedTokensConfig)
      && exists k :: 0 <= k < |Split(allowedTokensConfig, SEPARATOR)|
                     && Strip(Split(allowedTokensConfig, SEPARATOR)[k]) == t
  {
  }

  /** A missing or blank token is never accepted, whatever the configuration. */
  lemma BlankTokenRejected(secretKey: string, allowedTokensConfig: string, token: Option<string>)
    requires token.None? || IsBlank(token.value)
    ensures !Accepts(secretKey, allowedTokensConfig, token)
  {
  }

  /** A non-blank secret key accepts itself; a blank one never matches a token. */
  lemma SecretKeyMatch(secretKey: string, allowedTokensConfig: string, t: string)
    ensures !IsBlank(secretKey) ==> Accepts(secretKey, allowedTokensConfig, Some(secretKey))
    ensures IsBlank(secretKey) ==>
      (Accepts(secretKey, allowedTokensConfig, Some(t)) <==>
       !IsBlank(t) && t in AllowedTokens(allowedTokensConfig))
  {
  }

  /** A blank allow-list configuration admits nothing: only the secret key validates. */
  lemma BlankAllowListNeverMatches(secretKey: string, allowedTokensConfig: string, t: string)
    requires IsBlank(allowedTokensConfig)
    ensures Accepts(secretKey, allowedTokensConfig, Some(t)) <==> !IsBlank(t) && t == secretKey
  {
  }

  /**
   * Every non-blank entry of the raw comma split, stripped, is accepted as a
   * token; Java dropping the trailing empty pieces does not lose any of them.
   */
  lemma EveryEntryAccepted(secretKey: string, allowedTokensConfig: string, k: nat)
    requires k < |SplitOn(allowedTokensConfig, SEPARATOR)|
    requires !IsBlank(Strip(SplitOn(allowedTokensConfig, SEPARATOR)[k]))
    ensures Accepts(secretKey, allowedTokensConfig, Some(Strip(SplitOn(allowedTokensConfig, SEPARATOR)[k])))
  {
    var raw := SplitOn(allowedTokensConfig, SEPARATOR);
    var entry := raw[k];
    assert !IsBlank(entry);
    JoinSplitOn(allowedTokensConfig, SEPARATOR);
    NonBlankPieceJoinsNonBlank(raw, SEPARATOR, k);
    AllowedTokensCoverPieces(allowedTokensConfig, k);
  }

  /**
   * Tokens are compared unstripped: a token that starts or ends with white
   * space (such as `" B"`) is never an allowed token, so only an identical
   * secret key can accept it.
   */
  lemma UnstrippedTokenNotAllowed(allowedTokensConfig: string, t: string)
    requires |t| > 0 && (IsWhitespace(t[0]) || IsWhitespace(t[|t| - 1]))
    ensures t !in AllowedTokens(allowedTokensConfig)
  {
    AllowedTokensMembership(allowedTokensConfig, t);
  }

  /** Extracting from `"Bearer " + t` gives back `t`, for every `t`, the empty one included. */
  lemma ExtractRoundTrip(t: string)
    ensures ExtractToken(Some(BEARER_PREFIX + t)) == Some(t)
  {
    assert StartsWith(BEARER_PREFIX + t, BEARER_PREFIX);
  }

  /** Headers that are missing, use another scheme or case, or lack the space extract to `None`. */
  lemma ExtractRejectsExamples()
    ensures ExtractToken(None) == None
    ensures ExtractToken(Some("bearer x")) == None
    ensures ExtractToken(Some("Basic x")) == None
    ensures ExtractToken(Some("Bearer")) == None
  {
    assert !StartsWith("bearer x", BEARER_PREFIX) by { assert "bearer x"[0] != BEARER_PREFIX[0]; }
    assert !StartsWith("Basic x", BEARER_PREFIX) by { assert "Basic x"[1] != BEARER_PREFIX[1]; }
  }

  /** With secret `"X"` and no allow-list, `"X"` is the only valid token. */
  lemma SecretExample(secretKey: string, t: string)
    requires secretKey == "X"
    ensures Accepts(secretKey, "", Some(t)) <==> t == "X"
  {
    assert !IsBlank("X") by { assert !IsWhitespace("X"[0]); }
  }

  /** The allow-list `"A, B,C"` admits exactly `A`, `B` and `C`, the space before `B` stripped. */
  lemma AllowedTokensExample(config: string)
    requires config == "A, B,C"
    ensures AllowedTokens(config) == {"A", "B", "C"}
  {
    ThreeEntryConfigExample(config);
    StripUnpaddedExample('A');
    StripPaddedExample(' ', 'B');
    StripUnpaddedExample('C');
    AllowedTokensOfThree(config, "A", " B", "C", "A", "B", "C");
  }

  /** With the allow-list `"A, B,C"` the tokens `A`, `B` and `C` are valid and `D` is not. */
  lemma AllowListExample(config: string, t: string)
    requires config == "A, B,C"
    ensures Accepts("", config, Some(t)) <==> t == "A" || t == "B" || t == "C"
  {
    AllowedTokensExample(config);
    NotBlankAt("A", 0);
    NotBlankAt("B", 0);
    NotBlankAt("C", 0);
    AcceptsAmongThree(t, "A", "B", "C");
  }

  /** The empty entry of `"a,,b"` admits no token, since blank tokens never validate. */
  lemma EmptyEntriesAdmitNothing(secretKey: string, config: string, t: string)
    requires config == "a,,b"
    ensures Accepts(secretKey, config, Some(t)) <==>
      (t == "a" || t == "b" || (!IsBlank(t) && !IsBlank(secretKey) && t == secretKey))
  {
    AllowedTokensEmptyEntryExample(config);
    NotBlankAt("a", 0);
    NotBlankAt("b", 0);
    AcceptsAmongBlankEntry(secretKey, t, "a", "", "b");
  }

  // Support for the example lemmas above: each evaluates one step of a fixed
  // example configuration ("A, B,C" or "a,,b") on its own, so that no single
  // proof has to unfold splitting and stripping of a literal at once. They
  // state nothing about `validateToken` beyond what the examples already do.

  /** Three entries contribute exactly their three stripped forms. */
  lemma StrippedEntriesOfThree(entries: seq<string>)
    requires |entries| == 3
    ensures StrippedEntries(entries) == {Strip(entries[0]), Strip(entries[1]), Strip(entries[2])}
  {
    var three := {Strip(entries[0]), Strip(entries[1]), Strip(entries[2])};
    forall t | t in StrippedEntries(entries) ensures t in three {
      var k :| 0 <= k < |entries| && Strip(entries[k]) == t;
      assert k == 0 || k == 1 || k == 2;
    }
  }

  /** A non-blank allow-list that splits into `[e0, e1, e2]` admits the three stripped entries. */
  lemma AllowedTokensOfThree(allowedTokensConfig: string, e0: string, e1: string, e2: string,
                             s0: string, s1: string, s2: string)
    requires !IsBlank(allowedTokensConfig)
    requires Split(allowedTokensConfig, SEPARATOR) == [e0, e1, e2]
    requires Strip(e0) == s0 && Strip(e1) == s1 && Strip(e2) == s2
    ensures AllowedTokens(allowedTokensConfig) == {s0, s1, s2}
  {
    StrippedEntriesOfThree([e0, e1, e2]);
  }

  /** Stripping the example entries. */
  lemma StripUnpaddedExample(c: char)
    requires !IsWhitespace(c)
    ensures Strip([c]) == [c]
  {
    StripFixesStripped([c]);
  }

  /** A white-space character in front of another character is stripped off. */
  lemma StripPaddedExample(c: char, d: char)
    requires IsWhitespace(c) && !IsWhitespace(d)
    ensures Strip([c, d]) == [d]
  {
    var s := [c, d];
    StripSkipsLeadingWhitespace(s);
    assert s[1..] == [d];
    StripFixesStripped(s[1..]);
  }

  /** A string with a character other than white space is not blank. */
  lemma NotBlankAt(s: string, i: nat)
    requires i < |s| && !IsWhitespace(s[i])
    ensures !IsBlank(s)
  {
  }

  /** `"A, B,C"` is not blank and splits into `A`, ` B` and `C`. */
  lemma ThreeEntryConfigExample(config: string)
    requires config == "A, B,C"
    ensures !IsBlank(config) && Split(config, SEPARATOR) == ["A", " B", "C"]
  {
    assert config == "A" + [SEPARATOR] + " B" + [SEPARATOR] + "C";
    SplitThree("A", " B", "C", SEPARATOR);
    NotBlankAt(config, 0);
  }

  /** With no secret key, three non-blank allowed tokens validate exactly those. */
  lemma AcceptsAmongThree(t: string, a: string, b: string, c: string)
    requires !IsBlank(a) && !IsBlank(b) && !IsBlank(c)
    ensures AcceptsAmong("", {a, b, c}, Some(t)) <==> t == a || t == b || t == c
  {
    assert IsBlank("");
  }

  /** The allow-list `"a,,b"` admits `a` and `b`, and the blank entry between them. */
  lemma AllowedTokensEmptyEntryExample(config: string)
    requires config == "a,,b"
    ensures AllowedTokens(config) == {"a", "", "b"}
  {
    EmptyEntryConfigExample(config);
    StripUnpaddedExample('a');
    StripUnpaddedExample('b');
    AllowedTokensOfThree(config, "a", "", "b", "a", "", "b");
  }

  /**
   * `"a,,b"` is not blank, and its split keeps the empty entry between the two
   * commas: only trailing empty pieces are dropped.
   */
  lemma EmptyEntryConfigExample(config: string)
    requires config == "a,,b"
    ensures !IsBlank(config)
    ensures Split(config, SEPARATOR) == SplitOn(config, SEPARATOR) == ["a", "", "b"]
  {
    assert config == "a" + [SEPARATOR] + "" + [SEPARATOR] + "b";
    SplitOnThree("a", "", "b", SEPARATOR);
    SplitThree("a", "", "b", SEPARATOR);
    NotBlankAt(config, 0);
  }

  /**
   * Two non-blank allowed tokens and a blank one validate the two tokens and
   * the secret key: the blank entry matches no valid token.
   */
  lemma AcceptsAmongBlankEntry(secretKey: string, t: string, a: string, e: string, b: string)
    requires !IsBlank(a) && IsBlank(e) && !IsBlank(b)
    ensures AcceptsAmong(secretKey, {a, e, b}, Some(t)) <==>
      (t == a || t == b || (!IsBlank(t) && !IsBlank(secretKey) && t == secretKey))
  {
  }
}
