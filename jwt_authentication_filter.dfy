/**
 * A model of JwtAuthenticationFilter: the per-request filter that reads the
 * `Authorization` header, strips the `Bearer ` scheme prefix, asks a token
 * validator and a token parser about the rest, installs the resulting
 * principal in the security context, and always hands the request on to
 * the next filter of the chain.
 *
 * The token validator (JwtUtil.validateToken) and the token parser
 * (AuthenticationService.parseToken) are collaborators whose code is not
 * part of this model: they are total functions given to the filter when it
 * is built, and a parser result of `None` stands for Java's `null`.
 */
module JwtAuthentication {

  datatype Option<+T> = None | Some(value: T)

  /** Name of the header the filter reads. */
  const AUTHORIZATION_HEADER: string := "Authorization"

  /** The scheme prefix, matched case-sensitively and with exactly one space. */
  const BEARER: string := "Bearer "

  /** The wrapper the filter puts into the security context around a parsed principal. */
  datatype UserAuthentication<P> = UserAuthentication(principal: P)

  /** One interaction of the filter with a collaborator, in the order it happens. */
  datatype Call<P> =
    | ValidateToken(token: string)
    | ParseToken(token: string)
    | SetAuthentication(authentication: UserAuthentication<P>)
    | DoFilter

  // ---------------------------------------------------------------------------
  // Bearer-token extraction (resolveToken)
  // ---------------------------------------------------------------------------

  /**
   * The value of the `Authorization` header (None when the header is missing)
   * yields a token exactly when it starts with "Bearer "; the token is what
   * follows the prefix.
   */
  function ResolveToken(authorization: Option<string>): (token: Option<string>)
    ensures token.Some? <==> authorization.Some? && BEARER <= authorization.value
    ensures token.Some? ==> BEARER + token.value == authorization.value
  {
    match authorization
    case None => None
    case Some(header) =>
      if BEARER <= header then Some(header[|BEARER|..]) else None
  }

  /** Prefixing any token with "Bearer " gives a header that resolves to that very token. */
  lemma ResolveTokenOfBearer(token: string)
    ensures ResolveToken(Some(BEARER + token)) == Some(token)
  {
  }

  /** Headers that do not carry the exact prefix resolve to nothing. */
  lemma ResolveTokenRejectsOtherSchemes()
    ensures ResolveToken(None) == None
    ensures ResolveToken(Some("")) == None
    ensures ResolveToken(Some("Basic abc")) == None
    ensures ResolveToken(Some("Bearer")) == None
    ensures ResolveToken(Some("bearer x")) == None
  {
    assert "Basic abc"[1] != BEARER[1];
    assert "bearer x"[0] != BEARER[0];
  }

  /** The bare prefix resolves to a present, empty token. */
  lemma ResolveTokenOfBarePrefix()
    ensures ResolveToken(Some("Bearer ")) == Some("")
  {
  }

  // ---------------------------------------------------------------------------
  // The filter decision (doFilterInternal), as specification functions
  // ---------------------------------------------------------------------------

  /**
   * What the filter installs in the security context for one request: a
   * UserAuthentication around the parsed principal when a token was
   * extracted, the validator accepted it and the parser gave a non-null
   * result; otherwise nothing.
   */
  function Authenticate<P>(authorization: Option<string>,
                           validate: string -> bool,
                           parse: string -> Option<P>): (installed: Option<UserAuthentication<P>>)
    ensures installed.Some? ==>
              exists token :: authorization == Some(BEARER + token) && validate(token) &&
                              parse(token) == Some(installed.value.principal)
    ensures installed.None? ==>
              forall token :: authorization == Some(BEARER + token) && validate(token) ==> parse(token).None?
  {
    match ResolveToken(authorization)
    case None => None
    case Some(token) =>
      if !validate(token) then None
      else match parse(token)
        case None => None
        case Some(principal) => Some(UserAuthentication(principal))
  }

  /**
   * The filter installs `auth` exactly when the header is "Bearer " followed by
   * a token that the validator accepts and that the parser turns into the
   * principal that `auth` wraps.
   */
  lemma AuthenticateInstallsIff<P>(authorization: Option<string>,
                                   validate: string -> bool,
                                   parse: string -> Option<P>,
                                   auth: UserAuthentication<P>)
    ensures Authenticate(authorization, validate, parse) == Some(auth) <==>
            exists token :: authorization == Some(BEARER + token) && validate(token) &&
                            parse(token) == Some(auth.principal)
  {
  }

  /** A token the validator rejects leaves nothing to install, whatever the parser would say. */
  lemma RejectedTokenInstallsNothing<P>(token: string,
                                        validate: string -> bool,
                                        parse: string -> Option<P>)
    requires !validate(token)
    ensures Authenticate(Some(BEARER + token), validate, parse) == None
  {
  }

  /** Number of times a call log forwards the request down the chain. */
  function Forwards<P>(calls: seq<Call<P>>): nat
  {
    if calls == [] then 0
    else (if calls[0] == DoFilter then 1 else 0) + Forwards(calls[1..])
  }

  /** Forwards of two logs placed one after the other add up. */
  lemma {:induction false} ForwardsAppend<P>(a: seq<Call<P>>, b: seq<Call<P>>)
    ensures Forwards(a + b) == Forwards(a) + Forwards(b)
  {
    if a == [] {
      assert a + b == b;
    } else {
      assert (a + b)[1..] == a[1..] + b;
      ForwardsAppend(a[1..], b);
    }
  }

  /** A log without a forward counts none. */
  lemma {:induction false} ForwardsNone<P>(calls: seq<Call<P>>)
    requires DoFilter !in calls
    ensures Forwards(calls) == 0
  {
    if calls != [] {
      assert calls[0] in calls;
      ForwardsNone(calls[1..]);
    }
  }

  /**
   * The calls one request makes, in order: the validator first, on the
   * extracted token (the empty token included); the parser exactly when the
   * validator accepted, right after it; at most one context write, right
   * after a parse that gave a principal; and in every case one forward down
   * the chain at the end.
   */
  function Trace<P(!new)>(authorization: Option<string>,
                    validate: string -> bool,
                    parse: string -> Option<P>): (calls: seq<Call<P>>)
    ensures |calls| > 0 && calls[|calls| - 1] == DoFilter
    ensures Forwards(calls) == 1
    ensures forall token :: ValidateToken(token) in calls <==> ResolveToken(authorization) == Some(token)
    ensures forall i :: 0 <= i < |calls| && calls[i].ValidateToken? ==> i == 0
    ensures forall token :: ParseToken(token) in calls <==>
              ResolveToken(authorization) == Some(token) && validate(token)
    ensures forall i :: 0 <= i < |calls| && calls[i].ParseToken? ==>
              0 < i && calls[i - 1] == ValidateToken(calls[i].token) && validate(calls[i].token)
    ensures forall i :: 0 <= i < |calls| && calls[i].SetAuthentication? ==>
              0 < i && calls[i - 1].ParseToken? &&
              parse(calls[i - 1].token) == Some(calls[i].authentication.principal)
    ensures forall i, j :: 0 <= i < j < |calls| ==>
              !(calls[i].SetAuthentication? && calls[j].SetAuthentication?)
    ensures forall auth :: SetAuthentication(auth) in calls <==>
              Authenticate(authorization, validate, parse) == Some(auth)
  {
    var steps :=
      match ResolveToken(authorization)
      case None => []
      case Some(token) =>
        if !validate(token) then [ValidateToken(token)]
        else match parse(token)
          case None => [ValidateToken(token), ParseToken(token)]
          case Some(principal) =>
            [ValidateToken(token), ParseToken(token), SetAuthentication(UserAuthentication(principal))];
    ForwardsNone(steps);
    ForwardsAppend(steps, [DoFilter]);
    steps + [DoFilter]
  }

  /** A header with another scheme makes no collaborator call: the request is only forwarded. */
  lemma OtherSchemeOnlyForwards<P(!new)>(validate: string -> bool, parse: string -> Option<P>)
    ensures Trace(Some("Basic abc123"), validate, parse) == [DoFilter]
    ensures Authenticate(Some("Basic abc123"), validate, parse) == None
  {
    assert "Basic abc123"[1] != BEARER[1];
  }

  /** The bare prefix hands the empty token to the validator, and then forwards. */
  lemma BarePrefixIsValidated<P(!new)>(validate: string -> bool, parse: string -> Option<P>)
    ensures Trace(Some("Bearer "), validate, parse)[0] == ValidateToken("")
    ensures !validate("") ==> Trace(Some("Bearer "), validate, parse) == [ValidateToken(""), DoFilter]
  {
  }

  // ---------------------------------------------------------------------------
  // The filter itself
  // ---------------------------------------------------------------------------

  /**
   * The filter, with the state that one request's processing touches: the
   * authentication slot of the security context, the number of times the
   * request was forwarded down the chain, and the log of calls made to the
   * collaborators.
   */
  class JwtAuthenticationFilter<P(!new)> {
    const validateToken: string -> bool
    const parseToken: string -> Option<P>

    var authentication: Option<UserAuthentication<P>>
    var forwarded: nat
    var calls: seq<Call<P>>

    /** The forward counter agrees with the forwards recorded in the call log. */
    ghost predicate Valid()
      reads this
    {
      forwarded == Forwards(calls)
    }

    constructor (validateToken: string -> bool, parseToken: string -> Option<P>)
      ensures Valid()
      ensures this.validateToken == validateToken && this.parseToken == parseToken
      ensures authentication == None && forwarded == 0 && calls == []
    {
      this.validateToken := validateToken;
      this.parseToken := parseToken;
      authentication := None;
      forwarded := 0;
      calls := [];
    }

    /**
     * Handles one request, given by its header lookup: extract, validate,
     * parse, install, and forward exactly once.
     */
    method DoFilterInternal(getHeader: string -> Option<string>)
      requires Valid()
      modifies this
      ensures Valid()
      ensures authentication ==
                var installed := Authenticate(getHeader(AUTHORIZATION_HEADER), validateToken, parseToken);
                if installed.Some? then installed else old(authentication)
      ensures forwarded == old(forwarded) + 1
      ensures calls == old(calls) + Trace(getHeader(AUTHORIZATION_HEADER), validateToken, parseToken)
    {
      var accessToken := ResolveToken(getHeader(AUTHORIZATION_HEADER));
      if accessToken.Some? {
        var token := accessToken.value;
        calls := calls + [ValidateToken(token)];
        if validateToken(token) {
          calls := calls + [ParseToken(token)];
          var principal := parseToken(token);
          if principal.Some? {
            var userAuthentication := UserAuthentication(principal.value);
            calls := calls + [SetAuthentication(userAuthentication)];
            authentication := Some(userAuthentication);
          }
        }
      }
      calls := calls + [DoFilter];
      forwarded := forwarded + 1;
      ghost var requestCalls := Trace(getHeader(AUTHORIZATION_HEADER), validateToken, parseToken);
      assert calls == old(calls) + requestCalls;
      ForwardsAppend(old(calls), requestCalls);
    }
  }
}
