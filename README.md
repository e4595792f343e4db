# JwtAuthenticationFilter, modelled in Dafny

This project models the request filter `JwtAuthenticationFilter` of a Spring
application. The filter authenticates each request from its `Authorization`
header and never blocks it:

- **Bearer-token extraction** (`resolveToken`). The header value may be
  missing. When it starts with the exact, case-sensitive prefix `"Bearer "`
  (one space), the filter takes the rest as the access token. Otherwise there
  is no token.
- **The filter decision** (`doFilterInternal`). The filter hands the token to
  the JWT validator. Only when the validator accepts it, the filter hands it
  to the token parser. When the parser returns a principal (not `null`), the
  filter wraps it in a `UserAuthentication` and writes it into the security
  context. On every path it then forwards the request down the filter chain,
  exactly once.

Everything is in one module, `JwtAuthentication`, in
`jwt_authentication_filter.dfy`:

- `ResolveToken` is a pure function over `Option<string>`. `None` stands for a
  missing header, and the prefix test is Dafny's sequence-prefix test
  `BEARER <= header`.
- `Authenticate` is the pure specification of what one request installs in
  the context. `Trace` is the pure specification of the calls one request
  makes, in order: `ValidateToken`, `ParseToken`, `SetAuthentication` and
  `DoFilter`.
- `JwtAuthenticationFilter` is a class. Its validator and parser are constant
  function-typed fields. Its mutable state is the context's authentication
  slot, a counter of forwards down the chain, and the log of collaborator
  calls. `DoFilterInternal` updates that state step by step and is proved
  against `Authenticate` and `Trace`. Its invariant `Valid()` keeps the
  forward counter equal to the forwards in the log.

## Model

| member | source | states |
|---|---|---|
| JwtAuthentication.ResolveToken | app/src/main/java/com/codesoom/assignment/security/JwtAuthenticationFilter.java:57-64 | a token is returned iff the header is present and starts with exactly "Bearer "; the returned token completes the round trip "Bearer " + token == header |
| JwtAuthentication.ResolveTokenOfBearer | app/src/main/java/com/codesoom/assignment/security/JwtAuthenticationFilter.java:60-61 | the converse round trip: the header "Bearer " + t resolves to exactly t |
| JwtAuthentication.ResolveTokenRejectsOtherSchemes | app/src/main/java/com/codesoom/assignment/security/JwtAuthenticationFilter.java:24 | a missing header, "", "Basic abc", "Bearer" without the space and lower-case "bearer x" all yield no token |
| JwtAuthentication.ResolveTokenOfBarePrefix | app/src/main/java/com/codesoom/assignment/security/JwtAuthenticationFilter.java:61 | the header "Bearer " yields a present, empty token |
| JwtAuthentication.Authenticate | app/src/main/java/com/codesoom/assignment/security/JwtAuthenticationFilter.java:42-52 | when something is installed, the header is "Bearer " + t, the validator accepts t and the parser maps t to exactly the installed principal; when nothing is installed, every token that the header carries and the validator accepts parses to null |
| JwtAuthentication.AuthenticateInstallsIff | app/src/main/java/com/codesoom/assignment/security/JwtAuthenticationFilter.java:42-52 | an authentication is installed iff the header is "Bearer " + t, the validator accepts t, and the parser maps t to a non-null principal; what is installed wraps exactly that principal |
| JwtAuthentication.RejectedTokenInstallsNothing | app/src/main/java/com/codesoom/assignment/security/JwtAuthenticationFilter.java:44-47 | a token the validator rejects installs nothing, whatever the parser would return |
| JwtAuthentication.ForwardsAppend | app/src/main/java/com/codesoom/assignment/security/JwtAuthenticationFilter.java:54 | the forwards in two logs placed one after the other add up; this keeps the forward counter equal to the log's forwards |
| JwtAuthentication.ForwardsNone | app/src/main/java/com/codesoom/assignment/security/JwtAuthenticationFilter.java:42-52 | a log with no forward down the chain counts zero forwards; the authentication steps before the forward never forward |
| JwtAuthentication.Trace | app/src/main/java/com/codesoom/assignment/security/JwtAuthenticationFilter.java:42-54 | one request's calls end with the single forward down the chain; the validator is called first, on t, iff t was extracted; the parser is called on t iff t was extracted and the validator accepted it, right after that validation; the context is written at most once, right after a parse that returned the principal written, and with a iff Authenticate installs a |
| JwtAuthentication.OtherSchemeOnlyForwards | app/src/main/java/com/codesoom/assignment/security/JwtAuthenticationFilter.java:42-54 | a "Basic abc123" header makes no collaborator call and installs nothing; the request is only forwarded |
| JwtAuthentication.BarePrefixIsValidated | app/src/main/java/com/codesoom/assignment/security/JwtAuthenticationFilter.java:44 | with the header "Bearer " the empty token is still handed to the validator; when the validator rejects it, the request is then only forwarded |
| JwtAuthentication.JwtAuthenticationFilter.constructor | app/src/main/java/com/codesoom/assignment/security/JwtAuthenticationFilter.java:29-36 | the filter keeps the given validator and parser; the context starts unauthenticated, with no forwards and no calls |
| JwtAuthentication.JwtAuthenticationFilter.DoFilterInternal | app/src/main/java/com/codesoom/assignment/security/JwtAuthenticationFilter.java:38-55 | the slot becomes what Authenticate installs, and is left unchanged when nothing is installed; the counter grows by exactly one; the log grows by exactly Trace of the request's Authorization header; the forward counter stays equal to the log's forwards |

## Left out

- JWT signature and expiry checking (`JwtUtil.validateToken`) and claim decoding (`AuthenticationService.parseToken`): their code is not part of this model. They are total functions given to the filter, and the parser's `null` is `None`. The expiry-boundary convention therefore belongs to the validator, not to this model.
- Exceptions thrown by the validator or the parser: the filter has no handler around them, so what happens then depends on code that is not part of this model. The model does not claim that such failures are absorbed.
- Spring plumbing: the `BasicAuthenticationFilter` superclass, the `AuthenticationManager` passed to it, the servlet request and response objects, and `IOException`/`ServletException` from the chain.
- The thread-local `SecurityContextHolder`, isolation between concurrent requests, and the per-request freshness of the security context: the context is one field of the filter object, so the slot persists across `DoFilterInternal` calls. A request that installs nothing leaves whatever an earlier request on the same filter installed; the model does not capture that each request starts from an unauthenticated context.
- Header-name lookup: the servlet container matches `Authorization` case-insensitively. The model receives the request as a header-lookup function and looks up `AUTHORIZATION_HEADER` through it.
- `UserAuthentication` internals: that class is not part of this model, so it is a plain wrapper around the principal.
