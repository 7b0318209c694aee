# Gitpod: provider authorization handshake and Git token provider

This Dafny project models two small pieces of Gitpod and proves properties
of the models.

- **Dashboard provider helpers** (`components/dashboard/src/provider-utils.tsx`,
  module `ProviderUtils`):
  - the lookup tables `iconForAuthProvider` and `simplifyProviderName`;
  - the query string of the `/authorize` request;
  - the `openAuthorizeWindow` handshake. It opens the authorize window, fails
    at once if no window opened, and installs a `message` listener for the
    exact payload `"auth-success"`. It then polls the window for at most 100
    ticks. Each tick sees the window closed, its location unreadable
    (cross-origin), or an address. The address is checked for `login-success`
    before `error`. When the ticks run out, the window is closed and
    `"timeout"` is reported.

  The browser is an input. `windowOpened` says whether `window.open` returned a
  window. `ticks` holds one `Observation` per poll tick. Everything the
  handshake does to the browser or to the caller's callbacks is returned, in
  order, as a list of `Effect`s. The method `OpenAuthorizeWindow` keeps the
  source's counted loop with its early returns. It is proved equal to the
  specification function `Handshake`, and the lemmas state the properties of
  `Handshake` and of the polling function `Poll`.
- **Supervisor Git token provider** (`components/supervisor/pkg/supervisor/git.go`,
  module `SupervisorGit`):
  - `getMissingScopes`, an order-preserving filter written as a loop;
  - the loop that turns the token's scope list into a set;
  - `GitTokenProvider.GetToken`. It has four early exits: no API, an API
    error, an empty token, and missing scopes. The last one sends one ERROR
    notification.

  The Gitpod server's answer is an input (`GitpodApi`). The calls the provider
  makes, the token query and the notifications, are returned as a log (`Call`).

The shared module `Text` defines these string operations:
- substring search: JavaScript's `includes`;
- joining: `Array.prototype.join` and Go's `strings.Join`;
- splitting at a character, the inverse of joining, used to state what the
  query and the scope list carry.

The code has no guard against a second outcome: the polling never removes the
message listener (`HandshakeKeepsListener`), and nothing stops both from
reporting. So the listener (`OnMessage`, `Listen`) and the polling
(`OpenAuthorizeWindow`) are modelled as separate procedures, each proved to
report at most once, provided the callbacks return. The code does not check
that `host` is non-empty, and neither does the model.

## Model

| member | source | states |
|---|---|---|
| `ProviderUtils.IconForAuthProvider` | components/dashboard/src/provider-utils.tsx:11-22 | an icon is returned exactly for the provider types GitHub, GitLab and Bitbucket, and nothing for any other string |
| `ProviderUtils.IconsDistinct` | components/dashboard/src/provider-utils.tsx:11-22 | two provider types that get the same icon are the same type |
| `ProviderUtils.SimplifyProviderName` | components/dashboard/src/provider-utils.tsx:24-35 | the name differs from the host exactly for github.com, gitlab.com and bitbucket.org, and each of those becomes a provider type that has an icon |
| `ProviderUtils.KnownHostIcons` | components/dashboard/src/provider-utils.tsx:11-35 | github.com, gitlab.com and bitbucket.org get the GitHub, GitLab and Bitbucket icons through their display names |
| `ProviderUtils.SimplifyIdempotent` | components/dashboard/src/provider-utils.tsx:24-35 | simplifying a display name again leaves it unchanged |
| `ProviderUtils.AuthorizeSearch` | components/dashboard/src/provider-utils.tsx:38-42 | the query starts with the encoded return address and the host, and ends with `&override=true&scopes=` and the comma-joined scopes (absent scopes as the empty list); what it carries is stated by `AuthorizeSearchFields`, `AuthorizeScopesRoundTrip` and `AuthorizeNoScopes` |
| `ProviderUtils.AuthorizeSearchFields` | components/dashboard/src/provider-utils.tsx:38-42 | when no field contains '&', the query splits into exactly four fields in this order: `returnTo=<encoded return address>`, `host=<host>`, `override=true`, `scopes=<scopes joined by ",">` |
| `ProviderUtils.AuthorizeScopesRoundTrip` | components/dashboard/src/provider-utils.tsx:38-42 | the scopes can be read back from the query: its fourth '&'-field is `scopes=` followed by a value that splits at ',' into exactly the requested scope list, in order and with duplicates (for non-empty scopes without ',' or '&', and an '&'-free return address and host) |
| `ProviderUtils.AuthorizeNoScopes` | components/dashboard/src/provider-utils.tsx:41 | absent scopes give the same query as the empty list, ending in `&scopes=` |
| `ProviderUtils.AuthorizeScopesExample` | components/dashboard/src/provider-utils.tsx:41 | the scopes `["repo", "user:email"]` end the query as `&scopes=repo,user:email` |
| `Text.Join` | components/dashboard/src/provider-utils.tsx:41 | the empty list joins to "", and a non-empty join starts with its first part; `SplitJoin` proves that splitting undoes it and `JoinIncludesParts` that every part occurs in it |
| `Text.SplitJoin` | components/dashboard/src/provider-utils.tsx:41 | splitting at a one-character separator undoes joining with it, for a non-empty list of parts without that character |
| `Text.Includes` | components/dashboard/src/provider-utils.tsx:80-88 | `includes` holds exactly when the marker occurs at some position of the address |
| `ProviderUtils.ReasonText` | components/dashboard/src/provider-utils.tsx:44-95 | `onError` only ever receives "failed", "closed", "unknown" or "timeout" |
| `ProviderUtils.ReasonTextInjective` | components/dashboard/src/provider-utils.tsx:44-95 | different error reasons reach `onError` as different strings |
| `ProviderUtils.Deliver` | components/dashboard/src/provider-utils.tsx:72-95 | reporting an outcome calls at most one callback; it calls one exactly when the matching callback was supplied, and on an error it calls `onError` with the reason's text |
| `ProviderUtils.Poll` | components/dashboard/src/provider-utils.tsx:72-95 | the polling never reports "failed" |
| `ProviderUtils.PollFirstDecisive` | components/dashboard/src/provider-utils.tsx:72-92 | the polling's outcome is the verdict of the first tick that is closed or whose address has a marker, whatever the later ticks are |
| `ProviderUtils.PollTimeoutIff` | components/dashboard/src/provider-utils.tsx:72-95 | the polling times out if and only if no tick is closed or has a marked address |
| `ProviderUtils.PollIgnoresInconclusive` | components/dashboard/src/provider-utils.tsx:79-87 | unreadable ticks and unmarked addresses are interchangeable: tick lists that agree on their decisive ticks poll to the same outcome |
| `ProviderUtils.UnmarkedHrefIsUnreadable` | components/dashboard/src/provider-utils.tsx:79-92 | a readable address with neither marker has the same effect as an unreadable location, so the loop just goes on to the next tick |
| `ProviderUtils.PollTickVerdicts` | components/dashboard/src/provider-utils.tsx:75-92 | a closed window gives "closed"; an address containing `login-success` is a success even when it also contains `error`; an address with only `error` gives "unknown" |
| `ProviderUtils.OpenAuthorizeWindow` | components/dashboard/src/provider-utils.tsx:37-96 | the method's loop of up to 100 ticks, with its early returns, produces exactly the effects of the specification `Handshake` |
| `ProviderUtils.HandshakeNotOpened` | components/dashboard/src/provider-utils.tsx:44-49 | if no window opened, the only effects are the open attempt and `onError("failed")` when supplied; no listener is added and nothing is closed |
| `ProviderUtils.HandshakeReportsOnce` | components/dashboard/src/provider-utils.tsx:44-95 | the callback calls of a handshake are exactly the delivery of its one outcome, so there is at most one |
| `ProviderUtils.HandshakeClosesWindowIff` | components/dashboard/src/provider-utils.tsx:72-95 | the handshake calls `close()` on the window if and only if the window opened and the polling ended with "unknown" or "timeout"; "closed" and success leave the window alone |
| `ProviderUtils.HandshakeTimeout` | components/dashboard/src/provider-utils.tsx:93-95 | when every tick is inconclusive, the window is closed and then "timeout" is reported |
| `ProviderUtils.HandshakeKeepsListener` | components/dashboard/src/provider-utils.tsx:51-95 | no exit of the polling removes the message listener |
| `ProviderUtils.OnMessage` | components/dashboard/src/provider-utils.tsx:51-66 | a message has an effect exactly when its payload is "auth-success"; then the listener removes itself first, the sender is closed exactly when it can be, and `onSuccess` is called last exactly when supplied, each of them once and nothing else; no error is ever reported |
| `ProviderUtils.Listen` | components/dashboard/src/provider-utils.tsx:51-66 | over any stream of messages the listener calls `onSuccess` at most once and removes itself at most once; it removes itself exactly when some message is "auth-success", calls `onSuccess` exactly when some message is "auth-success" and `onSuccess` was supplied, and never reports an error or closes the authorize window |
| `ProviderUtils.ListenFirstSuccess` | components/dashboard/src/provider-utils.tsx:51-66 | over a stream of messages the listener does exactly what the first "auth-success" message does, since it has then removed itself, and nothing if no message is "auth-success" |
| `SupervisorGit.GetMissingScopes` | components/supervisor/pkg/supervisor/git.go:70-78 | the loop returns exactly the filter `MissingScopes` of the required scopes |
| `SupervisorGit.MissingScopesMembers` | components/supervisor/pkg/supervisor/git.go:70-78 | a scope is missing exactly when it is required and not provided |
| `SupervisorGit.MissingScopesCount` | components/supervisor/pkg/supervisor/git.go:70-78 | a missing scope appears as often as it is required, and a provided scope never appears |
| `SupervisorGit.MissingScopesSubsequence` | components/supervisor/pkg/supervisor/git.go:70-78 | the missing scopes are a subsequence of the required scopes, so their order is kept |
| `SupervisorGit.MissingScopesEmptyIff` | components/supervisor/pkg/supervisor/git.go:70-78 | nothing is missing exactly when every required scope is provided, in particular when nothing is required |
| `SupervisorGit.ScopeSet` | components/supervisor/pkg/supervisor/git.go:47-50 | the set built from the token's scope list holds exactly the elements of that list |
| `SupervisorGit.MissingScopesMessage` | components/supervisor/pkg/supervisor/git.go:53 | the notification text starts "An operation requires additional permissions: " and ends with the link `(<GitpodHost>/access-control).`; `MissingScopesMessageNamesScopes` and `MissingScopesMessageLinksPage` state what it names |
| `SupervisorGit.MissingScopesMessageNamesScopes` | components/supervisor/pkg/supervisor/git.go:53 | the notification text contains every missing scope |
| `SupervisorGit.MissingScopesMessageLinksPage` | components/supervisor/pkg/supervisor/git.go:53 | the notification text contains the Gitpod host followed by `/access-control` |
| `SupervisorGit.GetToken` | components/supervisor/pkg/supervisor/git.go:34-68 | covers every exit. With no API: no token, no error and no call. With an API: the first call queries the request's host. An API error comes back unchanged, with no token and no further call. An empty token value gives nothing. If scopes are missing, exactly one ERROR notification listing them is sent and no token is returned. Otherwise the token is returned exactly when it grants every required scope, with the API's user and value, the REQUEST's host, the set of the token's scopes and reuse "never", and nothing is sent |

## Left out

- The addresses themselves are not modelled: `gitpodHostUrl.with` builds the return address and `gitpodHostUrl.withApi` turns the query into the `/authorize` URL. The return address is an input. `encodeURIComponent` is an uninterpreted function parameter. The opened window's effect carries the query string only.
- The one-second `setTimeout` between ticks, the `console.log` lines, and the asynchronous scheduling are not modelled. Each tick is one observation.
- The race between the message listener and the polling is not modelled, and neither is `event.origin`, which the source does not check. The listener and the polling are separate procedures.
- `OpenAuthorizeWindow`: callbacks are taken to return normally. The `try` block at provider-utils.tsx:79-87 also wraps the `onSuccess()` call at :81, so a synchronous throw from `onSuccess` is caught by the `catch` at :84-86 and the source goes on polling; it may then call `onSuccess` again, report "closed", or close the window and report "timeout". The model stops after the first call. A throw from `onError` changes nothing, since every `onError` call is outside the `try` and is the last step on its path.
- The second read of the window's address, outside the `try` block (provider-utils.tsx:88), is taken to see the same address as the first. A throw escaping from that read is not modelled.
- A message payload is modelled as a string. A non-string payload can never equal `"auth-success"`, so it acts like any other ignored message.
- Icons are abstract values standing for the image imports.
- The Go `context`, the result of `NotificationService.Notify`, and a nil notification service are not modelled. An API answer with neither a token nor an error would make the Go code dereference nil. It is not modelled: the answer is either a token or an error.
- `getMissingScopes` returns a nil slice when nothing is missing. It is modelled as the empty sequence, which is the same for `len`.
- Only the `REUSE_NEVER` value of the token reuse enumeration is modelled, since it is the only one the provider sets.
- `NewGitTokenProvider` only copies its arguments into the struct. That is the `GitTokenProvider` datatype constructor.
- Generated protobuf stubs, the git-token-validator CLI and the Plans page are not part of this model. They are glue that delegates to libraries, or static UI.
