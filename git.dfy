/**
 * The supervisor's Git token provider (components/supervisor/pkg/supervisor/git.go):
 * it asks the Gitpod server for a token for a Git host and hands it out only
 * when the token grants every scope the request needs; otherwise it tells
 * the user, through an ERROR notification, which permissions are missing.
 *
 * The server call is abstracted: its answer is an input, and the calls the
 * provider makes (the token query and the notifications) are returned, in
 * order, as a log.
 */
module SupervisorGit {
  import opened Wrappers
  import opened Text

  /** The part of the workspace configuration the provider reads. */
  datatype WorkspaceConfig = WorkspaceConfig(gitpodHost: string)

  /** A request for a token for `host` that needs the scopes `scope`. */
  datatype GetTokenRequest = GetTokenRequest(host: string, scope: seq<string>)

  /** The token record the Gitpod server returns. */
  datatype ServerToken = ServerToken(value: string, username: string, scopes: seq<string>)

  datatype ApiError = ApiError(message: string)

  /** The answer of the server's GetToken call. */
  datatype ApiAnswer = TokenFound(token: ServerToken) | CallFailed(error: ApiError)

  /** The provider's connection to the Gitpod server: none (nil), or one that answers as given. */
  datatype GitpodApi = NoApi | Api(answer: ApiAnswer)

  datatype GitTokenProvider = GitTokenProvider(workspaceConfig: WorkspaceConfig, gitpodApi: GitpodApi)

  datatype NotifyLevel = NotifyError

  datatype NotifyRequest = NotifyRequest(level: NotifyLevel, message: string)

  /** The calls the provider makes to its collaborators. */
  datatype Call = QueryToken(host: string) | Notify(request: NotifyRequest)

  /** Tokens handed out by this provider are never to be reused. */
  datatype TokenReuse = ReuseNever

  datatype Token = Token(user: string, token: string, host: string, scope: set<string>, reuse: TokenReuse)

  // ---------------------------------------------------------------------
  // Missing scopes
  // ---------------------------------------------------------------------

  /** The required scopes that `provided` lacks, in the order they are required. */
  function MissingScopes(required: seq<string>, provided: set<string>): (missing: seq<string>)
  {
    if required == [] then []
    else
      var last := required[|required| - 1];
      MissingScopes(required[..|required| - 1], provided) + (if last in provided then [] else [last])
  }

  /** Walks the required scopes and collects those not provided. */
  method GetMissingScopes(required: seq<string>, provided: set<string>) returns (missing: seq<string>)
    ensures missing == MissingScopes(required, provided)
  {
    missing := [];
    for i := 0 to |required|
      invariant missing == MissingScopes(required[..i], provided)
    {
      assert required[..i + 1][..i] == required[..i];
      if required[i] !in provided {
        missing := missing + [required[i]];
      }
    }
    assert required[..|required|] == required;
  }

  /** A scope is missing exactly when it is required and not provided. */
  lemma {:induction false} MissingScopesMembers(required: seq<string>, provided: set<string>, s: string)
    ensures s in MissingScopes(required, provided) <==> s in required && s !in provided
  {
    if required != [] {
      var init := required[..|required| - 1];
      MissingScopesMembers(init, provided, s);
      assert required == init + [required[|required| - 1]];
    }
  }

  /** Each missing scope appears as often as it is required; provided scopes not at all. */
  lemma {:induction false} MissingScopesCount(required: seq<string>, provided: set<string>, s: string)
    ensures multiset(MissingScopes(required, provided))[s]
         == if s in provided then 0 else multiset(required)[s]
  {
    if required != [] {
      var init := required[..|required| - 1];
      MissingScopesCount(init, provided, s);
      assert required == init + [required[|required| - 1]];
    }
  }

  /** `sub` is `full` with some elements left out, the rest kept in order. */
  predicate IsSubsequence(sub: seq<string>, full: seq<string>)
  {
    sub == [] ||
    (full != [] &&
     ((sub[|sub| - 1] == full[|full| - 1] && IsSubsequence(sub[..|sub| - 1], full[..|full| - 1]))
      || IsSubsequence(sub, full[..|full| - 1])))
  }

  /** The missing scopes keep the order of the required ones. */
  lemma {:induction false} MissingScopesSubsequence(required: seq<string>, provided: set<string>)
    ensures IsSubsequence(MissingScopes(required, provided), required)
  {
    if required != [] {
      var init := required[..|required| - 1];
      var m := MissingScopes(required, provided);
      MissingScopesSubsequence(init, provided);
      if required[|required| - 1] !in provided {
        assert m[..|m| - 1] == MissingScopes(init, provided);
      } else {
        assert m == MissingScopes(init, provided);
      }
    }
  }

  /** Nothing is missing exactly when every required scope is provided, as for no requirements at all. */
  lemma MissingScopesEmptyIff(required: seq<string>, provided: set<string>)
    ensures MissingScopes(required, provided) == [] <==> forall s :: s in required ==> s in provided
    ensures required == [] ==> MissingScopes(required, provided) == []
  {
  }

  // ---------------------------------------------------------------------
  // GetToken
  // ---------------------------------------------------------------------

  /** Collects the scopes a server token grants into a set. */
  method ScopeSet(scopes: seq<string>) returns (granted: set<string>)
    ensures forall s :: s in granted <==> s in scopes
  {
    granted := {};
    for i := 0 to |scopes|
      invariant forall s :: s in granted <==> s in scopes[..i]
    {
      assert scopes[..i + 1] == scopes[..i] + [scopes[i]];
      granted := granted + {scopes[i]};
    }
    assert scopes[..|scopes|] == scopes;
  }

  /** The ERROR notification that names the missing scopes and links the access-control page. */
  function MissingScopesMessage(missing: seq<string>, gitpodHost: string): (message: string)
    ensures "An operation requires additional permissions: " <= message
    ensures EndsWith(message, "(" + gitpodHost + "/access-control).")
  {
    "An operation requires additional permissions: " + Join(missing, ", ")
      + ". Please grant these on the [access control page](" + gitpodHost + "/access-control" + ")."
  }

  /** The notification names every missing scope. */
  lemma MissingScopesMessageNamesScopes(missing: seq<string>, gitpodHost: string, k: nat)
    requires k < |missing|
    ensures Includes(MissingScopesMessage(missing, gitpodHost), missing[k])
  {
    var prefix := "An operation requires additional permissions: ";
    var rest := ". Please grant these on the [access control page](" + gitpodHost + "/access-control" + ").";
    assert MissingScopesMessage(missing, gitpodHost) == prefix + Join(missing, ", ") + rest;
    JoinIncludesParts(missing, ", ", k);
    IncludesWithin(prefix, Join(missing, ", "), rest, missing[k]);
  }

  /** The notification links the access-control page of the Gitpod host. */
  lemma MissingScopesMessageLinksPage(missing: seq<string>, gitpodHost: string)
    ensures Includes(MissingScopesMessage(missing, gitpodHost), gitpodHost + "/access-control")
  {
    var before := "An operation requires additional permissions: " + Join(missing, ", ")
      + ". Please grant these on the [access control page](";
    var page := gitpodHost + "/access-control";
    assert MissingScopesMessage(missing, gitpodHost) == before + page + ").";
    IncludesInfix(before, page, ").");
  }

  /** The server token the provider would hand out: one with a value that grants every required scope. */
  predicate Grants(t: ServerToken, required: seq<string>)
  {
    t.value != "" && forall s :: s in required ==> s in t.scopes
  }

  /**
   * Resolves a token for `req.host`. With no server connection there is no
   * token and no error; a server error is passed on; an empty token value
   * means no token; a token that lacks required scopes yields one ERROR
   * notification and no token; otherwise the token is handed out for the
   * requested host with the scopes it grants, never to be reused.
   */
  method GetToken(p: GitTokenProvider, req: GetTokenRequest)
    returns (tkn: Option<Token>, err: Option<ApiError>, calls: seq<Call>)
    ensures p.gitpodApi.NoApi? ==> tkn == None && err == None && calls == []
    ensures p.gitpodApi.Api? ==> |calls| >= 1 && calls[0] == QueryToken(req.host)
    ensures tkn.Some? ==> err.None?
    ensures err.Some? <==> p.gitpodApi.Api? && p.gitpodApi.answer.CallFailed?
    ensures err.Some? ==> err.value == p.gitpodApi.answer.error && calls == [QueryToken(req.host)]
    ensures tkn.Some? <==>
              p.gitpodApi.Api? && p.gitpodApi.answer.TokenFound? && Grants(p.gitpodApi.answer.token, req.scope)
    ensures tkn.Some? ==>
              var t := p.gitpodApi.answer.token;
              tkn.value == Token(t.username, t.value, req.host, (set s | s in t.scopes), ReuseNever)
              && calls == [QueryToken(req.host)]
    ensures p.gitpodApi.Api? && p.gitpodApi.answer.TokenFound? && p.gitpodApi.answer.token.value == ""
            ==> tkn == None && err == None && calls == [QueryToken(req.host)]
    ensures p.gitpodApi.Api? && p.gitpodApi.answer.TokenFound? && p.gitpodApi.answer.token.value != ""
            && !Grants(p.gitpodApi.answer.token, req.scope)
            ==> var t := p.gitpodApi.answer.token;
                calls == [QueryToken(req.host),
                          Notify(NotifyRequest(NotifyError, MissingScopesMessage(
                            MissingScopes(req.scope, (set s | s in t.scopes)),
                            p.workspaceConfig.gitpodHost)))]
  {
    if p.gitpodApi.NoApi? {
      return None, None, [];
    }
    calls := [QueryToken(req.host)];
    match p.gitpodApi.answer
    case CallFailed(e) =>
      return None, Some(e), calls;
    case TokenFound(token) =>
      if token.value == "" {
        return None, None, calls;
      }
      var scopes := ScopeSet(token.scopes);
      assert scopes == set s | s in token.scopes;
      var missing := GetMissingScopes(req.scope, scopes);
      MissingScopesEmptyIff(req.scope, scopes);
      if |missing| > 0 {
        var message := MissingScopesMessage(missing, p.workspaceConfig.gitpodHost);
        calls := calls + [Notify(NotifyRequest(NotifyError, message))];
        return None, None, calls;
      }
      tkn := Some(Token(token.username, token.value, req.host, scopes, ReuseNever));
      err := None;
  }
}
