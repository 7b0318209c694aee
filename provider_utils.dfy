/**
 * The dashboard's helpers for Git provider authorization
 * (components/dashboard/src/provider-utils.tsx): the provider lookup tables,
 * the query of the `/authorize` request, and the handshake that opens the
 * authorize window and waits for it, both through a `message` listener and
 * by polling the window once a second for at most 100 ticks.
 *
 * The browser is abstracted: whether `window.open` returned a window is an
 * input, each poll tick sees one `Observation` of the window, and every
 * side effect the handshake has on the browser or on the caller's callbacks
 * is recorded, in order, as an `Effect`.
 */
module ProviderUtils {
  import opened Wrappers
  import opened Text

  // ---------------------------------------------------------------------
  // Provider lookup tables
  // ---------------------------------------------------------------------

  /** The icon images the dashboard ships for the known providers. */
  datatype Icon = GitHubIcon | GitLabIcon | BitbucketIcon

  /** The auth provider types that have an icon. */
  const IconProviderTypes: set<string> := {"GitHub", "GitLab", "Bitbucket"}

  /** The hosts that have a display name of their own. */
  const KnownHosts: set<string> := {"github.com", "gitlab.com", "bitbucket.org"}

  /** The icon for an auth provider type; unknown types have none. */
  function IconForAuthProvider(providerType: string): (icon: Option<Icon>)
    ensures icon.Some? <==> providerType in IconProviderTypes
  {
    match providerType
    case "GitHub" => Some(GitHubIcon)
    case "GitLab" => Some(GitLabIcon)
    case "Bitbucket" => Some(BitbucketIcon)
    case _ => None
  }

  /** The display name of a provider host; unknown hosts are shown as they are. */
  function SimplifyProviderName(host: string): (name: string)
    ensures name == host <==> host !in KnownHosts
    ensures host in KnownHosts ==> name in IconProviderTypes
  {
    match host
    case "github.com" => "GitHub"
    case "gitlab.com" => "GitLab"
    case "bitbucket.org" => "Bitbucket"
    case _ => host
  }

  /** Each known host simplifies to the provider type whose icon belongs to that provider. */
  lemma KnownHostIcons()
    ensures IconForAuthProvider(SimplifyProviderName("github.com")) == Some(GitHubIcon)
    ensures IconForAuthProvider(SimplifyProviderName("gitlab.com")) == Some(GitLabIcon)
    ensures IconForAuthProvider(SimplifyProviderName("bitbucket.org")) == Some(BitbucketIcon)
  {
  }

  /** Different provider types never share an icon. */
  lemma IconsDistinct(a: string, b: string)
    requires IconForAuthProvider(a).Some? && IconForAuthProvider(a) == IconForAuthProvider(b)
    ensures a == b
  {
  }

  /** Display names are fixed points: simplifying a simplified name changes nothing. */
  lemma SimplifyIdempotent(host: string)
    ensures SimplifyProviderName(SimplifyProviderName(host)) == SimplifyProviderName(host)
  {
  }

  // ---------------------------------------------------------------------
  // The /authorize request
  // ---------------------------------------------------------------------

  /** Path marker of the page the authorize flow returns to on success. */
  const LoginSuccessMarker := "login-success"
  /** Marker the polling looks for in the window's address when the flow failed. */
  const ErrorMarker := "error"
  /** The message the login-success page posts to its opener. */
  const AuthSuccessMessage := "auth-success"
  /** The window name under which the authorize window is opened (and reused). */
  const WindowName := "gitpod-connect"
  /** The number of poll ticks before the handshake gives up, one per second. */
  const MaxPollTicks := 100

  /** The scopes as they appear in the query: absent scopes are the empty list. */
  function ScopeList(scopes: Option<seq<string>>): (list: seq<string>)
  {
    if scopes.Some? then scopes.value else []
  }

  /**
   * The query string of the `/authorize` request: the URI-encoded return
   * address, the provider host, the override flag and the requested scopes
   * joined by commas; absent scopes count as the empty list. `encode` stands
   * for `encodeURIComponent`. The host and the scopes are not encoded.
   */
  function AuthorizeSearch(encode: string -> string, returnTo: string, host: string,
                           scopes: Option<seq<string>>): (q: string)
    ensures "returnTo=" + encode(returnTo) + "&host=" + host + "&" <= q
    ensures EndsWith(q, "&override=true&scopes=" + Join(ScopeList(scopes), ","))
  {
    "returnTo=" + encode(returnTo) + "&host=" + host + "&override=true&scopes="
      + Join(ScopeList(scopes), ",")
  }

  /**
   * When neither the encoded return address, nor the host, nor any scope
   * contains '&', the query splits at '&' into exactly its four fields.
   */
  lemma AuthorizeSearchFields(encode: string -> string, returnTo: string, host: string,
                              scopes: Option<seq<string>>)
    requires '&' !in encode(returnTo) && '&' !in host
    requires forall s :: s in ScopeList(scopes) ==> '&' !in s
    ensures Split(AuthorizeSearch(encode, returnTo, host, scopes), '&')
         == ["returnTo=" + encode(returnTo), "host=" + host, "override=true",
             "scopes=" + Join(ScopeList(scopes), ",")]
  {
    var f1 := "returnTo=" + encode(returnTo);
    var f2 := "host=" + host;
    var f4 := "scopes=" + Join(ScopeList(scopes), ",");
    var q := AuthorizeSearch(encode, returnTo, host, scopes);
    JoinExcludes(ScopeList(scopes), ",", '&');
    assert '&' !in "returnTo=" && '&' !in "host=" && '&' !in "scopes=" && '&' !in "override=true";
    assert '&' !in f1 && '&' !in f2 && '&' !in f4;
    assert q == f1 + ['&'] + f2 + ['&'] + "override=true" + ['&'] + f4;
    SplitFourFields(f1, f2, "override=true", f4, '&');
  }

  /**
   * The requested scopes can be read back from the query, in order and with
   * duplicates: its last '&'-field is `scopes=` followed by a value that
   * splits at ',' into exactly the scope list (for a non-empty list of scopes
   * without ',' or '&', and '&'-free return address and host).
   */
  lemma AuthorizeScopesRoundTrip(encode: string -> string, returnTo: string, host: string,
                                 scopes: seq<string>)
    requires '&' !in encode(returnTo) && '&' !in host
    requires |scopes| > 0
    requires forall s :: s in scopes ==> ',' !in s && '&' !in s
    ensures var fields := Split(AuthorizeSearch(encode, returnTo, host, Some(scopes)), '&');
            |fields| == 4 && |fields[3]| >= 7 && fields[3][..7] == "scopes="
            && Split(fields[3][7..], ',') == scopes
  {
    AuthorizeSearchFields(encode, returnTo, host, Some(scopes));
    var field := "scopes=" + Join(scopes, ",");
    assert field[7..] == Join(scopes, ",");
    SplitJoin(scopes, ',');
  }

  /** Absent and empty scopes both produce an empty `scopes=` field at the end of the query. */
  lemma AuthorizeNoScopes(encode: string -> string, returnTo: string, host: string)
    ensures AuthorizeSearch(encode, returnTo, host, None)
         == AuthorizeSearch(encode, returnTo, host, Some([]))
    ensures var q := AuthorizeSearch(encode, returnTo, host, None);
            |q| >= 8 && q[|q| - 8..] == "&scopes="
  {
  }

  /** The scopes `["repo", "user:email"]` end the query as `&scopes=repo,user:email`. */
  lemma AuthorizeScopesExample(encode: string -> string, returnTo: string, host: string)
    ensures var q := AuthorizeSearch(encode, returnTo, host, Some(["repo", "user:email"]));
            |q| >= 23 && q[|q| - 23..] == "&scopes=repo,user:email"
  {
  }

  // ---------------------------------------------------------------------
  // Outcomes and effects of the handshake
  // ---------------------------------------------------------------------

  /** The reasons the handshake passes to `onError`. */
  datatype ErrorReason = Failed | Closed | Unknown | Timeout

  /** The string `onError` receives for each reason. */
  function ReasonText(reason: ErrorReason): (text: string)
    ensures text in {"failed", "closed", "unknown", "timeout"}
  {
    match reason
    case Failed => "failed"
    case Closed => "closed"
    case Unknown => "unknown"
    case Timeout => "timeout"
  }

  /** Different reasons reach `onError` as different strings. */
  lemma ReasonTextInjective(a: ErrorReason, b: ErrorReason)
    requires ReasonText(a) == ReasonText(b)
    ensures a == b
  {
  }

  datatype Outcome = Success | Error(reason: ErrorReason)

  /** Which callbacks the caller supplied (both are optional). */
  datatype Callbacks = Callbacks(hasOnSuccess: bool, hasOnError: bool)

  /** What the handshake does to the browser and to the caller, in order. */
  datatype Effect =
    | OpenWindow(search: string, target: string)  // window.open of the /authorize address
    | AddListener                                  // window.addEventListener("message", ...)
    | RemoveListener                               // window.removeEventListener("message", ...)
    | CloseWindow                                  // newWindow.close()
    | CloseSender                                  // event.source.close()
    | CallOnSuccess                                // onSuccess()
    | CallOnError(error: string)                   // onError(error)

  predicate IsCallback(e: Effect) {
    e.CallOnSuccess? || e.CallOnError?
  }

  /** The callback effects of a log, in order. */
  function CallbacksOf(effects: seq<Effect>): (calls: seq<Effect>)
    ensures forall e :: e in calls ==> IsCallback(e) && e in effects
    ensures forall e :: e in effects && IsCallback(e) ==> e in calls
  {
    if effects == [] then []
    else (if IsCallback(effects[0]) then [effects[0]] else []) + CallbacksOf(effects[1..])
  }

  lemma {:induction false} CallbacksOfAppend(a: seq<Effect>, b: seq<Effect>)
    ensures CallbacksOf(a + b) == CallbacksOf(a) + CallbacksOf(b)
  {
    if a != [] {
      assert (a + b)[0] == a[0] && (a + b)[1..] == a[1..] + b;
      CallbacksOfAppend(a[1..], b);
    } else {
      assert a + b == b;
    }
  }

  /** Reporting an outcome: call the matching callback if the caller supplied it. */
  function Deliver(outcome: Outcome, cbs: Callbacks): (calls: seq<Effect>)
    ensures |calls| <= 1
    ensures |calls| == 1 <==> (if outcome.Success? then cbs.hasOnSuccess else cbs.hasOnError)
    ensures forall e :: e in calls ==> (e == CallOnSuccess <==> outcome.Success?)
    ensures outcome.Error? && cbs.hasOnError ==> calls == [CallOnError(ReasonText(outcome.reason))]
  {
    match outcome
    case Success => if cbs.hasOnSuccess then [CallOnSuccess] else []
    case Error(reason) => if cbs.hasOnError then [CallOnError(ReasonText(reason))] else []
  }

  // ---------------------------------------------------------------------
  // The polling loop, as a specification over the ticks' observations
  // ---------------------------------------------------------------------

  /**
   * What one poll tick sees of the authorize window: it is closed, reading
   * its location throws (it is on the provider's origin), or its address.
   */
  datatype Observation = WindowClosed | Unreadable | Href(href: string)

  /** A tick at which the polling stops. */
  predicate Decisive(o: Observation) {
    match o
    case WindowClosed => true
    case Unreadable => false
    case Href(h) => Includes(h, LoginSuccessMarker) || Includes(h, ErrorMarker)
  }

  /** What a decisive tick reports; `login-success` is checked before `error`. */
  function Verdict(o: Observation): (outcome: Outcome)
    requires Decisive(o)
  {
    match o
    case WindowClosed => Error(Closed)
    case Href(h) => if Includes(h, LoginSuccessMarker) then Success else Error(Unknown)
  }

  /** The outcome of polling through the given ticks; running out of ticks is a timeout. */
  function Poll(ticks: seq<Observation>): (outcome: Outcome)
    ensures outcome != Error(Failed)
  {
    if ticks == [] then Error(Timeout)
    else if Decisive(ticks[0]) then Verdict(ticks[0])
    else Poll(ticks[1..])
  }

  /** The poll outcome is the verdict of the first decisive tick. */
  lemma {:induction false} PollFirstDecisive(ticks: seq<Observation>, k: nat)
    requires k < |ticks| && Decisive(ticks[k])
    requires forall i :: 0 <= i < k ==> !Decisive(ticks[i])
    ensures Poll(ticks) == Verdict(ticks[k])
  {
    if k > 0 {
      assert !Decisive(ticks[0]);
      PollFirstDecisive(ticks[1..], k - 1);
    }
  }

  /** The polling times out exactly when no tick is decisive. */
  lemma {:induction false} PollTimeoutIff(ticks: seq<Observation>)
    ensures Poll(ticks) == Error(Timeout) <==> forall i :: 0 <= i < |ticks| ==> !Decisive(ticks[i])
  {
    if ticks != [] {
      PollTimeoutIff(ticks[1..]);
      if Decisive(ticks[0]) {
        assert Verdict(ticks[0]) != Error(Timeout);
      } else {
        assert forall i :: 1 <= i < |ticks| ==> ticks[i] == ticks[1..][i - 1];
      }
    }
  }

  /**
   * An address without either marker is no more decisive than an unreadable
   * location: the tick is simply inconclusive.
   */
  lemma UnmarkedHrefIsUnreadable(ticks: seq<Observation>, k: nat)
    requires k < |ticks| && ticks[k].Href?
    requires !Includes(ticks[k].href, LoginSuccessMarker) && !Includes(ticks[k].href, ErrorMarker)
    ensures Poll(ticks[k := Unreadable]) == Poll(ticks)
  {
    PollIgnoresInconclusive(ticks, ticks[k := Unreadable]);
  }

  /** Two tick sequences that agree on every decisive tick poll to the same outcome. */
  lemma {:induction false} PollIgnoresInconclusive(a: seq<Observation>, b: seq<Observation>)
    requires |a| == |b|
    requires forall i :: 0 <= i < |a| ==> Decisive(a[i]) == Decisive(b[i])
    requires forall i :: 0 <= i < |a| && Decisive(a[i]) ==> a[i] == b[i]
    ensures Poll(a) == Poll(b)
  {
    if a != [] {
      assert Decisive(a[0]) == Decisive(b[0]);
      if !Decisive(a[0]) {
        PollIgnoresInconclusive(a[1..], b[1..]);
      }
    }
  }

  /** A closed window reports "closed"; an address with both markers is a success. */
  lemma PollTickVerdicts(rest: seq<Observation>, h: string)
    ensures Poll([WindowClosed] + rest) == Error(Closed)
    ensures Includes(h, LoginSuccessMarker) ==> Poll([Href(h)] + rest) == Success
    ensures Includes(h, ErrorMarker) && !Includes(h, LoginSuccessMarker)
            ==> Poll([Href(h)] + rest) == Error(Unknown)
  {
  }

  /** The outcomes after which the handshake closes the authorize window itself. */
  predicate ClosesWindow(outcome: Outcome) {
    outcome == Error(Unknown) || outcome == Error(Timeout)
  }

  /** How the polling loop ends: close the window where it does, then report. */
  function PollExit(outcome: Outcome, cbs: Callbacks): (effects: seq<Effect>)
  {
    (if ClosesWindow(outcome) then [CloseWindow] else []) + Deliver(outcome, cbs)
  }

  /** The whole handshake's outcome: "failed" if no window opened, else the polling's. */
  function HandshakeOutcome(windowOpened: bool, ticks: seq<Observation>): (outcome: Outcome)
  {
    if windowOpened then Poll(ticks) else Error(Failed)
  }

  /** The effects of one handshake, as a specification. */
  function Handshake(search: string, windowOpened: bool, ticks: seq<Observation>, cbs: Callbacks): (effects: seq<Effect>)
  {
    [OpenWindow(search, WindowName)]
      + (if windowOpened then [AddListener] + PollExit(Poll(ticks), cbs)
         else Deliver(Error(Failed), cbs))
  }

  // ---------------------------------------------------------------------
  // openAuthorizeWindow
  // ---------------------------------------------------------------------

  /**
   * Opens the authorize window and polls it. `windowOpened` is whether
   * `window.open` returned a window; `ticks` holds what each of the 100
   * poll ticks observes. The message listener it installs runs separately
   * (`OnMessage`) and is not removed when the polling ends.
   */
  method OpenAuthorizeWindow(encode: string -> string, returnTo: string, host: string,
                             scopes: Option<seq<string>>, cbs: Callbacks,
                             windowOpened: bool, ticks: seq<Observation>)
    returns (effects: seq<Effect>)
    requires |ticks| == MaxPollTicks
    ensures effects == Handshake(AuthorizeSearch(encode, returnTo, host, scopes), windowOpened, ticks, cbs)
  {
    var search := AuthorizeSearch(encode, returnTo, host, scopes);
    effects := [OpenWindow(search, WindowName)];
    if !windowOpened {
      if cbs.hasOnError {
        effects := effects + [CallOnError(ReasonText(Failed))];
      }
      return;
    }
    effects := effects + [AddListener];
    ghost var start := effects;
    for i := 0 to MaxPollTicks
      invariant effects == start
      invariant Poll(ticks[i..]) == Poll(ticks)
    {
      assert ticks[i..][0] == ticks[i] && ticks[i..][1..] == ticks[i + 1..];
      match ticks[i]
      case WindowClosed =>
        if cbs.hasOnError {
          effects := effects + [CallOnError(ReasonText(Closed))];
        }
        return;
      case Unreadable =>
        continue;
      case Href(href) =>
        if Includes(href, LoginSuccessMarker) {
          if cbs.hasOnSuccess {
            effects := effects + [CallOnSuccess];
          }
          return;
        }
        if Includes(href, ErrorMarker) {
          effects := effects + [CloseWindow];
          if cbs.hasOnError {
            effects := effects + [CallOnError(ReasonText(Unknown))];
          }
          return;
        }
    }
    assert ticks[MaxPollTicks..] == [];
    effects := effects + [CloseWindow];
    if cbs.hasOnError {
      effects := effects + [CallOnError(ReasonText(Timeout))];
    }
  }

  // ---------------------------------------------------------------------
  // Properties of the handshake
  // ---------------------------------------------------------------------

  /**
   * If the window cannot be opened, the handshake reports "failed" (when
   * `onError` is supplied) and stops: no listener, no poll, no close.
   */
  lemma HandshakeNotOpened(search: string, ticks: seq<Observation>, cbs: Callbacks)
    ensures Handshake(search, false, ticks, cbs)
         == [OpenWindow(search, WindowName)]
            + (if cbs.hasOnError then [CallOnError("failed")] else [])
    ensures AddListener !in Handshake(search, false, ticks, cbs)
    ensures CloseWindow !in Handshake(search, false, ticks, cbs)
  {
  }

  /**
   * Exactly one outcome is reported: the callback effects of a handshake are
   * the delivery of its outcome, so there is one callback call when the
   * matching callback is supplied and none otherwise.
   */
  lemma HandshakeReportsOnce(search: string, windowOpened: bool, ticks: seq<Observation>, cbs: Callbacks)
    ensures CallbacksOf(Handshake(search, windowOpened, ticks, cbs)) == Deliver(HandshakeOutcome(windowOpened, ticks), cbs)
    ensures |CallbacksOf(Handshake(search, windowOpened, ticks, cbs))| <= 1
  {
    var outcome := HandshakeOutcome(windowOpened, ticks);
    var open := [OpenWindow(search, WindowName)];
    if windowOpened {
      var closing: seq<Effect> := if ClosesWindow(outcome) then [CloseWindow] else [];
      CallbacksOfAppend(open, [AddListener] + PollExit(outcome, cbs));
      CallbacksOfAppend([AddListener], PollExit(outcome, cbs));
      CallbacksOfAppend(closing, Deliver(outcome, cbs));
      CallbacksOfAppend(Deliver(outcome, cbs), []);
      assert Deliver(outcome, cbs) + [] == Deliver(outcome, cbs);
    } else {
      CallbacksOfAppend(open, Deliver(outcome, cbs));
      CallbacksOfAppend(Deliver(outcome, cbs), []);
      assert Deliver(outcome, cbs) + [] == Deliver(outcome, cbs);
    }
  }

  /**
   * The handshake closes the window itself exactly when the polling saw the
   * error marker or ran out of ticks; a window closed by the user, or one that
   * reached the login-success page, is not closed by the handshake.
   */
  lemma HandshakeClosesWindowIff(search: string, windowOpened: bool, ticks: seq<Observation>, cbs: Callbacks)
    ensures CloseWindow in Handshake(search, windowOpened, ticks, cbs)
            <==> windowOpened && (Poll(ticks) == Error(Unknown) || Poll(ticks) == Error(Timeout))
  {
  }

  /**
   * If every tick is inconclusive (unreadable or an unmarked address), the
   * handshake closes the window and then reports "timeout".
   */
  lemma HandshakeTimeout(search: string, ticks: seq<Observation>, cbs: Callbacks)
    requires forall i :: 0 <= i < |ticks| ==> !Decisive(ticks[i])
    ensures Handshake(search, true, ticks, cbs)
         == [OpenWindow(search, WindowName), AddListener, CloseWindow]
            + (if cbs.hasOnError then [CallOnError("timeout")] else [])
  {
    PollTimeoutIff(ticks);
  }

  /** The handshake itself never removes the message listener, on any exit. */
  lemma HandshakeKeepsListener(search: string, windowOpened: bool, ticks: seq<Observation>, cbs: Callbacks)
    ensures RemoveListener !in Handshake(search, windowOpened, ticks, cbs)
  {
  }

  // ---------------------------------------------------------------------
  // The message listener
  // ---------------------------------------------------------------------

  /** A `message` event: its payload and whether its source window can be closed. */
  datatype Message = Message(data: string, sourceClosable: bool)

  /**
   * The listener's response to one message: only the exact payload
   * "auth-success" counts; it then removes the listener, closes the sender
   * when it can, and calls `onSuccess` if supplied. Anything else is ignored.
   */
  function OnMessage(m: Message, cbs: Callbacks): (effects: seq<Effect>)
    ensures effects == [] <==> m.data != AuthSuccessMessage
    ensures m.data == AuthSuccessMessage ==> effects[0] == RemoveListener
    ensures CallOnSuccess in effects <==> m.data == AuthSuccessMessage && cbs.hasOnSuccess
    ensures CloseSender in effects <==> m.data == AuthSuccessMessage && m.sourceClosable
    ensures forall e :: e in effects ==> !e.CallOnError? && !e.CloseWindow? && !e.AddListener?
    ensures m.data == AuthSuccessMessage ==>
              |effects| <= 3 && multiset(effects)[RemoveListener] == 1
              && (CallOnSuccess in effects ==> effects[|effects| - 1] == CallOnSuccess)
    ensures m.data == AuthSuccessMessage ==>
              |effects| == 1 + (if m.sourceClosable then 1 else 0) + (if cbs.hasOnSuccess then 1 else 0)
              && forall e :: e in effects ==> e == RemoveListener || e == CloseSender || e == CallOnSuccess
  {
    if m.data == AuthSuccessMessage then
      [RemoveListener]
        + (if m.sourceClosable then [CloseSender] else [])
        + (if cbs.hasOnSuccess then [CallOnSuccess] else [])
    else []
  }

  /**
   * The listener over a stream of messages: once it has seen the success
   * message it has removed itself and receives nothing more.
   */
  function Listen(messages: seq<Message>, cbs: Callbacks): (effects: seq<Effect>)
    ensures multiset(effects)[CallOnSuccess] <= 1
    ensures multiset(effects)[RemoveListener] <= 1
    ensures RemoveListener in effects <==> exists i :: 0 <= i < |messages| && messages[i].data == AuthSuccessMessage
    ensures CallOnSuccess in effects <==>
              cbs.hasOnSuccess && exists i :: 0 <= i < |messages| && messages[i].data == AuthSuccessMessage
    ensures forall e :: e in effects ==> !e.CallOnError? && !e.CloseWindow?
  {
    if messages == [] then []
    else if messages[0].data == AuthSuccessMessage then OnMessage(messages[0], cbs)
    else
      var rest := Listen(messages[1..], cbs);
      assert forall i :: 1 <= i < |messages| ==> messages[i] == messages[1..][i - 1];
      rest
  }

  /**
   * The listener's effects over a stream are those of the first
   * "auth-success" message, or none if no message is "auth-success".
   */
  lemma {:induction false} ListenFirstSuccess(messages: seq<Message>, cbs: Callbacks)
    ensures (forall i :: 0 <= i < |messages| ==> messages[i].data != AuthSuccessMessage)
            ==> Listen(messages, cbs) == []
    ensures forall k :: 0 <= k < |messages| && messages[k].data == AuthSuccessMessage
                        && (forall i :: 0 <= i < k ==> messages[i].data != AuthSuccessMessage)
                        ==> Listen(messages, cbs) == OnMessage(messages[k], cbs)
  {
    if messages != [] && messages[0].data != AuthSuccessMessage {
      ListenFirstSuccess(messages[1..], cbs);
      assert forall i :: 1 <= i < |messages| ==> messages[i] == messages[1..][i - 1];
      forall k | 0 <= k < |messages| && messages[k].data == AuthSuccessMessage
                 && (forall i :: 0 <= i < k ==> messages[i].data != AuthSuccessMessage)
        ensures Listen(messages, cbs) == OnMessage(messages[k], cbs)
      {
        assert k >= 1 && messages[1..][k - 1] == messages[k];
        assert forall i :: 0 <= i < k - 1 ==> messages[1..][i] == messages[i + 1];
      }
    }
  }
}
