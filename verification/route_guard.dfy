/** The two route guards, ProtectRouter (authenticated users only) and
    LogOutProtect (anonymous users only). Each is a `{loading, connected}`
    record that starts loading, probes the identity endpoint on mount, and
    then renders a placeholder, the nested routes, or a redirect.
    ProtectRouter probes exactly once. LogOutProtect hands its own async probe
    function to the state setter on a 200; React calls a function given to a
    setter as an updater, so every 200 starts one more probe, and the Promise
    that call returns is what `connected` holds. */
module RouteGuard {
  import opened Wrappers
  import opened TokenStore
  import opened HttpClient
  import SessionProbe

  /** The value held in `connected`. ProtectRouter stores booleans; on success
      LogOutProtect stores the Promise its probe function returns when React
      calls it as an updater. */
  datatype JsValue = JsBool(b: bool) | JsPromise

  /** JavaScript truthiness: every Promise is truthy. */
  predicate Truthy(v: JsValue) {
    match v
    case JsBool(b) => b
    case JsPromise => true
  }

  datatype Policy = ProtectRouter | LogOutProtect

  datatype GuardState = GuardState(loading: bool, connected: JsValue)

  datatype View = Placeholder | Outlet | Redirect(to: string)

  const LoginPath := "/login"
  const HomePath := "/"

  function Initial(): (s: GuardState)
    ensures s.loading && !Truthy(s.connected)
  {
    GuardState(true, JsBool(false))
  }

  /** The probe has settled: a 200 marks the guard connected, a rejection marks it
      disconnected, any other resolved status leaves `connected` alone, and in
      every case the guard stops loading. */
  function Complete(p: Policy, s: GuardState, o: Outcome): (r: GuardState)
    ensures !r.loading
    ensures o == Ok(200) ==> Truthy(r.connected)
    ensures o.Err? ==> r.connected == JsBool(false)
    ensures o.Ok? && o.status != 200 ==> r.connected == s.connected
    ensures o == Ok(200) && p == LogOutProtect ==> r.connected == JsPromise
  {
    match o
    case Ok(status) =>
      if status == 200 then
        GuardState(false, if p == ProtectRouter then JsBool(true) else JsPromise)
      else
        s.(loading := false)
    case Err(_) => GuardState(false, JsBool(false))
  }

  /** What the guard renders. */
  function Render(p: Policy, s: GuardState): (v: View)
    ensures s.loading <==> v == Placeholder
    ensures !s.loading && p == ProtectRouter ==>
              (v == Outlet <==> Truthy(s.connected)) && (v.Redirect? ==> v.to == LoginPath)
    ensures !s.loading && p == LogOutProtect ==>
              (v == Outlet <==> !Truthy(s.connected)) && (v.Redirect? ==> v.to == HomePath)
  {
    if s.loading then Placeholder
    else match p
      case ProtectRouter => if Truthy(s.connected) then Outlet else Redirect(LoginPath)
      case LogOutProtect => if !Truthy(s.connected) then Outlet else Redirect(HomePath)
  }

  /** The HEAD request a probe sends with the store as it stands. */
  function ProbeRequest(store: Store): (r: Request)
    ensures r.verb == Head && r.url == SessionProbe.UserInfoPath
    ensures r == Send(ServicesClient, store, Head, SessionProbe.UserInfoPath, NoResponse).sent
  {
    Authorize(store, Config(ServicesClient, Head, SessionProbe.UserInfoPath))
  }

  /** How many of the answers, from the first, are 200. */
  function LeadingOk(answers: seq<Raw>): (n: nat)
    ensures n <= |answers|
    ensures forall i :: 0 <= i < n ==> answers[i] == Response(200)
    ensures n < |answers| ==> answers[n] != Response(200)
  {
    if answers == [] || answers[0] != Response(200) then 0 else 1 + LeadingOk(answers[1..])
  }

  /** The probes a chain has sent, the store they leave, and whether one of
      them is still waiting for its answer. */
  datatype Probes = Probes(store: Store, sent: seq<Request>, pending: bool)

  /** LogOutProtect's probe chain: a probe is sent and answered by the next
      answer; a 200 starts another probe, anything else ends the chain, and a
      probe with no answer yet is pending. */
  function Chain(store: Store, answers: seq<Raw>): (r: Probes)
    ensures |r.sent| == LeadingOk(answers) + 1
    ensures forall i :: 0 <= i < |r.sent| ==> r.sent[i] == ProbeRequest(store)
    ensures r.pending <==> LeadingOk(answers) == |answers|
    ensures r.store == (if !r.pending && answers[LeadingOk(answers)] == Response(401)
                        then RemoveItem(store, AuthToken) else store)
    decreases |answers|
  {
    if answers == [] then Probes(store, [ProbeRequest(store)], true)
    else
      var e := Send(ServicesClient, store, Head, SessionProbe.UserInfoPath, answers[0]);
      if answers[0] == Response(200) then
        var rest := Chain(e.store, answers[1..]);
        Probes(rest.store, [e.sent] + rest.sent, rest.pending)
      else Probes(e.store, [e.sent], false)
  }

  datatype Mounted = Mounted(state: GuardState, store: Store, sent: seq<Request>, pending: bool)

  /** One mount, given the answers to the probes in the order they are sent.
      The guard's state is decided by the first answer: once it settles the
      guard renders its routes or redirects, and a redirect unmounts it, so
      what later probes set is never shown. Their requests, and the 401 rule
      of the shared client, still take effect. */
  function Mount(p: Policy, store: Store, answers: seq<Raw>): (m: Mounted)
    ensures |m.sent| >= 1 && forall i :: 0 <= i < |m.sent| ==> m.sent[i] == ProbeRequest(store)
    ensures answers == [] ==> m.state == Initial() && m.pending && |m.sent| == 1 && m.store == store
    ensures answers != [] ==>
              !m.state.loading && (Truthy(m.state.connected) <==> answers[0] == Response(200))
    ensures p == ProtectRouter && answers != [] ==>
              |m.sent| == 1 && !m.pending
              && m.store == (if answers[0] == Response(401) then RemoveItem(store, AuthToken) else store)
    ensures p == LogOutProtect ==> Probes(m.store, m.sent, m.pending) == Chain(store, answers)
    ensures p == LogOutProtect && answers != [] && answers[0] == Response(200) ==> |m.sent| >= 2
  {
    if answers == [] then Mounted(Initial(), store, [ProbeRequest(store)], true)
    else
      var e := Send(ServicesClient, store, Head, SessionProbe.UserInfoPath, answers[0]);
      var state := Complete(p, Initial(), e.outcome);
      match p
      case ProtectRouter => Mounted(state, e.store, [e.sent], false)
      case LogOutProtect =>
        var c := Chain(store, answers);
        Mounted(state, c.store, c.sent, c.pending)
  }

  /** A signed-in visitor on a LogOutProtect route is sent home, yet the
      probe the 200 started goes on; if that one is refused with 401 the
      access token is gone afterwards. */
  lemma FollowUpProbeCanSignOut(store: Store)
    ensures var m := Mount(LogOutProtect, store, [Response(200), Response(401)]);
            Render(LogOutProtect, m.state) == Redirect(HomePath)
            && |m.sent| == 2 && !m.pending
            && GetItem(m.store, AuthToken) == None
  {
    var answers := [Response(200), Response(401)];
    assert answers[1..] == [Response(401)];
    assert LeadingOk(answers) == 1;
  }

  /** While the server keeps answering 200, LogOutProtect keeps probing: after
      `n` such answers there have been `n + 1` probes and one is waiting. */
  lemma {:induction false} OkAnswersKeepProbing(store: Store, n: nat)
    ensures var m := Mount(LogOutProtect, store, seq(n, _ => Response(200)));
            |m.sent| == n + 1 && m.pending && m.store == store
  {
    var answers: seq<Raw> := seq(n, _ => Response(200));
    AllOkLeading(answers);
  }

  lemma {:induction false} AllOkLeading(answers: seq<Raw>)
    requires forall i :: 0 <= i < |answers| ==> answers[i] == Response(200)
    ensures LeadingOk(answers) == |answers|
    decreases |answers|
  {
    if answers != [] {
      AllOkLeading(answers[1..]);
    }
  }

  /** Before the probe settles neither guard shows protected content nor redirects. */
  lemma PendingIsPlaceholder(p: Policy)
    ensures Render(p, Initial()) == Placeholder
  {
  }

  /** For the same probe result the two guards decide oppositely: where
      ProtectRouter shows its routes LogOutProtect sends the user home, and
      where ProtectRouter sends the user to the login page LogOutProtect shows
      its routes. */
  lemma {:induction false} GuardsAreInverse(o: Outcome)
    ensures var a := Render(ProtectRouter, Complete(ProtectRouter, Initial(), o));
            var b := Render(LogOutProtect, Complete(LogOutProtect, Initial(), o));
            (a == Outlet <==> b == Redirect(HomePath))
            && (a == Redirect(LoginPath) <==> b == Outlet)
            && a != Placeholder && b != Placeholder
  {
    var sa := Complete(ProtectRouter, Initial(), o);
    var sb := Complete(LogOutProtect, Initial(), o);
    assert Truthy(sa.connected) <==> Truthy(sb.connected);
  }

  /** The guards' view after one mount is the placeholder until the first
      probe is answered, and then a function of whether that answer was 200:
      ProtectRouter shows its routes exactly then, LogOutProtect exactly
      otherwise. */
  lemma MountDecision(store: Store, answers: seq<Raw>)
    ensures answers == [] ==>
              Render(ProtectRouter, Mount(ProtectRouter, store, answers).state) == Placeholder
              && Render(LogOutProtect, Mount(LogOutProtect, store, answers).state) == Placeholder
    ensures answers != [] ==>
              Render(ProtectRouter, Mount(ProtectRouter, store, answers).state)
              == (if answers[0] == Response(200) then Outlet else Redirect(LoginPath))
    ensures answers != [] ==>
              Render(LogOutProtect, Mount(LogOutProtect, store, answers).state)
              == (if answers[0] == Response(200) then Redirect(HomePath) else Outlet)
  {
  }
}
