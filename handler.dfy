/** The request handler for the service's single route: authentication,
    configuration checks, destination parsing, the fan-out, and the outer
    error boundary around client construction. */
module Handler {
  import opened Wrappers
  import opened PyStr
  import opened Config
  import opened Auth
  import opened Destinations
  import opened Dispatch

  datatype Header = Header(name: string, value: string)

  /** An HTTP response: body text, status code, and the one extra header the
      handler ever sets. */
  datatype Response = Response(body: string, status: int, header: Option<Header>)

  const AuthFailureBody := "Could not verify your access level for that URL.\nYou have to login with proper credentials"
  const MissingConfigBody := "Error: 必要な環境変数が設定されていません"
  const NoDestinationBody := "Error: 有効な宛先電話番号が見つかりません"
  const SystemErrorPrefix := "System Error: "

  /** The basic-auth challenge sent when authentication fails. */
  function Authenticate(): (r: Response)
    ensures r.status == 401 && r.body == AuthFailureBody
    ensures r.header == Some(Header("WWW-Authenticate", "Basic realm=\"Login Required\""))
  {
    Response(AuthFailureBody, 401, Some(Header("WWW-Authenticate", "Basic realm=\"Login Required\"")))
  }

  /** Handles one request. `auth` is the request's basic-auth credentials,
      `env` the environment, `clientError` the message raised by the
      provider client's constructor (None when it is built), and `place` the
      provider's answer to each placement. Returns the response and the calls
      placed, in order. */
  method MakeCall(auth: Option<BasicAuth>, env: Env, clientError: Option<string>, place: Provider)
    returns (resp: Response, calls: seq<Call>)
    // 401, whatever else the environment holds, and nothing is placed
    ensures !Authorized(auth, env) ==> resp == Authenticate() && calls == []
    // 500 when a required value is missing or empty, before any call
    ensures Authorized(auth, env) && !Complete(env) ==>
      resp == Response(MissingConfigBody, 500, None) && calls == []
    // 500 when no destination survives parsing, before any call
    ensures Authorized(auth, env) && Complete(env) && Parse(ToNumbers(env)) == [] ==>
      resp == Response(NoDestinationBody, 500, None) && calls == []
    // 500 when the client cannot be built, with no report line
    ensures Authorized(auth, env) && Complete(env) && Parse(ToNumbers(env)) != [] && clientError.Some? ==>
      resp == Response(SystemErrorPrefix + clientError.value, 500, None) && calls == []
    // otherwise 200 and one line per destination, whatever the outcomes
    ensures Authorized(auth, env) && Complete(env) && Parse(ToNumbers(env)) != [] && clientError.None? ==>
      var dests := Parse(ToNumbers(env));
      resp == Response(Join(Report(dests, env.fromNumber.value, place), "\n"), 200, None)
      && calls == Attempts(dests, env.fromNumber.value)
    ensures resp.status in {200, 401, 500}
    ensures calls != [] <==> resp.status == 200
  {
    if auth.None? || !CheckAuth(auth.value.username, auth.value.password, env) {
      return Authenticate(), [];
    }
    var accountSid, authToken, fromNumber := env.accountSid, env.authToken, env.fromNumber;
    var toNumbersStr := env.toNumbers.GetOr("");
    if !(Truthy(accountSid) && Truthy(authToken) && Truthy(fromNumber) && toNumbersStr != "") {
      return Response(MissingConfigBody, 500, None), [];
    }
    var toNumbers := Parse(toNumbersStr);
    if toNumbers == [] {
      return Response(NoDestinationBody, 500, None), [];
    }
    if clientError.Some? {
      return Response(SystemErrorPrefix + clientError.value, 500, None), [];
    }
    var results;
    results, calls := PlaceCalls(toNumbers, fromNumber.value, place);
    resp := Response(Join(results, "\n"), 200, None);
  }

  /** A destination value that is non-empty but holds only whitespace and
      commas passes the configuration check and is then rejected for having
      no destination. */
  lemma BlankDestinationsRejected(env: Env)
    requires Truthy(env.accountSid) && Truthy(env.authToken) && Truthy(env.fromNumber)
    requires ToNumbers(env) != "" && Blank(ToNumbers(env))
    ensures Complete(env) && Parse(ToNumbers(env)) == []
  {
    ParseEmpty(ToNumbers(env));
  }
}
