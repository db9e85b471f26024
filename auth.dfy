/** The service's own HTTP basic authentication, checked against APP_USER
    and APP_PASSWORD. */
module Auth {
  import opened Wrappers
  import opened Config

  /** Credentials carried by an `Authorization: Basic` request header. */
  datatype BasicAuth = BasicAuth(username: string, password: string)

  /** The credential check. It fails closed: with either configured value
      unset or empty nothing is accepted; otherwise both supplied values
      must equal the configured ones. */
  function CheckAuth(username: string, password: string, env: Env): (ok: bool)
    ensures ok ==> env.appUser == Some(username) && env.appPassword == Some(password)
    ensures ok ==> username != "" && password != ""
  {
    if !Truthy(env.appUser) || !Truthy(env.appPassword) then false
    else username == env.appUser.value && password == env.appPassword.value
  }

  /** The request may proceed: it carries basic-auth credentials and they pass
      the check. */
  predicate Authorized(auth: Option<BasicAuth>, env: Env): (ok: bool)
    ensures ok <==> (Truthy(env.appUser) && Truthy(env.appPassword)
      && auth == Some(BasicAuth(env.appUser.value, env.appPassword.value)))
  {
    auth.Some? && CheckAuth(auth.value.username, auth.value.password, env)
  }

  /** Fail-closed: whatever is supplied, an unset or empty APP_USER or
      APP_PASSWORD rejects the request. */
  lemma FailClosed(auth: Option<BasicAuth>, env: Env)
    requires !Truthy(env.appUser) || !Truthy(env.appPassword)
    ensures !Authorized(auth, env)
  {
  }

  /** With both values configured, the check accepts exactly the matching pair. */
  lemma CheckAuthExact(username: string, password: string, env: Env)
    requires Truthy(env.appUser) && Truthy(env.appPassword)
    ensures CheckAuth(username, password, env)
      <==> username == env.appUser.value && password == env.appPassword.value
  {
  }
}
