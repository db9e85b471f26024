/** The process environment the handler reads, as one immutable record.
    Each entry is absent (`None`) or holds the variable's text. */
module Config {
  import opened Wrappers

  datatype Env = Env(
    appUser: Option<string>,      // APP_USER
    appPassword: Option<string>,  // APP_PASSWORD
    accountSid: Option<string>,   // TWILIO_ACCOUNT_SID
    authToken: Option<string>,    // TWILIO_AUTH_TOKEN
    fromNumber: Option<string>,   // FROM_PHONE_NUMBER
    toNumbers: Option<string>     // TO_PHONE_NUMBER
  )

  /** Python truthiness of an environment lookup: present and not empty. */
  predicate Truthy(v: Option<string>): (t: bool)
    ensures t <==> v != None && v != Some("")
  {
    v.Some? && v.value != ""
  }

  /** TO_PHONE_NUMBER, read with the empty string as its default. */
  function ToNumbers(env: Env): (s: string)
    ensures env.toNumbers.Some? ==> s == env.toNumbers.value
    ensures s == "" <==> !Truthy(env.toNumbers)
  {
    env.toNumbers.GetOr("")
  }

  /** All four values the dispatch needs are set and non-empty. */
  predicate Complete(env: Env): (ok: bool)
    ensures ok <==> (Truthy(env.accountSid) && Truthy(env.authToken) && Truthy(env.fromNumber)
      && Truthy(env.toNumbers))
  {
    Truthy(env.accountSid) && Truthy(env.authToken) && Truthy(env.fromNumber)
    && ToNumbers(env) != ""
  }
}
