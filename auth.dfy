/**
 * The `authenticate` decorator (ircviewer.py:150-163): HTTP Basic credentials are
 * checked only when both a user and a password are configured.
 */
module Auth {
  import opened Wrappers

  /** http.UNAUTHORIZED */
  const Unauthorized: int := 401

  /** The configured pair, the module globals auth_user and auth_password. */
  datatype AuthConfig = AuthConfig(user: Option<string>, password: Option<string>)

  /** The globals as the module initialises them (ircviewer.py:20). */
  const Unconfigured := AuthConfig(None, None)

  /** What the decorator does with a request: answer it with an empty 401 body, or call the handler. */
  datatype Gate = Denied(status: int, body: string) | CallHandler

  /** Python truthiness of an optional string: neither None nor empty. */
  predicate Truthy(s: Option<string>) {
    s.Some? && s.value != ""
  }

  /** Whether a configured pair is in force. */
  predicate Enforced(config: AuthConfig) {
    Truthy(config.user) && Truthy(config.password)
  }

  /**
   * `auth_func`: `user` and `password` are what the request supplied (an empty string
   * when absent). The handler is skipped only when the check is in force and either
   * supplied value differs from the configured one.
   */
  function Authenticate(config: AuthConfig, user: string, password: string): (g: Gate)
    ensures g.Denied? <==> Enforced(config) && (Some(user) != config.user || Some(password) != config.password)
    ensures g.Denied? ==> g == Denied(Unauthorized, "")
  {
    if Truthy(config.user) && Truthy(config.password) then
      if user != config.user.value || password != config.password.value then
        Denied(Unauthorized, "")
      else
        CallHandler
    else
      CallHandler
  }

  /** With a pair in force, the handler runs for exactly that pair. */
  lemma OnlyConfiguredPairPasses(config: AuthConfig, user: string, password: string)
    requires Enforced(config)
    ensures Authenticate(config, user, password) == CallHandler
        <==> user == config.user.value && password == config.password.value
  {
  }

  /** Without a pair in force (either part None or empty), every request reaches the handler. */
  lemma UnenforcedAlwaysPasses(config: AuthConfig, user: string, password: string)
    requires !Enforced(config)
    ensures Authenticate(config, user, password) == CallHandler
  {
  }

  /** main() binds local names rather than the globals (ircviewer.py:276), so the running
   *  program always sees the initial None values and never rejects a request. */
  lemma DefaultConfigNeverRejects(user: string, password: string)
    ensures Authenticate(Unconfigured, user, password) == CallHandler
  {
  }
}
