/**
 * The event record the bridge stores and relays (a Python dict with the keys
 * 'command', 'user', optionally 'message', and 'timestamp'), and the JSON codec
 * used to persist and send it.
 */
module Actions {
  import opened Wrappers

  /** One channel event. `message` is absent (None) for every command except privmsg. */
  datatype Action = Action(command: string, user: string, message: Option<string>, timestamp: int)

  /** The JSON library as seen by the core: `dumps` produces one line of text,
   *  `loads` reads one back and fails (None) on text that is not an action. */
  datatype Json = Json(dumps: Action -> string, loads: string -> Option<Action>)

  /** json.loads undoes json.dumps on every action. */
  ghost predicate RoundTrips(json: Json) {
    forall a: Action :: json.loads(json.dumps(a)) == Some(a)
  }
}
