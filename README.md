# ircviewer event bridge, modelled in Dafny

This project models the core of `ircviewer.py`, a bot that relays the events of one
IRC channel to web browsers. The bot turns every channel event (a message, a join, a
part or a quit) into an *action*. It appends each action to a history file of JSON
lines and to a bounded in-memory cache. It then answers every long-poll request that
is waiting on `/update.js` with the sanitised action and closes those requests.

Modules and files:

- `wrappers.dfy` (`Wrappers`): `Option`.
- `actions.dfy` (`Actions`): the `Action` record (`command`, `user`, optional `message`,
  integer `timestamp`) and `Json`, the pair `dumps`/`loads` standing for the JSON library.
- `sanitize.dfy` (`Sanitize`): `escape_html` (`EscapeHtml`), the nickname cut
  `user.split('!')[0]` (`DisplayName`) and `prepare_action` (`PrepareAction`), with
  `Unescape` as the independent inverse used to state what escaping preserves.
- `auth.dfy` (`Auth`): the `authenticate` decorator as the function `Authenticate`.
- `hub.dfy` (`Hub`): the long-poll resource `IrcLogUpdate` as a class. Its field
  `clients` is the list of waiting requests. Its field `output` is the trace of
  `write`/`finish` calls made on requests.
- `history.dfy` (`History`): `LogBotFactory` as a class. Its field `history` is the
  cache. Its ghost field `log` holds the lines of the history file. The specification
  functions `Window` (the last `min(n, cap)` items) and `LoadSpec` (what `load_history`
  returns) sit beside the lemmas relating them. The factory encodes with the web
  resource's `Json`, so the history line and the payload come from one JSON library.
- `bot.dfy` (`Bot`): the four IRC callbacks of `LogBot` and the action each one builds.

Inputs that the program takes from its environment are parameters:

- the content of the history file at start-up (`None` when it cannot be opened);
- the current time, already truncated as `int(time.time())`;
- the credentials a request carries;
- the configured `auth_user`/`auth_password` pair;
- the JSON library.

The key invariant is `LogBotFactory.Valid()`, built on `History.CacheMatches`. It says
that the cache holds exactly `min(|log|, cap)` entries (none when `cap <= 0`). It also
says that entry `i` stands for the `i`-th of the last lines of the log: either the line
itself, or the action that line parses to. The constructor (a load) establishes it, and
`AddToHistory` preserves it as long as serialising and writing the line succeed.

### Behaviour of the code worth knowing

- **Bad history lines.** A retained line that fails to parse is not skipped. The whole of
  `load_history` sits in a bare `except` (ircviewer.py:109-118), so one bad line among
  the retained ones makes it return all retained lines as raw strings. `LoadResult` and
  `LoadMalformedLineExample` state this behaviour. Lines older than the last `cap` lines
  are never parsed (`LoadIgnoresOlderLines`).
- **Escaping twice.** Escaping is not idempotent: `&` is always rewritten, so escaping
  twice equals escaping once exactly on text without any of the five characters
  (`EscapeIdempotentIff`, `EscapeEntityAgain`).
- **Order inside `add_to_history`.** `add_to_history` appends to and trims the cache
  before it writes the line (ircviewer.py:124-127). With a negative capacity the trim
  raises before the write happens. In the model `json.dumps` and the append to the file
  never fail (see `History.LogBotFactory.AddToHistory` under "## Left out").
- **`lost_client`.** It uses `list.remove`, which drops only the first occurrence. Every
  `render_GET` call parks a new request object once, so the waiting requests are always
  distinct. A second `lost_client` call for the same request therefore changes nothing
  (`IrcLogUpdate.LostClient`, `RemoveFirstDistinct`).
- **Authentication.** `main` assigns local names at ircviewer.py:276, not the module
  globals of line 20. The running program therefore never rejects a request
  (`DefaultConfigNeverRejects`). The model takes the configured pair as an input.

## Model

| member | source | states |
|---|---|---|
| Sanitize.EscapeChar | ircviewer.py:141-148 | the table maps exactly `& " ' > <` to entities starting with `&`; every other character stands for itself; no entity holds a raw quote, apostrophe or angle bracket |
| Sanitize.EscapeHtml | ircviewer.py:139-148 | the output is never shorter than the input and holds no raw `"`, `'`, `<` or `>`; text without table characters is unchanged |
| Sanitize.EscapeConcat | ircviewer.py:148 | characters are escaped independently: escaping distributes over concatenation |
| Sanitize.UnescapeEscape | ircviewer.py:139-148 | reading the five entities back recovers the original text, so escaping loses nothing |
| Sanitize.EscapeInjective | ircviewer.py:139-148 | two different texts never escape to the same output |
| Sanitize.EscapeGrows | ircviewer.py:141-148 | text with any table character comes out strictly longer and again holds a table character (`&`) |
| Sanitize.EscapeIdempotentIff | ircviewer.py:142 | escaping twice equals escaping once exactly when the text has none of the five characters |
| Sanitize.EscapeEntityAgain | ircviewer.py:142 | `&lt;` escapes to `&amp;lt;` |
| Sanitize.DisplayName | ircviewer.py:171-172 | the result is a prefix of the hostmask with no `!`, and it is the whole hostmask or is followed by `!` |
| Sanitize.DisplayNameUnique | ircviewer.py:172 | those three conditions determine `split('!')[0]` uniquely |
| Sanitize.PrepareAction | ircviewer.py:166-180 | a sanitised action has no raw markup in any string field; the message is present exactly when it was; the timestamp is unchanged |
| Sanitize.PrepareActionSpec | ircviewer.py:166-180 | a sanitised action has no raw markup; its command and message read back unchanged; its user reads back as the part before the first `!`; the message stays present or absent; the timestamp is unchanged |
| Sanitize.KeysArePlain | ircviewer.py:174-179 | escaping the keys `command`, `user`, `message`, `timestamp` leaves them as they are, so the rewrite loop adds no key |
| Sanitize.DisplayNameExample | ircviewer.py:172 | `alice!host` is shown as `alice` |
| Sanitize.EscapeMarkupExample | ircviewer.py:145-146 | `<hi>` becomes `&lt;hi&gt;` |
| Sanitize.PlainNamesExample | ircviewer.py:148 | `alice` and `privmsg` pass through escaping unchanged |
| Sanitize.PrepareActionExample | ircviewer.py:166-180 | a message from `alice!host` saying `<hi>` is sent with user `alice` and message `&lt;hi&gt;` |
| Auth.Authenticate | ircviewer.py:150-163 | the handler is skipped, with status 401 and an empty body, exactly when a user and a password are both configured and non-empty and the supplied user or password differs |
| Auth.OnlyConfiguredPairPasses | ircviewer.py:156-157 | with a pair in force, the handler runs for that pair and for no other |
| Auth.UnenforcedAlwaysPasses | ircviewer.py:156 | with either part unset or empty, every request reaches the handler |
| Auth.DefaultConfigNeverRejects | ircviewer.py:20 | with the module's initial `None` globals, no request is ever rejected |
| Hub.RemoveFirst | ircviewer.py:206-207 | an absent request leaves the list unchanged; a present one makes it exactly one shorter (where it is cut is `RemoveFirstSplit`) |
| Hub.RemoveFirstSplit | ircviewer.py:207 | a present request is cut out at its first position, with everything before and after it kept in order |
| Hub.RemoveFirstCounts | ircviewer.py:207 | removal takes away one copy of the request and no other request |
| Hub.RemoveFirstAt | ircviewer.py:207 | removing a present request shortens the list by one; requests before it keep their positions, and those after it move up by one |
| Hub.RemoveFirstDistinct | ircviewer.py:203-207 | on distinct requests, the removed request is gone, the list stays distinct, and a second removal changes nothing |
| Hub.Fanout | ircviewer.py:216-218 | serving the waiting requests makes exactly two calls per request |
| Hub.FanoutAt | ircviewer.py:216-218 | the i-th waiting request gets a write of the payload, immediately followed by its finish |
| Hub.FanoutSnoc | ircviewer.py:216-218 | serving one more request at the end of the list adds exactly its write and its finish at the end of the trace |
| Hub.FanoutWritten | ircviewer.py:216-217 | the requests written to are the waiting list, in order |
| Hub.FanoutFinished | ircviewer.py:216-218 | the requests finished are the waiting list, in order |
| Hub.FanoutDelivers | ircviewer.py:209-218 | the requests written to, and those finished, are the waiting list in order, each as often as listed; every write carries the one payload; no other request sees any call |
| Hub.DisconnectBeforeUpdateExample | ircviewer.py:203-218 | of two waiting requests, if the first disconnects, only the second is written to and finished |
| Hub.IrcLogUpdate.constructor | ircviewer.py:190-192 | a new resource has no waiting request and has written nothing, so its waiting requests are trivially distinct |
| Hub.IrcLogUpdate.RenderGet | ircviewer.py:194-201 | a new authorised request is appended to the end of `clients` and left open, and the waiting requests stay distinct; a rejected one gets the 401 and changes nothing |
| Hub.IrcLogUpdate.LostClient | ircviewer.py:203-207 | `clients` loses the first occurrence of the request if present and is otherwise unchanged; afterwards the request is not waiting and the rest stay distinct, so a second call changes nothing |
| Hub.IrcLogUpdate.Update | ircviewer.py:209-218 | `clients` ends empty; the trace grows by a write of the serialised sanitised action followed by a finish, for each request waiting at entry, in order; the requests written to and those finished are exactly the waiting ones, each once when they were distinct |
| History.Retained | ircviewer.py:113-114 | a capacity of 0 or less keeps nothing; a positive capacity keeps `min(n, cap)`: at most `n` and at most `cap`, and one of the two |
| History.Window | ircviewer.py:110-114 | the kept suffix has exactly `Retained(n, cap)` items |
| History.WindowSnoc | ircviewer.py:110-114 | the window of a longer file is the old window plus the new line, minus its oldest line when over capacity (one step of the reading loop) |
| History.WindowConcat | ircviewer.py:124-126 | trimming to capacity before adding more gives the same result as trimming once at the end, for every capacity |
| History.ReadWindow | ircviewer.py:110-114 | reading the file line by line, dropping the oldest once over capacity, keeps exactly the last `min(n, cap)` lines in order |
| History.ParseAll | ircviewer.py:116 | the comprehension succeeds exactly when every line parses; it then holds each line's action, in order |
| History.Decode | ircviewer.py:116-118 | one entry per retained line, each standing for its line; all parsed when every line parses, all the raw lines otherwise |
| History.LoadSpec | ircviewer.py:104-119 | an unopenable file gives `[]`; otherwise `min(n, cap)` entries, each standing for the line at the same position of the file's tail |
| History.LoadResult | ircviewer.py:104-119 | a load keeps `min(n, cap)` entries (at most `cap`); they are the parsed last lines when all of them parse, and otherwise those lines as raw strings |
| History.LoadMatchesFile | ircviewer.py:104-119 | a freshly loaded cache satisfies the cache invariant against the file |
| History.LoadIgnoresOlderLines | ircviewer.py:110-114 | lines before the last `cap` lines, malformed or not, do not change what is loaded |
| History.LoadMalformedLineExample | ircviewer.py:109-118 | with a bad middle line among three, within capacity, all three come back as raw strings |
| History.AppendKeepsMatch | ircviewer.py:121-127 | adding an action to the cache and its JSON line to the log keeps the cache invariant |
| History.RestartReloadsCache | ircviewer.py:102-127 | a cache of parsed actions is exactly what loading its log again returns |
| History.AppendedIsNewest | ircviewer.py:54-55 | with a positive capacity the appended action is the newest cache entry, already there when it is published |
| History.AppendAllKeepsLast | ircviewer.py:121-126 | appending N actions one by one leaves the last `min(|cache| + N, cap)` of the old entries followed by the new ones |
| History.AppendFromEmpty | ircviewer.py:121-126 | from an empty cache, N appends leave the last `min(N, cap)` actions in order |
| History.TrimFront | ircviewer.py:125-126 | the `pop(0)` loop leaves the last `min(n, cap)` items, and raises exactly when the capacity is negative |
| History.LogBotFactory.constructor | ircviewer.py:95-102 | the cache is what `load_history` returns for the file; the log is the file's lines; the codec is the web resource's; the cache invariant holds; the nickname and capacity default to `LogBot` and 500 |
| History.LogBotFactory.LoadHistory | ircviewer.py:104-119 | returns `[]` when the file cannot be opened, and otherwise `LoadSpec` of its lines |
| History.LogBotFactory.AddToHistory | ircviewer.py:121-127 | with capacity at least 0 the cache becomes the last `min(|old| + 1, cap)` of `old + [action]` and the log gains exactly `dumps(action)` at its end; with a negative capacity it raises with an empty cache and an unchanged log; the invariant is kept |
| Bot.ActionFor | ircviewer.py:45-88 | the action keeps the raw user and the given time; its command is `privmsg`, `userjoined`, `userleft` or `userquit` exactly for the respective callback; only `privmsg` carries a message, and it is the message received |
| Bot.CommandIdentifiesEvent | ircviewer.py:49-83 | equal commands come from the same kind of callback |
| Bot.LogBot.constructor | ircviewer.py:93 | the protocol instance is bound to its factory |
| Bot.LogBot.Relay | ircviewer.py:54-55 | the history is updated first; only if that returned are the waiting requests served and emptied; otherwise the web resource is unchanged |
| Bot.LogBot.Privmsg | ircviewer.py:45-55 | relays the `privmsg` action built from the message |
| Bot.LogBot.UserJoined | ircviewer.py:57-66 | relays the `userjoined` action |
| Bot.LogBot.UserLeft | ircviewer.py:68-77 | relays the `userleft` action |
| Bot.LogBot.UserQuit | ircviewer.py:79-88 | relays the `userquit` action; the quit message is dropped |

## Left out

- The reconnect and exit hooks `clientConnectionLost` and `clientConnectionFailed`
  (ircviewer.py:129-136). They only call `connector.connect()` or `sys.exit(1)`.
- `signedOn`, `joined` and the `nickname` property. These are IRC protocol plumbing
  with no logic beyond the join call.
- All logging calls and `setup_logger`.
- Twisted itself: the reactor, `Site`, `File` routing, `listenTCP`/`connectTCP`.
- From Twisted requests: the `Content-Type` and `WWW-authenticate` headers, the
  `notifyFinish` errback wiring, and the meaning of `NOT_DONE_YET`. Only the 401
  status, the empty body and the calls on requests are recorded.
- `IrcLogHistory.render_GET` (the `/history.js` endpoint). It is outside the modelled
  core. Note that a cache holding raw lines after a failed load would make its
  `prepare_action` call fail.
- `main` and option parsing (ircviewer.py:245-300).
- `static/ircviewer.js`. It is browser UI.
- The internals of `json.dumps`/`json.loads`. They are the two arrows of `Json`, with
  the round-trip `loads(dumps(a)) == Some(a)` required by the cache invariant.
- `loads` yields an action or fails. A line holding some other JSON value is treated
  like a failed parse.
- The trailing newline of each file line. It is not part of the modelled line, and the
  model assumes that the file ends in a newline. If the last line is unterminated, for
  example after an interrupted write, the next `add_to_history` glues its line onto that
  line (ircviewer.py:127). For such a file, two statements of the model
  are false of the program: `AddToHistory`'s ensures that the log gains exactly one line,
  and `RestartReloadsCache`.
- I/O failures while reading the file part-way. These are I/O errors not visible in
  the model. A failing write in `add_to_history` is covered by the
  `History.LogBotFactory.AddToHistory` line below.
- Python 2 `str`/`unicode` distinctions. The `isinstance(..., basestring)` tests are
  decided by the record's field types: the three text fields are escaped, the integer
  timestamp is not.
- `prepare_action` on a dictionary without a `user` key or with other keys. Every
  modelled action has the four fixed fields.
- The copy made by `prepare_action`. Datatype values are immutable, so the argument is
  unchanged in the model by construction.
- History.LogBotFactory.AddToHistory: it trims a local copy of the list and stores it
  back, where the source pops from `self.history` in place. Nothing can observe the
  list in between, so the final state is the same.
- Hub.IrcLogUpdate.LostClient has no `err` argument. The source ignores it.
- Hub.IrcLogUpdate.RenderGet requires that the request is not already waiting. Twisted
  makes a new request object for every GET, so a request id stands for one object and no
  id can arrive twice.
- History.LogBotFactory.AddToHistory: `json.dumps` and the append to the file are total
  here, so the only failure modelled is the negative capacity. In the program,
  `json.dumps` raises on a message that is not valid UTF-8 (a Latin-1 byte string), and
  `open`/`write` can fail (ircviewer.py:127). Either error happens after the cache has
  been appended to and trimmed. The cache then keeps the new action, but the file gets
  no line, so the program's cache no longer matches its log. The exception also leaves
  the callback before `update` (ircviewer.py:54-55), so no waiting request is served.
