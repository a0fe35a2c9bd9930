/**
 * The bounded history of LogBotFactory (ircviewer.py:91-127): an in-memory cache of
 * at most history_cache_size entries over an append-only file of JSON lines.
 */
module History {
  import opened Wrappers
  import opened Actions
  import Hub

  /** The default of history_cache_size. */
  const DefaultHistoryCacheSize: int := 500

  /**
   * One cached entry. After a normal load or an append it is the parsed action; when any
   * retained line fails to parse at load time, every retained line stays a raw string.
   */
  datatype Entry = Parsed(action: Action) | Raw(line: string)

  /** How many of `n` items a cache of capacity `cap` keeps: min(n, cap), none when cap <= 0. */
  function Retained(n: nat, cap: int): (k: nat)
    ensures k <= n
    ensures cap <= 0 ==> k == 0
    ensures cap > 0 ==> k <= cap && (k == n || k == cap)
  {
    if cap <= 0 then 0 else if n <= cap then n else cap
  }

  /** The last Retained(|s|, cap) items of `s`, in their original order. */
  function Window<T>(s: seq<T>, cap: int): (w: seq<T>)
    ensures |w| == Retained(|s|, cap)
  {
    s[|s| - Retained(|s|, cap)..]
  }

  /** One step of the loading loop: append a line, then drop the oldest if over capacity. */
  lemma WindowSnoc<T>(s: seq<T>, x: T, cap: int)
    ensures Window(s + [x], cap)
         == if |Window(s, cap) + [x]| > cap then (Window(s, cap) + [x])[1..] else Window(s, cap) + [x]
  {
    var w := Window(s, cap) + [x];
    var n := |s|;
    if cap > 0 {
      assert w == (s + [x])[n - Retained(n, cap)..];
      if |w| > cap {
        assert (s + [x])[n + 1 - Retained(n + 1, cap)..] == w[1..];
      }
    }
  }

  /** Trimming is insensitive to earlier trimming: cutting to the window and then adding
   *  more and cutting again is the same as adding to the whole and cutting once. */
  lemma WindowConcat<T>(s: seq<T>, t: seq<T>, cap: int)
    ensures Window(Window(s, cap) + t, cap) == Window(s + t, cap)
  {
    if cap <= 0 {
      return;
    }
    var u := Window(s, cap);
    var k := |s| - |u|;
    assert u + t == (s + t)[k..];
    assert Retained(|u + t|, cap) == Retained(|s + t|, cap);
  }

  /**
   * `[json.loads(line) for line in lines]`: all lines parsed in order, or None as soon as
   * one of them does not parse.
   */
  function ParseAll(json: Json, lines: seq<string>): (r: Option<seq<Action>>)
    ensures r.Some? <==> forall i :: 0 <= i < |lines| ==> json.loads(lines[i]).Some?
    ensures r.Some? ==> |r.value| == |lines|
    ensures r.Some? ==> forall i :: 0 <= i < |lines| ==> json.loads(lines[i]) == Some(r.value[i])
  {
    if lines == [] then Some([])
    else match json.loads(lines[0])
      case None => None
      case Some(a) =>
        match ParseAll(json, lines[1..])
        case None => None
        case Some(rest) => Some([a] + rest)
  }

  /** The cache built from the retained raw lines: parsed when all parse, raw otherwise. */
  function Decode(json: Json, kept: seq<string>): (h: seq<Entry>)
    ensures |h| == |kept|
    ensures ParseAll(json, kept).Some? ==> forall i :: 0 <= i < |h| ==> h[i].Parsed?
    ensures ParseAll(json, kept).None? ==> forall i :: 0 <= i < |h| ==> h[i] == Raw(kept[i])
    ensures forall i :: 0 <= i < |h| ==> Corresponds(json, h[i], kept[i])
  {
    match ParseAll(json, kept)
    case Some(actions) => seq(|actions|, i requires 0 <= i < |actions| => Parsed(actions[i]))
    case None => seq(|kept|, i requires 0 <= i < |kept| => Raw(kept[i]))
  }

  /** What load_history returns for a file with the given lines (None: it cannot be opened). */
  function LoadSpec(json: Json, file: Option<seq<string>>, cap: int): (h: seq<Entry>)
    ensures file.None? ==> h == []
    ensures file.Some? ==> |h| == Retained(|file.value|, cap)
    ensures file.Some? ==> forall i :: 0 <= i < |h| ==> Corresponds(json, h[i], file.value[|file.value| - |h| + i])
  {
    if file.None? then [] else Decode(json, Window(file.value, cap))
  }

  /** A cache entry stands for a log line: the raw line itself, or the action the line parses to. */
  predicate Corresponds(json: Json, e: Entry, line: string) {
    match e
    case Parsed(a) => json.loads(line) == Some(a)
    case Raw(l) => l == line
  }

  /** The cache invariant: as many entries as the capacity allows out of the log, each standing
   *  for the log line at the same position of the log's tail. */
  predicate CacheMatches(json: Json, history: seq<Entry>, log: seq<string>, cap: int) {
    |history| == Retained(|log|, cap) &&
    forall i :: 0 <= i < |history| ==> Corresponds(json, history[i], log[|log| - |history| + i])
  }

  /**
   * load_history on a readable file: one entry per retained line (the last
   * min(n, cap)), parsed when every retained line parses, and otherwise the retained
   * lines as raw strings. Lines before the window are never looked at.
   */
  lemma LoadResult(json: Json, lines: seq<string>, cap: int)
    ensures |LoadSpec(json, Some(lines), cap)| == Retained(|lines|, cap)
    ensures cap >= 0 ==> |LoadSpec(json, Some(lines), cap)| <= cap
    ensures (forall i :: 0 <= i < |Window(lines, cap)| ==> json.loads(Window(lines, cap)[i]).Some?) ==>
              forall i :: 0 <= i < |Window(lines, cap)| ==>
                LoadSpec(json, Some(lines), cap)[i] == Parsed(json.loads(Window(lines, cap)[i]).value)
    ensures (exists i :: 0 <= i < |Window(lines, cap)| && json.loads(Window(lines, cap)[i]).None?) ==>
              forall i :: 0 <= i < |Window(lines, cap)| ==>
                LoadSpec(json, Some(lines), cap)[i] == Raw(Window(lines, cap)[i])
  {
  }

  /** A freshly loaded cache satisfies the cache invariant against the file it was read from. */
  lemma LoadMatchesFile(json: Json, lines: seq<string>, cap: int)
    ensures CacheMatches(json, LoadSpec(json, Some(lines), cap), lines, cap)
  {
  }

  /** Lines older than the last `cap` cannot influence the load, however malformed they are. */
  lemma LoadIgnoresOlderLines(json: Json, older: seq<string>, lines: seq<string>, cap: int)
    requires |lines| >= cap
    ensures LoadSpec(json, Some(older + lines), cap) == LoadSpec(json, Some(lines), cap)
  {
    assert Window(older + lines, cap) == Window(lines, cap) by {
      var k := Retained(|lines|, cap);
      assert Retained(|older + lines|, cap) == k;
      assert (older + lines)[|older + lines| - k..] == lines[|lines| - k..];
    }
  }

  /** One unparseable line among three, within the capacity, turns all three into raw strings
   *  (the bare except keeps the list of lines): the good lines are not kept as actions. */
  lemma LoadMalformedLineExample(json: Json, good1: string, bad: string, good2: string)
    requires json.loads(good1).Some? && json.loads(bad).None? && json.loads(good2).Some?
    ensures LoadSpec(json, Some([good1, bad, good2]), DefaultHistoryCacheSize) == [Raw(good1), Raw(bad), Raw(good2)]
  {
    var lines := [good1, bad, good2];
    assert Window(lines, DefaultHistoryCacheSize) == lines;
    assert lines[1] == bad;
  }

  /** Appending an action to the cache and its serialisation to the log keeps the cache invariant. */
  lemma AppendKeepsMatch(json: Json, history: seq<Entry>, log: seq<string>, cap: int, action: Action)
    requires RoundTrips(json)
    requires CacheMatches(json, history, log, cap)
    requires cap >= 0
    ensures CacheMatches(json, Window(history + [Parsed(action)], cap), log + [json.dumps(action)], cap)
  {
    var ext := history + [Parsed(action)];
    var log' := log + [json.dumps(action)];
    var h := Window(ext, cap);
    assert |h| == Retained(|log'|, cap);
    var off := |ext| - |h|;
    forall i | 0 <= i < |h| ensures Corresponds(json, h[i], log'[|log'| - |h| + i]) {
      assert h[i] == ext[off + i];
      if off + i < |history| {
        assert ext[off + i] == history[off + i];
        assert log'[|log'| - |h| + i] == log[|log| - |history| + off + i];
      } else {
        assert ext[off + i] == Parsed(action);
        assert log'[|log'| - |h| + i] == json.dumps(action);
      }
    }
  }

  /** A cache holding only parsed actions is exactly what loading its log again gives back:
   *  a restart rebuilds the same cache from disk. */
  lemma RestartReloadsCache(json: Json, history: seq<Entry>, log: seq<string>, cap: int)
    requires CacheMatches(json, history, log, cap)
    requires forall i :: 0 <= i < |history| ==> history[i].Parsed?
    ensures LoadSpec(json, Some(log), cap) == history
  {
    var w := Window(log, cap);
    assert |w| == |history|;
    forall i | 0 <= i < |w| ensures json.loads(w[i]) == Some(history[i].action) {
      assert w[i] == log[|log| - |history| + i];
    }
    var r := ParseAll(json, w);
    assert r.Some?;
    forall i | 0 <= i < |history| ensures LoadSpec(json, Some(log), cap)[i] == history[i] {
      assert json.loads(w[i]) == Some(r.value[i]);
    }
  }

  /** With a positive capacity the appended entry is the newest one in the cache, so by the
   *  time the action is published it can already be read back from the history. */
  lemma AppendedIsNewest(history: seq<Entry>, e: Entry, cap: int)
    requires cap > 0
    ensures |Window(history + [e], cap)| > 0
    ensures Window(history + [e], cap)[|Window(history + [e], cap)| - 1] == e
  {
  }

  /** The cache after appending each action in turn, as add_to_history leaves it. */
  function AppendAll(history: seq<Entry>, actions: seq<Action>, cap: int): seq<Entry>
    decreases |actions|
  {
    if actions == [] then history
    else AppendAll(Window(history + [Parsed(actions[0])], cap), actions[1..], cap)
  }

  function ParsedAll(actions: seq<Action>): (es: seq<Entry>)
    ensures |es| == |actions|
    ensures forall i :: 0 <= i < |actions| ==> es[i] == Parsed(actions[i])
  {
    seq(|actions|, i requires 0 <= i < |actions| => Parsed(actions[i]))
  }

  /** After appending N actions to a cache within capacity, it holds the last min(|cache| + N, cap)
   *  of the old entries followed by the new actions, in order. */
  lemma {:induction false} AppendAllKeepsLast(history: seq<Entry>, actions: seq<Action>, cap: int)
    requires 0 <= cap && |history| <= cap
    ensures AppendAll(history, actions, cap) == Window(history + ParsedAll(actions), cap)
    decreases |actions|
  {
    if actions == [] {
      assert history + ParsedAll(actions) == history;
    } else {
      var next := Window(history + [Parsed(actions[0])], cap);
      AppendAllKeepsLast(next, actions[1..], cap);
      WindowConcat(history + [Parsed(actions[0])], ParsedAll(actions[1..]), cap);
      assert history + [Parsed(actions[0])] + ParsedAll(actions[1..]) == history + ParsedAll(actions);
    }
  }

  /** Starting from an empty cache, the cache holds the last min(N, cap) actions appended. */
  lemma AppendFromEmpty(actions: seq<Action>, cap: int)
    requires cap >= 0
    ensures AppendAll([], actions, cap) == Window(ParsedAll(actions), cap)
  {
    var empty: seq<Entry> := [];
    assert empty + ParsedAll(actions) == ParsedAll(actions);
    AppendAllKeepsLast(empty, actions, cap);
  }

  /**
   * The trimming loop of add_to_history: `while len(l) > cap: l.pop(0)`. With a negative
   * capacity the loop pops the last element and then pops from the empty list, which
   * raises (None).
   */
  method TrimFront<T>(s: seq<T>, cap: int) returns (r: Option<seq<T>>)
    ensures r.Some? <==> cap >= 0
    ensures r.Some? ==> r.value == Window(s, cap)
  {
    var l := s;
    while |l| > cap
      invariant |l| <= |s|
      invariant l == s[|s| - |l|..]
      invariant |l| >= Retained(|s|, cap)
      decreases |l|
    {
      if l == [] {
        return None;
      }
      l := l[1..];
    }
    return Some(l);
  }

  /** The reading loop of load_history: append each line, dropping the oldest once there
   *  are more than `cap`. */
  method ReadWindow(lines: seq<string>, cap: int) returns (kept: seq<string>)
    ensures kept == Window(lines, cap)
  {
    kept := [];
    for i := 0 to |lines|
      invariant kept == Window(lines[..i], cap)
    {
      PrefixSnoc(lines, i);
      WindowSnoc(lines[..i], lines[i], cap);
      kept := kept + [lines[i]];
      if |kept| > cap {
        kept := kept[1..];
      }
    }
    assert lines[..|lines|] == lines;
  }

  lemma PrefixSnoc<T>(s: seq<T>, i: nat)
    requires i < |s|
    ensures s[..i + 1] == s[..i] + [s[i]]
  {
  }

  class LogBotFactory {
    const channel: string
    /** The long-poll resource every new action is published to. */
    const webResource: Hub.IrcLogUpdate
    const nickname: string
    const historyCacheSize: int
    /** The JSON library; the same one the web resource encodes its payload with. */
    const json: Json
    /** The in-memory cache, oldest first. */
    var history: seq<Entry>
    /** The lines of the history file. */
    ghost var log: seq<string>

    ghost predicate Valid()
      reads this
    {
      json == webResource.json && RoundTrips(json) && CacheMatches(json, history, log, historyCacheSize)
    }

    /** `historyFile` is the content of the history file, None when it cannot be opened
     *  (the first append then creates it). */
    constructor (channel: string, webResource: Hub.IrcLogUpdate, nickname: string := "LogBot",
                 historyFile: Option<seq<string>>,
                 historyCacheSize: int := DefaultHistoryCacheSize)
      requires RoundTrips(webResource.json)
      ensures Valid()
      ensures this.channel == channel && this.webResource == webResource && this.nickname == nickname
      ensures this.historyCacheSize == historyCacheSize && json == webResource.json
      ensures log == historyFile.GetOr([])
      ensures history == LoadSpec(webResource.json, historyFile, historyCacheSize)
    {
      this.channel := channel;
      this.webResource := webResource;
      this.nickname := nickname;
      this.historyCacheSize := historyCacheSize;
      this.json := webResource.json;
      log := historyFile.GetOr([]);
      history := [];
      new;
      history := LoadHistory(historyFile);
      if historyFile.Some? {
        LoadMatchesFile(json, historyFile.value, historyCacheSize);
      }
    }

    /** load_history: keep the last history_cache_size lines while reading, then parse them. */
    method LoadHistory(file: Option<seq<string>>) returns (history: seq<Entry>)
      ensures history == LoadSpec(json, file, historyCacheSize)
    {
      history := [];
      if file.None? {
        // open() failed: the bare except returns the empty list
        return;
      }
      var kept := ReadWindow(file.value, historyCacheSize);
      history := seq(|kept|, i requires 0 <= i < |kept| => Raw(kept[i]));
      var parsed := ParseAll(json, kept);
      if parsed.Some? {
        // otherwise json.loads raised and the raw lines are returned
        history := seq(|kept|, i requires 0 <= i < |kept| => Parsed(parsed.value[i]));
      }
    }

    /**
     * add_to_history: append to the cache, trim it from the front, then append one line to
     * the file (the list is trimmed as a local value and stored back; nothing observes it
     * in between). With a negative capacity the trimming pops from the emptied list, which
     * raises (ok == false) before anything is written.
     * `json.dumps` and the file append are total here: their failures are not modelled.
     */
    method AddToHistory(action: Action) returns (ok: bool)
      requires Valid()
      modifies this`history, this`log
      ensures Valid()
      ensures ok <==> historyCacheSize >= 0
      ensures ok ==> history == Window(old(history) + [Parsed(action)], historyCacheSize)
      ensures ok ==> log == old(log) + [json.dumps(action)]
      ensures !ok ==> history == [] && log == old(log)
    {
      if historyCacheSize >= 0 {
        AppendKeepsMatch(json, history, log, historyCacheSize, action);
      }
      var trimmed := TrimFront(history + [Parsed(action)], historyCacheSize);
      if trimmed.None? {
        // pop(0) on an empty list raised IndexError; the list was left empty
        history := [];
        return false;
      }
      history := trimmed.value;
      log := log + [json.dumps(action)];
      ok := true;
    }
  }
}
