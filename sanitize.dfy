/**
 * Output sanitisation: escape_html and prepare_action (ircviewer.py:139-148, 166-180).
 */
module Sanitize {
  import opened Wrappers
  import opened Actions

  /** The five characters escape_html's table rewrites. */
  predicate IsSpecial(c: char) {
    c == '&' || c == '"' || c == '\'' || c == '>' || c == '<'
  }

  /** The characters that must never appear raw in escaped text. */
  predicate IsMarkup(c: char) {
    c == '"' || c == '\'' || c == '>' || c == '<'
  }

  /** Text none of whose characters is in the table. */
  predicate Plain(s: string) {
    forall i :: 0 <= i < |s| ==> !IsSpecial(s[i])
  }

  /** Text with no raw quote, apostrophe or angle bracket. */
  predicate NoMarkup(s: string) {
    forall i :: 0 <= i < |s| ==> !IsMarkup(s[i])
  }

  /** The table lookup `html_escape_table.get(c, c)`. */
  function EscapeChar(c: char): (r: string)
    ensures !IsSpecial(c) <==> r == [c]
    ensures IsSpecial(c) ==> |r| > 1 && r[0] == '&'
    ensures NoMarkup(r)
  {
    match c
    case '&' => "&amp;"
    case '"' => "&quot;"
    case '\'' => "&apos;"
    case '>' => "&gt;"
    case '<' => "&lt;"
    case _ => [c]
  }

  /** escape_html: the concatenation of the entity of every character, in order. */
  function EscapeHtml(text: string): (r: string)
    ensures |r| >= |text|
    ensures NoMarkup(r)
    ensures Plain(text) ==> r == text
  {
    if text == [] then [] else EscapeChar(text[0]) + EscapeHtml(text[1..])
  }

  /** The inverse reading of escaped text: each of the five entities stands for its character. */
  function Unescape(s: string): string
    decreases |s|
  {
    if s == [] then []
    else if |s| >= 5 && s[..5] == "&amp;" then "&" + Unescape(s[5..])
    else if |s| >= 6 && s[..6] == "&quot;" then "\"" + Unescape(s[6..])
    else if |s| >= 6 && s[..6] == "&apos;" then "'" + Unescape(s[6..])
    else if |s| >= 4 && s[..4] == "&gt;" then ">" + Unescape(s[4..])
    else if |s| >= 4 && s[..4] == "&lt;" then "<" + Unescape(s[4..])
    else [s[0]] + Unescape(s[1..])
  }

  /** Reading back the entity of one character, followed by anything, yields that character first. */
  lemma {:induction false} UnescapeEntity(c: char, t: string)
    ensures Unescape(EscapeChar(c) + t) == [c] + Unescape(t)
  {
    match c
    case '&' => UnescapeAmp(t);
    case '"' => UnescapeQuot(t);
    case '\'' => UnescapeApos(t);
    case '>' => UnescapeGt(t);
    case '<' => UnescapeLt(t);
    case _ =>
      var s := [c] + t;
      assert s[0] == c && s[1..] == t;
  }

  lemma {:induction false} UnescapeAmp(t: string)
    ensures Unescape("&amp;" + t) == "&" + Unescape(t)
  {
    var s := "&amp;" + t;
    assert s[..5] == "&amp;" && s[5..] == t;
  }

  lemma {:induction false} UnescapeQuot(t: string)
    ensures Unescape("&quot;" + t) == "\"" + Unescape(t)
  {
    var s := "&quot;" + t;
    assert s[1] == 'q';
    assert s[..6] == "&quot;" && s[6..] == t;
  }

  lemma {:induction false} UnescapeApos(t: string)
    ensures Unescape("&apos;" + t) == "'" + Unescape(t)
  {
    var s := "&apos;" + t;
    assert s[1] == 'a' && s[2] == 'p';
    assert s[..6] == "&apos;" && s[6..] == t;
  }

  lemma {:induction false} UnescapeGt(t: string)
    ensures Unescape("&gt;" + t) == ">" + Unescape(t)
  {
    var s := "&gt;" + t;
    assert s[1] == 'g';
    assert s[..4] == "&gt;" && s[4..] == t;
  }

  lemma {:induction false} UnescapeLt(t: string)
    ensures Unescape("&lt;" + t) == "<" + Unescape(t)
  {
    var s := "&lt;" + t;
    assert s[1] == 'l';
    assert s[..4] == "&lt;" && s[4..] == t;
  }

  /** Escaping maps each character independently: it distributes over concatenation. */
  lemma {:induction false} EscapeConcat(a: string, b: string)
    ensures EscapeHtml(a + b) == EscapeHtml(a) + EscapeHtml(b)
  {
    if a == [] {
      assert a + b == b;
    } else {
      assert (a + b)[0] == a[0];
      assert (a + b)[1..] == a[1..] + b;
      EscapeConcat(a[1..], b);
    }
  }

  /** Escaping loses nothing: unescaping its output gives back the input. */
  lemma {:induction false} UnescapeEscape(text: string)
    ensures Unescape(EscapeHtml(text)) == text
  {
    if text != [] {
      UnescapeEntity(text[0], EscapeHtml(text[1..]));
      UnescapeEscape(text[1..]);
    }
  }

  /** So two different texts never escape to the same output. */
  lemma EscapeInjective(a: string, b: string)
    requires EscapeHtml(a) == EscapeHtml(b)
    ensures a == b
  {
    UnescapeEscape(a);
    UnescapeEscape(b);
  }

  /** Text holding any table character comes out strictly longer and holding an `&`. */
  lemma {:induction false} EscapeGrows(text: string)
    requires !Plain(text)
    ensures |EscapeHtml(text)| > |text|
    ensures !Plain(EscapeHtml(text))
  {
    var r := EscapeHtml(text);
    if IsSpecial(text[0]) {
      assert r[0] == '&';
    } else {
      assert !Plain(text[1..]) by {
        var i :| 0 <= i < |text| && IsSpecial(text[i]);
        assert i > 0 && text[1..][i - 1] == text[i];
      }
      EscapeGrows(text[1..]);
      var k :| 0 <= k < |EscapeHtml(text[1..])| && IsSpecial(EscapeHtml(text[1..])[k]);
      assert r[k + 1] == EscapeHtml(text[1..])[k];
    }
  }

  /** Escaping is idempotent exactly on text with none of the five characters:
   *  since `&` is always rewritten, already-escaped text is escaped again. */
  lemma EscapeIdempotentIff(text: string)
    ensures EscapeHtml(EscapeHtml(text)) == EscapeHtml(text) <==> Plain(text)
  {
    if !Plain(text) {
      EscapeGrows(text);
      EscapeGrows(EscapeHtml(text));
    }
  }

  /** The concrete instance: an entity is escaped a second time. */
  lemma EscapeEntityAgain()
    ensures EscapeHtml("&lt;") == "&amp;lt;"
  {
    EscapeConcat("&", "lt;");
    assert Plain("lt;");
  }

  /** `user.split('!')[0]`: the part of a hostmask before the first `!`. */
  function DisplayName(user: string): (r: string)
    ensures r <= user
    ensures '!' !in r
    ensures r == user || user[|r|] == '!'
  {
    if user == [] || user[0] == '!' then [] else [user[0]] + DisplayName(user[1..])
  }

  /** The conditions above fix the display name uniquely. */
  lemma DisplayNameUnique(user: string, name: string)
    requires name <= user && '!' !in name && (name == user || user[|name|] == '!')
    ensures name == DisplayName(user)
  {
    assert name == user[..|name|];
  }

  /** Every string field of a sanitised action is free of raw markup. */
  predicate Safe(a: Action) {
    NoMarkup(a.command) && NoMarkup(a.user) && (a.message.Some? ==> NoMarkup(a.message.value))
  }

  /**
   * prepare_action on a copy of the action: `user` cut at its first `!`, then every
   * string value escaped; the integer timestamp passes through. The key names
   * command, user, message and timestamp are unchanged by escaping (KeysArePlain),
   * so the rewrite adds no key.
   */
  function PrepareAction(action: Action): (r: Action)
    ensures Safe(r)
    ensures r.message.Some? <==> action.message.Some?
    ensures r.timestamp == action.timestamp
  {
    Action(EscapeHtml(action.command), EscapeHtml(DisplayName(action.user)),
           if action.message.Some? then Some(EscapeHtml(action.message.value)) else None,
           action.timestamp)
  }

  /** What a client receives: no raw markup in any string; the command and message read
   *  back as they were; the user reads back as its display name; the optional message
   *  stays present or absent; the timestamp is untouched. */
  lemma PrepareActionSpec(action: Action)
    ensures Safe(PrepareAction(action))
    ensures Unescape(PrepareAction(action).command) == action.command
    ensures Unescape(PrepareAction(action).user) == DisplayName(action.user)
    ensures PrepareAction(action).message.Some? <==> action.message.Some?
    ensures action.message.Some? ==> Unescape(PrepareAction(action).message.value) == action.message.value
    ensures PrepareAction(action).timestamp == action.timestamp
  {
    UnescapeEscape(action.command);
    UnescapeEscape(DisplayName(action.user));
    if action.message.Some? {
      UnescapeEscape(action.message.value);
    }
  }

  /** Escaping a key name of the action record leaves it as it is. */
  lemma KeysArePlain()
    ensures EscapeHtml("command") == "command"
    ensures EscapeHtml("user") == "user"
    ensures EscapeHtml("message") == "message"
    ensures EscapeHtml("timestamp") == "timestamp"
  {
    assert Plain("command") && Plain("user") && Plain("message") && Plain("timestamp");
  }

  /** A hostmask reduced to its nickname. */
  lemma DisplayNameExample()
    ensures DisplayName("alice!host") == "alice"
  {
    assert "alice!host"[5] == '!';
    DisplayNameUnique("alice!host", "alice");
  }

  lemma EscapeSingle(c: char)
    ensures EscapeHtml([c]) == EscapeChar(c)
  {
    assert [c][1..] == [];
  }

  /** Angle brackets in a message become entities. */
  lemma EscapeMarkupExample()
    ensures EscapeHtml("<hi>") == "&lt;hi&gt;"
  {
    EscapeSingle('<');
    EscapeSingle('>');
    assert EscapeHtml("hi") == "hi" by { assert Plain("hi"); }
    assert "hi" + ">" == "hi>" && "<" + "hi>" == "<hi>";
    EscapeConcat("hi", ">");
    EscapeConcat("<", "hi>");
    assert "&lt;" + ("hi" + "&gt;") == "&lt;hi&gt;";
  }

  /** Names without table characters are sent as they are. */
  lemma PlainNamesExample()
    ensures EscapeHtml("alice") == "alice" && EscapeHtml("privmsg") == "privmsg"
  {
    assert Plain("alice") && Plain("privmsg");
  }

  /** A hostmask and markup in a message, sanitised. */
  lemma PrepareActionExample()
    ensures PrepareAction(Action("privmsg", "alice!host", Some("<hi>"), 1000))
         == Action("privmsg", "alice", Some("&lt;hi&gt;"), 1000)
  {
    DisplayNameExample();
    EscapeMarkupExample();
    PlainNamesExample();
  }
}
