/**
 * The IRC callbacks of LogBot (ircviewer.py:45-88): each event becomes one action that is
 * first added to the history and then published to the waiting web clients.
 */
module Bot {
  import opened Wrappers
  import opened Actions
  import opened Sanitize
  import opened History
  import Hub

  /** The four callbacks and their arguments, as the IRC client delivers them. */
  datatype IrcEvent =
    | ChannelMessage(user: string, channel: string, message: string)  // privmsg
    | MemberJoined(user: string, channel: string)                     // userJoined
    | MemberLeft(user: string, channel: string)                       // userLeft
    | MemberQuit(user: string, quitMessage: string)                   // userQuit

  /**
   * The action a callback builds, at time `now` (int(time.time())). The raw hostmask is
   * kept; only a channel message carries a message, and the quit message is dropped.
   */
  function ActionFor(event: IrcEvent, now: int): (a: Action)
    ensures a.user == event.user && a.timestamp == now
    ensures a.message.Some? <==> event.ChannelMessage?
    ensures event.ChannelMessage? ==> a.message == Some(event.message)
    ensures a.command == "privmsg" <==> event.ChannelMessage?
    ensures a.command == "userjoined" <==> event.MemberJoined?
    ensures a.command == "userleft" <==> event.MemberLeft?
    ensures a.command == "userquit" <==> event.MemberQuit?
  {
    match event
    case ChannelMessage(user, _, message) => Action("privmsg", user, Some(message), now)
    case MemberJoined(user, _) => Action("userjoined", user, None, now)
    case MemberLeft(user, _) => Action("userleft", user, None, now)
    case MemberQuit(user, _) => Action("userquit", user, None, now)
  }

  /** The command tells which callback produced an action. */
  lemma CommandIdentifiesEvent(e1: IrcEvent, e2: IrcEvent, t1: int, t2: int)
    requires ActionFor(e1, t1).command == ActionFor(e2, t2).command
    ensures e1.ChannelMessage? == e2.ChannelMessage? && e1.MemberJoined? == e2.MemberJoined?
    ensures e1.MemberLeft? == e2.MemberLeft? && e1.MemberQuit? == e2.MemberQuit?
  {
  }

  class LogBot {
    const factory: LogBotFactory

    constructor (factory: LogBotFactory)
      ensures this.factory == factory
    {
      this.factory := factory;
    }

    /**
     * The effect of one relayed action: add_to_history ran first; if it returned, the
     * web resource delivered the sanitised action to every request waiting before the
     * call and was emptied; if it raised (in the model, only a negative capacity), nothing was published.
     */
    twostate predicate Relayed(action: Action, ok: bool)
      reads this, factory, factory.webResource
    {
      var hub := factory.webResource;
      && factory.Valid()
      && (ok <==> factory.historyCacheSize >= 0)
      && (ok ==> factory.history == Window(old(factory.history) + [Parsed(action)], factory.historyCacheSize))
      && (ok ==> factory.log == old(factory.log) + [factory.json.dumps(action)])
      && (!ok ==> factory.history == [] && factory.log == old(factory.log))
      && (ok ==> hub.clients == [] &&
                 hub.output == old(hub.output) + Hub.Fanout(old(hub.clients), hub.json.dumps(PrepareAction(action))))
      && (!ok ==> hub.clients == old(hub.clients) && hub.output == old(hub.output))
    }

    /** The common body of the four callbacks: `add_to_history(action)` then
     *  `web_resource.update(action)`; `ok` is false when add_to_history raised. */
    method Relay(action: Action) returns (ok: bool)
      requires factory.Valid()
      modifies factory, factory.webResource
      ensures Relayed(action, ok)
    {
      ok := factory.AddToHistory(action);
      if ok {
        factory.webResource.Update(action);
      }
    }

    method Privmsg(user: string, channel: string, message: string, now: int) returns (ok: bool)
      requires factory.Valid()
      modifies factory, factory.webResource
      ensures Relayed(ActionFor(ChannelMessage(user, channel, message), now), ok)
    {
      ok := Relay(ActionFor(ChannelMessage(user, channel, message), now));
    }

    method UserJoined(user: string, channel: string, now: int) returns (ok: bool)
      requires factory.Valid()
      modifies factory, factory.webResource
      ensures Relayed(ActionFor(MemberJoined(user, channel), now), ok)
    {
      ok := Relay(ActionFor(MemberJoined(user, channel), now));
    }

    method UserLeft(user: string, channel: string, now: int) returns (ok: bool)
      requires factory.Valid()
      modifies factory, factory.webResource
      ensures Relayed(ActionFor(MemberLeft(user, channel), now), ok)
    {
      ok := Relay(ActionFor(MemberLeft(user, channel), now));
    }

    method UserQuit(user: string, message: string, now: int) returns (ok: bool)
      requires factory.Valid()
      modifies factory, factory.webResource
      ensures Relayed(ActionFor(MemberQuit(user, message), now), ok)
    {
      ok := Relay(ActionFor(MemberQuit(user, message), now));
    }
  }
}
