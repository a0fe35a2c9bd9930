/**
 * The long-poll resource IrcLogUpdate (ircviewer.py:183-218): waiting requests are
 * held in `clients` until the next action, which is written to each of them before
 * it is finished.
 */
module Hub {
  import opened Actions
  import opened Sanitize
  import opened Auth

  /** A pending HTTP request; only its identity matters here. */
  type RequestId = nat

  /** An incoming GET: its identity and the Basic credentials it carries ("" when absent). */
  datatype Request = Request(id: RequestId, user: string, password: string)

  /** What render_GET returns: server.NOT_DONE_YET, or the decorator's 401 with its body. */
  datatype Response = NotDoneYet | Rejected(status: int, body: string)

  /** A call on a request object: `request.write(payload)` or `request.finish()`. */
  datatype Event = Write(client: RequestId, payload: string) | Finish(client: RequestId)

  predicate NoDuplicates(s: seq<RequestId>) {
    forall i, j :: 0 <= i < j < |s| ==> s[i] != s[j]
  }

  /** The position of the first occurrence of `c`. */
  function FirstIndex(s: seq<RequestId>, c: RequestId): (k: nat)
    requires c in s
    ensures k < |s| && s[k] == c && c !in s[..k]
  {
    if s[0] == c then 0 else 1 + FirstIndex(s[1..], c)
  }

  /** `list.remove(c)`: drops the first occurrence of `c`, keeping the order of the rest. */
  function RemoveFirst(s: seq<RequestId>, c: RequestId): (r: seq<RequestId>)
    ensures c !in s ==> r == s
    ensures c in s ==> |r| == |s| - 1
  {
    if s == [] then []
    else if s[0] == c then s[1..]
    else [s[0]] + RemoveFirst(s[1..], c)
  }

  /** A present request is cut out at its first position; everything before and after it stays. */
  lemma {:induction false} RemoveFirstSplit(s: seq<RequestId>, c: RequestId)
    requires c in s
    ensures RemoveFirst(s, c) == s[..FirstIndex(s, c)] + s[FirstIndex(s, c) + 1..]
  {
    if s[0] != c {
      RemoveFirstSplit(s[1..], c);
      var k := FirstIndex(s[1..], c);
      assert s[..k + 1] == [s[0]] + s[1..][..k];
      assert s[k + 2..] == s[1..][k + 1..];
    }
  }

  /** Removal takes away exactly one copy of a present request and nothing else. */
  lemma {:induction false} RemoveFirstCounts(s: seq<RequestId>, c: RequestId)
    ensures multiset(RemoveFirst(s, c)) == multiset(s) - multiset{c}
  {
    if s != [] {
      assert s == [s[0]] + s[1..];
      if s[0] != c {
        RemoveFirstCounts(s[1..], c);
      }
    }
  }

  /** The i-th request left after removal is the i-th before it, or the next one from the removed position on. */
  lemma RemoveFirstAt(s: seq<RequestId>, c: RequestId, i: nat)
    requires c in s && i < |s| - 1
    ensures |RemoveFirst(s, c)| == |s| - 1
    ensures RemoveFirst(s, c)[i] == if i < FirstIndex(s, c) then s[i] else s[i + 1]
  {
    var k := FirstIndex(s, c);
    var r := RemoveFirst(s, c);
    RemoveFirstSplit(s, c);
    if i < k {
      assert r[i] == s[..k][i];
    } else {
      assert r[i] == s[k + 1..][i - k];
    }
  }

  /** On a list of distinct requests, removal takes the request out for good and keeps the
   *  list distinct, so a second removal of the same request changes nothing. */
  lemma RemoveFirstDistinct(s: seq<RequestId>, c: RequestId)
    requires NoDuplicates(s)
    ensures c !in RemoveFirst(s, c)
    ensures NoDuplicates(RemoveFirst(s, c))
    ensures RemoveFirst(RemoveFirst(s, c), c) == RemoveFirst(s, c)
  {
    if c in s {
      var k := FirstIndex(s, c);
      var r := RemoveFirst(s, c);
      forall i | 0 <= i < |r| ensures r[i] != c {
        RemoveFirstAt(s, c, i);
      }
      forall i, j | 0 <= i < j < |r| ensures r[i] != r[j] {
        RemoveFirstAt(s, c, i);
        RemoveFirstAt(s, c, j);
      }
    }
  }

  /** The calls `update` makes: for each request in order, a write of the payload and then a finish. */
  function Fanout(clients: seq<RequestId>, payload: string): (t: seq<Event>)
    ensures |t| == 2 * |clients|
  {
    if clients == [] then []
    else [Write(clients[0], payload), Finish(clients[0])] + Fanout(clients[1..], payload)
  }

  /** The calls on the i-th request sit at positions 2i and 2i+1: its write comes right before its finish. */
  lemma {:induction false} FanoutAt(clients: seq<RequestId>, payload: string, i: nat)
    requires i < |clients|
    ensures Fanout(clients, payload)[2 * i] == Write(clients[i], payload)
    ensures Fanout(clients, payload)[2 * i + 1] == Finish(clients[i])
  {
    if i > 0 {
      FanoutAt(clients[1..], payload, i - 1);
    }
  }

  lemma {:induction false} FanoutSnoc(clients: seq<RequestId>, c: RequestId, payload: string)
    ensures Fanout(clients + [c], payload) == Fanout(clients, payload) + [Write(c, payload), Finish(c)]
  {
    if clients != [] {
      assert (clients + [c])[1..] == clients[1..] + [c];
      FanoutSnoc(clients[1..], c, payload);
    } else {
      assert clients + [c] == [c];
    }
  }

  /** The requests written to, in the order of the writes. */
  function Written(t: seq<Event>): seq<RequestId> {
    if t == [] then [] else (if t[0].Write? then [t[0].client] else []) + Written(t[1..])
  }

  /** The requests finished, in the order of the finishes. */
  function Finished(t: seq<Event>): seq<RequestId> {
    if t == [] then [] else (if t[0].Finish? then [t[0].client] else []) + Finished(t[1..])
  }

  lemma {:induction false} FanoutWritten(clients: seq<RequestId>, payload: string)
    ensures Written(Fanout(clients, payload)) == clients
  {
    if clients != [] {
      var t := Fanout(clients, payload);
      FanoutWritten(clients[1..], payload);
      assert t[1..][1..] == Fanout(clients[1..], payload);
      assert clients == [clients[0]] + clients[1..];
    }
  }

  lemma {:induction false} FanoutFinished(clients: seq<RequestId>, payload: string)
    ensures Finished(Fanout(clients, payload)) == clients
  {
    if clients != [] {
      var t := Fanout(clients, payload);
      FanoutFinished(clients[1..], payload);
      assert t[1..][1..] == Fanout(clients[1..], payload);
      assert clients == [clients[0]] + clients[1..];
    }
  }

  /** The fan-out writes to and finishes exactly the given requests, each as often as it is
   *  listed, in list order; every write carries the one payload; a request not in the list
   *  sees no call at all. */
  lemma FanoutDelivers(clients: seq<RequestId>, payload: string)
    ensures Written(Fanout(clients, payload)) == clients
    ensures Finished(Fanout(clients, payload)) == clients
    ensures forall e :: e in Fanout(clients, payload) ==> e.client in clients
    ensures forall e :: e in Fanout(clients, payload) && e.Write? ==> e.payload == payload
  {
    FanoutWritten(clients, payload);
    FanoutFinished(clients, payload);
    var t := Fanout(clients, payload);
    forall e | e in t ensures e.client in clients && (e.Write? ==> e.payload == payload) {
      var k :| 0 <= k < |t| && t[k] == e;
      FanoutAt(clients, payload, k / 2);
    }
  }

  /** Two requests wait, the first disconnects before any action: only the second is served. */
  lemma DisconnectBeforeUpdateExample(first: RequestId, second: RequestId, payload: string)
    requires first != second
    ensures Fanout(RemoveFirst([first, second], first), payload) == [Write(second, payload), Finish(second)]
  {
    assert RemoveFirst([first, second], first) == [second];
  }

  class IrcLogUpdate {
    /** The JSON encoder of the payload. */
    const json: Json
    /** The requests waiting for the next action, in registration order. Each GET is a new
     *  request object appended once, so no request waits twice (NoDuplicates). */
    var clients: seq<RequestId>
    /** Every write and finish made on a request so far. */
    var output: seq<Event>

    constructor (json: Json)
      ensures this.json == json && clients == [] && output == []
      ensures NoDuplicates(clients)
    {
      this.json := json;
      clients := [];
      output := [];
    }

    /** render_GET behind the authenticate decorator: a request that passes is parked at the
     *  end of `clients` and left open; a rejected one changes nothing. */
    method RenderGet(request: Request, config: AuthConfig) returns (r: Response)
      requires NoDuplicates(clients) && request.id !in clients
      modifies this`clients
      ensures NoDuplicates(clients)
      ensures Authenticate(config, request.user, request.password) == CallHandler ==>
                r == NotDoneYet && clients == old(clients) + [request.id]
      ensures Authenticate(config, request.user, request.password).Denied? ==>
                r == Rejected(Unauthorized, "") && clients == old(clients)
    {
      var gate := Authenticate(config, request.user, request.password);
      if gate.Denied? {
        return Rejected(gate.status, gate.body);
      }
      ghost var before := clients;
      clients := clients + [request.id];
      assert forall i :: 0 <= i < |before| ==> clients[i] == before[i];
      r := NotDoneYet;
    }

    /** lost_client: the disconnect errback; removes the request if it is still waiting. */
    method LostClient(client: RequestId)
      requires NoDuplicates(clients)
      modifies this`clients
      ensures clients == RemoveFirst(old(clients), client)
      ensures NoDuplicates(clients) && client !in clients
    {
      RemoveFirstDistinct(clients, client);
      if client in clients {
        clients := RemoveFirst(clients, client);
      }
    }

    /** update: takes the waiting list, empties it, then writes the sanitised action to each
     *  taken request and finishes it. */
    method Update(action: Action)
      modifies this`clients, this`output
      ensures clients == []
      ensures output == old(output) + Fanout(old(clients), json.dumps(PrepareAction(action)))
      ensures Written(output[|old(output)|..]) == old(clients)
      ensures Finished(output[|old(output)|..]) == old(clients)
      ensures NoDuplicates(old(clients)) ==> NoDuplicates(Written(output[|old(output)|..]))
    {
      var payload := json.dumps(PrepareAction(action));
      var waiting := clients;
      clients := [];
      ghost var before := output;
      for i := 0 to |waiting|
        invariant clients == []
        invariant output == before + Fanout(waiting[..i], payload)
      {
        var client := waiting[i];
        FanoutSnoc(waiting[..i], client, payload);
        assert waiting[..i + 1] == waiting[..i] + [client];
        output := output + [Write(client, payload)];
        output := output + [Finish(client)];
      }
      assert waiting[..|waiting|] == waiting;
      assert output[|before|..] == Fanout(waiting, payload);
      FanoutWritten(waiting, payload);
      FanoutFinished(waiting, payload);
    }
  }
}
