/**
 * The imperative relay of server.py: the `Server` object with its client list
 * and history, and the callbacks of each connection's protocol object, which
 * update them in place. Every method is proved against the transition of the
 * `Relay` module that describes it.
 */
module Chat {
  import opened Wrappers
  import opened Text
  import History
  import opened Relay

  /** The server, together with the login and transport of every protocol
      object it has built. A method taking `id` runs on behalf of the
      protocol object `id`, the `self` of the source's callbacks. */
  class Server {
    var clients: seq<nat>
    var history: seq<string>
    var login: map<nat, Option<string>>
    var output: map<nat, seq<string>>
    var closed: map<nat, bool>

    /** The relay state these fields hold. */
    function Snapshot(): State
      reads this
    {
      State(clients, history, login, output, closed)
    }

    ghost predicate Valid()
      reads this
    {
      Inv(Snapshot())
    }

    /** `Server()`: no clients and an empty history. */
    constructor ()
      ensures Valid() && Snapshot() == Initial
    {
      clients, history := [], [];
      login, output, closed := map[], map[], map[];
      InitialInv();
    }

    /** `connection_made`: the new protocol object is appended to the clients
        with no login and an empty, open transport. */
    method ConnectionMade(id: nat)
      requires Valid()
      requires id !in login
      modifies this
      ensures Valid()
      ensures Snapshot() == Connect(old(Snapshot()), id)
    {
      ConnectKeepsInv(Snapshot(), id);
      clients := clients + [id];
      login := login[id := None];
      output := output[id := []];
      closed := closed[id := false];
    }

    /** `connection_lost`: the session is removed from the clients with
        `list.remove`, which fails unless it is registered. */
    method ConnectionLost(id: nat)
      requires Valid()
      requires id in clients
      modifies this
      ensures Valid()
      ensures Snapshot() == Disconnect(old(Snapshot()), id)
      ensures id !in clients
    {
      DisconnectKeepsInv(Snapshot(), id);
      clients := RemoveFirst(clients, id);
    }

    /** `is_login_exists`: whether some registered client is logged in as
        `name`; sessions that have not logged in never match. */
    method IsLoginExists(name: string) returns (found: bool)
      ensures found <==> Held(clients, login, name)
    {
      var i := 0;
      while i < |clients|
        invariant 0 <= i <= |clients|
        invariant forall k :: 0 <= k < i ==> LoginOf(login, clients[k]) != Some(name)
      {
        if LoginOf(login, clients[i]) == Some(name) {
          return true;
        }
        i := i + 1;
      }
      return false;
    }

    /** `transport.write` on session `id`'s transport. */
    method Write(id: nat, line: string)
      requires id in output
      modifies this
      ensures Snapshot() == old(Snapshot()).(output := old(output)[id := old(output[id]) + [line]])
    {
      output := output[id := output[id] + [line]];
    }

    /** `add_history`: the line becomes the newest entry and the oldest is
        dropped once more than ten are held. */
    method AddHistory(line: string)
      modifies this
      ensures Snapshot() == old(Snapshot()).(history := History.Push(old(history), line))
    {
      history := history + [line];
      if |history| > History.Capacity {
        history := history[1..];
      }
    }

    /** `send_history`: the history is written, oldest first, to session
        `id`'s transport and to no other. */
    method SendHistory(id: nat)
      requires id in output
      modifies this
      ensures Snapshot() == old(Snapshot()).(output := old(output)[id := old(output[id]) + old(history)])
    {
      var i := 0;
      while i < |history|
        invariant 0 <= i <= |history|
        invariant output.Keys == old(output).Keys
        invariant output[id] == old(output[id]) + history[..i]
        invariant forall k :: k in output && k != id ==> output[k] == old(output[k])
        invariant Snapshot() == old(Snapshot()).(output := output)
      {
        Write(id, history[i]);
        assert history[..i + 1] == history[..i] + [history[i]];
        i := i + 1;
      }
      assert history[..i] == history;
    }

    /** `send_message`: session `id`'s line for `content` goes into the
        history and is written once to every registered client, the sender and
        clients not yet logged in included. */
    method SendMessage(id: nat, content: string)
      requires Valid()
      requires id in login
      modifies this
      ensures Valid()
      ensures Snapshot() == Broadcast(old(Snapshot()), id, content)
    {
      BroadcastKeepsInv(Snapshot(), id, content);
      var line := ChatLine(login[id], content);
      AddHistory(line);
      FanOut(line);
    }

    /** The loop of `send_message`: `line` is written to the transport of every
        registered client, in order, and to no other. */
    method FanOut(line: string)
      requires Distinct(clients)
      requires forall i :: 0 <= i < |clients| ==> clients[i] in output
      modifies this
      ensures Snapshot() == old(Snapshot()).(output := Deliver(old(output), clients, line))
    {
      var i := 0;
      while i < |clients|
        invariant 0 <= i <= |clients|
        invariant output == Deliver(old(output), clients[..i], line)
        invariant Snapshot() == old(Snapshot()).(output := output)
      {
        var c := clients[i];
        assert c !in clients[..i] by {
          forall j | 0 <= j < i ensures clients[..i][j] != c {
            assert clients[j] != clients[i];
          }
        }
        DeliverOneMore(old(output), clients, i, line);
        Write(c, line);
        i := i + 1;
      }
      assert clients[..i] == clients;
    }

    /** `data_received`: one chunk of text from session `id`, handled as the
        login state machine describes (see `Relay.Step` and the lemmas after
        it). */
    method DataReceived(id: nat, chunk: string)
      requires Valid()
      requires id in login
      modifies this
      ensures Valid()
      ensures Snapshot() == Step(old(Snapshot()), id, chunk)
    {
      StepKeepsInv(Snapshot(), id, chunk);
      if login[id].Some? {
        SendMessage(id, RStrip(chunk));
      } else if LoginTag <= chunk {
        TryLogin(id, Candidate(chunk));
      }
    }

    /** The `login:` branch of `data_received` for the extracted handle `name`. */
    method TryLogin(id: nat, name: string)
      requires id in output && id in closed
      modifies this
      ensures Snapshot() == Claim(old(Snapshot()), id, name)
    {
      var taken := IsLoginExists(name);
      if taken {
        Write(id, BusyNotice);
        closed := closed[id := true];
        return;
      } else if name != [] {
        login := login[id := Some(name)];
        Write(id, Greeting(name));
        SendHistory(id);
        return;
      }
      Write(id, InvalidNotice);
    }
  }

  /** Writing `line` to the next client of the fan-out extends the delivery by
      one client. */
  lemma DeliverOneMore(before: map<nat, seq<string>>, clients: seq<nat>, i: nat, line: string)
    requires i < |clients|
    requires clients[i] in before && clients[i] !in clients[..i]
    ensures Deliver(before, clients[..i], line)[clients[i] := Deliver(before, clients[..i], line)[clients[i]] + [line]]
         == Deliver(before, clients[..i + 1], line)
  {
    assert clients[..i + 1] == clients[..i] + [clients[i]];
  }
}
