/**
 * The state of the chat relay of server.py as a value, and each callback of
 * the server as a transition on that value.
 *
 * Each protocol object of the source is identified by a number. A
 * connection's transport is modelled as the sequence of strings written to it
 * and a flag saying whether the server has closed it. asyncio runs one
 * callback at a time, so each transition is one atomic step.
 */
module Relay {
  import opened Wrappers
  import opened Text
  import History

  /** The command prefix a client sends to claim a handle. */
  const LoginTag: string := "login:"

  /** The notice sent before closing a connection whose handle is taken. It is
      a plain string literal in the source, so `{login}` appears as written. */
  const BusyNotice: string := "Логин {login} занят, попробуйте другой\n"

  /** The notice sent when the handle left after trimming is empty. */
  const InvalidNotice: string := "Неправильный логин\n"

  /** The greeting sent to a connection that has just logged in. */
  function Greeting(name: string): string {
    "Привет, " + name + "!\n"
  }

  /** How a login is rendered inside an f-string: Python shows `None` as "None". */
  function Shown(login: Option<string>): string {
    match login
    case None => "None"
    case Some(name) => name
  }

  /** The broadcast line `f"{login}: {content}\n"`. */
  function ChatLine(login: Option<string>, content: string): string {
    Shown(login) + ": " + content + "\n"
  }

  /** The handle claimed by a `login:` chunk: every occurrence of the tag is
      deleted, then whitespace is trimmed at both ends. */
  function Candidate(chunk: string): (r: string)
    ensures r == [] || (!IsSpace(r[0]) && !IsSpace(r[|r| - 1]))
    ensures |r| <= |chunk|
  {
    Strip(RemoveAll(chunk, LoginTag))
  }

  /** The server and every protocol object it has seen.
      - `clients`: the registered sessions, in the order they connected;
      - `history`: the recent broadcast lines, oldest first;
      - `login`: each session's login, `None` until login succeeds;
      - `output`: everything written to each session's transport, in order;
      - `closed`: whether the server has closed each session's transport. */
  datatype State = State(
    clients: seq<nat>,
    history: seq<string>,
    login: map<nat, Option<string>>,
    output: map<nat, seq<string>>,
    closed: map<nat, bool>)

  /** `Server()`: no clients, an empty history, no sessions. */
  const Initial: State := State([], [], map[], map[], map[])

  /** The login of session `id`, or `None` for an unknown id. */
  function LoginOf(login: map<nat, Option<string>>, id: nat): Option<string> {
    if id in login then login[id] else None
  }

  /** Some client in `clients` is logged in as `name`. */
  ghost predicate Held(clients: seq<nat>, login: map<nat, Option<string>>, name: string) {
    exists i :: 0 <= i < |clients| && LoginOf(login, clients[i]) == Some(name)
  }

  /** No session appears twice in `clients`. */
  ghost predicate Distinct(clients: seq<nat>) {
    forall i, j :: 0 <= i < j < |clients| ==> clients[i] != clients[j]
  }

  /** No two clients share a login, and every login held by a client is a
      non-empty handle. */
  ghost predicate LoginsUnique(clients: seq<nat>, login: map<nat, Option<string>>) {
    && (forall i, j :: 0 <= i < j < |clients| && LoginOf(login, clients[i]).Some? ==>
          LoginOf(login, clients[i]) != LoginOf(login, clients[j]))
    && (forall i :: 0 <= i < |clients| && LoginOf(login, clients[i]).Some? ==>
          LoginOf(login, clients[i]).value != [])
  }

  /** The registry invariant: every session has a login slot, a transport and
      a closed flag; each client is a known session registered once; logins
      are unique and non-empty; the history is within its bound. */
  ghost predicate Inv(s: State) {
    && s.output.Keys == s.login.Keys && s.closed.Keys == s.login.Keys
    && (forall i :: 0 <= i < |s.clients| ==> s.clients[i] in s.login)
    && Distinct(s.clients)
    && LoginsUnique(s.clients, s.login)
    && |s.history| <= History.Capacity
  }

  /** The position `list.index(x)` finds: the first occurrence of `x`. */
  function IndexOf(s: seq<nat>, x: nat): (i: nat)
    requires x in s
    ensures i < |s| && s[i] == x && x !in s[..i]
  {
    if s[0] == x then 0
    else
      var i := 1 + IndexOf(s[1..], x);
      assert s[..i] == [s[0]] + s[1..][..i - 1];
      i
  }

  /** `list.remove(x)`: the list without the first occurrence of `x`, every
      other element kept in order. */
  function RemoveFirst(s: seq<nat>, x: nat): (r: seq<nat>)
    requires x in s
    ensures |r| == |s| - 1
    ensures multiset(r) == multiset(s) - multiset{x}
    ensures forall j :: 0 <= j < |r| ==> r[j] == if j < IndexOf(s, x) then s[j] else s[j + 1]
  {
    var i := IndexOf(s, x);
    assert s == s[..i] + [x] + s[i + 1..];
    s[..i] + s[i + 1..]
  }

  /** The transports after `line` is written once to each client in `clients`. */
  function Deliver(output: map<nat, seq<string>>, clients: seq<nat>, line: string): (r: map<nat, seq<string>>)
    ensures r.Keys == output.Keys
    ensures forall k :: k in output && k in clients ==> r[k] == output[k] + [line]
    ensures forall k :: k in output && k !in clients ==> r[k] == output[k]
  {
    map k | k in output :: output[k] + if k in clients then [line] else []
  }

  /** `connection_made`: the new protocol object, not logged in, becomes the
      last client and gets an empty, open transport. */
  function Connect(s: State, id: nat): State
    requires id !in s.login
  {
    s.(clients := s.clients + [id],
       login := s.login[id := None],
       output := s.output[id := []],
       closed := s.closed[id := false])
  }

  /** `connection_lost`: the session leaves the clients; its own state stays. */
  function Disconnect(s: State, id: nat): State
    requires id in s.clients
  {
    s.(clients := RemoveFirst(s.clients, id))
  }

  /** `send_message`: session `id`'s line for `content` joins the history and
      is written to every client. */
  function Broadcast(s: State, id: nat, content: string): State
    requires id in s.login
  {
    var line := ChatLine(s.login[id], content);
    s.(history := History.Push(s.history, line), output := Deliver(s.output, s.clients, line))
  }

  /** The `login:` branch of `data_received` once the handle `name` has been
      extracted: refuse and close, greet and replay the history, or reject. */
  ghost function Claim(s: State, id: nat, name: string): State
    requires id in s.output && id in s.closed
  {
    if Held(s.clients, s.login, name) then
      s.(output := s.output[id := s.output[id] + [BusyNotice]], closed := s.closed[id := true])
    else if name != [] then
      s.(login := s.login[id := Some(name)],
         output := s.output[id := s.output[id] + [Greeting(name)] + s.history])
    else
      s.(output := s.output[id := s.output[id] + [InvalidNotice]])
  }

  /** `data_received`: what one chunk from session `id` does to the relay. */
  ghost function Step(s: State, id: nat, chunk: string): State
    requires id in s.login && id in s.output && id in s.closed
  {
    if s.login[id].Some? then Broadcast(s, id, RStrip(chunk))
    else if !(LoginTag <= chunk) then s
    else Claim(s, id, Candidate(chunk))
  }

  // ---------------------------------------------------------------------------
  // The registry invariant holds initially and every callback keeps it.

  lemma InitialInv()
    ensures Inv(Initial) && Initial.clients == [] && Initial.history == []
  {
  }

  lemma {:induction false} ConnectKeepsInv(s: State, id: nat)
    requires Inv(s) && id !in s.login
    ensures Inv(Connect(s, id))
  {
    var c := s.clients + [id];
    forall i, j | 0 <= i < j < |c| ensures c[i] != c[j] {
      if j == |s.clients| {
        assert c[i] == s.clients[i] && s.clients[i] in s.login;
      }
    }
    forall i | 0 <= i < |c| ensures LoginOf(s.login[id := None], c[i]) == if i < |s.clients| then LoginOf(s.login, c[i]) else None {
      if i < |s.clients| {
        assert c[i] == s.clients[i] && s.clients[i] in s.login;
      }
    }
  }

  /** Removing a registered session keeps the clients distinct and the
      registry invariant; exactly that session stops being a client. */
  lemma DisconnectKeepsInv(s: State, id: nat)
    requires Inv(s) && id in s.clients
    ensures Inv(Disconnect(s, id))
    ensures forall k :: k in Disconnect(s, id).clients <==> k in s.clients && k != id
  {
    RemoveKeepsDistinct(s.clients, id);
    RemoveKeepsUnique(s.clients, s.login, id);
    assert Disconnect(s, id) == s.(clients := RemoveFirst(s.clients, id));
  }

  /** `list.remove` on distinct sessions keeps them distinct and removes
      exactly the given session. */
  lemma RemoveKeepsDistinct(cs: seq<nat>, id: nat)
    requires Distinct(cs) && id in cs
    ensures Distinct(RemoveFirst(cs, id))
    ensures forall k :: k in RemoveFirst(cs, id) <==> k in cs && k != id
  {
    RemoveDistinctEntries(cs, id);
    var r := RemoveFirst(cs, id);
    var i := IndexOf(cs, id);
    forall a, b | 0 <= a < b < |r| ensures r[a] != r[b] {
      var a', b' := if a < i then a else a + 1, if b < i then b else b + 1;
      assert r[a] == cs[a'] && r[b] == cs[b'] && a' < b';
    }
    forall k | k in cs && k != id ensures k in r {
      var j :| 0 <= j < |cs| && cs[j] == k;
      assert r[if j < i then j else j - 1] == k;
    }
  }

  /** After `list.remove` on distinct sessions, none of the remaining entries
      is the removed session. */
  lemma RemoveDistinctEntries(cs: seq<nat>, id: nat)
    requires Distinct(cs) && id in cs
    ensures forall a :: 0 <= a < |RemoveFirst(cs, id)| ==> RemoveFirst(cs, id)[a] != id
  {
    var r := RemoveFirst(cs, id);
    var i := IndexOf(cs, id);
    forall a | 0 <= a < |r| ensures r[a] != id {
      var a' := if a < i then a else a + 1;
      assert r[a] == cs[a'] && cs[i] == id && a' != i;
    }
  }

  /** `list.remove` keeps the logins of the remaining clients unique and
      non-empty, and every remaining client known. */
  lemma RemoveKeepsUnique(cs: seq<nat>, login: map<nat, Option<string>>, id: nat)
    requires LoginsUnique(cs, login) && id in cs
    requires forall i :: 0 <= i < |cs| ==> cs[i] in login
    ensures LoginsUnique(RemoveFirst(cs, id), login)
    ensures forall a :: 0 <= a < |RemoveFirst(cs, id)| ==> RemoveFirst(cs, id)[a] in login
  {
    var r := RemoveFirst(cs, id);
    var i := IndexOf(cs, id);
    forall a, b | 0 <= a < b < |r| && LoginOf(login, r[a]).Some?
      ensures LoginOf(login, r[a]) != LoginOf(login, r[b])
    {
      var a', b' := if a < i then a else a + 1, if b < i then b else b + 1;
      assert r[a] == cs[a'] && r[b] == cs[b'] && a' < b';
    }
    forall a | 0 <= a < |r|
      ensures r[a] in login
      ensures LoginOf(login, r[a]).Some? ==> LoginOf(login, r[a]).value != []
    {
      var a' := if a < i then a else a + 1;
      assert r[a] == cs[a'];
    }
  }

  /** Under the registry invariant no client holds the empty handle, so an
      empty candidate always reaches the invalid-login branch. */
  lemma EmptyNeverHeld(clients: seq<nat>, login: map<nat, Option<string>>)
    requires LoginsUnique(clients, login)
    ensures !Held(clients, login, [])
  {
  }

  /** Setting a free, non-empty handle on a session that had none keeps the
      logins unique. */
  lemma {:induction false} ClaimKeepsUnique(clients: seq<nat>, login: map<nat, Option<string>>, id: nat, name: string)
    requires LoginsUnique(clients, login) && Distinct(clients)
    requires id in login && login[id].None?
    requires !Held(clients, login, name) && name != []
    ensures LoginsUnique(clients, login[id := Some(name)])
  {
    var login' := login[id := Some(name)];
    forall i, j | 0 <= i < j < |clients| && LoginOf(login', clients[i]).Some?
      ensures LoginOf(login', clients[i]) != LoginOf(login', clients[j])
    {
      if clients[i] == id {
        assert LoginOf(login, clients[j]) != Some(name);
      } else if clients[j] == id {
        assert LoginOf(login, clients[i]) != Some(name);
      }
    }
  }

  lemma BroadcastKeepsInv(s: State, id: nat, content: string)
    requires Inv(s) && id in s.login
    ensures Inv(Broadcast(s, id, content))
  {
  }

  lemma StepKeepsInv(s: State, id: nat, chunk: string)
    requires Inv(s) && id in s.login
    ensures Inv(Step(s, id, chunk))
  {
    if s.login[id].Some? {
      BroadcastKeepsInv(s, id, RStrip(chunk));
    } else if LoginTag <= chunk {
      ClaimKeepsInv(s, id, Candidate(chunk));
    }
  }

  /** Whatever the handle, the `login:` branch keeps the registry invariant. */
  lemma ClaimKeepsInv(s: State, id: nat, name: string)
    requires Inv(s) && id in s.login && s.login[id].None?
    ensures Inv(Claim(s, id, name))
  {
    if !Held(s.clients, s.login, name) && name != [] {
      ClaimKeepsUnique(s.clients, s.login, id, name);
    }
  }

  // ---------------------------------------------------------------------------
  // What one chunk does, case by case.

  /** Once logged in, every chunk is broadcast as `"<login>: <chunk without
      trailing whitespace>\n"`, with no login check and no history replay;
      the login, the clients and the closed flags stay as they were. */
  lemma StepLoggedIn(s: State, id: nat, chunk: string)
    requires id in s.login && id in s.output && id in s.closed
    requires s.login[id].Some?
    ensures var line := s.login[id].value + ": " + RStrip(chunk) + "\n";
      && Step(s, id, chunk).login == s.login
      && Step(s, id, chunk).clients == s.clients
      && Step(s, id, chunk).closed == s.closed
      && Step(s, id, chunk).history == History.Push(s.history, line)
      && Step(s, id, chunk).output == Deliver(s.output, s.clients, line)
  {
  }

  /** Before login, a chunk that does not start with `login:` changes nothing
      and writes nothing. */
  lemma StepNotACommand(s: State, id: nat, chunk: string)
    requires id in s.login && id in s.output && id in s.closed
    requires s.login[id].None? && !(LoginTag <= chunk)
    ensures Step(s, id, chunk) == s
  {
  }

  /** A `login:` chunk whose handle is held by a client: exactly the busy
      notice is written to this transport, which is closed; the session stays
      without a login and stays registered, and the history is untouched. */
  lemma StepRefused(s: State, id: nat, chunk: string)
    requires id in s.login && id in s.output && id in s.closed
    requires s.login[id].None? && LoginTag <= chunk && Held(s.clients, s.login, Candidate(chunk))
    ensures Step(s, id, chunk).output == s.output[id := s.output[id] + [BusyNotice]]
    ensures Step(s, id, chunk).closed == s.closed[id := true]
    ensures Step(s, id, chunk).login == s.login
    ensures Step(s, id, chunk).clients == s.clients && Step(s, id, chunk).history == s.history
  {
  }

  /** A `login:` chunk with a free, non-empty handle: the handle becomes the
      login, and the greeting followed by the whole history, oldest first, is
      written to this transport and to no other. */
  lemma StepWelcome(s: State, id: nat, chunk: string)
    requires id in s.login && id in s.output && id in s.closed
    requires s.login[id].None? && LoginTag <= chunk
    requires !Held(s.clients, s.login, Candidate(chunk)) && Candidate(chunk) != []
    ensures Step(s, id, chunk).login == s.login[id := Some(Candidate(chunk))]
    ensures Step(s, id, chunk).output == s.output[id := s.output[id] + [Greeting(Candidate(chunk))] + s.history]
    ensures Step(s, id, chunk).closed == s.closed
    ensures Step(s, id, chunk).clients == s.clients && Step(s, id, chunk).history == s.history
  {
  }

  /** A `login:` chunk whose handle is empty after trimming: only the
      invalid-login notice is written, and the session stays without a login. */
  lemma StepEmptyHandle(s: State, id: nat, chunk: string)
    requires Inv(s) && id in s.login
    requires s.login[id].None? && LoginTag <= chunk && Candidate(chunk) == []
    ensures Step(s, id, chunk) == s.(output := s.output[id := s.output[id] + [InvalidNotice]])
  {
    EmptyNeverHeld(s.clients, s.login);
  }

  /** A login, once set, never changes; no other session's login changes;
      and a login that is set was not held by any client just before. */
  lemma StepLoginFinal(s: State, id: nat, chunk: string)
    requires id in s.login && id in s.output && id in s.closed
    ensures Step(s, id, chunk).login.Keys == s.login.Keys
    ensures forall k :: k in s.login && (k != id || s.login[k].Some?) ==>
      Step(s, id, chunk).login[k] == s.login[k]
    ensures s.login[id].None? && Step(s, id, chunk).login[id].Some? ==>
      !Held(s.clients, s.login, Step(s, id, chunk).login[id].value) && Step(s, id, chunk).login[id].value != []
  {
    if s.login[id].None? && LoginTag <= chunk {
      var name := Candidate(chunk);
      if !Held(s.clients, s.login, name) && name != [] {
        assert Step(s, id, chunk).login == s.login[id := Some(name)];
      } else {
        assert Step(s, id, chunk).login == s.login;
      }
    } else if s.login[id].Some? {
      assert Step(s, id, chunk).login == s.login;
    }
  }

  // ---------------------------------------------------------------------------
  // Fan-out.

  /** A list of distinct sessions has as many members as entries. */
  lemma {:induction false} DistinctCard(clients: seq<nat>)
    requires Distinct(clients)
    ensures |set k: nat | k in clients| == |clients|
    decreases |clients|
  {
    if clients != [] {
      DistinctTail(clients);
      DistinctCard(clients[1..]);
      ConsMembers(clients);
    }
  }

  /** The tail of a list of distinct sessions is distinct and lacks the head. */
  lemma DistinctTail(clients: seq<nat>)
    requires Distinct(clients) && clients != []
    ensures Distinct(clients[1..]) && clients[0] !in clients[1..]
  {
    var rest := clients[1..];
    forall i, j | 0 <= i < j < |rest| ensures rest[i] != rest[j] {
      assert rest[i] == clients[i + 1] && rest[j] == clients[j + 1];
    }
    forall i | 0 <= i < |rest| ensures rest[i] != clients[0] {
      assert rest[i] == clients[i + 1];
    }
  }

  /** The members of a non-empty list are its head and the members of its tail. */
  lemma ConsMembers(clients: seq<nat>)
    requires clients != []
    ensures (set k: nat | k in clients) == (set k: nat | k in clients[1..]) + {clients[0]}
  {
    assert clients == [clients[0]] + clients[1..];
  }

  /** Writing a line to `n` distinct registered clients delivers exactly `n`
      copies: exactly the clients' transports grow, each by that line alone. */
  lemma DeliverCopies(output: map<nat, seq<string>>, clients: seq<nat>, line: string)
    requires Distinct(clients)
    requires forall i :: 0 <= i < |clients| ==> clients[i] in output
    ensures |set k: nat | k in output && Deliver(output, clients, line)[k] != output[k]| == |clients|
  {
    var r := Deliver(output, clients, line);
    assert (set k: nat | k in output && r[k] != output[k]) == (set k: nat | k in clients) by {
      forall k | k in output && r[k] != output[k] ensures k in clients { }
      forall k | k in clients ensures k in output && r[k] != output[k] {
        assert |r[k]| == |output[k]| + 1;
      }
    }
    DistinctCard(clients);
  }

  // ---------------------------------------------------------------------------
  // Whole runs of callbacks.

  /** A callback asyncio may deliver to the server. */
  datatype Event = Made(id: nat) | Lost(id: nat) | Data(id: nat, chunk: string)

  /** asyncio calls `connection_made` once for each new protocol object,
      `connection_lost` for a registered one, and `data_received` for one whose
      connection was made. */
  ghost predicate Enabled(s: State, e: Event) {
    match e
    case Made(id) => id !in s.login
    case Lost(id) => id in s.clients
    case Data(id, _) => id in s.login && id in s.output && id in s.closed
  }

  ghost function Apply(s: State, e: Event): State
    requires Enabled(s, e)
  {
    match e
    case Made(id) => Connect(s, id)
    case Lost(id) => Disconnect(s, id)
    case Data(id, chunk) => Step(s, id, chunk)
  }

  /** The state after the events `es`, or `None` if one of them could not occur. */
  ghost function Run(s: State, es: seq<Event>): Option<State>
    decreases |es|
  {
    if es == [] then Some(s)
    else if Enabled(s, es[0]) then Run(Apply(s, es[0]), es[1..])
    else None
  }

  /** Along any run of callbacks from a state satisfying the registry
      invariant, the invariant keeps holding: no two registered clients ever
      share a handle, no client ever holds the empty handle, and the history
      never exceeds ten lines. */
  lemma {:induction false} RunKeepsInv(s: State, es: seq<Event>)
    requires Inv(s)
    ensures Run(s, es).Some? ==> Inv(Run(s, es).value)
    decreases |es|
  {
    if es != [] && Enabled(s, es[0]) {
      match es[0] {
        case Made(id) => ConnectKeepsInv(s, id);
        case Lost(id) => DisconnectKeepsInv(s, id);
        case Data(id, chunk) => StepKeepsInv(s, id, chunk);
      }
      RunKeepsInv(Apply(s, es[0]), es[1..]);
    }
  }

  // ---------------------------------------------------------------------------
  // Handle extraction.

  /** A command `login:` followed by a handle and trailing whitespace (the line
      terminator) claims exactly that handle, when the tag does not occur
      again in the rest. */
  lemma CandidateOfCommand(name: string, pad: string)
    requires name == [] || (!IsSpace(name[0]) && !IsSpace(name[|name| - 1]))
    requires AllSpace(pad)
    requires Absent(name + pad, LoginTag)
    ensures Candidate(LoginTag + (name + pad)) == name
  {
    RemoveAllNoMatch(name + pad, LoginTag);
    CandidateOfHandle(name, pad);
    CandidateDropsTag(name + pad);
  }

  /** A handle followed by whitespace, in which the tag does not occur, is
      the candidate it stands for. */
  lemma CandidateOfHandle(name: string, pad: string)
    requires name == [] || (!IsSpace(name[0]) && !IsSpace(name[|name| - 1]))
    requires AllSpace(pad)
    requires RemoveAll(name + pad, LoginTag) == name + pad
    ensures Candidate(name + pad) == name
  {
    StripUnique([], name, pad);
    assert [] + name + pad == name + pad;
  }

  /** A tag at the front contributes nothing to the handle, so a repeated tag
      collapses: `login:login:bob` claims what `login:bob` claims. */
  lemma CandidateDropsTag(rest: string)
    ensures Candidate(LoginTag + rest) == Candidate(rest)
  {
    RemoveAllLeading(LoginTag, rest);
  }
}
