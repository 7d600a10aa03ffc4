# Chat relay (`server.py`) in Dafny

A model of the asyncio chat relay in `server.py`. A `Server` keeps
- the list of registered clients;
- a history of at most ten recent broadcast lines.

Each connection gets a `ServerProtocol` object, whose callbacks change that state in place. `connection_made` registers the session and `connection_lost` unregisters it. `data_received` runs a small login state machine:

- a chunk that starts with `login:` claims a handle. The handle is the chunk with every `login:` deleted and whitespace trimmed at both ends. The claim can go three ways:
  - the handle is held by a client: the connection gets the busy notice (its text literally contains `{login}`) and is closed;
  - the handle is free and non-empty: the session is greeted and then sent the history;
  - the handle is empty: the session gets the invalid-login notice;
- before login, any other chunk is ignored;
- after login, every chunk, with trailing whitespace removed, is broadcast as `"<login>: <text>\n"` to every registered client. That includes the sender and clients that have not logged in yet.

Files:

- `wrappers.dfy`: `Option`, which stands for Python's `None` and a value.
- `text.dfy` (module `Text`): the whitespace set, `rstrip`, `lstrip` and `strip`, and `str.replace(pat, "")` as a left-to-right deletion scan. It also proves lemmas that pin each of these down.
- `history.dfy` (module `History`): the bounded history. `add_history` is a push onto a sequence of at most ten entries, and the lemmas show that it keeps exactly the newest ten lines in order.
- `relay.dfy` (module `Relay`):
  - the whole relay state as a datatype `State`;
  - each callback as a transition on that state;
  - the registry invariant: each client registered once, no two clients sharing a login, no empty login, history within bound;
  - lemmas that each transition keeps the invariant, one lemma per case of `data_received`, and the invariant along any run of callbacks.
- `server.dfy` (module `Chat`): the imperative `Server` class. Its fields are those of the source's `Server` plus, for each protocol object, its login, its transport's output and its closed flag. The four callbacks (`ConnectionMade`, `ConnectionLost`, `SendMessage`, `DataReceived`) are each proved to leave the fields equal to the `Relay` transition of the old fields, and to keep the invariant. The helpers they call are proved to make a stated field update and change nothing else:
  - `Write` appends one line to one transport;
  - `AddHistory` replaces the history by `History.Push` of it;
  - `SendHistory` appends the history to one transport;
  - `FanOut` applies `Relay.Deliver` to the transports;
  - `TryLogin` applies the `Relay.Claim` transition.

  None of the helpers promises the invariant on its own: the callback that calls it does.

A protocol object is identified by a number (`nat`). A transport is modelled as the sequence of strings written to it plus a flag that says whether the server closed it.

## Model

| member | source | states |
|---|---|---|
| Text.RStrip | server.py:23 | the result is a prefix of the chunk; everything cut off is whitespace; the result does not end in whitespace |
| Text.RStripTrailing | server.py:23 | `rstrip` of a string not ending in whitespace followed by whitespace gives back exactly that string |
| Text.LStrip | server.py:27 | the result is a suffix; everything cut off is whitespace; the result does not start with whitespace |
| Text.LStripLeading | server.py:27 | `lstrip` of whitespace followed by a string not starting with whitespace gives back exactly that string |
| Text.Strip | server.py:27 | the result has no whitespace at either end and is no longer than the input |
| Text.StripWraps | server.py:27 | the input is the result of `strip` wrapped in whitespace on both sides |
| Text.StripUnique | server.py:27 | those two properties determine `strip`: a string without whitespace at its ends, wrapped in whitespace, strips back to itself |
| Text.RemoveAll | server.py:27 | `replace(pat, "")` never lengthens the string |
| Text.RemoveAllNoMatch | server.py:27 | a string in which the pattern does not occur is unchanged |
| Text.RemoveAllLeftmost | server.py:27 | deletion is leftmost-first: when the first occurrence starts after `a`, `a` is kept and the scan resumes after the occurrence |
| Text.RemoveAllLeading | server.py:27 | a leading occurrence is deleted outright |
| Relay.Candidate | server.py:27 | the extracted handle has no whitespace at either end and is no longer than the chunk |
| Relay.CandidateOfCommand | server.py:25-27 | `login:` + a handle + trailing whitespace (with no further tag) yields exactly that handle |
| Relay.CandidateOfHandle | server.py:27 | a handle followed by whitespace, with no tag in it, extracts to exactly that handle |
| Relay.CandidateDropsTag | server.py:27 | a tag at the front contributes nothing, so `login:login:bob` yields what `login:bob` yields |
| History.Push | server.py:83-86 | the line becomes the last entry; the length grows by one below ten and otherwise stays; the older entries kept are a suffix of the old history, in order |
| History.Newest | server.py:83-86 | a suffix of the sequence of length exactly ten, or all of it when it has at most ten |
| History.PushKeepsNewest | server.py:83-86 | on a history of at most ten, one push gives the newest ten of the history followed by the line |
| History.PushAllKeepsNewest | server.py:83-86 | any number of pushes leaves exactly the newest ten lines ever added, oldest first |
| History.EleventhEvictsFirst | server.py:83-86 | after eleven pushes onto an empty history the first line is gone and the other ten remain in order |
| Relay.Greeting | server.py:41 | definition, no contract: the greeting `"Привет, " + name + "!\n"` |
| Relay.Shown | server.py:59 | definition, no contract: how an f-string renders a login, `None` as "None" |
| Relay.ChatLine | server.py:59 | definition, no contract: the broadcast line `f"{login}: {content}\n"` |
| Relay.Held | server.py:72-77 | definition, no contract: some registered client is logged in as the handle |
| Relay.Inv | server.py:50-55 | definition, no contract: the registry invariant. Every session has a login slot, a transport and a closed flag; clients are known and distinct; logins are unique and non-empty; the history has at most ten lines |
| Relay.Connect | server.py:49-51 | definition, no contract: the `connection_made` transition, which appends the session with no login and an empty open transport |
| Relay.Disconnect | server.py:54-55 | definition, no contract: the `connection_lost` transition, which applies `list.remove` to the clients |
| Relay.Broadcast | server.py:58-70 | definition, no contract: the `send_message` transition, which pushes the line to the history and delivers it to every client |
| Relay.Claim | server.py:27-47 | definition, no contract: the `login:` branch. A held handle refuses and closes; a free one greets and replays; an empty one rejects |
| Relay.Step | server.py:16-47 | definition, no contract: the `data_received` transition. Logged in, it broadcasts; otherwise a non-command changes nothing and a command goes to `Claim` |
| Relay.IndexOf | server.py:55 | the position `list.remove` acts on is the first occurrence |
| Relay.RemoveFirst | server.py:55 | `list.remove`: one element fewer; the multiset loses exactly one copy of the session; the other elements keep their order |
| Relay.Deliver | server.py:63-70 | after a fan-out, each client's transport gained the line once at its end, and every other transport is unchanged |
| Relay.DeliverCopies | server.py:63-70 | over distinct clients, exactly as many transports change as there are clients |
| Relay.InitialInv | server.py:91-94 | a new server has no clients and an empty history, and satisfies the registry invariant |
| Relay.ConnectKeepsInv | server.py:49-51 | registering a new session with no login keeps the registry invariant |
| Relay.DisconnectKeepsInv | server.py:54-55 | unregistering keeps the invariant; exactly the departing session stops being a client |
| Relay.RemoveKeepsDistinct | server.py:55 | `list.remove` on distinct sessions leaves them distinct and removes exactly the given one |
| Relay.RemoveDistinctEntries | server.py:55 | after `list.remove` on distinct sessions no remaining entry is the removed session |
| Relay.RemoveKeepsUnique | server.py:55 | `list.remove` keeps the remaining logins unique and non-empty |
| Relay.EmptyNeverHeld | server.py:30-39 | under the invariant no client holds the empty handle, so an empty handle is never reported busy |
| Relay.ClaimKeepsUnique | server.py:30-40 | setting a free, non-empty handle on a session without a login keeps logins unique and non-empty |
| Relay.BroadcastKeepsInv | server.py:58-70 | a broadcast keeps the invariant, history bound included |
| Relay.StepKeepsInv | server.py:16-47 | every `data_received` keeps the registry invariant |
| Relay.ClaimKeepsInv | server.py:27-47 | whatever the extracted handle, the `login:` branch keeps the registry invariant |
| Relay.StepLoggedIn | server.py:21-23 | once logged in, a chunk is broadcast as `login + ": " + rstrip(chunk) + "\n"` into the history and to every client; login, clients and closed flags are unchanged |
| Relay.StepNotACommand | server.py:25-47 | before login, a chunk not starting with `login:` changes nothing at all |
| Relay.StepRefused | server.py:27-35 | a held handle: exactly the busy notice is written to this transport, which is closed; login, clients and history are unchanged |
| Relay.StepWelcome | server.py:37-44 | a free non-empty handle becomes the login; the greeting and then the whole history are written to this transport only; clients and history are unchanged |
| Relay.StepEmptyHandle | server.py:37-47 | an empty handle: only the invalid-login notice is written, nothing else changes |
| Relay.StepLoginFinal | server.py:21-44 | a login once set never changes, no other session's login changes, and a newly set login was free and non-empty |
| Relay.RunKeepsInv | server.py:16-56 | along any sequence of callbacks from a valid state, the registry invariant keeps holding |
| Chat.Server.constructor | server.py:93-94 | the new server is the initial relay state and valid |
| Chat.Server.ConnectionMade | server.py:49-51 | appends the session to the clients with no login and an empty open transport (the `Connect` transition), keeping the invariant |
| Chat.Server.ConnectionLost | server.py:54-55 | removes the session with `list.remove` (the `Disconnect` transition); it is no longer a client; the invariant is kept |
| Chat.Server.IsLoginExists | server.py:72-77 | returns true exactly when some registered client is logged in as the handle |
| Chat.Server.Write | server.py:32 | `transport.write`: the line is appended to that transport and nothing else changes |
| Chat.Server.AddHistory | server.py:83-86 | the history becomes `History.Push` of the old history; nothing else changes |
| Chat.Server.SendHistory | server.py:79-81 | the whole history, oldest first, is appended to that session's transport and to no other |
| Chat.Server.FanOut | server.py:63-70 | the loop of `send_message`: the line is written to every registered client's transport and to no other, nothing else changes |
| Chat.Server.SendMessage | server.py:58-70 | the `Broadcast` transition (history push plus one copy to every client), keeping the invariant |
| Chat.Server.TryLogin | server.py:27-47 | the `login:` branch for an extracted handle: the `Claim` transition (refuse and close, greet and replay, or reject) |
| Chat.Server.DataReceived | server.py:16-47 | the `Step` transition, keeping the invariant |

## Left out

- `Server.start`, `create_server`, `serve_forever`, `asyncio.run` and the `KeyboardInterrupt` handler (server.py:99-118) are left out: they are event-loop and socket I/O.
- The `print` calls are left out: they only log.
- `decode()` and `encode()` are left out: chunks and writes are strings, and each write is one entry of the transport's output.
- Concurrency is not modelled: asyncio runs one callback at a time, so each callback is one atomic step.
- `build_protocol` (server.py:96-97) has no member of its own. Constructing a protocol object has no effect on the server, so it is folded into `ConnectionMade`. The caller supplies a fresh identifier, which stands for the new object.
- Text.IsSpace: only six characters are trimmed: space, tab, line feed, carriage return, vertical tab and form feed. Python's `strip` and `rstrip` also trim the others for which `str.isspace` holds:
  - the ASCII separators `\x1c`–`\x1f`;
  - `\x85` and `\xa0`;
  - the further Unicode spaces and line or paragraph separators, such as `\u2000`–`\u200a`, `\u2028`, `\u2029` and `\u3000`.
- Text.RemoveAll: requires a non-empty pattern. The only pattern used is `login:`, and Python's empty-pattern `replace` is not modelled.
- The `history` list is a class attribute shared by every `Server` instance (server.py:91). The model has a single server, whose history starts empty.
- The transport's own behaviour is not modelled. Writes made after `transport.close()` are recorded like any other, and no further callbacks are suppressed by the model.
- A whole scenario is not proved as a single lemma: two clients claiming the same handle, then the second leaving, then a line from the first. Its steps are covered by `Relay.StepWelcome`, `Relay.StepRefused`, `Relay.DisconnectKeepsInv` and `Relay.StepLoggedIn`.
- In these places the model follows what server.py does rather than what a chat relay might be expected to do:
  - before login, a chunk that does not start with `login:` gets no reply;
  - a session refused for a busy handle stays registered, and goes on receiving broadcasts, until `connection_lost` removes it;
  - `connection_lost` requires the session to be registered, because `list.remove` raises otherwise;
  - a failing write during a broadcast is not isolated from the others: transports cannot fail in the model;
  - there is no line framing: each chunk is one message.
