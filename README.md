# Watch-party room coordinator in Dafny

This project models the room coordinator of the StrApp watch-party relay
server (`backend/server.js`). The server holds one room. Its roster,
`usersById`, maps a socket connection id to a `{id, username}` record.
Five socket events act on it:

- `join-room` normalises the requested name (trim, then lower-case). It
  checks the allow-list, then that the username is not already in use,
  then the capacity of `MAX_PARTICIPANTS = 4`. It then stores the member,
  sends the joiner a `joined-room` roster snapshot, and broadcasts
  `participant-joined` to every other socket.
- `signal` forwards WebRTC data from one member to another member.
- `chat-message` sends a member's text, cut to 800 characters, to every
  socket, the sender included.
- `sync-event` sends a member's playback event to every other socket,
  stamped with `from` and `at`.
- `disconnect` removes a member and broadcasts `participant-left`.

The model has six modules, one file each:

- `Wrappers` (`wrappers.dfy`): `Option` and `Result`.
- `Names` (`names.dfy`): missing fields, username normalisation and chat
  truncation.
- `Roster` (`roster.dfy`): the configuration constants and the `Member`
  record. It also holds the roster as an insertion-ordered sequence, with
  the `Map` operations `has`, `get`, `set` and `delete` written as `HasId`,
  `Lookup`, `Put` and `Delete`, and the room invariant: at most 4 entries,
  distinct ids, distinct usernames, every username allowed.
- `Protocol` (`protocol.dfy`): the outbound messages, a delivery (one
  message to one socket), and `Broadcast`. `socket.emit` (the reply to the
  joiner) and `io.to(to).emit` (the relayed signal) are each a single
  delivery to one socket. `Broadcast` is the primitive behind
  `socket.broadcast.emit` and `io.emit`: it sends to every connection in
  connection order, optionally skipping one.
- `Coordinator` (`coordinator.dfy`): each handler as a function from the
  state (roster plus live sockets) and the event's fields to the next state
  and the deliveries. Also `Step` over an `Event` type, and the lemmas.
- `Server` (`server.dfy`): the class `RoomServer`. It holds `members` and
  `connected` as fields. Its connection, join and disconnect handlers
  update them in place, and each is proved equal to the matching
  Coordinator function. The username scan of the join handler is a loop.

The three relays only read the roster, so they exist only as functions.
`Step` states that they leave the state unchanged.

Behaviour worth noting:

- **Re-join.** A `join-room` from a socket that is already a member is not
  ignored. It goes through the same three checks. If they pass, the entry
  is overwritten in place and both join messages are sent again. A re-join
  under the member's own name is refused as "already in use".
  `RejoinRenamesInPlace` proves that a successful re-join keeps the entry's
  position, does not grow the roster, and drops the old name.
- **Broadcasts reach every socket.** `participant-joined`,
  `participant-left`, chat and sync messages go to every connected socket,
  including sockets that never joined, not only to members.
- **"Room full" is never sent.** There are exactly 4 allowed usernames and
  4 seats. So when the room is full, every allowed name is already taken,
  and the "already in use" check fires before the capacity check
  (`RoomFullNeverSent`, from `FullRosterTakesEveryName`). A join that fails
  only on capacity therefore cannot happen with this configuration.

Inputs the server gets from its environment are parameters. Connection ids
come from the transport, and a new one is required to differ from every
live one. The clock value `Date.now()` is the `now` argument.

## Model

| member | source | states |
|---|---|---|
| `Names.OrEmpty` | backend/server.js:27 | a missing field reads as the empty string and a present one as its own value (the `x \|\| ''` default, also used for chat text at line 91) |
| `Names.ToLower` | backend/server.js:27 | the result has the input's length, and each character is its ASCII lower-case form |
| `Names.Trim` | backend/server.js:27 | the result is the slice left after removing whitespace (the ECMAScript whitespace and line-terminator set) from both ends, with none left at either end; an already trimmed string is returned unchanged |
| `Names.TrimIgnoresPadding` | backend/server.js:27 | adding whitespace on either side of a string does not change what it trims to |
| `Names.Normalize` | backend/server.js:27 | the normalised username has no surrounding whitespace, no upper-case ASCII letter, and is no longer than the raw input |
| `Names.NormalizeIgnoresPadding` | backend/server.js:27 | a name padded with whitespace on either side gives the same username as the bare name |
| `Names.NormalizeIgnoresCase` | backend/server.js:27 | two names of equal length that agree character by character once ASCII letters are lower-cased give the same username |
| `Names.NormalizeIdempotent` | backend/server.js:27 | normalising a normalised name changes nothing |
| `Names.MixedCaseNameNormalizes` | backend/server.js:27 | `" ShradhaPQR "` normalises to the allowed username `"shradhapqr"` |
| `Names.Truncate` | backend/server.js:91 | the chat text keeps its first min(800, length) characters and nothing else |
| `Roster.HasId` | backend/server.js:72 | a roster has a key exactly when some entry is stored under it (`usersById.has`) |
| `Roster.HasName` | backend/server.js:36 | a username is in use exactly when some entry goes by it (the `.some` scan) |
| `Roster.RosterInvariant` | backend/server.js:29-50 | what the admission checks keep: at most 4 entries, distinct keys, distinct usernames, only allowed usernames |
| `Roster.Find` | backend/server.js:72 | the position returned holds the first entry with that key, and it is past the end exactly when no entry has that key |
| `Roster.Lookup` | backend/server.js:109 | finds an entry exactly when the key is present, and the entry found is on the roster under that key |
| `Roster.Put` | backend/server.js:50 | `set` does not grow the roster for an existing key and appends for a new one; every entry under another key keeps its position |
| `Roster.PutMembers` | backend/server.js:50 | after `set`, the roster holds the new record and exactly the old records under other keys |
| `Roster.Delete` | backend/server.js:114 | `delete` shrinks the roster by one exactly when the key is present: it removes the first entry under that key and keeps the others in their order; an absent key changes nothing |
| `Roster.DeleteIsExcluding` | backend/server.js:114 | on a roster with distinct keys, `delete` is the order-keeping filter that drops the entries under the key |
| `Roster.PutKeepsInvariant` | backend/server.js:36-50 | inserting an allowed, unused name into a roster with fewer than 4 entries keeps the room invariant |
| `Roster.DeleteKeepsInvariant` | backend/server.js:114 | removing an entry keeps the room invariant |
| `Roster.FullRosterTakesEveryName` | backend/server.js:11-12 | a roster that keeps the invariant and has 4 entries uses every allowed username |
| `Protocol.JoinError.Text` | backend/server.js:30-46 | each refusal reason has a non-empty `message` text |
| `Protocol.JoinErrorTextsDiffer` | backend/server.js:30-46 | two reasons have the same text exactly when they are the same reason |
| `Protocol.Broadcast` | backend/server.js:65-68 | every delivery carries the message; the recipients are exactly the connections other than the skipped one, each reached once |
| `Coordinator.Valid` | backend/server.js:25-120 | the room invariant, plus unique live connection ids and every member being a live connection |
| `Coordinator.OnConnect` | backend/server.js:25 | a new socket joins the live connections without touching the roster, and connection ids stay unique |
| `Coordinator.Admit` | backend/server.js:29-50 | the error is "not allowed" exactly when the name is off the allow-list, whatever the occupancy; "taken" exactly when it is allowed and in use; "full" exactly when it is allowed, unused and the roster has 4 entries; otherwise the roster after `set` |
| `Coordinator.OnJoin` | backend/server.js:26-27 | a join, refused or accepted, leaves the live connections unchanged and always answers the joiner first |
| `Coordinator.JoinAs` | backend/server.js:29-69 | the live connections are unchanged and the first delivery goes to the joiner; `JoinRejection` and `JoinAcceptance` state its refused and accepted outcomes in full |
| `Coordinator.OnSignal` | backend/server.js:71-80 | at most one delivery; there is one exactly when the sender and the target are both members, and it is `{from: sender, data}` to the target with `data` unchanged |
| `Coordinator.OnChat` | backend/server.js:82-94 | nothing from a non-member; from a member, one message per live connection, sender included, carrying the sender's username and id, the time, and the first min(800, length) characters of the text |
| `Coordinator.OnSync` | backend/server.js:96-106 | nothing from a non-member; from a member, one message per live connection except the sender, with every payload field kept and `from`/`at` set over them |
| `Coordinator.OnDisconnect` | backend/server.js:108-119 | the socket leaves the live connections; a non-member's disconnect sends nothing and keeps the roster; a member's removes its own entry, keeps the other entries in their order (on distinct keys: the `Excluding` filter), and sends one `participant-left {id, username}` to each other connection |
| `Coordinator.Step` | backend/server.js:25-120 | signal, chat and sync never change the state, and a connection sends nothing |
| `Coordinator.JoinRejection` | backend/server.js:29-48 | a refused join leaves the state unchanged and sends exactly one `join-error` to the requester alone, its reason being the first failing check in the order allow-list, uniqueness, capacity |
| `Coordinator.JoinAcceptance` | backend/server.js:50-68 | an accepted join stores the member and keeps every other entry in place. The joiner's `joined-room` lists the whole new roster in insertion order, itself included, with `maxParticipants = 4`. `participant-joined` reaches every other live connection exactly once |
| `Coordinator.RejoinRenamesInPlace` | backend/server.js:50 | a member's successful re-join keeps its position and the roster size, and its old username is no longer in use |
| `Coordinator.RoomFullNeverSent` | backend/server.js:43-48 | from a valid state, no join ever produces the "room is full" error |
| `Coordinator.NormalizedNamesCollide` | backend/server.js:36-41 | a raw name that normalises to a current member's username is refused as taken, with no other effect |
| `Coordinator.InitialValid` | backend/server.js:21 | the empty room satisfies the invariant |
| `Coordinator.JoinKeepsValid` | backend/server.js:26-69 | a join from a live socket keeps the invariant |
| `Coordinator.DisconnectKeepsValid` | backend/server.js:108-119 | a disconnect keeps the invariant |
| `Coordinator.StepKeepsValid` | backend/server.js:25-120 | every event keeps at most 4 members, distinct ids and usernames, only allowed usernames, and every member a live socket |
| `Coordinator.RunKeepsValid` | backend/server.js:25-120 | the invariant holds after any sequence of events the transport can deliver |
| `Server.RoomServer.constructor` | backend/server.js:21 | the server starts with an empty roster and no sockets, satisfying the invariant |
| `Server.RoomServer.Connect` | backend/server.js:25 | the object's new state is `OnConnect` of its old one, and the invariant is kept |
| `Server.RoomServer.IsTaken` | backend/server.js:36 | the scan answers true exactly when some member already goes by the name |
| `Server.RoomServer.Join` | backend/server.js:26-27 | the new state and the deliveries are those of `OnJoin`, and the invariant is kept |
| `Server.RoomServer.JoinAs` | backend/server.js:29-69 | the three checks and the in-place `set` give the new state and deliveries of `JoinAs`, and the invariant is kept |
| `Server.RoomServer.Disconnect` | backend/server.js:108-119 | the in-place `delete` gives the new state and deliveries of `OnDisconnect`, and the invariant is kept |

## Left out

- Static file serving, the CORS middleware, the port setting and `server.listen` (backend/server.js:7-18, 23, 122-124): I/O plumbing.
- socket.io internals: how ids are generated and what `emit`, `broadcast` and `io.to` guarantee about delivery. Ids are opaque strings, and a delivery is an entry in the output list. Recipients of one broadcast are listed in connection order.
- `Date.now()`: the clock reading is the `now` parameter.
- `Names.ToLower`: lower-cases the ASCII letters only, not full Unicode `toLowerCase`. Admission still comes out the same: a non-ASCII character that JavaScript lower-cases to ASCII is U+212A KELVIN SIGN, which becomes `k`, and no allowed username contains `k`; every other non-ASCII character lower-cases to something that still holds a non-ASCII character (U+0130 becomes `i` plus a combining dot), so the name is refused either way.
- `Names.Truncate`: counts Unicode characters, where JavaScript's `slice` counts UTF-16 code units. Text with characters outside the Basic Multilingual Plane is cut at a different place.
- `Names.OrEmpty`: a field is either a string or absent. The `String()` coercion of non-string values (numbers, `true`, objects) is not modelled.
- A `join-room`, `signal` or `chat-message` event whose payload is `null` or missing makes the handler's destructuring throw (backend/server.js:26, 71, 82). That crash path is not modelled. `sync-event` does not destructure its payload: a missing one relays just `{from, at}`, which is what `OnSync` gives for the empty field map.
- `Protocol.Json`: a number is a real. The rounding of IEEE 754 double arithmetic is not modelled.
- `Coordinator.OnSync`: the payload is an object (a field map). Spreading a string or array payload, and the key order of the relayed object, are not modelled.
- `Coordinator.OnSignal`: a `to` that is missing or not a string is `None`. It matches no member, as in the code.
- The single-threaded event loop is taken as given: events are handled one at a time, each to completion.
- The browser client, `frontend/app.js`, is not part of this model. It covers DOM updates, media capture, WebRTC peer connections, playback seek arithmetic and timers.
