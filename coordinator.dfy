/**
 * The room coordinator as a state machine: each handler of the server's
 * `connection` callback is a function from the current state and the
 * event's fields to the next state and the messages it sends.
 */
module Coordinator {
  import opened Wrappers
  import opened Names
  import opened Roster
  import opened Protocol

  /** The roster and the live connections, in the order they connected. */
  datatype State = State(members: seq<Member>, connected: seq<Id>)

  /** What handling one event does: the next state and the messages sent. */
  datatype Reaction = Reaction(next: State, out: seq<Delivery>)

  /** The state of a freshly started server. */
  const INITIAL: State := State([], [])

  /**
   * The room invariant, plus the facts the transport provides: connection
   * ids are unique, and every member is a live connection.
   */
  predicate Valid(s: State)
  {
    RosterInvariant(s.members) &&
    NoDup(s.connected) &&
    forall m :: m in s.members ==> m.id in s.connected
  }

  /** A socket connects: it can receive broadcasts but is not a member. */
  function OnConnect(s: State, id: Id): (next: State)
    ensures next.members == s.members
    ensures forall c :: c in next.connected <==> c in s.connected || c == id
    ensures NoDup(s.connected) && id !in s.connected ==> NoDup(next.connected)
  {
    State(s.members, s.connected + [id])
  }

  /**
   * Admission of the normalised name `name` for connection `id`. The three
   * checks run in a fixed order, so the error reported is the first that
   * fails: the allow-list whatever the occupancy, then uniqueness, then
   * capacity.
   */
  function Admit(r: seq<Member>, id: Id, name: string): (res: Result<seq<Member>, JoinError>)
    ensures res == Failure(NotAllowed) <==> name !in ALLOWED_USERNAMES
    ensures res == Failure(UsernameTaken) <==> name in ALLOWED_USERNAMES && HasName(r, name)
    ensures res == Failure(RoomFull) <==>
      name in ALLOWED_USERNAMES && !HasName(r, name) && |r| >= MAX_PARTICIPANTS
    ensures res.Success? ==> res.value == Put(r, Member(id, name))
  {
    if name !in ALLOWED_USERNAMES then Failure(NotAllowed)
    else if HasName(r, name) then Failure(UsernameTaken)
    else if |r| >= MAX_PARTICIPANTS then Failure(RoomFull)
    else Success(Put(r, Member(id, name)))
  }

  /** A refused join: nothing changes and only the requester hears why. */
  function Rejected(s: State, id: Id, e: JoinError): Reaction
  {
    Reaction(s, [Delivery(id, JoinErrorMsg(e))])
  }

  /**
   * `join-room`: normalise the requested name (a missing one counts as
   * empty) and admit it.
   */
  function OnJoin(s: State, id: Id, username: Option<string>): (r: Reaction)
    ensures r.next.connected == s.connected
    ensures r.out != [] && r.out[0].to == id
  {
    JoinAs(s, id, Normalize(OrEmpty(username)))
  }

  /**
   * The join handler after normalisation: run admission; on success store
   * the member, send the joiner the roster snapshot and tell every other
   * connection.
   */
  function JoinAs(s: State, id: Id, name: string): (r: Reaction)
    ensures r.next.connected == s.connected
    ensures r.out != [] && r.out[0].to == id
  {
    match Admit(s.members, id, name)
    case Failure(e) => Rejected(s, id, e)
    case Success(roster) =>
      Reaction(State(roster, s.connected),
               [Delivery(id, JoinedRoom(id, roster, MAX_PARTICIPANTS))] +
               Broadcast(s.connected, Some(id), ParticipantJoined(id, name)))
  }

  /** `signal`: forward `data` to `to`, only between two members. */
  function OnSignal(s: State, from: Id, to: Option<Id>, data: Json): (out: seq<Delivery>)
    ensures |out| <= 1
    ensures out != [] <==> HasId(s.members, from) && to.Some? && HasId(s.members, to.value)
    ensures forall d :: d in out ==> to.Some? && d == Delivery(to.value, SignalMsg(from, data))
  {
    if HasId(s.members, from) && to.Some? && HasId(s.members, to.value) then
      [Delivery(to.value, SignalMsg(from, data))]
    else
      []
  }

  /**
   * `chat-message`: a member's text, cut to CHAT_TEXT_LIMIT characters,
   * to every connection including the sender.
   */
  function OnChat(s: State, from: Id, text: Option<string>, now: int): (out: seq<Delivery>)
    ensures !HasId(s.members, from) ==> out == []
    ensures HasId(s.members, from) ==> forall c :: c in Recipients(out) <==> c in s.connected
    ensures NoDup(s.connected) ==> NoDup(Recipients(out))
    ensures forall d :: d in out ==>
      d.msg.ChatMessage? && Member(from, d.msg.from) in s.members &&
      d.msg.senderId == from && d.msg.at == now &&
      |d.msg.text| == (if |OrEmpty(text)| <= CHAT_TEXT_LIMIT then |OrEmpty(text)| else CHAT_TEXT_LIMIT) &&
      d.msg.text == OrEmpty(text)[..|d.msg.text|]
  {
    match Lookup(s.members, from)
    case None => []
    case Some(sender) =>
      Broadcast(s.connected, None,
                ChatMessage(sender.username, from, Truncate(OrEmpty(text), CHAT_TEXT_LIMIT), now))
  }

  /**
   * The relayed sync object `{...payload, from, at}`: every payload field
   * kept, `from` and `at` set by the server over whatever the client sent.
   */
  predicate IsStamped(fields: map<string, Json>, payload: map<string, Json>, from: Id, now: int)
  {
    fields.Keys == payload.Keys + {"from", "at"} &&
    fields["from"] == Str(from) && fields["at"] == Num(now as real) &&
    forall k :: k in payload && k != "from" && k != "at" ==> fields[k] == payload[k]
  }

  /** `sync-event`: a member's payload, stamped, to every other connection. */
  function OnSync(s: State, from: Id, payload: map<string, Json>, now: int): (out: seq<Delivery>)
    ensures !HasId(s.members, from) ==> out == []
    ensures HasId(s.members, from) ==>
      forall c :: c in Recipients(out) <==> c in s.connected && c != from
    ensures NoDup(s.connected) ==> NoDup(Recipients(out))
    ensures forall d :: d in out ==> d.msg.SyncEvent? && IsStamped(d.msg.fields, payload, from, now)
  {
    if HasId(s.members, from) then
      Broadcast(s.connected, Some(from), SyncEvent(payload["from" := Str(from)]["at" := Num(now as real)]))
    else
      []
  }

  /**
   * `disconnect`: the socket goes away; if it was a member its entry is
   * deleted and every other connection hears `participant-left`.
   */
  function OnDisconnect(s: State, id: Id): (r: Reaction)
    ensures forall c :: c in r.next.connected <==> c in s.connected && c != id
    ensures !HasId(s.members, id) ==> r.next.members == s.members && r.out == []
    ensures HasId(s.members, id) ==>
      |r.next.members| == |s.members| - 1 &&
      (forall c :: c in Recipients(r.out) <==> c in s.connected && c != id) &&
      forall d :: d in r.out ==> d.msg == ParticipantLeft(id, Lookup(s.members, id).value.username)
    ensures HasId(s.members, id) ==>
      exists k :: 0 <= k < |s.members| && s.members[k].id == id &&
        r.next.members == s.members[..k] + s.members[k + 1..]
    ensures DistinctIds(s.members) ==>
      forall m :: m in r.next.members <==> m in s.members && m.id != id
    ensures DistinctIds(s.members) ==> r.next.members == Excluding(s.members, id)
    ensures NoDup(s.connected) ==> NoDup(Recipients(r.out))
  {
    assert DistinctIds(s.members) ==> Delete(s.members, id) == Excluding(s.members, id) by {
      if DistinctIds(s.members) {
        DeleteIsExcluding(s.members, id);
      }
    }
    var remaining := Without(s.connected, id);
    match Lookup(s.members, id)
    case None => Reaction(State(s.members, remaining), [])
    case Some(leaving) =>
      Reaction(State(Delete(s.members, id), remaining),
               Broadcast(s.connected, Some(id), ParticipantLeft(id, leaving.username)))
  }

  /** The events the server reacts to, with the fields each one carries. */
  datatype Event =
    | Connect(id: Id)
    | Join(id: Id, username: Option<string>)
    | Signal(id: Id, to: Option<Id>, data: Json)
    | Chat(id: Id, text: Option<string>, now: int)
    | Sync(id: Id, payload: map<string, Json>, now: int)
    | Disconnect(id: Id)

  /**
   * What the transport guarantees about an event: a new socket has an id
   * no live socket has, and every other event comes from a live socket.
   */
  predicate Arrives(s: State, e: Event)
  {
    if e.Connect? then e.id !in s.connected else e.id in s.connected
  }

  /** Handles one event. The three relays leave the state as it was. */
  function Step(s: State, e: Event): (r: Reaction)
    requires Arrives(s, e)
    ensures e.Signal? || e.Chat? || e.Sync? ==> r.next == s
    ensures e.Connect? ==> r.out == []
  {
    match e
    case Connect(id) => Reaction(OnConnect(s, id), [])
    case Join(id, username) => OnJoin(s, id, username)
    case Signal(id, to, data) => Reaction(s, OnSignal(s, id, to, data))
    case Chat(id, text, now) => Reaction(s, OnChat(s, id, text, now))
    case Sync(id, payload, now) => Reaction(s, OnSync(s, id, payload, now))
    case Disconnect(id) => OnDisconnect(s, id)
  }

  // ---------------------------------------------------------------------
  // Admission

  /**
   * Every refused join leaves the state untouched and sends one
   * `join-error` to the requester alone; the reason is the first failing
   * check in the order allow-list, uniqueness, capacity.
   */
  lemma JoinRejection(s: State, id: Id, name: string)
    ensures name !in ALLOWED_USERNAMES ==> JoinAs(s, id, name) == Rejected(s, id, NotAllowed)
    ensures name in ALLOWED_USERNAMES && HasName(s.members, name) ==>
      JoinAs(s, id, name) == Rejected(s, id, UsernameTaken)
    ensures name in ALLOWED_USERNAMES && !HasName(s.members, name) && |s.members| >= MAX_PARTICIPANTS ==>
      JoinAs(s, id, name) == Rejected(s, id, RoomFull)
  {
  }

  /**
   * A successful join stores the member (in place for a connection that
   * was already a member, at the end otherwise), leaves every other entry
   * where it was, sends the joiner the whole roster in insertion order,
   * and sends `participant-joined` once to every other connection.
   */
  lemma JoinAcceptance(s: State, id: Id, name: string)
    requires name in ALLOWED_USERNAMES && !HasName(s.members, name) && |s.members| < MAX_PARTICIPANTS
    ensures var r := JoinAs(s, id, name);
      r.next == State(Put(s.members, Member(id, name)), s.connected) &&
      Member(id, name) in r.next.members &&
      (forall i :: 0 <= i < |s.members| && s.members[i].id != id ==> r.next.members[i] == s.members[i]) &&
      r.out[0] == Delivery(id, JoinedRoom(id, r.next.members, MAX_PARTICIPANTS)) &&
      (forall d :: d in r.out[1..] ==> d.msg == ParticipantJoined(id, name)) &&
      (forall c :: c in Recipients(r.out[1..]) <==> c in s.connected && c != id) &&
      (NoDup(s.connected) ==> NoDup(Recipients(r.out[1..])))
  {
    var r := JoinAs(s, id, name);
    var m := Member(id, name);
    var p := Put(s.members, m);
    assert r.out[1..] == Broadcast(s.connected, Some(id), ParticipantJoined(id, name));
    var k := Find(s.members, id);
    if k < |s.members| {
      assert p[k] == m;
    } else {
      assert p[|s.members|] == m;
    }
  }

  /**
   * A member who joins again under a new admissible name keeps its
   * position: the roster does not grow, and the old name is gone.
   */
  lemma RejoinRenamesInPlace(s: State, id: Id, name: string)
    requires Valid(s) && HasId(s.members, id)
    requires Admit(s.members, id, name).Success?
    ensures var r := JoinAs(s, id, name);
      var k := Find(s.members, id);
      |r.next.members| == |s.members| &&
      r.next.members[k] == Member(id, name) &&
      !HasName(r.next.members, s.members[k].username)
  {
    var k := Find(s.members, id);
    var oldName := s.members[k].username;
    var p := Put(s.members, Member(id, name));
    assert p == s.members[k := Member(id, name)];
    assert oldName != name by {
      assert s.members[k] in s.members;
    }
    forall x | x in p ensures x.username != oldName {
      var i :| 0 <= i < |p| && p[i] == x;
      if i != k {
        assert s.members[i] == x;
      }
    }
  }

  /**
   * There are as many allowed names as seats, so once the room is full
   * every allowed name is taken and the `RoomFull` error is never sent.
   */
  lemma RoomFullNeverSent(s: State, id: Id, name: string)
    requires Valid(s)
    ensures forall d :: d in JoinAs(s, id, name).out ==> d.msg != JoinErrorMsg(RoomFull)
  {
    if name in ALLOWED_USERNAMES && |s.members| >= MAX_PARTICIPANTS {
      FullRosterTakesEveryName(s.members);
    }
  }

  /**
   * Normalisation makes raw names that differ only in case or surrounding
   * whitespace the same username, so the second one is refused as taken.
   */
  lemma NormalizedNamesCollide(s: State, id: Id, member: Member, raw: string)
    requires member in s.members && member.username in ALLOWED_USERNAMES
    requires Normalize(raw) == member.username
    ensures OnJoin(s, id, Some(raw)) == Rejected(s, id, UsernameTaken)
  {
    assert HasName(s.members, Normalize(raw));
    JoinRejection(s, id, Normalize(raw));
  }

  // ---------------------------------------------------------------------
  // The invariant

  lemma InitialValid()
    ensures Valid(INITIAL)
  {
  }

  lemma JoinKeepsValid(s: State, id: Id, name: string)
    requires Valid(s) && id in s.connected
    ensures Valid(JoinAs(s, id, name).next)
  {
    if Admit(s.members, id, name).Success? {
      var m := Member(id, name);
      PutKeepsInvariant(s.members, m);
      PutMembers(s.members, m);
    }
  }

  lemma DisconnectKeepsValid(s: State, id: Id)
    requires Valid(s)
    ensures Valid(OnDisconnect(s, id).next)
  {
    DeleteKeepsInvariant(s.members, id);
  }

  /**
   * Every event keeps the room invariant: at most MAX_PARTICIPANTS
   * members, distinct usernames, each on the allow-list.
   */
  lemma StepKeepsValid(s: State, e: Event)
    requires Valid(s) && Arrives(s, e)
    ensures Valid(Step(s, e).next)
  {
    match e
    case Join(id, username) => JoinKeepsValid(s, id, Normalize(OrEmpty(username)));
    case Disconnect(id) => DisconnectKeepsValid(s, id);
    case _ =>
  }

  /** A sequence of events each of which the transport can deliver in turn. */
  predicate Feasible(s: State, events: seq<Event>)
    decreases |events|
  {
    events == [] || (Arrives(s, events[0]) && Feasible(Step(s, events[0]).next, events[1..]))
  }

  /** The state after handling `events` in order. */
  function Run(s: State, events: seq<Event>): State
    requires Feasible(s, events)
    decreases |events|
  {
    if events == [] then s else Run(Step(s, events[0]).next, events[1..])
  }

  /** The invariant holds after any feasible sequence of events from a valid state. */
  lemma {:induction false} RunKeepsValid(s: State, events: seq<Event>)
    requires Valid(s) && Feasible(s, events)
    ensures Valid(Run(s, events))
    decreases |events|
  {
    if events != [] {
      var next := Step(s, events[0]).next;
      StepKeepsValid(s, events[0]);
      RunKeepsValid(next, events[1..]);
    }
  }
}
