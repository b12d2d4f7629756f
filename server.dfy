/**
 * The server process itself: one object holding the `usersById` roster and
 * the set of live sockets, updated in place by the connection, join and
 * disconnect handlers. Each handler does what the matching function of
 * Coordinator describes and keeps the room invariant.
 */
module Server {
  import opened Wrappers
  import opened Names
  import opened Roster
  import opened Protocol
  import Coordinator

  class RoomServer {
    /** `usersById`, in insertion order. */
    var members: seq<Member>
    /** The live sockets, in the order they connected. */
    var connected: seq<Id>

    function Current(): Coordinator.State
      reads this
    {
      Coordinator.State(members, connected)
    }

    ghost predicate Valid()
      reads this
    {
      Coordinator.Valid(Current())
    }

    constructor ()
      ensures Valid()
      ensures members == [] && connected == []
    {
      members := [];
      connected := [];
      Coordinator.InitialValid();
    }

    /** The `connection` event: a new socket with a fresh id. */
    method Connect(id: Id)
      requires Valid() && id !in connected
      modifies this
      ensures Valid()
      ensures Current() == Coordinator.OnConnect(old(Current()), id)
    {
      connected := connected + [id];
    }

    /** The scan of the join handler: does some member already go by `name`? */
    method IsTaken(name: string) returns (taken: bool)
      ensures taken <==> HasName(members, name)
    {
      var i := 0;
      while i < |members|
        invariant 0 <= i <= |members|
        invariant forall j :: 0 <= j < i ==> members[j].username != name
      {
        if members[i].username == name {
          return true;
        }
        i := i + 1;
      }
      return false;
    }

    /** The `join-room` handler. */
    method Join(id: Id, username: Option<string>) returns (out: seq<Delivery>)
      requires Valid() && id in connected
      modifies this
      ensures Valid()
      ensures Coordinator.Reaction(Current(), out) == Coordinator.OnJoin(old(Current()), id, username)
    {
      var name := Normalize(OrEmpty(username));
      out := JoinAs(id, name);
    }

    /** The join handler once the requested name is normalised: three checks, then the insert. */
    method JoinAs(id: Id, name: string) returns (out: seq<Delivery>)
      requires Valid() && id in connected
      modifies this
      ensures Valid()
      ensures Coordinator.Reaction(Current(), out) == Coordinator.JoinAs(old(Current()), id, name)
    {
      Coordinator.JoinKeepsValid(Current(), id, name);
      if name !in ALLOWED_USERNAMES {
        return [Delivery(id, JoinErrorMsg(NotAllowed))];
      }
      var taken := IsTaken(name);
      if taken {
        return [Delivery(id, JoinErrorMsg(UsernameTaken))];
      }
      if |members| >= MAX_PARTICIPANTS {
        return [Delivery(id, JoinErrorMsg(RoomFull))];
      }
      members := Put(members, Member(id, name));
      out := [Delivery(id, JoinedRoom(id, members, MAX_PARTICIPANTS))] +
             Broadcast(connected, Some(id), ParticipantJoined(id, name));
    }

    /** The `disconnect` handler; the socket itself goes away in every case. */
    method Disconnect(id: Id) returns (out: seq<Delivery>)
      requires Valid()
      modifies this
      ensures Valid()
      ensures Coordinator.Reaction(Current(), out) == Coordinator.OnDisconnect(old(Current()), id)
    {
      Coordinator.DisconnectKeepsValid(Current(), id);
      var leaving := Lookup(members, id);
      var remaining := Without(connected, id);
      if leaving.None? {
        connected := remaining;
        return [];
      }
      members := Delete(members, id);
      out := Broadcast(connected, Some(id), ParticipantLeft(id, leaving.value.username));
      connected := remaining;
    }
  }
}
