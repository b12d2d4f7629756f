/**
 * The messages the server sends, a delivery of one message to one socket
 * (`socket.emit` and `io.to(to).emit`), and the broadcast behind
 * `socket.broadcast.emit` and `io.emit`: a message addressed to every
 * connection in connection order, optionally skipping one.
 */
module Protocol {
  import opened Wrappers
  import opened Roster

  /**
   * An opaque client payload (signalling data, sync fields). A number is a
   * real, as a JavaScript number may carry a fraction (a media time).
   */
  datatype Json =
    | Null
    | Bool(b: bool)
    | Num(n: real)
    | Str(s: string)
    | Arr(items: seq<Json>)
    | Obj(fields: map<string, Json>)

  /** The three reasons a join is refused, in the order they are checked. */
  datatype JoinError = NotAllowed | UsernameTaken | RoomFull
  {
    /** The `message` field of the `join-error` event. */
    function Text(): (t: string)
      ensures |t| > 0
    {
      match this
      case NotAllowed => "Username is not allowed for this watch party link."
      case UsernameTaken => "That username is already in use."
      case RoomFull => "Room is full (max 4 people)."
    }
  }

  /** Each reason has its own message, so a client can tell the three apart. */
  lemma JoinErrorTextsDiffer(e1: JoinError, e2: JoinError)
    ensures e1.Text() == e2.Text() <==> e1 == e2
  {
    var t1, t2 := e1.Text(), e2.Text();
    assert |t1| != |t2| || e1 == e2;
  }

  /** The server-to-client events. */
  datatype Message =
    | JoinErrorMsg(reason: JoinError)
    | JoinedRoom(selfId: Id, participants: seq<Member>, maxParticipants: nat)
    | ParticipantJoined(id: Id, username: string)
    | ParticipantLeft(id: Id, username: string)
    | SignalMsg(from: Id, data: Json)
    | ChatMessage(from: string, senderId: Id, text: string, at: int)
    | SyncEvent(fields: map<string, Json>)

  /** One message sent to one connection. */
  datatype Delivery = Delivery(to: Id, msg: Message)

  predicate NoDup<T(==)>(s: seq<T>)
  {
    forall i, j :: 0 <= i < j < |s| ==> s[i] != s[j]
  }

  /** The connections a list of deliveries is addressed to, in order. */
  function Recipients(out: seq<Delivery>): (ids: seq<Id>)
    ensures |ids| == |out|
    ensures forall i :: 0 <= i < |out| ==> ids[i] == out[i].to
  {
    if out == [] then [] else [out[0].to] + Recipients(out[1..])
  }

  /**
   * `msg` to every connection of `conns` except `skip`: `io.emit` when
   * `skip` is None, `socket.broadcast.emit` from `skip` otherwise. Each
   * connection other than `skip` receives the message exactly once.
   */
  function Broadcast(conns: seq<Id>, skip: Option<Id>, msg: Message): (out: seq<Delivery>)
    ensures forall d :: d in out ==> d.msg == msg
    ensures forall c :: c in Recipients(out) <==> c in conns && skip != Some(c)
    ensures NoDup(conns) ==> NoDup(Recipients(out))
  {
    if conns == [] then []
    else
      var rest := Broadcast(conns[1..], skip, msg);
      if skip == Some(conns[0]) then rest else [Delivery(conns[0], msg)] + rest
  }

  /** `conns` with `x` taken out, the others in their order. */
  function Without(conns: seq<Id>, x: Id): (rest: seq<Id>)
    ensures forall c :: c in rest <==> c in conns && c != x
    ensures NoDup(conns) ==> NoDup(rest)
  {
    if conns == [] then []
    else
      var tail := Without(conns[1..], x);
      assert NoDup(conns) ==> NoDup(conns[1..]) && conns[0] !in conns[1..];
      if conns[0] == x then tail else [conns[0]] + tail
  }
}
