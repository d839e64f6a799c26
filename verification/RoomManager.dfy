/** The room manager of the signaling server. Its object keeps the two indexes of the
    registry and appends every message it sends to an outbox. */
module RoomManaging {
  import opened Common
  import opened Signaling

  class RoomManager {
    var rooms: map<string, seq<Participant>>
    var connRoom: map<Conn, string>
    var nextId: nat
    // Everything handed to the send function so far.
    var outbox: seq<Sent>

    ghost function Current(): Registry
      reads this
    {
      Registry(rooms, connRoom, nextId)
    }

    ghost predicate Valid()
      reads this
    {
      InStep(Current(), outbox)
    }

    constructor ()
      ensures Valid() && Current() == EMPTY_REGISTRY && outbox == []
    {
      rooms, connRoom, nextId, outbox := map[], map[], 1, [];
    }

    method FindParticipant(ps: seq<Participant>, conn: Conn) returns (i: nat)
      ensures i == Find(ps, conn)
    {
      i := 0;
      while i < |ps|
        invariant i <= |ps| && Find(ps, conn) == i + Find(ps[i..], conn)
      {
        assert ps[i..][1..] == ps[i + 1..];
        if ps[i].conn == conn { return; }
        i := i + 1;
      }
    }

    method SendToAllBut(ps: seq<Participant>, except: Conn, m: Message)
      modifies this`outbox
      ensures outbox == old(outbox) + ToAllBut(ps, except, m)
    {
      for i := 0 to |ps|
        invariant outbox == old(outbox) + ToAllBut(ps[..i], except, m)
      {
        assert ps[..i + 1][..i] == ps[..i];
        if ps[i].conn != except { outbox := outbox + [Sent(ps[i].conn, m)]; }
      }
      assert ps[..|ps|] == ps;
    }

    method Remove(conn: Conn)
      modifies this
      ensures Current() == Signaling.Leave(old(Current()), conn).0
      ensures outbox == old(outbox) + Signaling.Leave(old(Current()), conn).1
    {
      if conn !in connRoom { return; }
      var room := connRoom[conn];
      connRoom := connRoom - {conn};
      if room !in rooms { return; }
      var ps := rooms[room];
      var leaving := 0;
      var i := FindParticipant(ps, conn);
      if i < |ps| {
        leaving := ps[i].id;
        ps := ps[..i] + ps[i + 1..];
      }
      if leaving != 0 { SendToAllBut(ps, conn, PeerLeft(room, leaving)); }
      rooms := if ps == [] then rooms - {room} else rooms[room := ps];
    }

    /** Remove a connection from its room and tell those who stay; unknown connections
        are ignored. */
    method Leave(conn: Conn)
      requires Valid()
      modifies this
      ensures Valid()
      ensures Current() == Signaling.Leave(old(Current()), conn).0
      ensures outbox == old(outbox) + Signaling.Leave(old(Current()), conn).1
    {
      LeaveKeepsRosters(Current(), outbox, conn);
      Remove(conn);
    }

    /** Add a connection to a room, first taking it out of the one it is in. */
    method Join(room: string, conn: Conn) returns (r: Result<nat>)
      requires Valid()
      modifies this
      ensures Valid()
      ensures Current() == Signaling.Join(old(Current()), room, conn).0
      ensures r == Signaling.Join(old(Current()), room, conn).1
      ensures outbox == old(outbox) + Signaling.Join(old(Current()), room, conn).2
    {
      JoinKeepsRosters(Current(), outbox, room, conn);
      r := Rebind(room, conn);
    }

    method Rebind(room: string, conn: Conn) returns (r: Result<nat>)
      modifies this
      ensures Current() == Signaling.Join(old(Current()), room, conn).0
      ensures r == Signaling.Join(old(Current()), room, conn).1
      ensures outbox == old(outbox) + Signaling.Join(old(Current()), room, conn).2
    {
      if room == "" || conn == 0 { return Err(InvalidArgument); }
      ghost var (left, farewell) := Signaling.Leave(Current(), conn);
      Associate(outbox, farewell, Enter(left, room, conn).2);
      if conn in connRoom { Remove(conn); }
      r := Add(room, conn);
    }

    method Add(room: string, conn: Conn) returns (r: Result<nat>)
      modifies this
      ensures (Current(), r) == (Enter(old(Current()), room, conn).0, Enter(old(Current()), room, conn).1)
      ensures outbox == old(outbox) + Enter(old(Current()), room, conn).2
    {
      var ps := if room in rooms then rooms[room] else [];
      if |ps| >= MAX_PARTICIPANTS { return Err(ResourceExhausted); }
      var id := nextId;
      nextId := nextId + 1;
      var all := ps + [Participant(id, conn)];
      rooms := rooms[room := all];
      connRoom := connRoom[conn := room];

      var peers := [];
      for i := 0 to |ps|
        invariant peers == IdsOf(ps[..i])
      {
        assert ps[..i + 1][..i] == ps[..i];
        peers := peers + [ps[i].id];
      }
      assert ps[..|ps|] == ps;
      outbox := outbox + [Sent(conn, Joined(room, id, peers))];
      SendToAllBut(all, conn, PeerJoined(room, id));
      return Ok(id);
    }

    /** Forward a message to one peer or to all others in the sender's room. */
    method Relay(conn: Conn, kind: string, to: nat, text: string) returns (r: Result<()>)
      requires Valid()
      modifies this`outbox
      ensures r == Signaling.Relay(Current(), conn, kind, to, text).0
      ensures outbox == old(outbox) + Signaling.Relay(Current(), conn, kind, to, text).1
    {
      if !IsRelayable(kind) { return Err(Protocol); }
      if conn !in connRoom || connRoom[conn] !in rooms { return Err(NotFound); }
      var ps := rooms[connRoom[conn]];
      var from := FindParticipant(ps, conn);
      if from == |ps| || ps[from].id == 0 { return Err(NotFound); }
      if to == 0 {
        SendToAllBut(ps, conn, Relayed(text));
        return Ok(());
      }
      r := RelayTo(ps, to, text);
    }

    method RelayTo(ps: seq<Participant>, to: nat, text: string) returns (r: Result<()>)
      modifies this`outbox
      ensures var i := FindId(ps, to);
              && r == (if i < |ps| then Ok(()) else Err(NotFound))
              && outbox == old(outbox) + if i < |ps| then [Sent(ps[i].conn, Relayed(text))] else []
    {
      for i := 0 to |ps|
        invariant outbox == old(outbox) && FindId(ps, to) == i + FindId(ps[i..], to)
      {
        assert ps[i..][1..] == ps[i + 1..];
        if ps[i].id == to {
          outbox := outbox + [Sent(ps[i].conn, Relayed(text))];
          return Ok(());
        }
      }
      return Err(NotFound);
    }
  }
}
