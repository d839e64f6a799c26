/** The signaling server's registry of rooms. Every change is announced by messages from
    which each client keeps its own roster; the registry and all rosters stay in step. */
module Signaling {
  import opened Common

  const MAX_PARTICIPANTS := 8

  /** An opaque transport handle; 0 is the null handle. */
  type Conn = nat

  datatype Participant = Participant(id: nat, conn: Conn)

  datatype Message =
    | Joined(room: string, id: nat, peers: seq<nat>)
    | PeerJoined(room: string, from: nat)
    | PeerLeft(room: string, from: nat)
    | Relayed(text: string)

  datatype Sent = Sent(to: Conn, message: Message)

  /** Rooms by name and, for every connection, the name of its room. */
  datatype Registry = Registry(rooms: map<string, seq<Participant>>, connRoom: map<Conn, string>, nextId: nat)

  const EMPTY_REGISTRY := Registry(map[], map[], 1)

  // ---- Lookups ------------------------------------------------------------------------

  /** Index of the participant with this connection, or the length if there is none. */
  function Find(ps: seq<Participant>, conn: Conn): (i: nat)
    ensures i <= |ps|
    ensures i < |ps| ==> ps[i].conn == conn
  {
    if ps == [] then 0 else if ps[0].conn == conn then 0 else 1 + Find(ps[1..], conn)
  }

  predicate HasConn(ps: seq<Participant>, conn: Conn) {
    Find(ps, conn) < |ps|
  }

  function IdIn(ps: seq<Participant>, conn: Conn): nat {
    if HasConn(ps, conn) then ps[Find(ps, conn)].id else 0
  }

  function FindId(ps: seq<Participant>, id: nat): (i: nat)
    ensures i <= |ps|
    ensures i < |ps| ==> ps[i].id == id
  {
    if ps == [] then 0 else if ps[0].id == id then 0 else 1 + FindId(ps[1..], id)
  }

  function Members(reg: Registry, room: string): seq<Participant> {
    if room in reg.rooms then reg.rooms[room] else []
  }

  /** The id bound to a connection, or 0 if the connection is in no room. */
  function IdFor(reg: Registry, conn: Conn): nat {
    if conn in reg.connRoom then IdIn(Members(reg, reg.connRoom[conn]), conn) else 0
  }

  // ---- Steps ----------------------------------------------------------------------------

  function IdsOf(ps: seq<Participant>): (ids: seq<nat>)
    ensures |ids| == |ps|
  {
    if ps == [] then [] else IdsOf(ps[..|ps| - 1]) + [ps[|ps| - 1].id]
  }

  /** The same message to every participant but one connection. */
  function ToAllBut(ps: seq<Participant>, except: Conn, m: Message): seq<Sent> {
    if ps == [] then []
    else
      var last := ps[|ps| - 1].conn;
      ToAllBut(ps[..|ps| - 1], except, m) + (if last == except then [] else [Sent(last, m)])
  }

  function Without(ps: seq<Participant>, conn: Conn): seq<Participant> {
    var i := Find(ps, conn);
    if i < |ps| then ps[..i] + ps[i + 1..] else ps
  }

  function Leave(reg: Registry, conn: Conn): (Registry, seq<Sent>) {
    if conn !in reg.connRoom then (reg, [])
    else
      var room := reg.connRoom[conn];
      var unbound := reg.(connRoom := reg.connRoom - {conn});
      if room !in reg.rooms then (unbound, [])
      else
        var ps := reg.rooms[room];
        var leaving, rest := IdIn(ps, conn), Without(ps, conn);
        (unbound.(rooms := if rest == [] then reg.rooms - {room} else reg.rooms[room := rest]),
         if leaving != 0 then ToAllBut(rest, conn, PeerLeft(room, leaving)) else [])
  }

  function Enter(reg: Registry, room: string, conn: Conn): (Registry, Result<nat>, seq<Sent>) {
    var ps := Members(reg, room);
    if |ps| >= MAX_PARTICIPANTS then (reg, Err(ResourceExhausted), [])
    else
      var id, all := reg.nextId, ps + [Participant(reg.nextId, conn)];
      (Registry(reg.rooms[room := all], reg.connRoom[conn := room], id + 1), Ok(id),
       [Sent(conn, Joined(room, id, IdsOf(ps)))] + ToAllBut(all, conn, PeerJoined(room, id)))
  }

  /** A connection that is in a room leaves it first, even if the new room turns out full. */
  function Join(reg: Registry, room: string, conn: Conn): (Registry, Result<nat>, seq<Sent>) {
    if room == "" || conn == 0 then (reg, Err(InvalidArgument), [])
    else
      var (left, farewell) := Leave(reg, conn);
      var (next, r, welcome) := Enter(left, room, conn);
      (next, r, farewell + welcome)
  }

  predicate IsRelayable(kind: string) {
    kind == "offer" || kind == "answer" || kind == "ice"
  }

  function Relay(reg: Registry, conn: Conn, kind: string, to: nat, text: string): (Result<()>, seq<Sent>) {
    if !IsRelayable(kind) then (Err(Protocol), [])
    else if IdFor(reg, conn) == 0 then (Err(NotFound), [])
    else
      var ps := Members(reg, reg.connRoom[conn]);
      if to == 0 then (Ok(()), ToAllBut(ps, conn, Relayed(text)))
      else
        var i := FindId(ps, to);
        if i < |ps| then (Ok(()), [Sent(ps[i].conn, Relayed(text))]) else (Err(NotFound), [])
  }

  // ---- Agreement of the two indexes -------------------------------------------------------

  ghost predicate DistinctConns(ps: seq<Participant>) {
    forall i, j :: 0 <= i < j < |ps| ==> ps[i].conn != ps[j].conn
  }

  ghost predicate DistinctIds(ps: seq<Participant>) {
    forall i, j :: 0 <= i < j < |ps| ==> ps[i].id != ps[j].id
  }

  /** A live room: one to eight participants, distinct connections bound to it, distinct
      ids that have been handed out. */
  ghost predicate ValidRoom(reg: Registry, room: string, ps: seq<Participant>) {
    && room != "" && 1 <= |ps| <= MAX_PARTICIPANTS
    && DistinctConns(ps) && DistinctIds(ps)
    && forall i :: 0 <= i < |ps| ==> BoundTo(reg, room, ps[i])
  }

  ghost predicate BoundTo(reg: Registry, room: string, p: Participant) {
    1 <= p.id < reg.nextId && p.conn != 0 && p.conn in reg.connRoom && reg.connRoom[p.conn] == room
  }

  ghost predicate Bound(reg: Registry, conn: Conn) {
    conn in reg.connRoom && reg.connRoom[conn] in reg.rooms && HasConn(reg.rooms[reg.connRoom[conn]], conn)
  }

  /** Rooms and connections agree: a connection is listed in exactly the room it is bound
      to, hence in at most one. */
  ghost predicate Agree(reg: Registry) {
    && reg.nextId >= 1
    && (forall room :: room in reg.rooms ==> ValidRoom(reg, room, reg.rooms[room]))
    && (forall conn :: conn in reg.connRoom ==> Bound(reg, conn))
  }

  // ---- Clients -------------------------------------------------------------------------------

  /** What a client knows after the messages it was sent: its id and the ids of its peers. */
  datatype View = Outside | Inside(id: nat, peers: set<nat>)

  ghost function Elements(ids: seq<nat>): set<nat> {
    set i | i in ids
  }

  ghost function Apply(v: View, m: Message): View {
    match m
    case Joined(_, id, peers) => Inside(id, Elements(peers))
    case PeerJoined(_, from) => if v.Inside? then v.(peers := v.peers + {from}) else v
    case PeerLeft(_, from) => if v.Inside? then v.(peers := v.peers - {from}) else v
    case Relayed(_) => v
  }

  ghost function ViewOf(log: seq<Sent>, conn: Conn): View {
    if log == [] then Outside
    else
      var last := log[|log| - 1];
      var before := ViewOf(log[..|log| - 1], conn);
      if last.to == conn then Apply(before, last.message) else before
  }

  ghost function Ids(ps: seq<Participant>): set<nat> {
    Elements(IdsOf(ps))
  }

  /** The view a member of a room should have. */
  ghost function RightView(ps: seq<Participant>, conn: Conn): View {
    Inside(IdIn(ps, conn), Ids(ps) - {IdIn(ps, conn)})
  }

  ghost predicate HasRightView(reg: Registry, log: seq<Sent>, conn: Conn)
    requires Bound(reg, conn)
  {
    ViewOf(log, conn) == RightView(reg.rooms[reg.connRoom[conn]], conn)
  }

  ghost predicate RostersRight(reg: Registry, log: seq<Sent>)
    requires Agree(reg)
  {
    forall conn :: conn in reg.connRoom ==> HasRightView(reg, log, conn)
  }

  /** The two indexes agree and every member's roster is right. */
  ghost predicate InStep(reg: Registry, log: seq<Sent>) {
    Agree(reg) && RostersRight(reg, log)
  }

  // ---- Lists of participants --------------------------------------------------------------

  lemma {:induction false} FindFirst(ps: seq<Participant>, conn: Conn, i: nat)
    requires i < |ps| && ps[i].conn == conn && forall j :: 0 <= j < i ==> ps[j].conn != conn
    ensures Find(ps, conn) == i
  {
    if i > 0 {
      FindFirst(ps[1..], conn, i - 1);
    }
  }

  lemma {:induction false} FindNone(ps: seq<Participant>, conn: Conn)
    requires forall j :: 0 <= j < |ps| ==> ps[j].conn != conn
    ensures Find(ps, conn) == |ps|
  {
    if ps != [] {
      FindNone(ps[1..], conn);
    }
  }

  /** With distinct connections, a participant's connection finds it. */
  lemma FindIs(ps: seq<Participant>, conn: Conn, i: nat)
    requires DistinctConns(ps) && i < |ps| && ps[i].conn == conn
    ensures Find(ps, conn) == i && IdIn(ps, conn) == ps[i].id
  {
    FindFirst(ps, conn, i);
  }

  lemma HasConnIff(ps: seq<Participant>, conn: Conn)
    requires DistinctConns(ps)
    ensures HasConn(ps, conn) <==> exists i :: 0 <= i < |ps| && ps[i].conn == conn
  {
    if i :| 0 <= i < |ps| && ps[i].conn == conn {
      FindIs(ps, conn, i);
    }
  }

  lemma {:induction false} IdsOfAt(ps: seq<Participant>, i: nat)
    requires i < |ps|
    ensures IdsOf(ps)[i] == ps[i].id
  {
    if i < |ps| - 1 {
      IdsOfAt(ps[..|ps| - 1], i);
    }
  }

  lemma IdsMember(ps: seq<Participant>, id: nat)
    ensures id in Ids(ps) <==> exists i :: 0 <= i < |ps| && ps[i].id == id
  {
    if id in Ids(ps) {
      var i :| 0 <= i < |IdsOf(ps)| && IdsOf(ps)[i] == id;
      IdsOfAt(ps, i);
    }
    if i :| 0 <= i < |ps| && ps[i].id == id {
      IdsOfAt(ps, i);
    }
  }

  // ---- Messages to a room --------------------------------------------------------------------

  lemma SentOne(log: seq<Sent>, s: Sent, conn: Conn)
    ensures ViewOf(log + [s], conn) == if s.to == conn then Apply(ViewOf(log, conn), s.message) else ViewOf(log, conn)
  {
    assert (log + [s])[..|log|] == log;
  }

  /** A notice reaches exactly the listed connections but one, each once. */
  lemma {:induction false} NoticeApplied(log: seq<Sent>, ps: seq<Participant>, except: Conn, m: Message, conn: Conn)
    requires DistinctConns(ps)
    ensures ViewOf(log + ToAllBut(ps, except, m), conn)
         == if conn != except && HasConn(ps, conn) then Apply(ViewOf(log, conn), m) else ViewOf(log, conn)
  {
    if ps == [] {
      assert log + ToAllBut(ps, except, m) == log;
    } else {
      var n := |ps| - 1;
      var front, last := ps[..n], ps[n].conn;
      NoticeApplied(log, front, except, m, conn);
      var sent := ToAllBut(front, except, m);
      HasConnIff(ps, conn);
      HasConnIff(front, conn);
      assert forall i :: 0 <= i < n ==> front[i] == ps[i];
      if last == except {
        assert sent + [] == sent;
      } else {
        Associate(log, sent, [Sent(last, m)]);
        SentOne(log + sent, Sent(last, m), conn);
      }
      assert conn == last ==> !HasConn(front, conn) && HasConn(ps, conn);
      assert conn != last ==> (HasConn(ps, conn) <==> HasConn(front, conn));
    }
  }

  // ---- Leaving -------------------------------------------------------------------------------

  lemma WithoutAt(ps: seq<Participant>, conn: Conn, j: nat)
    requires HasConn(ps, conn) && j < |ps| - 1
    ensures |Without(ps, conn)| == |ps| - 1
    ensures Without(ps, conn)[j] == ps[if j < Find(ps, conn) then j else j + 1]
  {
  }

  /** Removing a connection keeps everyone else as they were. */
  lemma WithoutKeepsOthers(ps: seq<Participant>, conn: Conn)
    requires DistinctConns(ps) && DistinctIds(ps) && HasConn(ps, conn)
    ensures |Without(ps, conn)| == |ps| - 1
    ensures DistinctConns(Without(ps, conn)) && DistinctIds(Without(ps, conn))
    ensures forall j :: 0 <= j < |ps| - 1 ==> Without(ps, conn)[j] in ps && Without(ps, conn)[j].conn != conn
  {
    var rest := Without(ps, conn);
    forall j | 0 <= j < |rest| ensures rest[j] == ps[if j < Find(ps, conn) then j else j + 1] {
      WithoutAt(ps, conn, j);
    }
  }

  lemma WithoutFinds(ps: seq<Participant>, conn: Conn, other: Conn)
    requires DistinctConns(ps) && DistinctIds(ps) && HasConn(ps, conn)
    ensures HasConn(Without(ps, conn), other) <==> other != conn && HasConn(ps, other)
    ensures other != conn ==> IdIn(Without(ps, conn), other) == IdIn(ps, other)
  {
    if HasConn(Without(ps, conn), other) {
      WithoutFoundBefore(ps, conn, other);
    }
    if other != conn && HasConn(ps, other) {
      WithoutStillFinds(ps, conn, other);
    }
  }

  lemma WithoutFoundBefore(ps: seq<Participant>, conn: Conn, other: Conn)
    requires DistinctConns(ps) && DistinctIds(ps) && HasConn(ps, conn) && HasConn(Without(ps, conn), other)
    ensures other != conn && HasConn(ps, other)
  {
    var rest, k := Without(ps, conn), Find(ps, conn);
    WithoutKeepsOthers(ps, conn);
    var j := Find(rest, other);
    WithoutAt(ps, conn, j);
    FindIs(ps, other, if j < k then j else j + 1);
  }

  lemma WithoutStillFinds(ps: seq<Participant>, conn: Conn, other: Conn)
    requires DistinctConns(ps) && DistinctIds(ps) && HasConn(ps, conn) && other != conn && HasConn(ps, other)
    ensures HasConn(Without(ps, conn), other) && IdIn(Without(ps, conn), other) == IdIn(ps, other)
  {
    var i, k := Find(ps, other), Find(ps, conn);
    var j := if i < k then i else i - 1;
    WithoutKeepsOthers(ps, conn);
    WithoutAt(ps, conn, j);
    FindIs(Without(ps, conn), other, j);
  }

  lemma WithoutIds(ps: seq<Participant>, conn: Conn)
    requires DistinctConns(ps) && DistinctIds(ps) && HasConn(ps, conn)
    ensures Ids(Without(ps, conn)) == Ids(ps) - {IdIn(ps, conn)}
  {
    var rest, k := Without(ps, conn), Find(ps, conn);
    WithoutKeepsOthers(ps, conn);
    forall id ensures id in Ids(rest) <==> id in Ids(ps) && id != ps[k].id {
      IdsMember(ps, id);
      IdsMember(rest, id);
      if i :| 0 <= i < |ps| && ps[i].id == id && i != k {
        WithoutAt(ps, conn, if i < k then i else i - 1);
      }
      if j :| 0 <= j < |rest| && rest[j].id == id {
        WithoutAt(ps, conn, j);
      }
    }
  }

  lemma MemberIsBound(reg: Registry, room: string, conn: Conn)
    requires Agree(reg) && room in reg.rooms && HasConn(reg.rooms[room], conn)
    ensures conn in reg.connRoom && reg.connRoom[conn] == room
    ensures 1 <= IdIn(reg.rooms[room], conn) < reg.nextId
  {
    assert ValidRoom(reg, room, reg.rooms[room]);
  }

  lemma RestIsValid(reg: Registry, conn: Conn, room: string)
    requires Agree(reg) && conn in reg.connRoom && reg.connRoom[conn] == room && Bound(reg, conn)
    requires Without(reg.rooms[room], conn) != []
    ensures ValidRoom(Leave(reg, conn).0, room, Without(reg.rooms[room], conn))
  {
    var ps, rest := reg.rooms[room], Without(reg.rooms[room], conn);
    assert ValidRoom(reg, room, ps);
    WithoutKeepsOthers(ps, conn);
    var next := Leave(reg, conn).0;
    forall j | 0 <= j < |rest| ensures BoundTo(next, room, rest[j]) {
      RestIsBound(reg, conn, room, rest[j]);
    }
  }

  lemma RestIsBound(reg: Registry, conn: Conn, room: string, p: Participant)
    requires conn in reg.connRoom && room in reg.rooms && ValidRoom(reg, room, reg.rooms[room])
    requires p in reg.rooms[room] && p.conn != conn
    ensures BoundTo(Leave(reg, conn).0, room, p)
  {
    var i :| 0 <= i < |reg.rooms[room]| && reg.rooms[room][i] == p;
    assert BoundTo(reg, room, reg.rooms[room][i]);
  }

  lemma OtherRoomIsValid(reg: Registry, conn: Conn, other: string)
    requires Agree(reg) && conn in reg.connRoom && Bound(reg, conn)
    requires other in reg.rooms && other != reg.connRoom[conn]
    ensures other in Leave(reg, conn).0.rooms && ValidRoom(Leave(reg, conn).0, other, reg.rooms[other])
  {
    assert ValidRoom(reg, other, reg.rooms[other]);
  }

  lemma OtherIsBound(reg: Registry, conn: Conn, other: Conn)
    requires Agree(reg) && conn in reg.connRoom && other in reg.connRoom && other != conn
    ensures Bound(Leave(reg, conn).0, other)
  {
    var room := reg.connRoom[conn];
    assert Bound(reg, conn) && Bound(reg, other) && ValidRoom(reg, room, reg.rooms[room]);
    WithoutFinds(reg.rooms[room], conn, other);
  }

  /** Leaving keeps rooms and connections in agreement and unbinds the connection. */
  lemma LeaveKeepsAgreement(reg: Registry, conn: Conn)
    requires Agree(reg)
    ensures Agree(Leave(reg, conn).0) && conn !in Leave(reg, conn).0.connRoom
    ensures Leave(reg, conn).0.nextId == reg.nextId
  {
    if conn in reg.connRoom {
      var next, room := Leave(reg, conn).0, reg.connRoom[conn];
      assert Bound(reg, conn);
      forall r | r in next.rooms ensures ValidRoom(next, r, next.rooms[r]) {
        if r == room {
          RestIsValid(reg, conn, room);
        } else {
          OtherRoomIsValid(reg, conn, r);
        }
      }
      forall c | c in next.connRoom ensures Bound(next, c) {
        OtherIsBound(reg, conn, c);
      }
    }
  }

  lemma LeaveKeepsView(reg: Registry, log: seq<Sent>, conn: Conn, other: Conn)
    requires Agree(reg) && conn in reg.connRoom && other in reg.connRoom && other != conn
    requires Bound(reg, other) && HasRightView(reg, log, other)
    ensures var (next, sent) := Leave(reg, conn); Bound(next, other) && HasRightView(next, log + sent, other)
  {
    var (next, sent) := Leave(reg, conn);
    var room := reg.connRoom[conn];
    assert Bound(reg, conn) && ValidRoom(reg, room, reg.rooms[room]);
    var ps, rest := reg.rooms[room], Without(reg.rooms[room], conn);
    OtherIsBound(reg, conn, other);
    MemberIsBound(reg, room, conn);
    WithoutKeepsOthers(ps, conn);
    WithoutFinds(ps, conn, other);
    WithoutIds(ps, conn);
    NoticeApplied(log, rest, conn, PeerLeft(room, IdIn(ps, conn)), other);
    if reg.connRoom[other] == room {
      var me, leaving := IdIn(ps, other), IdIn(ps, conn);
      assert (Ids(ps) - {me}) - {leaving} == (Ids(ps) - {leaving}) - {me};
    } else if HasConn(rest, other) {
      MemberIsBound(reg, room, other);
    }
  }

  /** After a leave, every remaining member's roster is right again. */
  lemma LeaveKeepsRosters(reg: Registry, log: seq<Sent>, conn: Conn)
    requires Agree(reg) && RostersRight(reg, log)
    ensures var (next, sent) := Leave(reg, conn); Agree(next) && RostersRight(next, log + sent)
  {
    var (next, sent) := Leave(reg, conn);
    LeaveKeepsAgreement(reg, conn);
    if conn in reg.connRoom {
      forall c | c in next.connRoom ensures HasRightView(next, log + sent, c) {
        assert HasRightView(reg, log, c);
        LeaveKeepsView(reg, log, conn, c);
      }
    } else {
      assert log + sent == log;
    }
  }

  // ---- Joining -------------------------------------------------------------------------------

  lemma MembersAreValid(reg: Registry, room: string)
    requires Agree(reg)
    ensures DistinctConns(Members(reg, room)) && DistinctIds(Members(reg, room))
  {
    assert room in reg.rooms ==> ValidRoom(reg, room, reg.rooms[room]);
  }

  ghost predicate Admits(reg: Registry, room: string, conn: Conn) {
    room != "" && conn != 0 && conn !in reg.connRoom && |Members(reg, room)| < MAX_PARTICIPANTS
  }

  lemma EnteredFinds(reg: Registry, room: string, conn: Conn, other: Conn)
    requires Agree(reg) && Admits(reg, room, conn)
    ensures var ps := Members(reg, room);
            var all := ps + [Participant(reg.nextId, conn)];
            && DistinctConns(all)
            && (HasConn(all, other) <==> other == conn || HasConn(ps, other))
            && (HasConn(ps, other) ==> IdIn(all, other) == IdIn(ps, other) < reg.nextId)
            && IdIn(all, conn) == reg.nextId
  {
    var ps := Members(reg, room);
    var all := ps + [Participant(reg.nextId, conn)];
    MembersAreValid(reg, room);
    forall i | 0 <= i < |ps| ensures ps[i].conn != conn {
      FindIs(ps, ps[i].conn, i);
      MemberIsBound(reg, room, ps[i].conn);
    }
    FindIs(all, conn, |ps|);
    if HasConn(ps, other) {
      FindIs(all, other, Find(ps, other));
      MemberIsBound(reg, room, other);
    }
    if HasConn(all, other) && other != conn {
      assert all[Find(all, other)] == ps[Find(all, other)];
      FindIs(ps, other, Find(all, other));
    }
  }

  lemma EnteredIds(reg: Registry, room: string, conn: Conn)
    requires Agree(reg) && Admits(reg, room, conn)
    ensures var ps := Members(reg, room);
            var all := ps + [Participant(reg.nextId, conn)];
            && reg.nextId !in Ids(ps)
            && Ids(all) == Ids(ps) + {reg.nextId}
            && DistinctIds(all)
  {
    var ps := Members(reg, room);
    var all := ps + [Participant(reg.nextId, conn)];
    MembersAreValid(reg, room);
    forall i | 0 <= i < |ps| ensures ps[i].id < reg.nextId {
      assert ValidRoom(reg, room, reg.rooms[room]);
    }
    IdsMember(ps, reg.nextId);
    assert all[..|ps|] == ps;
    assert IdsOf(all) == IdsOf(ps) + [reg.nextId];
  }

  lemma EnteredAreBound(reg: Registry, room: string, conn: Conn, p: Participant)
    requires Agree(reg) && Admits(reg, room, conn)
    requires p in Members(reg, room) || p == Participant(reg.nextId, conn)
    ensures BoundTo(Enter(reg, room, conn).0, room, p)
  {
    if p in Members(reg, room) {
      assert ValidRoom(reg, room, reg.rooms[room]);
      assert BoundTo(reg, room, p);
    }
  }

  lemma EnteredIsValid(reg: Registry, room: string, conn: Conn)
    requires Agree(reg) && Admits(reg, room, conn)
    ensures var next := Enter(reg, room, conn).0; ValidRoom(next, room, next.rooms[room])
  {
    var ps, next := Members(reg, room), Enter(reg, room, conn).0;
    var all := ps + [Participant(reg.nextId, conn)];
    assert DistinctConns(all) by { EnteredFinds(reg, room, conn, conn); }
    assert DistinctIds(all) by { EnteredIds(reg, room, conn); }
    AllEnteredAreBound(reg, room, conn);
  }

  lemma AllEnteredAreBound(reg: Registry, room: string, conn: Conn)
    requires Agree(reg) && Admits(reg, room, conn)
    ensures var all := Members(reg, room) + [Participant(reg.nextId, conn)];
            forall i :: 0 <= i < |all| ==> BoundTo(Enter(reg, room, conn).0, room, all[i])
  {
    var ps := Members(reg, room);
    var all := ps + [Participant(reg.nextId, conn)];
    forall i | 0 <= i < |all| ensures BoundTo(Enter(reg, room, conn).0, room, all[i]) {
      assert i < |ps| ==> all[i] == ps[i];
      EnteredAreBound(reg, room, conn, all[i]);
    }
  }

  lemma EnterKeepsAgreement(reg: Registry, room: string, conn: Conn)
    requires Agree(reg) && Admits(reg, room, conn)
    ensures Agree(Enter(reg, room, conn).0)
  {
    var next := Enter(reg, room, conn).0;
    forall r | r in next.rooms ensures ValidRoom(next, r, next.rooms[r]) {
      if r == room {
        EnteredIsValid(reg, room, conn);
      } else {
        assert ValidRoom(reg, r, reg.rooms[r]);
      }
    }
    forall c | c in next.connRoom ensures Bound(next, c) {
      EnteredFinds(reg, room, conn, c);
      if c != conn { assert Bound(reg, c); }
    }
  }

  lemma EnterKeepsView(reg: Registry, log: seq<Sent>, room: string, conn: Conn, other: Conn)
    requires Agree(reg) && Admits(reg, room, conn)
    requires other == conn || (other in reg.connRoom && Bound(reg, other) && HasRightView(reg, log, other))
    ensures var (next, r, sent) := Enter(reg, room, conn); Bound(next, other) && HasRightView(next, log + sent, other)
  {
    var (next, r, sent) := Enter(reg, room, conn);
    var ps, id := Members(reg, room), reg.nextId;
    var all, joined := ps + [Participant(id, conn)], Sent(conn, Joined(room, id, IdsOf(ps)));
    EnteredFinds(reg, room, conn, other);
    EnteredIds(reg, room, conn);
    Associate(log, [joined], ToAllBut(all, conn, PeerJoined(room, id)));
    NoticeApplied(log + [joined], all, conn, PeerJoined(room, id), other);
    SentOne(log, joined, other);
    if other == conn {
      assert Ids(all) - {id} == Ids(ps);
    } else if reg.connRoom[other] == room {
      assert (Ids(ps) - {IdIn(ps, other)}) + {id} == Ids(all) - {IdIn(ps, other)};
    } else if HasConn(ps, other) {
      MemberIsBound(reg, room, other);
    }
  }

  /** After a join, successful or not, rooms and connections agree and every member's
      roster is right: the newcomer's, the old members' and those of the room it left. */
  lemma JoinKeepsRosters(reg: Registry, log: seq<Sent>, room: string, conn: Conn)
    requires Agree(reg) && RostersRight(reg, log)
    ensures var (next, r, sent) := Join(reg, room, conn); Agree(next) && RostersRight(next, log + sent)
  {
    if room == "" || conn == 0 {
      assert log + [] == log;
    } else {
      var (left, farewell) := Leave(reg, conn);
      var (next, r, welcome) := Enter(left, room, conn);
      LeaveKeepsAgreement(reg, conn);
      LeaveKeepsRosters(reg, log, conn);
      Associate(log, farewell, welcome);
      if Admits(left, room, conn) {
        EnterKeepsAgreement(left, room, conn);
        forall c | c in next.connRoom ensures HasRightView(next, log + (farewell + welcome), c) {
          assert c != conn ==> HasRightView(left, log + farewell, c);
          EnterKeepsView(left, log + farewell, room, conn, c);
        }
      } else {
        assert (log + farewell) + [] == log + farewell;
      }
    }
  }

  lemma EnterOutcome(reg: Registry, room: string, conn: Conn)
    requires Agree(reg) && conn !in reg.connRoom && room != "" && conn != 0
    ensures var (next, r, sent) := Enter(reg, room, conn);
            if |Members(reg, room)| < MAX_PARTICIPANTS then
              && r == Ok(reg.nextId) && next.nextId == reg.nextId + 1 && IdFor(next, conn) == reg.nextId
              && next.connRoom == reg.connRoom[conn := room]
              && Members(next, room) == Members(reg, room) + [Participant(reg.nextId, conn)]
            else r == Err(ResourceExhausted) && next == reg && |Members(reg, room)| == MAX_PARTICIPANTS
  {
    if Admits(reg, room, conn) {
      EnteredFinds(reg, room, conn, conn);
    } else {
      assert room in reg.rooms ==> ValidRoom(reg, room, reg.rooms[room]);
    }
  }

  /** What a join does to membership, exactly: the newcomer gets an id never used before,
      is last in its room, and the other participants stay, in their order. A join that
      finds the room full still takes the connection out of its old room. */
  lemma JoinOutcome(reg: Registry, room: string, conn: Conn)
    requires Agree(reg)
    ensures var (next, r, sent) := Join(reg, room, conn);
            var others := Without(Members(reg, room), conn);
            if room == "" || conn == 0 then r == Err(InvalidArgument) && next == reg && sent == []
            else if |others| < MAX_PARTICIPANTS then
              && r == Ok(reg.nextId) && next.nextId == reg.nextId + 1 && IdFor(next, conn) == reg.nextId
              && next.connRoom == reg.connRoom[conn := room]
              && Members(next, room) == others + [Participant(reg.nextId, conn)]
            else
              && r == Err(ResourceExhausted) && |others| == MAX_PARTICIPANTS
              && next == Leave(reg, conn).0 && conn !in next.connRoom && next.nextId == reg.nextId
  {
    if room != "" && conn != 0 {
      JoinIsLeaveThenEnter(reg, room, conn);
      LeaveKeepsAgreement(reg, conn);
      LeaveLeaves(reg, room, conn);
      EnterAfterLeave(reg, Leave(reg, conn).0, room, conn);
    }
  }

  lemma EnterAfterLeave(reg: Registry, left: Registry, room: string, conn: Conn)
    requires Agree(left) && room != "" && conn != 0
    requires left.connRoom == reg.connRoom - {conn} && left.nextId == reg.nextId
    requires Members(left, room) == Without(Members(reg, room), conn)
    ensures var (next, r, sent) := Enter(left, room, conn);
            var others := Without(Members(reg, room), conn);
            if |others| < MAX_PARTICIPANTS then
              && r == Ok(reg.nextId) && next.nextId == reg.nextId + 1 && IdFor(next, conn) == reg.nextId
              && next.connRoom == reg.connRoom[conn := room]
              && Members(next, room) == others + [Participant(reg.nextId, conn)]
            else
              && r == Err(ResourceExhausted) && |others| == MAX_PARTICIPANTS
              && next == left && conn !in next.connRoom && next.nextId == reg.nextId
  {
    EnterOutcome(left, room, conn);
    assert (reg.connRoom - {conn})[conn := room] == reg.connRoom[conn := room];
  }

  lemma JoinIsLeaveThenEnter(reg: Registry, room: string, conn: Conn)
    requires room != "" && conn != 0
    ensures var (next, r, sent) := Enter(Leave(reg, conn).0, room, conn);
            Join(reg, room, conn).0 == next && Join(reg, room, conn).1 == r
  {
  }

  lemma LeaveLeaves(reg: Registry, room: string, conn: Conn)
    requires Agree(reg)
    ensures var left := Leave(reg, conn).0;
            && left.connRoom == reg.connRoom - {conn} && left.nextId == reg.nextId
            && Members(left, room) == Without(Members(reg, room), conn)
  {
    LeaveUnbinds(reg, conn);
    MembersAfterLeave(reg, room, conn);
  }

  lemma LeaveUnbinds(reg: Registry, conn: Conn)
    ensures Leave(reg, conn).0.connRoom == reg.connRoom - {conn}
  {
    assert conn !in reg.connRoom ==> reg.connRoom - {conn} == reg.connRoom;
  }

  lemma MembersAfterLeave(reg: Registry, room: string, conn: Conn)
    requires Agree(reg)
    ensures Members(Leave(reg, conn).0, room) == Without(Members(reg, room), conn)
  {
    if conn in reg.connRoom {
      assert Bound(reg, conn);
    }
    if HasConn(Members(reg, room), conn) {
      MemberIsBound(reg, room, conn);
    }
  }

  // ---- Relaying ---------------------------------------------------------------------------

  ghost function CountTo(sent: seq<Sent>, conn: Conn): nat {
    if sent == [] then 0
    else CountTo(sent[..|sent| - 1], conn) + if sent[|sent| - 1].to == conn then 1 else 0
  }

  lemma CountOneMore(sent: seq<Sent>, last: Sent, conn: Conn)
    ensures CountTo(sent + [last], conn) == CountTo(sent, conn) + if last.to == conn then 1 else 0
  {
    assert (sent + [last])[..|sent|] == sent;
  }

  lemma HasConnOneMore(ps: seq<Participant>, conn: Conn)
    requires ps != [] && DistinctConns(ps)
    ensures var front, last := ps[..|ps| - 1], ps[|ps| - 1].conn;
            && DistinctConns(front) && !HasConn(front, last)
            && (HasConn(ps, conn) <==> conn == last || HasConn(front, conn))
  {
    var front, last := ps[..|ps| - 1], ps[|ps| - 1].conn;
    HasConnIff(ps, conn);
    HasConnIff(front, conn);
    HasConnIff(front, last);
    assert forall i :: 0 <= i < |front| ==> front[i] == ps[i];
  }

  lemma {:induction false} NoticeCount(ps: seq<Participant>, except: Conn, m: Message, conn: Conn)
    requires DistinctConns(ps)
    ensures CountTo(ToAllBut(ps, except, m), conn) == if conn != except && HasConn(ps, conn) then 1 else 0
  {
    if ps != [] {
      var front, last := ps[..|ps| - 1], ps[|ps| - 1].conn;
      var sent := ToAllBut(front, except, m);
      HasConnOneMore(ps, conn);
      NoticeCount(front, except, m, conn);
      CountOneMore(sent, Sent(last, m), conn);
      assert sent + [] == sent;
    }
  }

  lemma {:induction false} FindIdIs(ps: seq<Participant>, id: nat, i: nat)
    requires DistinctIds(ps) && i < |ps| && ps[i].id == id
    ensures FindId(ps, id) == i
  {
    if i > 0 {
      FindIdIs(ps[1..], id, i - 1);
    }
  }

  ghost predicate SameRoom(reg: Registry, a: Conn, b: Conn) {
    a in reg.connRoom && b in reg.connRoom && reg.connRoom[a] == reg.connRoom[b]
  }

  /** Whether a message from `conn` to the id `to`, or to all if 0, is meant for `c`. */
  ghost predicate Addressed(reg: Registry, conn: Conn, to: nat, c: Conn) {
    SameRoom(reg, conn, c) && (if to == 0 then c != conn else IdFor(reg, c) == to)
  }

  lemma IdForMember(reg: Registry, conn: Conn)
    requires Agree(reg)
    ensures conn in reg.connRoom <==> IdFor(reg, conn) != 0
  {
    if conn in reg.connRoom {
      assert Bound(reg, conn);
      MemberIsBound(reg, reg.connRoom[conn], conn);
    }
  }

  /** A relay succeeds exactly for a member's offer, answer or ice that goes to all or to
      an id of its room; it sends the text it was given and nothing else, and nothing at
      all when it fails. */
  lemma RelayOutcome(reg: Registry, conn: Conn, kind: string, to: nat, text: string)
    requires Agree(reg)
    ensures var (r, sent) := Relay(reg, conn, kind, to, text);
            && (r.Ok? <==> && kind in ["offer", "answer", "ice"] && conn in reg.connRoom
                           && (to == 0 || to in Ids(Members(reg, reg.connRoom[conn]))))
            && (r.Err? ==> sent == [] && r.error == if kind in ["offer", "answer", "ice"] then NotFound else Protocol)
            && (forall k :: 0 <= k < |sent| ==> sent[k].message == Relayed(text))
  {
    IdForMember(reg, conn);
    if conn in reg.connRoom && IsRelayable(kind) {
      if to == 0 {
        NoticesCarry(Members(reg, reg.connRoom[conn]), conn, Relayed(text));
      } else {
        DirectedRelayExactly(reg, conn, kind, to, text);
      }
    }
  }

  lemma AddressedIsMember(reg: Registry, conn: Conn, to: nat, c: Conn)
    requires Agree(reg) && to != 0 && Addressed(reg, conn, to, c)
    ensures to in Ids(Members(reg, reg.connRoom[conn]))
  {
    var ps := reg.rooms[reg.connRoom[conn]];
    assert Bound(reg, c);
    IdsMember(ps, to);
    assert ps[Find(ps, c)].id == to;
  }

  /** Who gets a relayed message: on a broadcast every other member of the sender's room,
      once each; on a directed relay the member with that id, once; nobody otherwise. What
      they get is the text. A relay of a proper kind fails only if it is meant for nobody. */
  lemma RelayReaches(reg: Registry, conn: Conn, kind: string, to: nat, text: string, c: Conn)
    requires Agree(reg)
    ensures var (r, sent) := Relay(reg, conn, kind, to, text);
            && (to == 0 && IsRelayable(kind) && conn in reg.connRoom ==> r.Ok?)
            && (r == Err(Protocol) <==> !IsRelayable(kind))
            && (r.Err? ==> sent == [] && (IsRelayable(kind) ==> !Addressed(reg, conn, to, c)))
            && (r.Ok? ==> CountTo(sent, c) == if Addressed(reg, conn, to, c) then 1 else 0)
            && (forall k :: 0 <= k < |sent| ==> sent[k].message == Relayed(text))
  {
    RelayOutcome(reg, conn, kind, to, text);
    if to != 0 && Addressed(reg, conn, to, c) {
      AddressedIsMember(reg, conn, to, c);
    }
    if Relay(reg, conn, kind, to, text).0.Ok? {
      RelayCounts(reg, conn, kind, to, text, c);
    }
  }

  lemma RelayCounts(reg: Registry, conn: Conn, kind: string, to: nat, text: string, c: Conn)
    requires Agree(reg) && Relay(reg, conn, kind, to, text).0.Ok?
    ensures CountTo(Relay(reg, conn, kind, to, text).1, c) == if Addressed(reg, conn, to, c) then 1 else 0
  {
    IdForMember(reg, conn);
    var room := reg.connRoom[conn];
    var ps := reg.rooms[room];
    assert Bound(reg, conn) && ValidRoom(reg, room, ps);
    assert SameRoom(reg, conn, c) <==> HasConn(ps, c) by {
      if c in reg.connRoom { assert Bound(reg, c); }
      if HasConn(ps, c) { MemberIsBound(reg, room, c); }
    }
    if to == 0 {
      NoticeCount(ps, conn, Relayed(text), c);
    } else {
      DirectedCount(ps, to, Relayed(text), c);
    }
  }

  lemma DirectedCount(ps: seq<Participant>, to: nat, m: Message, c: Conn)
    requires DistinctConns(ps) && DistinctIds(ps) && FindId(ps, to) < |ps|
    ensures CountTo([Sent(ps[FindId(ps, to)].conn, m)], c) == if HasConn(ps, c) && IdIn(ps, c) == to then 1 else 0
  {
    var i := FindId(ps, to);
    var sent := [Sent(ps[i].conn, m)];
    assert sent[..0] == [] && CountTo(sent[..0], c) == 0;
    FindIs(ps, ps[i].conn, i);
    if HasConn(ps, c) && IdIn(ps, c) == to {
      FindIdIs(ps, to, Find(ps, c));
    }
  }

  /** A directed relay succeeds exactly if the sender's room has a member with that id. */
  lemma DirectedRelayExactly(reg: Registry, conn: Conn, kind: string, to: nat, text: string)
    requires Agree(reg) && to != 0 && IsRelayable(kind) && conn in reg.connRoom
    ensures Relay(reg, conn, kind, to, text).0.Ok? <==> to in Ids(Members(reg, reg.connRoom[conn]))
  {
    var room := reg.connRoom[conn];
    var ps := reg.rooms[room];
    assert Bound(reg, conn) && ValidRoom(reg, room, ps);
    IdForMember(reg, conn);
    IdsMember(ps, to);
    if i :| 0 <= i < |ps| && ps[i].id == to {
      FindIdIs(ps, to, i);
    }
  }

  lemma RelayKeepsView(log: seq<Sent>, sent: seq<Sent>, conn: Conn)
    requires forall k :: 0 <= k < |sent| ==> sent[k].message.Relayed?
    ensures ViewOf(log + sent, conn) == ViewOf(log, conn)
  {
    if sent == [] {
      assert log + sent == log;
    } else {
      var n := |sent| - 1;
      RelayKeepsView(log, sent[..n], conn);
      Associate(log, sent[..n], [sent[n]]);
      assert sent == sent[..n] + [sent[n]];
      SentOne(log + sent[..n], sent[n], conn);
    }
  }

  lemma {:induction false} NoticesCarry(ps: seq<Participant>, except: Conn, m: Message)
    ensures forall k :: 0 <= k < |ToAllBut(ps, except, m)| ==> ToAllBut(ps, except, m)[k].message == m
  {
    if ps != [] {
      NoticesCarry(ps[..|ps| - 1], except, m);
    }
  }

  // ---- Whole runs -----------------------------------------------------------------------------

  datatype Request =
    | JoinRequest(room: string, conn: Conn)
    | LeaveRequest(conn: Conn)
    | RelayRequest(conn: Conn, kind: string, to: nat, text: string)

  function Serve(reg: Registry, q: Request): (Registry, seq<Sent>) {
    match q
    case JoinRequest(room, conn) => var (next, _, sent) := Join(reg, room, conn); (next, sent)
    case LeaveRequest(conn) => Leave(reg, conn)
    case RelayRequest(conn, kind, to, text) => (reg, Relay(reg, conn, kind, to, text).1)
  }

  /** The registry and everything sent after a run of requests, from an empty server. */
  function ServeAll(requests: seq<Request>): (Registry, seq<Sent>) {
    if requests == [] then (EMPTY_REGISTRY, [])
    else
      var (reg, log) := ServeAll(requests[..|requests| - 1]);
      var (next, sent) := Serve(reg, requests[|requests| - 1]);
      (next, log + sent)
  }

  lemma ServeKeepsRosters(reg: Registry, log: seq<Sent>, q: Request)
    requires Agree(reg) && RostersRight(reg, log)
    ensures var (next, sent) := Serve(reg, q); Agree(next) && RostersRight(next, log + sent)
  {
    match q
    case JoinRequest(room, conn) => JoinKeepsRosters(reg, log, room, conn);
    case LeaveRequest(conn) => LeaveKeepsRosters(reg, log, conn);
    case RelayRequest(conn, kind, to, text) =>
      var sent := Relay(reg, conn, kind, to, text).1;
      if IsRelayable(kind) && IdFor(reg, conn) != 0 {
        NoticesCarry(Members(reg, reg.connRoom[conn]), conn, Relayed(text));
      }
      forall c | c in reg.connRoom ensures HasRightView(reg, log + sent, c) {
        assert HasRightView(reg, log, c);
        RelayKeepsView(log, sent, c);
      }
  }

  /** In every reachable state the two indexes agree, and the roster that each member's
      client has put together from its messages is exactly the others in its room. */
  lemma {:induction false} EveryRosterIsRight(requests: seq<Request>)
    ensures var (reg, log) := ServeAll(requests); Agree(reg) && RostersRight(reg, log)
  {
    if requests != [] {
      var n := |requests| - 1;
      EveryRosterIsRight(requests[..n]);
      var (reg, log) := ServeAll(requests[..n]);
      ServeKeepsRosters(reg, log, requests[n]);
    }
  }
}
