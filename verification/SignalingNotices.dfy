/** Who is told what: for every request, the messages that each connection gets, in order.
    Membership is read off the connections, not off the lists the messages are sent from. */
module SignalingNotices {
  import opened Common
  import opened Signaling

  ghost predicate In(reg: Registry, c: Conn, room: string) {
    c in reg.connRoom && reg.connRoom[c] == room
  }

  /** The messages that one connection gets, in the order they are sent. */
  function Inbox(sent: seq<Sent>, c: Conn): seq<Message> {
    if sent == [] then []
    else
      var last := sent[|sent| - 1];
      Inbox(sent[..|sent| - 1], c) + (if last.to == c then [last.message] else [])
  }

  lemma {:induction false} InboxOfBoth(a: seq<Sent>, b: seq<Sent>, c: Conn)
    ensures Inbox(a + b, c) == Inbox(a, c) + Inbox(b, c)
  {
    if b == [] {
      assert a + b == a;
    } else {
      var n := |b| - 1;
      InboxOfBoth(a, b[..n], c);
      assert (a + b)[..|a| + n] == a + b[..n];
      assert (a + b)[|a| + n] == b[n];
    }
  }

  lemma InboxOfOne(s: Sent, c: Conn)
    ensures Inbox([s], c) == if s.to == c then [s.message] else []
  {
    assert [s][..0] == [];
  }

  /** A notice reaches exactly the listed connections but one, each once. */
  lemma {:induction false} NoticeReaches(ps: seq<Participant>, except: Conn, m: Message, c: Conn)
    requires DistinctConns(ps)
    ensures Inbox(ToAllBut(ps, except, m), c) == if c != except && HasConn(ps, c) then [m] else []
  {
    if ps != [] {
      var front, last := ps[..|ps| - 1], ps[|ps| - 1].conn;
      HasConnOneMore(ps, c);
      NoticeReaches(front, except, m, c);
      var more := if last == except then [] else [Sent(last, m)];
      InboxOfBoth(ToAllBut(front, except, m), more, c);
      InboxOfOne(Sent(last, m), c);
    }
  }

  lemma MembersAreIn(reg: Registry, room: string, c: Conn)
    requires Agree(reg)
    ensures HasConn(Members(reg, room), c) <==> In(reg, c, room)
  {
    if In(reg, c, room) {
      assert Bound(reg, c);
    }
    if HasConn(Members(reg, room), c) {
      MemberIsBound(reg, room, c);
    }
  }

  // ---- Leaving -------------------------------------------------------------------------

  /** What `c` is told when `conn` leaves: the others of its room, that its id has left. */
  ghost function Farewell(reg: Registry, conn: Conn, c: Conn): seq<Message> {
    if c != conn && SameRoom(reg, conn, c) then [PeerLeft(reg.connRoom[conn], IdFor(reg, conn))] else []
  }

  /** A leave tells each member left behind once, with the room and the id that left, and
      nobody else anything. */
  lemma LeaveTells(reg: Registry, conn: Conn, c: Conn)
    requires Agree(reg)
    ensures Inbox(Leave(reg, conn).1, c) == Farewell(reg, conn, c)
  {
    if conn in reg.connRoom {
      var room := reg.connRoom[conn];
      assert Bound(reg, conn) && ValidRoom(reg, room, reg.rooms[room]);
      var ps := reg.rooms[room];
      MemberIsBound(reg, room, conn);
      MembersAreIn(reg, room, c);
      WithoutFinds(ps, conn, c);
      WithoutKeepsOthers(ps, conn);
      NoticeReaches(Without(ps, conn), conn, PeerLeft(room, IdIn(ps, conn)), c);
    }
  }

  // ---- Joining -------------------------------------------------------------------------

  /** A list with the id of each member of the room once and nothing else. */
  ghost predicate ListsOnce(ids: seq<nat>, reg: Registry, room: string) {
    && (forall i, j :: 0 <= i < j < |ids| ==> ids[i] != ids[j])
    && (forall id :: id in ids <==> exists c :: In(reg, c, room) && IdFor(reg, c) == id)
  }

  lemma IdsListMembersOnce(reg: Registry, room: string)
    requires Agree(reg)
    ensures ListsOnce(IdsOf(Members(reg, room)), reg, room)
  {
    var ps := Members(reg, room);
    var ids := IdsOf(ps);
    MembersAreValid(reg, room);
    forall i, j | 0 <= i < j < |ids| ensures ids[i] != ids[j] {
      IdsOfAt(ps, i);
      IdsOfAt(ps, j);
    }
    forall id ensures id in ids <==> exists c :: In(reg, c, room) && IdFor(reg, c) == id {
      IdIsOfMember(reg, room, id);
    }
  }

  lemma IdIsOfMember(reg: Registry, room: string, id: nat)
    requires Agree(reg)
    ensures id in IdsOf(Members(reg, room)) <==> exists c :: In(reg, c, room) && IdFor(reg, c) == id
  {
    var ps := Members(reg, room);
    MembersAreValid(reg, room);
    IdsMember(ps, id);
    assert id in Ids(ps) <==> id in IdsOf(ps);
    if i :| 0 <= i < |ps| && ps[i].id == id {
      FindIs(ps, ps[i].conn, i);
      MembersAreIn(reg, room, ps[i].conn);
      assert In(reg, ps[i].conn, room) && IdFor(reg, ps[i].conn) == id;
    }
    if c :| In(reg, c, room) && IdFor(reg, c) == id {
      MembersAreIn(reg, room, c);
      assert ps[Find(ps, c)].id == id;
    }
  }

  /** What `c` is told of a newcomer: the newcomer itself its room, its id and the ids of
      the others; each of them the room and the new id. */
  ghost function Welcome(reg: Registry, room: string, conn: Conn, ids: seq<nat>, c: Conn): seq<Message> {
    if c == conn then [Joined(room, reg.nextId, ids)]
    else if In(reg, c, room) then [PeerJoined(room, reg.nextId)]
    else []
  }

  lemma EnterTells(reg: Registry, room: string, conn: Conn, c: Conn)
    requires Agree(reg) && Admits(reg, room, conn)
    ensures Inbox(Enter(reg, room, conn).2, c) == Welcome(reg, room, conn, IdsOf(Members(reg, room)), c)
  {
    var ps := Members(reg, room);
    var all := ps + [Participant(reg.nextId, conn)];
    var joined, notices := Sent(conn, Joined(room, reg.nextId, IdsOf(ps))), PeerJoined(room, reg.nextId);
    EnteredFinds(reg, room, conn, c);
    MembersAreIn(reg, room, c);
    InboxOfBoth([joined], ToAllBut(all, conn, notices), c);
    InboxOfOne(joined, c);
    NoticeReaches(all, conn, notices, c);
  }

  /** The members of the room but for the one that is about to join it. */
  ghost predicate Full(reg: Registry, room: string, conn: Conn) {
    |Members(Leave(reg, conn).0, room)| == 8
  }

  /** What everyone is told by a join. It is refused for an empty name and for the null
      handle, and then nobody is told anything. Otherwise the members of the old room hear
      the farewell once; and unless the new room already has eight members, the newcomer is
      told once where it is, under which id and with whom, each of these is told once of
      it, and nobody else is told anything. */
  lemma JoinTells(reg: Registry, room: string, conn: Conn, c: Conn) returns (ids: seq<nat>)
    requires Agree(reg)
    ensures var (next, r, sent) := Join(reg, room, conn);
            var left := Leave(reg, conn).0;
            if room == "" || conn == 0 then r == Err(InvalidArgument) && sent == []
            else if Full(reg, room, conn) then
              r == Err(ResourceExhausted) && Inbox(sent, c) == Farewell(reg, conn, c)
            else
              && r == Ok(reg.nextId) && IdFor(next, conn) == reg.nextId && ListsOnce(ids, left, room)
              && Inbox(sent, c) == Farewell(reg, conn, c) + Welcome(left, room, conn, ids, c)
  {
    var (left, farewell) := Leave(reg, conn);
    ids := IdsOf(Members(left, room));
    if room != "" && conn != 0 {
      LeaveKeepsAgreement(reg, conn);
      LeaveTells(reg, conn, c);
      IdsListMembersOnce(left, room);
      EnterOutcome(left, room, conn);
      InboxOfBoth(farewell, Enter(left, room, conn).2, c);
      if Admits(left, room, conn) {
        EnterTells(left, room, conn, c);
      }
    }
  }

  /** A leave unbinds the connection and nobody else, and changes nobody's id. */
  lemma OthersStay(reg: Registry, conn: Conn, c: Conn)
    requires Agree(reg) && c != conn
    ensures var left := Leave(reg, conn).0;
            (c in left.connRoom <==> c in reg.connRoom)
            && (c in reg.connRoom ==> left.connRoom[c] == reg.connRoom[c] && IdFor(left, c) == IdFor(reg, c))
  {
    if conn in reg.connRoom && c in reg.connRoom {
      var room := reg.connRoom[conn];
      assert Bound(reg, conn) && Bound(reg, c) && ValidRoom(reg, room, reg.rooms[room]);
      WithoutFinds(reg.rooms[room], conn, c);
    }
  }

  // ---- Whole runs: no notice is redundant ----------------------------------------------

  /** Whether a message tells a client of someone it does not know yet, or takes back
      someone it knows. */
  ghost predicate IsNews(v: View, m: Message) {
    match m
    case PeerJoined(_, from) => v.Inside? && from != v.id && from !in v.peers
    case PeerLeft(_, from) => v.Inside? && from != v.id && from in v.peers
    case _ => true
  }

  /** Everything that one connection was sent was news when it was sent. */
  ghost predicate AllNews(log: seq<Sent>, c: Conn) {
    log == [] ||
    var front, last := log[..|log| - 1], log[|log| - 1];
    AllNews(front, c) && (last.to == c ==> IsNews(ViewOf(front, c), last.message))
  }

  lemma OneMoreIsNews(log: seq<Sent>, s: Sent, c: Conn)
    requires AllNews(log, c) && (s.to == c ==> IsNews(ViewOf(log, c), s.message))
    ensures AllNews(log + [s], c)
  {
    assert (log + [s])[..|log|] == log;
  }

  lemma {:induction false} NoticesAreNews(log: seq<Sent>, ps: seq<Participant>, except: Conn, m: Message, c: Conn)
    requires DistinctConns(ps) && AllNews(log, c)
    requires c != except && HasConn(ps, c) ==> IsNews(ViewOf(log, c), m)
    ensures AllNews(log + ToAllBut(ps, except, m), c)
  {
    if ps == [] {
      assert log + ToAllBut(ps, except, m) == log;
    } else {
      var front, last := ps[..|ps| - 1], ps[|ps| - 1].conn;
      var sent := ToAllBut(front, except, m);
      HasConnOneMore(ps, c);
      NoticesAreNews(log, front, except, m, c);
      NoticeApplied(log, front, except, m, c);
      if last == except {
        assert sent + [] == sent;
      } else {
        OneMoreIsNews(log + sent, Sent(last, m), c);
        Associate(log, sent, [Sent(last, m)]);
      }
    }
  }

  lemma MemberKnows(reg: Registry, log: seq<Sent>, room: string, c: Conn, id: nat)
    requires Agree(reg) && RostersRight(reg, log) && In(reg, c, room)
    ensures ViewOf(log, c).Inside? && ViewOf(log, c).id == IdFor(reg, c)
    ensures id in ViewOf(log, c).peers <==> id != IdFor(reg, c) && id in Ids(Members(reg, room))
  {
    assert Bound(reg, c) && HasRightView(reg, log, c);
  }

  lemma LeaveIsNews(reg: Registry, log: seq<Sent>, conn: Conn, c: Conn)
    requires Agree(reg) && RostersRight(reg, log) && AllNews(log, c)
    ensures AllNews(log + Leave(reg, conn).1, c)
  {
    if conn in reg.connRoom {
      var room := reg.connRoom[conn];
      assert Bound(reg, conn) && ValidRoom(reg, room, reg.rooms[room]);
      var ps := reg.rooms[room];
      MemberIsBound(reg, room, conn);
      MembersAreIn(reg, room, c);
      WithoutFinds(ps, conn, c);
      WithoutKeepsOthers(ps, conn);
      if c != conn && In(reg, c, room) {
        MemberKnows(reg, log, room, c, IdIn(ps, conn));
        IdsMember(ps, IdIn(ps, conn));
        assert ps[Find(ps, c)].id != ps[Find(ps, conn)].id;
      }
      NoticesAreNews(log, Without(ps, conn), conn, PeerLeft(room, IdIn(ps, conn)), c);
    } else {
      assert log + [] == log;
    }
  }

  lemma EnterIsNews(reg: Registry, log: seq<Sent>, room: string, conn: Conn, c: Conn)
    requires Agree(reg) && Admits(reg, room, conn) && RostersRight(reg, log) && AllNews(log, c)
    ensures AllNews(log + Enter(reg, room, conn).2, c)
  {
    var ps := Members(reg, room);
    var all := ps + [Participant(reg.nextId, conn)];
    var joined, notice := Sent(conn, Joined(room, reg.nextId, IdsOf(ps))), PeerJoined(room, reg.nextId);
    EnteredFinds(reg, room, conn, c);
    EnteredIds(reg, room, conn);
    MembersAreIn(reg, room, c);
    OneMoreIsNews(log, joined, c);
    SentOne(log, joined, c);
    if c != conn && In(reg, c, room) {
      MemberKnows(reg, log, room, c, reg.nextId);
    }
    NoticesAreNews(log + [joined], all, conn, notice, c);
    Associate(log, [joined], ToAllBut(all, conn, notice));
  }

  lemma JoinIsNews(reg: Registry, log: seq<Sent>, room: string, conn: Conn, c: Conn)
    requires Agree(reg) && RostersRight(reg, log) && AllNews(log, c)
    ensures AllNews(log + Join(reg, room, conn).2, c)
  {
    if room == "" || conn == 0 {
      assert log + [] == log;
    } else {
      var (left, farewell) := Leave(reg, conn);
      var welcome := Enter(left, room, conn).2;
      LeaveKeepsAgreement(reg, conn);
      LeaveKeepsRosters(reg, log, conn);
      LeaveIsNews(reg, log, conn, c);
      Associate(log, farewell, welcome);
      if Admits(left, room, conn) {
        EnterIsNews(left, log + farewell, room, conn, c);
      } else {
        assert (log + farewell) + [] == log + farewell;
      }
    }
  }

  lemma {:induction false} TextsAreNews(log: seq<Sent>, sent: seq<Sent>, text: string, c: Conn)
    requires AllNews(log, c) && forall k :: 0 <= k < |sent| ==> sent[k].message == Relayed(text)
    ensures AllNews(log + sent, c)
  {
    if sent == [] {
      assert log + sent == log;
    } else {
      var n := |sent| - 1;
      TextsAreNews(log, sent[..n], text, c);
      OneMoreIsNews(log + sent[..n], sent[n], c);
      Associate(log, sent[..n], [sent[n]]);
      assert sent[..n] + [sent[n]] == sent;
    }
  }

  /** Over any run of requests nobody is told twice of the same arrival or departure: each
      notice is of an id the client does not have, or takes back one that it has. */
  lemma {:induction false} EveryNoticeIsNews(requests: seq<Request>, c: Conn)
    ensures AllNews(ServeAll(requests).1, c)
  {
    if requests != [] {
      var n := |requests| - 1;
      EveryNoticeIsNews(requests[..n], c);
      EveryRosterIsRight(requests[..n]);
      var (reg, log) := ServeAll(requests[..n]);
      match requests[n]
      case JoinRequest(room, conn) => JoinIsNews(reg, log, room, conn, c);
      case LeaveRequest(conn) => LeaveIsNews(reg, log, conn, c);
      case RelayRequest(conn, kind, to, text) =>
        RelayOutcome(reg, conn, kind, to, text);
        TextsAreNews(log, Relay(reg, conn, kind, to, text).1, text, c);
    }
  }
}
