/** The forwarding unit: rooms appear with their first participant and go with their last,
    and what happens in one room never touches another. */
module SfuServing {
  import opened Common
  import opened Rtp
  import opened Forwarding
  import opened SfuRooms

  const MAX_PARTICIPANTS: nat := 8

  // ---- Rooms by name -----------------------------------------------------------------------

  type Rooms = map<string, Endpoints>

  function RoomOf(rooms: Rooms, name: string): Endpoints {
    if name in rooms then rooms[name] else map[]
  }

  /** An event in a room; a room that becomes empty, or stays so, is not kept. */
  ghost function Serve(rooms: Rooms, name: string, e: Event): Rooms {
    var after := Step(RoomOf(rooms, name), MAX_PARTICIPANTS, e);
    if after == map[] then rooms - {name} else rooms[name := after]
  }

  datatype ServerEvent = In(room: string, event: Event)

  ghost function Served(run: seq<ServerEvent>): Rooms {
    if run == [] then map[]
    else Serve(Served(run[..|run| - 1]), run[|run| - 1].room, run[|run| - 1].event)
  }

  /** The events of one room. */
  function EventsOf(run: seq<ServerEvent>, name: string): seq<Event> {
    if run == [] then []
    else
      var before, last := EventsOf(run[..|run| - 1], name), run[|run| - 1];
      if last.room == name then before + [last.event] else before
  }

  lemma ServeTouchesOne(rooms: Rooms, name: string, e: Event, other: string)
    ensures var after := Step(RoomOf(rooms, name), MAX_PARTICIPANTS, e);
            && RoomOf(Serve(rooms, name, e), other) == (if other == name then after else RoomOf(rooms, other))
            && (other in Serve(rooms, name, e) <==> if other == name then after != map[] else other in rooms)
  {
  }

  lemma AfterOneMore(events: seq<Event>, e: Event)
    ensures After(MAX_PARTICIPANTS, events + [e]) == Step(After(MAX_PARTICIPANTS, events), MAX_PARTICIPANTS, e)
  {
    assert (events + [e])[..|events|] == events;
  }

  /** Every room is what its own events alone make of it, however they interleave with
      those of others and however often the room came and went; exactly the rooms with
      somebody in them are kept. */
  lemma {:induction false} RoomsAreIndependent(run: seq<ServerEvent>, name: string)
    ensures RoomOf(Served(run), name) == After(MAX_PARTICIPANTS, EventsOf(run, name))
    ensures name in Served(run) <==> After(MAX_PARTICIPANTS, EventsOf(run, name)) != map[]
    decreases |run|
  {
    if run != [] {
      var before, last := run[..|run| - 1], run[|run| - 1];
      RoomsAreIndependent(before, name);
      ServeTouchesOne(Served(before), last.room, last.event, name);
      AfterOneMore(EventsOf(before, name), last.event);
    }
  }

  /** No room ever holds more than eight, and a newcomer is turned away exactly by eight. */
  lemma EightAtMost(run: seq<ServerEvent>, name: string, id: Id, hasSink: bool)
    ensures |RoomOf(Served(run), name)| <= 8
    ensures var r := Added(RoomOf(Served(run), name), MAX_PARTICIPANTS, id, hasSink).1;
            r == Err(ResourceExhausted) <==> id !in RoomOf(Served(run), name) && |RoomOf(Served(run), name)| == 8
  {
    RoomsAreIndependent(run, name);
    NeverOverfull(MAX_PARTICIPANTS, EventsOf(run, name));
    JoinExactly(RoomOf(Served(run), name), MAX_PARTICIPANTS, id, hasSink);
  }

  lemma ServeAbsent(rooms: Rooms, name: string, e: Event)
    requires name !in rooms && !e.Add?
    ensures Serve(rooms, name, e) == rooms
  {
    assert rooms - {name} == rooms;
  }

  /** Packets and feedback leave everyone where they are. */
  lemma ServeStays(rooms: Rooms, name: string, e: Event)
    requires name in rooms && rooms[name] != map[] && !e.Add? && !e.Remove?
    ensures Serve(rooms, name, e) == rooms[name := Step(rooms[name], MAX_PARTICIPANTS, e)]
  {
    StepKeys(rooms[name], MAX_PARTICIPANTS, e);
    assert rooms[name].Keys != {};
  }

  /** Neither do joins leave a room empty: a new room always takes its first participant.
      `found` is the registry once the room is there. */
  lemma ServeJoin(rooms: Rooms, found: Rooms, name: string, id: Id, hasSink: bool)
    requires name in rooms ==> rooms[name] != map[]
    requires found == rooms[name := RoomOf(rooms, name)]
    ensures var (after, outcome) := Added(found[name], MAX_PARTICIPANTS, id, hasSink);
            && after != map[]
            && Serve(rooms, name, Event.Add(id, hasSink)) == found[name := after]
            && outcome == Added(RoomOf(rooms, name), MAX_PARTICIPANTS, id, hasSink).1
  {
    var after := Added(found[name], MAX_PARTICIPANTS, id, hasSink).0;
    assert id in after || name in rooms;
    assert rooms[name := after] == found[name := after];
  }

  /** The last to leave takes the room along. */
  lemma ServeLeave(rooms: Rooms, name: string, id: Id)
    requires name in rooms
    ensures var after := Removed(rooms[name], id).0;
            Serve(rooms, name, Event.Remove(id)) ==
            if after == map[] then rooms[name := after] - {name} else rooms[name := after]
  {
    var after := Removed(rooms[name], id).0;
    assert rooms[name := after] - {name} == rooms - {name};
  }

  // ---- The server --------------------------------------------------------------------------

  class SfuServer {
    const asksForKeyframes: bool
    var rooms: map<string, Room>

    ghost function Members(): set<Participant>
      reads this, rooms.Values
    {
      set r, p | r in rooms.Values && p in r.participants.Values :: p
    }

    ghost function Contents(): Rooms
      reads this, rooms.Values, Members()
    {
      map name | name in rooms :: rooms[name].Contents()
    }

    static ghost predicate Apart(r: Room, s: Room)
      reads r, s
    {
      r != s && r.participants.Values !! s.participants.Values
    }

    /** Rooms share neither their objects nor their participants. */
    ghost predicate Separate()
      reads this, rooms.Values
    {
      && (forall name <- rooms ::
            && rooms[name].Valid()
            && rooms[name].maxParticipants == MAX_PARTICIPANTS && rooms[name].asksForKeyframes == asksForKeyframes)
      && (forall a, b :: a in rooms && b in rooms && a != b ==> Apart(rooms[a], rooms[b]))
    }

    /** And none is empty. */
    ghost predicate Valid()
      reads this, rooms.Values
    {
      Separate() && forall name <- rooms :: rooms[name].participants != map[]
    }

    constructor (asksForKeyframes: bool)
      ensures Valid() && Contents() == map[]
    {
      this.asksForKeyframes := asksForKeyframes;
      rooms := map[];
    }

    // ---- Only one room changes ----

    twostate predicate OnlyRoom(name: string)
      reads this, rooms.Values, Members()
    {
      && old(Separate()) && name in rooms && rooms == old(rooms) && rooms[name].Valid()
      && (forall other <- rooms :: other != name ==> unchanged(rooms[other]))
      && (forall other, p | other in rooms && other != name && p in rooms[other].participants.Values ::
            p in old(rooms[name].participants.Values) || unchanged(p))
      && (forall p <- rooms[name].participants.Values :: p in old(rooms[name].participants.Values) || fresh(p))
    }

    twostate lemma OtherRooms(name: string)
      requires OnlyRoom(name)
      ensures forall other <- rooms :: other != name ==> rooms[other].Contents() == old(rooms[other].Contents())
    {
      forall other <- rooms | other != name ensures rooms[other].Contents() == old(rooms[other].Contents()) {
        assert old(Apart(rooms[name], rooms[other]));
        forall id | id in old(rooms[other].participants) ensures unchanged(old(rooms[other].participants[id])) {
          assert rooms[other].participants[id] in rooms[other].participants.Values;
        }
      }
    }

    twostate lemma StillSeparate(name: string)
      requires OnlyRoom(name)
      ensures Separate()
    {
      forall a, b | a in rooms && b in rooms && a != b ensures Apart(rooms[a], rooms[b]) {
        assert old(Apart(rooms[a], rooms[b]));
      }
    }

    twostate lemma OneRoomChanged(name: string)
      requires OnlyRoom(name)
      ensures Separate()
      ensures Contents() == old(Contents())[name := rooms[name].Contents()]
    {
      StillSeparate(name);
      OtherRooms(name);
    }

    // ---- Operations ----

    method FindOrCreate(name: string)
      requires Valid()
      modifies this
      ensures Separate() && name in rooms
      ensures Contents() == old(Contents())[name := RoomOf(old(Contents()), name)]
      ensures if name in old(rooms) then rooms == old(rooms)
              else fresh(rooms[name]) && rooms == old(rooms)[name := rooms[name]]
    {
      if name !in rooms {
        var created := new Room(MAX_PARTICIPANTS, asksForKeyframes);
        rooms := rooms[name := created];
        RoomCreated(name);
      }
    }

    /** The registry changed, but no room and no participant in it. */
    twostate predicate OnlyRegistry()
      reads this, rooms.Values, Members()
    {
      && old(Separate())
      && (forall name <- rooms :: name in old(rooms) ==> rooms[name] == old(rooms[name]) && unchanged(rooms[name]))
      && (forall name, p | name in rooms && name in old(rooms) && p in rooms[name].participants.Values :: unchanged(p))
    }

    twostate lemma SameRooms()
      requires OnlyRegistry()
      ensures forall name <- rooms :: name in old(rooms) ==> rooms[name].Contents() == old(rooms[name].Contents())
    {
      forall name | name in rooms && name in old(rooms) ensures rooms[name].Contents() == old(rooms[name].Contents()) {
        forall id | id in rooms[name].participants ensures unchanged(rooms[name].participants[id]) {
          assert rooms[name].participants[id] in rooms[name].participants.Values;
        }
      }
    }

    twostate lemma StillApart()
      requires OnlyRegistry()
      ensures forall a, b :: a in rooms && b in rooms && a in old(rooms) && b in old(rooms) && a != b ==>
                Apart(rooms[a], rooms[b])
    {
      forall a, b | a in rooms && b in rooms && a in old(rooms) && b in old(rooms) && a != b
        ensures Apart(rooms[a], rooms[b])
      {
        assert old(Apart(rooms[a], rooms[b]));
      }
    }

    twostate lemma RoomCreated(name: string)
      requires OnlyRegistry() && name !in old(rooms) && name in rooms && rooms == old(rooms)[name := rooms[name]]
      requires fresh(rooms[name]) && rooms[name].participants == map[]
      requires rooms[name].maxParticipants == MAX_PARTICIPANTS && rooms[name].asksForKeyframes == asksForKeyframes
      ensures Separate()
      ensures Contents() == old(Contents())[name := map[]]
    {
      SameRooms();
      StillApart();
    }

    twostate lemma RoomDropped(name: string)
      requires OnlyRegistry() && rooms == old(rooms) - {name}
      ensures Separate()
      ensures Contents() == old(Contents()) - {name}
    {
      SameRooms();
      StillApart();
    }

    method AddTo(name: string, id: Id, hasSink: bool, ghost was: Rooms) returns (r: Result<Participant>, asked: seq<Id>)
      requires Separate() && name in rooms
      requires forall other <- rooms :: other != name ==> rooms[other].participants != map[]
      requires name in was ==> was[name] != map[]
      requires Contents() == was[name := RoomOf(was, name)]
      modifies rooms[name]
      ensures Valid()
      ensures Contents() == Serve(was, name, Event.Add(id, hasSink))
      ensures Joined(r, Added(RoomOf(was, name), MAX_PARTICIPANTS, id, hasSink).1, name, id)
      ensures r.Ok? ==> fresh(r.value)
      ensures Asks(asked, RoomOf(was, name), r.Ok? && asksForKeyframes)
    {
      ServeJoin(was, Contents(), name, id, hasSink);
      r, asked := AddIn(name, id, hasSink);
      AllOccupied(name);
    }

    twostate lemma AllOccupied(name: string)
      requires Separate() && name in rooms && rooms == old(rooms) && Contents()[name] != map[]
      requires forall other <- rooms :: other != name ==> rooms[other].participants == old(rooms[other].participants)
      requires forall other <- rooms :: other != name ==> old(rooms[other].participants) != map[]
      ensures Valid()
    {
      OccupiedExactly(name);
    }

    method AddIn(name: string, id: Id, hasSink: bool) returns (r: Result<Participant>, asked: seq<Id>)
      requires Separate() && name in rooms
      modifies rooms[name]
      ensures Separate()
      ensures forall other <- rooms :: other != name ==> rooms[other].participants == old(rooms[other].participants)
      ensures var (after, outcome) := Added(old(Contents())[name], MAX_PARTICIPANTS, id, hasSink);
              Contents() == old(Contents())[name := after] && Joined(r, outcome, name, id)
      ensures r.Ok? ==> fresh(r.value)
      ensures Asks(asked, old(Contents())[name], r.Ok? && asksForKeyframes)
    {
      r, asked := rooms[name].Add(id, hasSink);
      OneRoomChanged(name);
    }

    /** A join returns the outcome, with the participant now filed under its id. */
    ghost predicate Joined(r: Result<Participant>, outcome: Result<()>, name: string, id: Id)
      reads this, rooms.Values
    {
      match outcome
      case Ok(_) =>
        r.Ok? && name in rooms && id in rooms[name].participants && rooms[name].participants[id] == r.value
      case Err(e) => r == Err(e)
    }

    /** The room is created if need be. Joining a new room cannot fail. */
    method AddParticipant(name: string, id: Id, hasSink: bool) returns (r: Result<Participant>, asked: seq<Id>)
      requires Valid()
      modifies this, rooms.Values
      ensures Valid()
      ensures Contents() == Serve(old(Contents()), name, Event.Add(id, hasSink))
      ensures Joined(r, Added(RoomOf(old(Contents()), name), MAX_PARTICIPANTS, id, hasSink).1, name, id)
      ensures r.Ok? ==> fresh(r.value)
      ensures Asks(asked, RoomOf(old(Contents()), name), r.Ok? && asksForKeyframes)
    {
      ghost var was := Contents();
      if name in rooms {
        OccupiedExactly(name);
      }
      FindOrCreate(name);
      r, asked := AddTo(name, id, hasSink, was);
    }

    lemma OccupiedExactly(name: string)
      requires name in rooms
      ensures rooms[name].participants == map[] <==> Contents()[name] == map[]
    {
      if rooms[name].participants != map[] {
        var id :| id in rooms[name].participants;
        assert id in Contents()[name];
      }
    }

    method RemoveParticipant(name: string, id: Id) returns (r: Result<()>)
      requires Valid()
      modifies this, rooms.Values, Members()
      ensures Valid()
      ensures Contents() == Serve(old(Contents()), name, Event.Remove(id))
      ensures r == Removed(RoomOf(old(Contents()), name), id).1
    {
      ghost var was := Contents();
      if name !in rooms {
        ServeAbsent(was, name, Event.Remove(id));
        return Err(NotFound);
      }
      r := RemoveFrom(name, id);
      DropIfEmpty(name);
      ServeLeave(was, name, id);
    }

    method RemoveFrom(name: string, id: Id) returns (r: Result<()>)
      requires Valid() && name in rooms
      modifies rooms[name], rooms[name].participants.Values
      ensures Separate() && forall other <- rooms :: other != name ==> rooms[other].participants != map[]
      ensures Contents() == old(Contents())[name := Removed(old(Contents())[name], id).0]
      ensures r == Removed(old(Contents())[name], id).1
    {
      r := rooms[name].Remove(id);
      OneRoomChanged(name);
    }

    method DropIfEmpty(name: string)
      requires Separate() && name in rooms
      requires forall other <- rooms :: other != name ==> rooms[other].participants != map[]
      modifies this
      ensures Valid()
      ensures Contents() == if old(Contents())[name] == map[] then old(Contents()) - {name} else old(Contents())
    {
      OccupiedExactly(name);
      if |rooms[name].participants| == 0 {
        rooms := rooms - {name};
        RoomDropped(name);
      }
    }

    method RoutePacket(name: string, sender: Id, p: RtpPacket)
      requires Valid()
      modifies Members()
      ensures Valid()
      ensures Contents() == Serve(old(Contents()), name, Event.Forward(sender, p))
    {
      if name in rooms {
        rooms[name].Forward(sender, p);
        OneRoomChanged(name);
        ServeStays(old(Contents()), name, Event.Forward(sender, p));
      } else {
        ServeAbsent(Contents(), name, Event.Forward(sender, p));
      }
    }

    method OnRemb(name: string, id: Id, bitrateBps: u32)
      requires Valid()
      modifies Members()
      ensures Valid()
      ensures Contents() == Serve(old(Contents()), name, Event.Remb(id, bitrateBps))
    {
      if name in rooms {
        rooms[name].OnRemb(id, bitrateBps);
        OneRoomChanged(name);
        ServeStays(old(Contents()), name, Event.Remb(id, bitrateBps));
      } else {
        ServeAbsent(Contents(), name, Event.Remb(id, bitrateBps));
      }
    }
  }
}
