/** Rooms of the forwarding unit as objects: each room owns its participants. */
module SfuRooms {
  import opened Common
  import opened Rtp
  import opened Forwarding

  class Participant {
    const id: Id
    const hasSink: bool
    var videoSsrc: u32
    var targetBitrateBps: u32
    var rembEstimateBps: u32
    var lastForwardedSeq: map<u32, u16>
    // Everything handed to the sink so far.
    var sunk: seq<RtpPacket>

    ghost function State(): Endpoint
      reads this
    {
      Endpoint(videoSsrc, targetBitrateBps, rembEstimateBps, lastForwardedSeq, if hasSink then Some(sunk) else None)
    }

    constructor (id: Id, hasSink: bool)
      ensures this.id == id && State() == Newcomer(hasSink)
    {
      this.id := id;
      this.hasSink := hasSink;
      videoSsrc, targetBitrateBps, rembEstimateBps := 0, 0, 0;
      lastForwardedSeq := map[];
      sunk := [];
    }

    method Deliver(p: RtpPacket)
      modifies this
      ensures State() == Delivered(old(State()), p)
    {
      lastForwardedSeq := lastForwardedSeq[p.ssrc := p.sequenceNumber];
      if hasSink {
        sunk := sunk + [p];
      }
    }
  }

  lemma SameSize<K, V, W>(a: map<K, V>, b: map<K, W>)
    requires a.Keys == b.Keys
    ensures |a| == |b|
  {
    assert |a| == |a.Keys| && |b| == |b.Keys|;
  }

  class Room {
    const maxParticipants: nat
    // Whether somebody wants to hear about keyframes that are needed.
    const asksForKeyframes: bool
    var participants: map<Id, Participant>

    ghost function Contents(): Endpoints
      reads this, participants.Values
    {
      map id | id in participants :: participants[id].State()
    }

    ghost predicate Valid()
      reads this
    {
      forall a, b :: a in participants && b in participants && participants[a] == participants[b] ==> a == b
    }

    constructor (maxParticipants: nat, asksForKeyframes: bool)
      ensures Valid() && participants == map[] && Contents() == map[]
      ensures this.maxParticipants == maxParticipants && this.asksForKeyframes == asksForKeyframes
    {
      this.maxParticipants := maxParticipants;
      this.asksForKeyframes := asksForKeyframes;
      participants := map[];
    }

    /** Everyone who already sends video is asked for a keyframe, once each. */
    method Add(id: Id, hasSink: bool) returns (r: Result<Participant>, asked: seq<Id>)
      requires Valid()
      modifies this
      ensures Valid()
      ensures var (next, outcome) := Added(old(Contents()), maxParticipants, id, hasSink);
              && Contents() == next
              && match outcome
                 case Ok(_) => && r.Ok? && fresh(r.value) && participants == old(participants)[id := r.value]
                 case Err(e) => r == Err(e) && participants == old(participants)
      ensures Asks(asked, old(Contents()), r.Ok? && asksForKeyframes)
    {
      asked := [];
      if id in participants {
        return Err(InvalidArgument), asked;
      }
      SameSize(Contents(), participants);
      if |participants| >= maxParticipants {
        return Err(ResourceExhausted), asked;
      }
      var senders := VideoSenders();
      var p := Insert(id, hasSink);
      if asksForKeyframes {
        asked := senders;
      }
      r := Ok(p);
    }

    method Insert(id: Id, hasSink: bool) returns (p: Participant)
      requires Valid() && id !in participants
      modifies this
      ensures Valid() && fresh(p) && participants == old(participants)[id := p]
      ensures Contents() == old(Contents())[id := Newcomer(hasSink)]
    {
      p := new Participant(id, hasSink);
      participants := participants[id := p];
    }

    method VideoSenders() returns (ids: seq<Id>)
      ensures forall i, j :: 0 <= i < j < |ids| ==> ids[i] != ids[j]
      ensures forall x :: x in ids <==> x in participants && participants[x].videoSsrc != 0
    {
      ids := [];
      var todo := participants.Keys;
      while todo != {}
        invariant todo <= participants.Keys
        invariant forall i, j :: 0 <= i < j < |ids| ==> ids[i] != ids[j]
        invariant forall x :: x in ids <==> x in participants.Keys - todo && participants[x].videoSsrc != 0
      {
        var x :| x in todo;
        todo := todo - {x};
        if participants[x].videoSsrc != 0 {
          ids := ids + [x];
        }
      }
    }

    method Remove(id: Id) returns (r: Result<()>)
      requires Valid()
      modifies this, participants.Values
      ensures Valid()
      ensures (Contents(), r) == Removed(old(Contents()), id)
      ensures participants == old(participants) - {id}
    {
      if id !in participants {
        assert participants - {id} == participants;
        return Err(NotFound);
      }
      ghost var was := Contents();
      participants := participants - {id};
      assert Contents() == was - {id};
      RecomputeTargets();
      r := Ok(());
    }

    method Forward(sender: Id, p: RtpPacket)
      requires Valid()
      modifies participants.Values
      ensures Contents() == Forwarded(old(Contents()), sender, p)
    {
      if sender !in participants {
        return;
      }
      var todo := participants.Keys;
      while todo != {}
        invariant todo <= participants.Keys
        invariant forall id <- participants :: participants[id].State() ==
                    if id in todo || id == sender then old(participants[id].State())
                    else Delivered(old(participants[id].State()), p)
      {
        var id :| id in todo;
        todo := todo - {id};
        if id != sender {
          participants[id].Deliver(p);
        }
      }
    }

    method OnRemb(id: Id, bitrateBps: u32)
      requires Valid()
      modifies participants.Values
      ensures Contents() == Reported(old(Contents()), id, bitrateBps)
    {
      if id !in participants {
        return;
      }
      ghost var was := Contents();
      participants[id].rembEstimateBps := bitrateBps;
      assert Contents() == was[id := was[id].(estimate := bitrateBps)];
      RecomputeTargets();
    }

    /** The least estimate of everyone else in the room, or 0. */
    method LeastEstimate(sender: Id) returns (t: u32)
      ensures IsTarget(Contents(), sender, t)
    {
      var minEstimate: u32 := 0xFFFF_FFFF;
      var any := false;
      ghost var slowest := sender;
      var todo := participants.Keys;
      while todo != {}
        invariant todo <= participants.Keys
        invariant !any ==> minEstimate == 0xFFFF_FFFF && forall id :: Reports(Contents(), sender, id) ==> id in todo
        invariant any ==> Reports(Contents(), sender, slowest) && Contents()[slowest].estimate == minEstimate
        invariant forall id :: Reports(Contents(), sender, id) ==> id in todo || minEstimate <= Contents()[id].estimate
      {
        var id :| id in todo;
        todo := todo - {id};
        if id == sender { continue; }
        var est := participants[id].rembEstimateBps;
        if est == 0 { continue; }
        assert Reports(Contents(), sender, id);
        slowest := if any && minEstimate <= est then slowest else id;
        any := true;
        if est < minEstimate {
          minEstimate := est;
        }
      }
      t := if any then minEstimate else 0;
    }

    method RecomputeTargets()
      requires Valid()
      modifies participants.Values
      ensures Contents() == Recomputed(old(Contents()))
    {
      ghost var was := Contents();
      PartlyEnds(was);
      var todo := participants.Keys;
      assert todo == was.Keys;
      while todo != {}
        invariant todo <= participants.Keys
        invariant Contents() == Partly(was, todo)
      {
        var sender :| sender in todo;
        UpdateTarget(sender, was, todo);
        todo := todo - {sender};
      }
    }

    method UpdateTarget(sender: Id, ghost was: Endpoints, ghost todo: set<Id>)
      requires Valid() && sender in participants && sender in todo
      requires Contents() == Partly(was, todo)
      modifies participants[sender]
      ensures Contents() == Partly(was, todo - {sender})
    {
      assert sender in Contents();
      var t := LeastEstimate(sender);
      assert t == TargetOf(was, sender) by {
        PartlyAgrees(was, todo, sender, t);
      }
      PartlyStep(was, todo, sender);
      SetTarget(sender, t);
    }

    method SetTarget(sender: Id, t: u32)
      requires Valid() && sender in participants
      modifies participants[sender]
      ensures Contents() == old(Contents())[sender := old(Contents())[sender].(target := t)]
    {
      participants[sender].targetBitrateBps := t;
    }

    function TargetBitrate(sender: Id): u32
      reads this, participants.Values
    {
      if sender in participants then participants[sender].targetBitrateBps else 0
    }
  }
}
