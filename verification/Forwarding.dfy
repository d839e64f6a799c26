/** What a conference room of the forwarding unit does to the endpoints in it: packets go
    to everyone but their sender, and the slowest receiver bounds each sender's bitrate. */
module Forwarding {
  import opened Common
  import opened Rtp

  type Id = string

  /** An endpoint as the unit sees it. A bitrate of 0 means unknown; the sink, if there is
      one, keeps every packet handed to it. */
  datatype Endpoint = Endpoint(
    videoSsrc: u32,
    target: u32,
    estimate: u32,
    lastSeq: map<u32, u16>,
    sink: Option<seq<RtpPacket>>)

  type Endpoints = map<Id, Endpoint>

  function Newcomer(hasSink: bool): Endpoint {
    Endpoint(0, 0, 0, map[], if hasSink then Some([]) else None)
  }

  function Delivered(e: Endpoint, p: RtpPacket): Endpoint {
    e.(lastSeq := e.lastSeq[p.ssrc := p.sequenceNumber],
       sink := if e.sink.Some? then Some(e.sink.value + [p]) else None)
  }

  // ---- Targets -----------------------------------------------------------------------------

  /** `id` receives from `sender` and has said how much it can take. */
  predicate Reports(ps: Endpoints, sender: Id, id: Id) {
    id in ps && id != sender && ps[id].estimate != 0
  }

  /** The bitrate of the slowest receiver that has reported, or 0 if none has. */
  ghost predicate IsTarget(ps: Endpoints, sender: Id, t: u32) {
    && (t == 0 <==> forall id :: !Reports(ps, sender, id))
    && (t != 0 ==> exists id :: Reports(ps, sender, id) && ps[id].estimate == t)
    && forall id :: Reports(ps, sender, id) ==> t <= ps[id].estimate
  }

  lemma TargetIsUnique(ps: Endpoints, sender: Id, t: u32, u: u32)
    requires IsTarget(ps, sender, t) && IsTarget(ps, sender, u)
    ensures t == u
  {
  }

  ghost function Pick(ps: Endpoints): (id: Id)
    requires ps != map[]
    ensures id in ps
  {
    var id :| id in ps; id
  }

  /** The same as a computation, over the room in no particular order. */
  ghost function TargetOf(ps: Endpoints, sender: Id): u32
    decreases |ps|
  {
    if ps == map[] then 0
    else
      var id := Pick(ps);
      RemovedIsSmaller(ps, id);
      var rest := TargetOf(ps - {id}, sender);
      if Reports(ps, sender, id) && (rest == 0 || ps[id].estimate < rest) then ps[id].estimate else rest
  }

  lemma IsTargetOneMore(ps: Endpoints, sender: Id, id: Id, rest: u32)
    requires id in ps && IsTarget(ps - {id}, sender, rest)
    ensures IsTarget(ps, sender,
              if Reports(ps, sender, id) && (rest == 0 || ps[id].estimate < rest) then ps[id].estimate else rest)
  {
    var qs := ps - {id};
    assert forall other :: Reports(ps, sender, other) <==>
             Reports(qs, sender, other) || (other == id && Reports(ps, sender, id));
    if rest != 0 {
      var other :| Reports(qs, sender, other) && qs[other].estimate == rest;
      assert Reports(ps, sender, other) && ps[other].estimate == rest;
    }
  }

  lemma {:induction false} TargetOfIsTarget(ps: Endpoints, sender: Id)
    ensures IsTarget(ps, sender, TargetOf(ps, sender))
    decreases |ps|
  {
    if ps != map[] {
      var id := Pick(ps);
      RemovedIsSmaller(ps, id);
      TargetOfIsTarget(ps - {id}, sender);
      IsTargetOneMore(ps, sender, id, TargetOf(ps - {id}, sender));
    }
  }

  ghost function Recomputed(ps: Endpoints): Endpoints {
    map id | id in ps :: ps[id].(target := TargetOf(ps, id))
  }

  // ---- Steps -------------------------------------------------------------------------------

  datatype Event =
    | Add(id: Id, hasSink: bool)
    | Remove(id: Id)
    | Forward(sender: Id, packet: RtpPacket)
    | Remb(id: Id, bitrate: u32)
    | SetVideo(id: Id, ssrc: u32)

  function Added(ps: Endpoints, limit: nat, id: Id, hasSink: bool): (Endpoints, Result<()>) {
    if id in ps then (ps, Err(InvalidArgument))
    else if |ps| >= limit then (ps, Err(ResourceExhausted))
    else (ps[id := Newcomer(hasSink)], Ok(()))
  }

  /** When somebody joins: everyone present who sends video is asked for a keyframe, once
      each, if keyframes are asked for at all. */
  predicate Asks(asked: seq<Id>, ps: Endpoints, asking: bool) {
    && (forall i, j :: 0 <= i < j < |asked| ==> asked[i] != asked[j])
    && (forall x <- asked :: asking && x in ps && ps[x].videoSsrc != 0)
    && (asking ==> forall x <- ps :: ps[x].videoSsrc != 0 ==> x in asked)
  }

  ghost function Removed(ps: Endpoints, id: Id): (Endpoints, Result<()>) {
    if id in ps then (Recomputed(ps - {id}), Ok(())) else (ps, Err(NotFound))
  }

  function Forwarded(ps: Endpoints, sender: Id, p: RtpPacket): Endpoints {
    if sender in ps then map id | id in ps :: if id == sender then ps[id] else Delivered(ps[id], p)
    else ps
  }

  ghost function Reported(ps: Endpoints, id: Id, bitrate: u32): Endpoints {
    if id in ps then Recomputed(ps[id := ps[id].(estimate := bitrate)]) else ps
  }

  ghost function Step(ps: Endpoints, limit: nat, e: Event): Endpoints {
    match e
    case Add(id, hasSink) => Added(ps, limit, id, hasSink).0
    case Remove(id) => Removed(ps, id).0
    case Forward(sender, p) => Forwarded(ps, sender, p)
    case Remb(id, bitrate) => Reported(ps, id, bitrate)
    case SetVideo(id, ssrc) => if id in ps then ps[id := ps[id].(videoSsrc := ssrc)] else ps
  }

  /** A room after a run of events, oldest first. */
  ghost function After(limit: nat, run: seq<Event>): Endpoints {
    if run == [] then map[] else Step(After(limit, run[..|run| - 1]), limit, run[|run| - 1])
  }

  // ---- Targets in every reachable room -------------------------------------------------------

  /** Who has been added since targets were last computed. */
  ghost function NewSince(limit: nat, run: seq<Event>): set<Id> {
    if run == [] then {}
    else
      var ps, before := After(limit, run[..|run| - 1]), NewSince(limit, run[..|run| - 1]);
      match run[|run| - 1]
      case Add(id, hasSink) => if Added(ps, limit, id, hasSink).1.Ok? then before + {id} else before
      case Remove(id) => if id in ps then {} else before
      case Remb(id, _) => if id in ps then {} else before
      case _ => before
  }

  ghost predicate Settled(ps: Endpoints, newcomers: set<Id>) {
    forall id <- ps :: SettledFor(ps, newcomers, id)
  }

  ghost predicate SettledFor(ps: Endpoints, newcomers: set<Id>, id: Id)
    requires id in ps
  {
    if id in newcomers then ps[id].target == ps[id].estimate == 0 else IsTarget(ps, id, ps[id].target)
  }

  /** Targets depend on the estimates only. */
  lemma SameReports(ps: Endpoints, qs: Endpoints, sender: Id, t: u32)
    requires IsTarget(ps, sender, t)
    requires forall id :: Reports(ps, sender, id) <==> Reports(qs, sender, id)
    requires forall id :: Reports(ps, sender, id) ==> id in qs && ps[id].estimate == qs[id].estimate
    ensures IsTarget(qs, sender, t)
  {
    if t != 0 {
      var id :| Reports(ps, sender, id) && ps[id].estimate == t;
      assert Reports(qs, sender, id) && qs[id].estimate == t;
    }
  }

  /** Halfway through a recompute: those still in `todo` have their old targets. */
  ghost function Partly(ps: Endpoints, todo: set<Id>): Endpoints {
    map id | id in ps :: if id in todo then ps[id] else ps[id].(target := TargetOf(ps, id))
  }

  lemma PartlyEnds(ps: Endpoints)
    ensures Partly(ps, ps.Keys) == ps && Partly(ps, {}) == Recomputed(ps)
  {
  }

  lemma PartlyStep(ps: Endpoints, todo: set<Id>, sender: Id)
    requires sender in todo && sender in ps
    ensures var qs := Partly(ps, todo);
            qs[sender := qs[sender].(target := TargetOf(ps, sender))] == Partly(ps, todo - {sender})
  {
  }

  /** Targets computed halfway are the ones computed from the start. */
  lemma PartlyAgrees(ps: Endpoints, todo: set<Id>, sender: Id, t: u32)
    requires IsTarget(Partly(ps, todo), sender, t)
    ensures t == TargetOf(ps, sender)
  {
    SameReports(Partly(ps, todo), ps, sender, t);
    TargetOfIsTarget(ps, sender);
    TargetIsUnique(ps, sender, t, TargetOf(ps, sender));
  }

  lemma RecomputedIsSettled(ps: Endpoints)
    ensures Settled(Recomputed(ps), {})
  {
    var qs := Recomputed(ps);
    forall id <- qs ensures SettledFor(qs, {}, id) {
      TargetOfIsTarget(ps, id);
      SameReports(ps, qs, id, TargetOf(ps, id));
    }
  }

  lemma UntouchedIsSettled(ps: Endpoints, qs: Endpoints, newcomers: set<Id>)
    requires Settled(ps, newcomers) && qs.Keys == ps.Keys
    requires forall id <- ps :: qs[id].estimate == ps[id].estimate && qs[id].target == ps[id].target
    ensures Settled(qs, newcomers)
  {
    forall id <- qs ensures SettledFor(qs, newcomers, id) {
      assert SettledFor(ps, newcomers, id);
      if id !in newcomers {
        SameReports(ps, qs, id, ps[id].target);
      }
    }
  }

  lemma NewcomerIsSettled(ps: Endpoints, newcomers: set<Id>, id: Id, hasSink: bool)
    requires Settled(ps, newcomers) && id !in ps
    ensures Settled(ps[id := Newcomer(hasSink)], newcomers + {id})
  {
    var qs := ps[id := Newcomer(hasSink)];
    forall other <- qs ensures SettledFor(qs, newcomers + {id}, other) {
      if other != id {
        assert SettledFor(ps, newcomers, other);
        if other !in newcomers {
          SameReports(ps, qs, other, ps[other].target);
        }
      }
    }
  }

  lemma StepKeepsSettled(limit: nat, run: seq<Event>, e: Event)
    requires Settled(After(limit, run), NewSince(limit, run))
    ensures Settled(After(limit, run + [e]), NewSince(limit, run + [e]))
  {
    assert (run + [e])[..|run|] == run;
    var ps, newcomers := After(limit, run), NewSince(limit, run);
    match e
    case Add(id, hasSink) =>
      if Added(ps, limit, id, hasSink).1.Ok? {
        NewcomerIsSettled(ps, newcomers, id, hasSink);
      }
    case Remove(id) =>
      if id in ps {
        RecomputedIsSettled(ps - {id});
      }
    case Forward(sender, p) => UntouchedIsSettled(ps, Forwarded(ps, sender, p), newcomers);
    case Remb(id, bitrate) =>
      if id in ps {
        RecomputedIsSettled(ps[id := ps[id].(estimate := bitrate)]);
      }
    case SetVideo(id, ssrc) => UntouchedIsSettled(ps, Step(ps, limit, e), newcomers);
  }

  /** In every reachable room a stored target is the least estimate anyone else has
      reported, except that someone added since the last recompute still has 0. */
  lemma {:induction false} TargetsAreRight(limit: nat, run: seq<Event>)
    ensures Settled(After(limit, run), NewSince(limit, run))
    decreases |run|
  {
    if run != [] {
      TargetsAreRight(limit, run[..|run| - 1]);
      StepKeepsSettled(limit, run[..|run| - 1], run[|run| - 1]);
      assert run == run[..|run| - 1] + [run[|run| - 1]];
    }
  }

  /** A newcomer's target is wrong exactly while somebody else has reported. */
  lemma NewcomerIsOffExactly(limit: nat, run: seq<Event>, id: Id)
    requires id in After(limit, run) && id in NewSince(limit, run)
    ensures var ps := After(limit, run);
            IsTarget(ps, id, ps[id].target) <==> forall other :: !Reports(ps, id, other)
  {
    TargetsAreRight(limit, run);
    assert SettledFor(After(limit, run), NewSince(limit, run), id);
  }

  // ---- Deliveries in every reachable room ----------------------------------------------------

  /** The packets an endpoint should have been given: everything known others sent since
      it was added, in order. */
  ghost function Heard(limit: nat, run: seq<Event>, id: Id): seq<RtpPacket> {
    if run == [] then []
    else
      var ps, before := After(limit, run[..|run| - 1]), Heard(limit, run[..|run| - 1], id);
      match run[|run| - 1]
      case Add(new_, _) => if new_ == id && id !in ps then [] else before
      case Forward(sender, p) => if sender in ps && sender != id then before + [p] else before
      case _ => before
  }

  function LastSeqs(heard: seq<RtpPacket>): map<u32, u16> {
    if heard == [] then map[]
    else
      var p := heard[|heard| - 1];
      LastSeqs(heard[..|heard| - 1])[p.ssrc := p.sequenceNumber]
  }

  ghost predicate HasHeard(e: Endpoint, heard: seq<RtpPacket>) {
    && e.lastSeq == LastSeqs(heard)
    && (e.sink.Some? ==> e.sink.value == heard)
  }

  lemma DeliveredIsHeard(e: Endpoint, heard: seq<RtpPacket>, p: RtpPacket)
    requires HasHeard(e, heard)
    ensures HasHeard(Delivered(e, p), heard + [p])
  {
    assert (heard + [p])[..|heard|] == heard;
  }

  /** Every endpoint was given exactly that, each packet once; without a sink the last
      sequence numbers are still kept. */
  lemma {:induction false} DeliveriesAreExact(limit: nat, run: seq<Event>, id: Id)
    requires id in After(limit, run)
    ensures HasHeard(After(limit, run)[id], Heard(limit, run, id))
    decreases |run|
  {
    var before, e := run[..|run| - 1], run[|run| - 1];
    if id in After(limit, before) {
      DeliveriesAreExact(limit, before, id);
      if e.Forward? && e.sender in After(limit, before) && e.sender != id {
        DeliveredIsHeard(After(limit, before)[id], Heard(limit, before, id), e.packet);
      }
    } else {
      assert e.Add? && e.id == id;
    }
  }

  /** A room never holds more than its limit. */
  lemma {:induction false} NeverOverfull(limit: nat, run: seq<Event>)
    ensures |After(limit, run)| <= limit
    decreases |run|
  {
    if run != [] {
      var ps, e := After(limit, run[..|run| - 1]), run[|run| - 1];
      NeverOverfull(limit, run[..|run| - 1]);
      StepSize(ps, limit, e);
    }
  }

  lemma StepKeys(ps: Endpoints, limit: nat, e: Event)
    ensures var keys := Step(ps, limit, e).Keys;
            match e
            case Add(id, hasSink) => keys == if Added(ps, limit, id, hasSink).1.Ok? then ps.Keys + {id} else ps.Keys
            case Remove(id) => keys == ps.Keys - {id}
            case _ => keys == ps.Keys
  {
  }

  lemma StepSize(ps: Endpoints, limit: nat, e: Event)
    requires |ps| <= limit
    ensures |Step(ps, limit, e)| <= limit
  {
    StepKeys(ps, limit, e);
    var qs := Step(ps, limit, e);
    assert |qs| == |qs.Keys| && |ps| == |ps.Keys|;
    if e.Remove? && e.id in ps {
      assert |ps.Keys - {e.id}| == |ps.Keys| - 1;
    }
  }

  // ---- What a room knows of its participants -----------------------------------------------

  /** A join is refused exactly to somebody who is there, or else when the room is full; it
      brings in an endpoint of which nothing is known and leaves the others alone. */
  lemma JoinExactly(ps: Endpoints, limit: nat, id: Id, hasSink: bool)
    ensures var after, r := Step(ps, limit, Add(id, hasSink)), Added(ps, limit, id, hasSink).1;
            && (r == Err(InvalidArgument) <==> id in ps)
            && (r == Err(ResourceExhausted) <==> id !in ps && |ps| >= limit)
            && (r.Err? ==> after == ps)
            && (r.Ok? ==> after.Keys == ps.Keys + {id} && (forall other :: other in ps ==> after[other] == ps[other])
                          && after[id] == Endpoint(0, 0, 0, map[], if hasSink then Some([]) else None))
  {
  }

  /** The bitrate that a participant reported last, and the SSRC of its video, since it
      came in; 0 for what it has not said. */
  ghost function Said(limit: nat, run: seq<Event>, id: Id): (said: (u32, u32)) {
    if run == [] then (0, 0)
    else
      var before, front := Said(limit, run[..|run| - 1], id), run[..|run| - 1];
      match run[|run| - 1]
      case Add(i, _) => if i == id && id !in After(limit, front) then (0, 0) else before
      case Remb(i, bitrate) => if i == id then (bitrate, before.1) else before
      case SetVideo(i, ssrc) => if i == id then (before.0, ssrc) else before
      case _ => before
  }

  lemma StepKnows(ps: Endpoints, limit: nat, e: Event, id: Id)
    requires id in Step(ps, limit, e)
    ensures var after := Step(ps, limit, e)[id];
            var before := if id in ps then (ps[id].estimate, ps[id].videoSsrc) else (0, 0);
            (after.estimate, after.videoSsrc) ==
            match e
            case Remb(i, bitrate) => if i == id then (bitrate, before.1) else before
            case SetVideo(i, ssrc) => if i == id then (before.0, ssrc) else before
            case _ => before
  {
  }

  /** In every reachable room the estimates and video SSRCs that targets and keyframe
      requests go by are those last heard of. */
  lemma {:induction false} RoomsKnowWhatWasSaid(limit: nat, run: seq<Event>, id: Id)
    requires id in After(limit, run)
    ensures (After(limit, run)[id].estimate, After(limit, run)[id].videoSsrc) == Said(limit, run, id)
    decreases |run|
  {
    var n := |run| - 1;
    var ps := After(limit, run[..n]);
    StepKnows(ps, limit, run[n], id);
    if id in ps {
      RoomsKnowWhatWasSaid(limit, run[..n], id);
    }
  }
}
