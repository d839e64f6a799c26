/** RTP payloads for H.264: single NAL unit packets and FU-A fragmentation units,
    section 5.8 of RFC 6184. Splitting, reassembly and how they undo each other. */
module H264Payload {
  import opened Common
  import opened AnnexB

  const FU_A: u8 := 28

  // ---- Header bytes --------------------------------------------------------------

  /** The low five bits of a NAL header, an FU indicator or an FU header. */
  function NalType(b: u8): u8 { b % 32 }

  /** The F and NRI bits of a NAL header or an FU indicator. */
  function RefBits(b: u8): u8 { b - b % 32 }

  function FuIndicator(nalHeader: u8): u8 { RefBits(nalHeader) + FU_A }

  function FuHeader(nalHeader: u8, first: bool, last: bool): u8 {
    NalType(nalHeader) + (if first then 0x80 else 0) + (if last then 0x40 else 0)
  }

  predicate StartBit(fuHeader: u8) { fuHeader / 0x80 == 1 }

  predicate EndBit(fuHeader: u8) { fuHeader / 0x40 % 2 == 1 }

  function OriginalHeader(indicator: u8, fuHeader: u8): u8 { RefBits(indicator) + NalType(fuHeader) }

  lemma FuBytesReadBack(h: u8, first: bool, last: bool)
    ensures NalType(FuIndicator(h)) == FU_A
    ensures StartBit(FuHeader(h, first, last)) == first
    ensures EndBit(FuHeader(h, first, last)) == last
    ensures OriginalHeader(FuIndicator(h), FuHeader(h, first, last)) == h
  {
  }

  // ---- Splitting -------------------------------------------------------------------

  /** Payload bytes per fragment: the budget less the two FU header bytes. */
  function Chunk(maxPayload: nat): nat {
    if maxPayload > 2 then maxPayload - 2 else 1
  }

  function FragmentPayload(h: u8, first: bool, last: bool, part: Bytes): Bytes {
    [FuIndicator(h), FuHeader(h, first, last)] + part
  }

  /** The fragments of a NAL unit with header `h`, from the body that is left. */
  function Fragments(h: u8, body: Bytes, chunk: nat, first: bool): (ps: seq<Bytes>)
    requires body != [] && chunk > 0
    ensures ps != []
    decreases |body|
  {
    if |body| <= chunk then [FragmentPayload(h, first, true, body)]
    else [FragmentPayload(h, first, false, body[..chunk])] + Fragments(h, body[chunk..], chunk, false)
  }

  /** The payloads that carry one NAL unit. */
  function Payloads(nal: Bytes, maxPayload: nat): (ps: seq<Bytes>)
    requires nal != [] && maxPayload > 0
    ensures ps != []
  {
    if |nal| <= maxPayload then [nal] else Fragments(nal[0], nal[1..], Chunk(maxPayload), true)
  }

  ghost predicate NonEmpty(nals: seq<Bytes>) {
    forall k :: 0 <= k < |nals| ==> nals[k] != []
  }

  /** The payloads that carry an access unit. */
  function AllPayloads(nals: seq<Bytes>, maxPayload: nat): seq<Bytes>
    requires NonEmpty(nals) && maxPayload > 0
  {
    if nals == [] then [] else Payloads(nals[0], maxPayload) + AllPayloads(nals[1..], maxPayload)
  }

  // ---- Reassembly --------------------------------------------------------------------

  /** What one payload does to the reassembly of the NAL unit in progress. */
  datatype Fed = Rejected | Pending(accum: Bytes) | Completed(nal: Bytes)

  function Feed(fu: Option<Bytes>, p: Bytes): (fed: Fed)
    ensures fed.Completed? && fu != Some([]) ==> fed.nal != []
  {
    if p == [] then Rejected
    else if NalType(p[0]) != FU_A then
      if fu.Some? then Rejected else Completed(p)
    else if |p| < 2 then Rejected
    else if StartBit(p[1]) == fu.Some? then Rejected
    else
      var accum := (if StartBit(p[1]) then [OriginalHeader(p[0], p[1])] else fu.value) + p[2..];
      if EndBit(p[1]) then Completed(accum) else Pending(accum)
  }

  function Prepend(nal: Bytes, units: Option<seq<Bytes>>): Option<seq<Bytes>> {
    if units.None? then None else Some([nal] + units.value)
  }

  /** The NAL units that a list of payloads completes when fragment `fu` is open, or
      nothing if the list is malformed or leaves a fragment open. */
  function Units(fu: Option<Bytes>, ps: seq<Bytes>): Option<seq<Bytes>>
    decreases |ps|
  {
    if ps == [] then (if fu.None? then Some([]) else None)
    else
      match Feed(fu, ps[0])
      case Rejected => None
      case Pending(accum) => Units(Some(accum), ps[1..])
      case Completed(nal) => Prepend(nal, Units(None, ps[1..]))
  }

  // ---- Reassembly undoes splitting -----------------------------------------------------

  lemma FeedFragment(fu: Option<Bytes>, h: u8, first: bool, last: bool, part: Bytes)
    requires first == fu.None?
    ensures var accum := (if first then [h] else fu.value) + part;
            Feed(fu, FragmentPayload(h, first, last, part)) == if last then Completed(accum) else Pending(accum)
  {
    FuBytesReadBack(h, first, last);
    assert FragmentPayload(h, first, last, part)[2..] == part;
  }

  lemma {:induction false} FragmentsReassemble(fu: Option<Bytes>, h: u8, body: Bytes, chunk: nat, rest: seq<Bytes>)
    requires body != [] && chunk > 0
    ensures Units(fu, Fragments(h, body, chunk, fu.None?) + rest)
         == Prepend((if fu.None? then [h] else fu.value) + body, Units(None, rest))
    decreases |body|
  {
    var ps := Fragments(h, body, chunk, fu.None?);
    var accum := if fu.None? then [h] else fu.value;
    assert (ps + rest)[0] == ps[0] && (ps + rest)[1..] == ps[1..] + rest;
    if |body| <= chunk {
      FeedFragment(fu, h, fu.None?, true, body);
      assert ps[1..] + rest == rest;
    } else {
      FeedFragment(fu, h, fu.None?, false, body[..chunk]);
      var tail := Fragments(h, body[chunk..], chunk, false);
      assert ps[1..] == tail;
      FragmentsReassemble(Some(accum + body[..chunk]), h, body[chunk..], chunk, rest);
      assert (accum + body[..chunk]) + body[chunk..] == accum + body;
    }
  }

  /** The NAL units that survive the trip: one of type 28 that is sent whole would be
      read back as a fragmentation unit. */
  predicate Survives(nal: Bytes, maxPayload: nat)
    requires nal != []
  {
    |nal| <= maxPayload ==> NalType(nal[0]) != FU_A
  }

  ghost predicate AllSurvive(nals: seq<Bytes>, maxPayload: nat)
    requires NonEmpty(nals)
  {
    forall k :: 0 <= k < |nals| ==> Survives(nals[k], maxPayload)
  }

  lemma PayloadsReassemble(nal: Bytes, maxPayload: nat, rest: seq<Bytes>)
    requires nal != [] && maxPayload > 0 && Survives(nal, maxPayload)
    ensures Units(None, Payloads(nal, maxPayload) + rest) == Prepend(nal, Units(None, rest))
  {
    if |nal| <= maxPayload {
      assert ([nal] + rest)[1..] == rest;
    } else {
      FragmentsReassemble(None, nal[0], nal[1..], Chunk(maxPayload), rest);
      assert [nal[0]] + nal[1..] == nal;
    }
  }

  lemma {:induction false} AllPayloadsReassemble(nals: seq<Bytes>, maxPayload: nat)
    requires NonEmpty(nals) && maxPayload > 0 && AllSurvive(nals, maxPayload)
    ensures Units(None, AllPayloads(nals, maxPayload)) == Some(nals)
  {
    if nals != [] {
      PayloadsReassemble(nals[0], maxPayload, AllPayloads(nals[1..], maxPayload));
      AllPayloadsReassemble(nals[1..], maxPayload);
      assert nals == [nals[0]] + nals[1..];
    }
  }

  // ---- A suffix of the payloads ----------------------------------------------------------

  /** The NAL unit that starts at payload `a`, if one does. */
  function StartsAt(nals: seq<Bytes>, maxPayload: nat, a: nat): (n: Option<nat>)
    requires NonEmpty(nals) && maxPayload > 0
    ensures n.Some? ==> n.value <= |nals|
    ensures n == Some(0) <==> a == 0
  {
    if a == 0 then Some(0)
    else if nals == [] then None
    else
      var k := |Payloads(nals[0], maxPayload)|;
      if a < k then None
      else
        var n := StartsAt(nals[1..], maxPayload, a - k);
        if n.None? then None else Some(n.value + 1)
  }

  lemma {:induction false} MidFragment(h: u8, body: Bytes, chunk: nat, first: bool, a: nat)
    requires body != [] && chunk > 0
    requires (if first then 1 else 0) <= a < |Fragments(h, body, chunk, first)|
    ensures Feed(None, Fragments(h, body, chunk, first)[a]) == Rejected
    decreases |body|
  {
    if a == 0 {
      FuBytesReadBack(h, first, |body| <= chunk);
    } else {
      MidFragment(h, body[chunk..], chunk, false, a - 1);
    }
  }

  /** Without its first payloads, an access unit reassembles only if what is left starts
      at a NAL unit, and then to exactly the remaining units. */
  lemma {:induction false} SuffixReassembles(nals: seq<Bytes>, maxPayload: nat, a: nat)
    requires NonEmpty(nals) && maxPayload > 0 && AllSurvive(nals, maxPayload)
    requires a < |AllPayloads(nals, maxPayload)|
    ensures var n := StartsAt(nals, maxPayload, a);
            Units(None, AllPayloads(nals, maxPayload)[a..]) == (if n.None? then None else Some(nals[n.value..]))
    ensures var n := StartsAt(nals, maxPayload, a); n.Some? ==> n.value < |nals|
  {
    var ps, rest := Payloads(nals[0], maxPayload), AllPayloads(nals[1..], maxPayload);
    if a == 0 {
      AllPayloadsReassemble(nals, maxPayload);
      assert (ps + rest)[0..] == ps + rest;
    } else if a < |ps| {
      var left := (ps + rest)[a..];
      assert left[0] == ps[a];
      MidFragment(nals[0][0], nals[0][1..], Chunk(maxPayload), true, a);
    } else {
      assert (ps + rest)[a..] == rest[a - |ps|..];
      SuffixReassembles(nals[1..], maxPayload, a - |ps|);
      var n := StartsAt(nals[1..], maxPayload, a - |ps|);
      assert n.Some? ==> nals[1..][n.value..] == nals[n.value + 1..];
    }
  }

  // ---- What reassembly accepts -------------------------------------------------------------

  ghost predicate IsFragment(p: Bytes) {
    |p| >= 2 && NalType(p[0]) == FU_A
  }

  function Bodies(run: seq<Bytes>): Bytes {
    if run == [] then [] else (if |run[0]| >= 2 then run[0][2..] else []) + Bodies(run[1..])
  }

  /** Fragments of one unit up to its end; only the first may, and if `opens` does, start it. */
  ghost predicate FragmentRun(run: seq<Bytes>, opens: bool) {
    && run != []
    && forall k :: 0 <= k < |run| ==>
         && IsFragment(run[k])
         && (StartBit(run[k][1]) <==> opens && k == 0)
         && (EndBit(run[k][1]) <==> k == |run| - 1)
  }

  /** Payloads that the reassembly reads as one NAL unit. It looks only at the type of a
      single payload and at the S and E bits of fragments. */
  ghost predicate ReadAs(run: seq<Bytes>, nal: Bytes) {
    || (run == [nal] && nal != [] && NalType(nal[0]) != FU_A)
    || (FragmentRun(run, true) && nal == [OriginalHeader(run[0][0], run[0][1])] + Bodies(run))
  }

  ghost function Flatten(runs: seq<seq<Bytes>>): seq<Bytes> {
    if runs == [] then [] else runs[0] + Flatten(runs[1..])
  }

  ghost predicate AllRead(runs: seq<seq<Bytes>>, nals: seq<Bytes>) {
    |runs| == |nals| && forall k :: 0 <= k < |runs| ==> ReadAs(runs[k], nals[k])
  }

  lemma {:induction false} RunCompletes(fu: Option<Bytes>, run: seq<Bytes>, rest: seq<Bytes>)
    requires FragmentRun(run, fu.None?)
    ensures var accum := if fu.None? then [OriginalHeader(run[0][0], run[0][1])] else fu.value;
            Units(fu, run + rest) == Prepend(accum + Bodies(run), Units(None, rest))
    decreases |run|
  {
    var accum := if fu.None? then [OriginalHeader(run[0][0], run[0][1])] else fu.value;
    assert (run + rest)[1..] == run[1..] + rest;
    assert IsFragment(run[0]);
    if |run| == 1 {
      assert Bodies(run) == run[0][2..] by { assert run[1..] == []; }
      assert run[1..] + rest == rest;
      assert (run + rest)[0] == run[0];
      assert Feed(fu, run[0]) == Completed(accum + run[0][2..]);
    } else {
      forall k | 0 <= k < |run| - 1
        ensures IsFragment(run[1..][k]) && !StartBit(run[1..][k][1])
        ensures EndBit(run[1..][k][1]) <==> k == |run| - 2
      {
        assert run[1..][k] == run[k + 1];
      }
      RunCompletes(Some(accum + run[0][2..]), run[1..], rest);
      assert (accum + run[0][2..]) + Bodies(run[1..]) == accum + (run[0][2..] + Bodies(run[1..]));
    }
  }

  lemma ReadIsCompleted(run: seq<Bytes>, nal: Bytes, rest: seq<Bytes>)
    requires ReadAs(run, nal)
    ensures Units(None, run + rest) == Prepend(nal, Units(None, rest))
  {
    if run == [nal] && nal != [] && NalType(nal[0]) != FU_A {
      assert (run + rest)[1..] == rest;
    } else {
      RunCompletes(None, run, rest);
    }
  }

  lemma {:induction false} ReadIsAccepted(runs: seq<seq<Bytes>>, nals: seq<Bytes>)
    requires AllRead(runs, nals)
    ensures Units(None, Flatten(runs)) == Some(nals)
  {
    if runs != [] {
      ReadIsAccepted(runs[1..], nals[1..]);
      ReadIsCompleted(runs[0], nals[0], Flatten(runs[1..]));
      assert nals == [nals[0]] + nals[1..];
    }
  }

  /** The fragments that close the open unit of an accepted list. */
  lemma {:induction false} ClosingRun(accum: Bytes, ps: seq<Bytes>) returns (k: nat)
    requires Units(Some(accum), ps).Some?
    ensures 0 < k <= |ps| && FragmentRun(ps[..k], false)
    ensures Units(Some(accum), ps) == Prepend(accum + Bodies(ps[..k]), Units(None, ps[k..]))
    decreases |ps|
  {
    var fed := Feed(Some(accum), ps[0]);
    if fed.Completed? {
      k := 1;
      assert ps[..1] == [ps[0]] && ps[..1][1..] == [];
      assert Bodies(ps[..1]) == ps[0][2..];
    } else {
      var j := ClosingRun(fed.accum, ps[1..]);
      k := j + 1;
      assert ps[..k][1..] == ps[1..][..j] && ps[1..][j..] == ps[k..];
      forall i | 0 <= i < k
        ensures IsFragment(ps[..k][i]) && !StartBit(ps[..k][i][1])
        ensures EndBit(ps[..k][i][1]) <==> i == k - 1
      {
        assert i > 0 ==> ps[..k][i] == ps[1..][..j][i - 1];
      }
      assert Bodies(ps[..k]) == ps[0][2..] + Bodies(ps[1..][..j]);
      assert accum + (ps[0][2..] + Bodies(ps[1..][..j])) == fed.accum + Bodies(ps[1..][..j]);
    }
  }

  /** The payloads of the first unit of an accepted list. */
  lemma FirstRun(ps: seq<Bytes>) returns (k: nat, nal: Bytes)
    requires ps != [] && Units(None, ps).Some?
    ensures 0 < k <= |ps| && ReadAs(ps[..k], nal)
    ensures Units(None, ps) == Prepend(nal, Units(None, ps[k..]))
  {
    k, nal := 1, [];
    match Feed(None, ps[0])
    case Rejected =>
      assert false;
    case Completed(unit) =>
      nal := unit;
      assert ps[..1] == [ps[0]] && ps[..1][1..] == [];
      if NalType(ps[0][0]) == FU_A {
        assert Bodies(ps[..1]) == ps[0][2..];
        assert FragmentRun(ps[..1], true);
      }
    case Pending(accum) =>
      var j := ClosingRun(accum, ps[1..]);
      k := j + 1;
      nal := accum + Bodies(ps[1..][..j]);
      var run := ps[..k];
      assert run[1..] == ps[1..][..j] && ps[1..][j..] == ps[k..];
      forall i | 0 <= i < k
        ensures IsFragment(run[i]) && (StartBit(run[i][1]) <==> i == 0)
        ensures EndBit(run[i][1]) <==> i == k - 1
      {
        assert i > 0 ==> run[i] == ps[1..][..j][i - 1];
      }
      var header := [OriginalHeader(run[0][0], run[0][1])];
      assert Bodies(run) == run[0][2..] + Bodies(run[1..]);
      assert header + (run[0][2..] + Bodies(run[1..])) == accum + Bodies(run[1..]);
  }

  lemma {:induction false} AcceptedIsRead(ps: seq<Bytes>) returns (runs: seq<seq<Bytes>>)
    requires Units(None, ps).Some?
    ensures Flatten(runs) == ps && AllRead(runs, Units(None, ps).value)
    decreases |ps|
  {
    if ps == [] {
      runs := [];
    } else {
      var k, nal := FirstRun(ps);
      var rest := AcceptedIsRead(ps[k..]);
      runs := [ps[..k]] + rest;
      assert runs[1..] == rest && ps[..k] + ps[k..] == ps;
    }
  }

  /** Reassembly of an arbitrary list of payloads succeeds exactly when the list can be cut
      into single payloads and S-to-E runs of fragments, and then yields exactly the units
      these are read as. */
  lemma AcceptsExactly(ps: seq<Bytes>, nals: seq<Bytes>)
    ensures Units(None, ps) == Some(nals)
            <==> exists runs: seq<seq<Bytes>> :: Flatten(runs) == ps && AllRead(runs, nals)
  {
    if Units(None, ps) == Some(nals) {
      var runs := AcceptedIsRead(ps);
    }
    if runs: seq<seq<Bytes>> :| Flatten(runs) == ps && AllRead(runs, nals) {
      ReadIsAccepted(runs, nals);
    }
  }

  // ---- What the standard allows ---------------------------------------------------------------

  predicate ReservedBit(fuHeader: u8) { fuHeader / 0x20 % 2 == 1 }

  /** The types of section 5.2 of RFC 6184 that are NAL units, as opposed to aggregation
      packets, fragmentation units and reserved values. */
  predicate IsUnitType(t: u8) { 1 <= t <= 23 }

  /** Fragments of one unit: one indicator, one type, and the R bit clear. */
  ghost predicate Uniform(run: seq<Bytes>) {
    run != [] && IsFragment(run[0]) &&
    forall k :: 0 <= k < |run| ==>
      && IsFragment(run[k]) && run[k][0] == run[0][0]
      && NalType(run[k][1]) == NalType(run[0][1]) && !ReservedBit(run[k][1])
  }

  /** Sections 5.6 and 5.8 of RFC 6184: the payloads that may carry one NAL unit. A unit is
      sent whole or in two fragments or more, so that none has both the S and the E bit. */
  ghost predicate Legal(run: seq<Bytes>, nal: Bytes) {
    || (run == [nal] && nal != [] && IsUnitType(NalType(nal[0])))
    || (&& |run| >= 2 && FragmentRun(run, true) && Uniform(run) && IsUnitType(NalType(run[0][1]))
        && nal == [OriginalHeader(run[0][0], run[0][1])] + Bodies(run))
  }

  ghost predicate AllLegal(runs: seq<seq<Bytes>>, nals: seq<Bytes>) {
    |runs| == |nals| && forall k :: 0 <= k < |runs| ==> Legal(runs[k], nals[k])
  }

  /** The payloads are a legal way to carry exactly these units. */
  ghost predicate LegalAs(ps: seq<Bytes>, nals: seq<Bytes>) {
    exists runs: seq<seq<Bytes>> :: Flatten(runs) == ps && AllLegal(runs, nals)
  }

  /** A payload that a receiver can tell to be in order from itself and the one before it. */
  predicate RegularAfter(previous: Bytes, p: Bytes) {
    && p != []
    && if NalType(p[0]) != FU_A then IsUnitType(NalType(p[0]))
       else
         && |p| >= 2 && IsUnitType(NalType(p[1])) && !ReservedBit(p[1])
         && !(StartBit(p[1]) && EndBit(p[1]))
         && (StartBit(p[1]) || Continues(previous, p))
  }

  predicate Continues(previous: Bytes, p: Bytes)
    requires |p| >= 2
  {
    |previous| >= 2 && previous[0] == p[0] && NalType(previous[1]) == NalType(p[1])
  }

  ghost predicate RegularAt(ps: seq<Bytes>, k: nat)
    requires k < |ps|
  {
    RegularAfter(if k == 0 then [] else ps[k - 1], ps[k])
  }

  ghost predicate Regular(ps: seq<Bytes>) {
    forall k: nat {:trigger RegularAt(ps, k)} :: k < |ps| ==> RegularAt(ps, k)
  }

  lemma LegalIsRead(run: seq<Bytes>, nal: Bytes)
    requires Legal(run, nal)
    ensures ReadAs(run, nal)
  {
  }

  lemma LegalIsRegular(run: seq<Bytes>, nal: Bytes)
    requires Legal(run, nal)
    ensures Regular(run)
  {
    forall k: nat | k < |run| ensures RegularAt(run, k) {
      if |run| >= 2 && k > 0 {
        assert IsFragment(run[k]) && IsFragment(run[k - 1]);
      }
    }
  }

  lemma RegularConcat(a: seq<Bytes>, b: seq<Bytes>)
    requires Regular(a) && Regular(b)
    ensures Regular(a + b)
  {
    forall k: nat | k < |a + b| ensures RegularAt(a + b, k) {
      if k < |a| {
        assert RegularAt(a, k);
      } else {
        assert RegularAt(b, k - |a|);
      }
    }
  }

  lemma RegularParts(a: seq<Bytes>, b: seq<Bytes>)
    requires Regular(a + b)
    requires b != [] ==> |b[0]| < 2 || NalType(b[0][0]) != FU_A || StartBit(b[0][1])
    ensures Regular(a) && Regular(b)
  {
    forall k: nat | k < |a| ensures RegularAt(a, k) {
      assert RegularAt(a + b, k);
    }
    forall k: nat | k < |b| ensures RegularAt(b, k) {
      assert RegularAt(a + b, |a| + k);
    }
  }

  lemma {:induction false} RegularIsUniform(run: seq<Bytes>, k: nat)
    requires FragmentRun(run, true) && Regular(run) && k < |run|
    ensures run[k][0] == run[0][0] && NalType(run[k][1]) == NalType(run[0][1]) && !ReservedBit(run[k][1])
  {
    assert RegularAt(run, k);
    if k > 0 {
      RegularIsUniform(run, k - 1);
    }
  }

  lemma RegularReadIsLegal(run: seq<Bytes>, nal: Bytes)
    requires ReadAs(run, nal) && Regular(run)
    ensures Legal(run, nal)
  {
    assert RegularAt(run, 0);
    if !(run == [nal] && NalType(nal[0]) != FU_A) {
      forall k | 0 <= k < |run|
        ensures run[k][0] == run[0][0] && NalType(run[k][1]) == NalType(run[0][1]) && !ReservedBit(run[k][1])
      {
        RegularIsUniform(run, k);
      }
    }
  }

  /** What is read as a unit does not continue what comes before it. */
  lemma {:induction false} ReadStartsAfresh(runs: seq<seq<Bytes>>, nals: seq<Bytes>)
    requires AllRead(runs, nals)
    ensures var ps := Flatten(runs); ps != [] ==> |ps[0]| < 2 || NalType(ps[0][0]) != FU_A || StartBit(ps[0][1])
  {
    if runs != [] {
      assert ReadAs(runs[0], nals[0]);
    }
  }

  lemma {:induction false} AllLegalAreRegular(runs: seq<seq<Bytes>>, nals: seq<Bytes>)
    requires AllLegal(runs, nals)
    ensures Regular(Flatten(runs)) && AllRead(runs, nals)
    decreases |runs|
  {
    if runs != [] {
      AllLegalAreRegular(runs[1..], nals[1..]);
      LegalIsRegular(runs[0], nals[0]);
      LegalIsRead(runs[0], nals[0]);
      RegularConcat(runs[0], Flatten(runs[1..]));
      forall k | 0 <= k < |runs| ensures ReadAs(runs[k], nals[k]) {
        if k > 0 {
          assert runs[k] == runs[1..][k - 1] && nals[k] == nals[1..][k - 1];
        }
      }
    }
  }

  lemma {:induction false} AllRegularAreLegal(runs: seq<seq<Bytes>>, nals: seq<Bytes>)
    requires AllRead(runs, nals) && Regular(Flatten(runs))
    ensures AllLegal(runs, nals)
    decreases |runs|
  {
    if runs != [] {
      var more, units := runs[1..], nals[1..];
      ReadStartsAfresh(more, units);
      RegularParts(runs[0], Flatten(more));
      RegularReadIsLegal(runs[0], nals[0]);
      AllRegularAreLegal(more, units);
      forall k | 0 <= k < |runs| ensures Legal(runs[k], nals[k]) {
        if k > 0 {
          assert runs[k] == more[k - 1] && nals[k] == units[k - 1];
        }
      }
    }
  }

  /** A list of payloads is legal, and then carries exactly the units reassembled from it,
      if and only if it is accepted and every payload is regular. So everything the
      standard allows is accepted, and what is accepted against it are exactly the
      accepted lists with an irregular payload, which reassembly does not look for. */
  lemma LegalExactly(ps: seq<Bytes>, nals: seq<Bytes>)
    ensures LegalAs(ps, nals) <==> Units(None, ps) == Some(nals) && Regular(ps)
  {
    if runs: seq<seq<Bytes>> :| Flatten(runs) == ps && AllLegal(runs, nals) {
      AllLegalAreRegular(runs, nals);
      ReadIsAccepted(runs, nals);
    }
    if Units(None, ps) == Some(nals) && Regular(ps) {
      var runs := AcceptedIsRead(ps);
      AllRegularAreLegal(runs, nals);
    }
  }

  /** Three lists that section 5.8 forbids and reassembly accepts: one fragment with both
      bits, an aggregation packet taken for a unit, and fragments of different units. */
  lemma ForbiddenIsAccepted()
    ensures Units(None, [[28, 0xC5, 1]]) == Some([[5, 1]]) && !LegalAs([[28, 0xC5, 1]], [[5, 1]])
    ensures Units(None, [[24, 0, 1, 5]]) == Some([[24, 0, 1, 5]]) && !LegalAs([[24, 0, 1, 5]], [[24, 0, 1, 5]])
    ensures Units(None, [[28, 0x81, 1], [0x7C, 0x45, 2]]) == Some([[1, 1, 2]])
    ensures !LegalAs([[28, 0x81, 1], [0x7C, 0x45, 2]], [[1, 1, 2]])
  {
    var none: seq<Bytes> := [];
    var both, stap, first, last: Bytes := [28, 0xC5, 1], [24, 0, 1, 5], [28, 0x81, 1], [0x7C, 0x45, 2];
    var unit, mixed: Bytes := [5, 1], [1, 1, 2];
    assert both[2..] == [1] && first[2..] == [1] && last[2..] == [2] && [1, 1] + [2] == mixed;
    assert Feed(None, both) == Completed(unit) && Feed(None, stap) == Completed(stap);
    assert Feed(None, first) == Pending([1, 1]) && Feed(Some([1, 1]), last) == Completed(mixed);
    assert [both][1..] == none && [stap][1..] == none && [first, last][1..] == [last] && [last][1..] == none;
    assert [unit] + none == [unit] && [stap] + none == [stap] && [mixed] + none == [mixed];
    assert Units(None, [both]) == Prepend(unit, Units(None, none));
    assert Units(None, [stap]) == Prepend(stap, Units(None, none));
    assert Units(Some([1, 1]), [last]) == Prepend(mixed, Units(None, none));
    assert !RegularAt([both], 0) && !RegularAt([stap], 0) && !RegularAt([first, last], 1);
    LegalExactly([both], [unit]);
    LegalExactly([stap], [stap]);
    LegalExactly([first, last], [mixed]);
  }

  // ---- The round trip holds exactly when every unit survives ---------------------------

  /** Bytes of canonical output that a payload accounts for once its unit is complete. */
  function Weight(p: Bytes): int {
    if p == [] || NalType(p[0]) != FU_A then |p| + 4
    else if |p| < 2 then 0
    else |p| - 2 + (if StartBit(p[1]) then 5 else 0)
  }

  function TotalWeight(ps: seq<Bytes>): int {
    if ps == [] then 0 else Weight(ps[0]) + TotalWeight(ps[1..])
  }

  lemma {:induction false} TotalWeightOfConcat(a: seq<Bytes>, b: seq<Bytes>)
    ensures TotalWeight(a + b) == TotalWeight(a) + TotalWeight(b)
  {
    if a == [] {
      assert a + b == b;
    } else {
      assert (a + b)[1..] == a[1..] + b;
      TotalWeightOfConcat(a[1..], b);
    }
  }

  lemma {:induction false} UnitsWeigh(fu: Option<Bytes>, ps: seq<Bytes>)
    requires Units(fu, ps).Some?
    ensures |Canonical(Units(fu, ps).value)| == TotalWeight(ps) + (if fu.None? then 0 else |fu.value| + 4)
    decreases |ps|
  {
    if ps != [] {
      match Feed(fu, ps[0])
      case Rejected =>
      case Pending(accum) => UnitsWeigh(Some(accum), ps[1..]);
      case Completed(nal) =>
        UnitsWeigh(None, ps[1..]);
        assert Units(fu, ps).value[1..] == Units(None, ps[1..]).value;
    }
  }

  lemma {:induction false} FragmentsWeigh(h: u8, body: Bytes, chunk: nat, first: bool)
    requires body != [] && chunk > 0
    ensures TotalWeight(Fragments(h, body, chunk, first)) == |body| + (if first then 5 else 0)
    decreases |body|
  {
    FuBytesReadBack(h, first, |body| <= chunk);
    if |body| > chunk {
      FragmentsWeigh(h, body[chunk..], chunk, false);
      assert Fragments(h, body, chunk, first)[1..] == Fragments(h, body[chunk..], chunk, false);
    }
  }

  lemma {:induction false} AllPayloadsWeigh(nals: seq<Bytes>, maxPayload: nat)
    requires NonEmpty(nals) && maxPayload > 0
    ensures TotalWeight(AllPayloads(nals, maxPayload)) <= |Canonical(nals)|
    ensures !AllSurvive(nals, maxPayload) ==> TotalWeight(AllPayloads(nals, maxPayload)) < |Canonical(nals)|
  {
    if nals != [] {
      var nal, ps := nals[0], Payloads(nals[0], maxPayload);
      TotalWeightOfConcat(ps, AllPayloads(nals[1..], maxPayload));
      AllPayloadsWeigh(nals[1..], maxPayload);
      if |nal| <= maxPayload {
        assert TotalWeight(ps) == Weight(nal);
      } else {
        FragmentsWeigh(nal[0], nal[1..], Chunk(maxPayload), true);
      }
      assert TotalWeight(ps) <= |nal| + 4;
      assert !Survives(nal, maxPayload) ==> TotalWeight(ps) < |nal| + 4;
    }
  }

  /** Splitting and reassembling restores the canonical access unit if and only if no
      NAL unit of type 28 is small enough to be sent whole. */
  lemma ReassemblyExactly(nals: seq<Bytes>, maxPayload: nat)
    requires NonEmpty(nals) && maxPayload > 0
    ensures var units := Units(None, AllPayloads(nals, maxPayload));
            (units.Some? && Canonical(units.value) == Canonical(nals)) <==> AllSurvive(nals, maxPayload)
  {
    if AllSurvive(nals, maxPayload) {
      AllPayloadsReassemble(nals, maxPayload);
    } else {
      AllPayloadsWeigh(nals, maxPayload);
      if Units(None, AllPayloads(nals, maxPayload)).Some? {
        UnitsWeigh(None, AllPayloads(nals, maxPayload));
      }
    }
  }

  /** A concrete casualty: the one-byte unit 28 is rejected, and 28 C5 comes back as 05. */
  lemma SmallFuAIsMisread()
    ensures Units(None, AllPayloads([[28]], 1200)) == None
    ensures Units(None, AllPayloads([[28, 0xC5]], 1200)) == Some([[5]])
  {
    var one, two: Bytes := [28], [28, 0xC5];
    var none: seq<Bytes> := [];
    assert [one][1..] == none && [two][1..] == none;
    assert AllPayloads([one], 1200) == [one] && AllPayloads([two], 1200) == [two];
    assert two[2..] == [] && OriginalHeader(28, 0xC5) == 5 && [5] + two[2..] == [5];
    assert Feed(None, two) == Completed([5]);
    var unit: Bytes := [5];
    assert Units(None, [two]) == Prepend(unit, Units(None, none));
    assert [unit] + none == [unit];
  }

  // ---- The shape of the fragments --------------------------------------------------------

  lemma {:induction false} FragmentIs(h: u8, body: Bytes, chunk: nat, first: bool, k: nat) returns (part: Bytes)
    requires body != [] && chunk > 0 && k < |Fragments(h, body, chunk, first)|
    ensures 1 <= |part| <= chunk
    ensures var ps := Fragments(h, body, chunk, first);
            ps[k] == FragmentPayload(h, first && k == 0, k == |ps| - 1, part)
    decreases |body|
  {
    if |body| <= chunk {
      part := body;
    } else if k == 0 {
      part := body[..chunk];
    } else {
      part := FragmentIs(h, body[chunk..], chunk, false, k - 1);
    }
  }

  lemma FragmentShape(h: u8, body: Bytes, chunk: nat, first: bool, k: nat)
    requires body != [] && chunk > 0 && k < |Fragments(h, body, chunk, first)|
    ensures var ps := Fragments(h, body, chunk, first);
            && 3 <= |ps[k]| <= chunk + 2
            && NalType(ps[k][0]) == FU_A
            && OriginalHeader(ps[k][0], ps[k][1]) == h
            && (StartBit(ps[k][1]) <==> first && k == 0)
            && (EndBit(ps[k][1]) <==> k == |ps| - 1)
  {
    var part := FragmentIs(h, body, chunk, first, k);
    FuBytesReadBack(h, first && k == 0, k == |Fragments(h, body, chunk, first)| - 1);
  }

  /** A fragmented unit: exactly its first payload starts it, exactly its last ends it,
      and every payload repeats its header. */
  lemma FragmentedUnit(nal: Bytes, maxPayload: nat, k: nat)
    requires 0 < maxPayload < |nal| && k < |Payloads(nal, maxPayload)|
    ensures var ps := Payloads(nal, maxPayload);
            && |ps[k]| >= 3
            && NalType(ps[k][0]) == FU_A
            && OriginalHeader(ps[k][0], ps[k][1]) == nal[0]
            && (StartBit(ps[k][1]) <==> k == 0)
            && (EndBit(ps[k][1]) <==> k == |ps| - 1)
  {
    FragmentShape(nal[0], nal[1..], Chunk(maxPayload), true, k);
  }

  lemma {:induction false} FragmentsAreFilled(h: u8, body: Bytes, chunk: nat, first: bool, k: nat)
    requires body != [] && chunk > 0 && k < |Fragments(h, body, chunk, first)| - 1
    ensures |Fragments(h, body, chunk, first)[k]| == chunk + 2
    decreases |body|
  {
    if k > 0 {
      FragmentsAreFilled(h, body[chunk..], chunk, false, k - 1);
    }
  }

  /** A unit is fragmented exactly if it does not fit the budget, and then every fragment but
      the last uses all of the budget, or three bytes if it is less. */
  lemma FragmentsAreFull(nal: Bytes, maxPayload: nat, k: nat)
    requires nal != [] && maxPayload > 0 && k < |Payloads(nal, maxPayload)|
    ensures Payloads(nal, maxPayload) == [nal] <==> |nal| <= maxPayload
    ensures k < |Payloads(nal, maxPayload)| - 1 ==>
              |Payloads(nal, maxPayload)[k]| == if maxPayload < 3 then 3 else maxPayload
  {
    if |nal| > maxPayload {
      if k < |Payloads(nal, maxPayload)| - 1 {
        FragmentsAreFilled(nal[0], nal[1..], Chunk(maxPayload), true, k);
      }
      if Payloads(nal, maxPayload) == [nal] {
        FragmentedUnit(nal, maxPayload, 0);
        StartAndEndTogetherIsTwo(nal, maxPayload);
      }
    }
  }

  /** A lone fragment is longer than the unit it carries. */
  lemma StartAndEndTogetherIsTwo(nal: Bytes, maxPayload: nat)
    requires 0 < maxPayload < |nal| && |Payloads(nal, maxPayload)| == 1
    ensures |Payloads(nal, maxPayload)[0]| == |nal| + 1
  {
  }

  /** RFC 6184 forbids one packet to both start and end a unit. The splitter breaks that
      rule only for a two-byte unit under a budget of one byte. */
  lemma StartAndEndTogetherExactly(nal: Bytes, maxPayload: nat)
    requires 0 < maxPayload < |nal|
    ensures (exists k :: 0 <= k < |Payloads(nal, maxPayload)|
                         && var p := Payloads(nal, maxPayload)[k]; |p| >= 2 && StartBit(p[1]) && EndBit(p[1]))
            <==> maxPayload == 1 && |nal| == 2
  {
    var ps := Payloads(nal, maxPayload);
    forall k | 0 <= k < |ps|
      ensures |ps[k]| >= 2 && (StartBit(ps[k][1]) <==> k == 0) && (EndBit(ps[k][1]) <==> k == |ps| - 1)
    {
      FragmentedUnit(nal, maxPayload, k);
    }
    assert |ps| == 1 <==> maxPayload == 1 && |nal| == 2;
    if |ps| == 1 {
      assert StartBit(ps[0][1]) && EndBit(ps[0][1]);
    }
  }

  // ---- When the splitter obeys the standard ----------------------------------------------

  /** A unit of a type that may be sent, and not split into a lone fragment. */
  predicate Sendable(nal: Bytes, maxPayload: nat)
    requires nal != []
  {
    IsUnitType(NalType(nal[0])) && !(maxPayload == 1 && |nal| == 2)
  }

  lemma FragmentBytes(h: u8, first: bool, last: bool, part: Bytes)
    ensures var p := FragmentPayload(h, first, last, part);
            && NalType(p[0]) == FU_A && NalType(p[1]) == NalType(h) && !ReservedBit(p[1])
            && p[0] == FuIndicator(h) && StartBit(p[1]) == first && EndBit(p[1]) == last
  {
    FuBytesReadBack(h, first, last);
  }

  lemma {:induction false} BodiesOfFragments(h: u8, body: Bytes, chunk: nat, first: bool)
    requires body != [] && chunk > 0
    ensures Bodies(Fragments(h, body, chunk, first)) == body
    decreases |body|
  {
    var ps := Fragments(h, body, chunk, first);
    if |body| <= chunk {
      assert ps[0][2..] == body && ps[1..] == [];
      assert body + [] == body;
    } else {
      BodiesOfFragments(h, body[chunk..], chunk, false);
      assert ps[0][2..] == body[..chunk] && ps[1..] == Fragments(h, body[chunk..], chunk, false);
    }
  }

  lemma FragmentedIsRead(nal: Bytes, maxPayload: nat)
    requires 0 < maxPayload < |nal|
    ensures ReadAs(Payloads(nal, maxPayload), nal) && Uniform(Payloads(nal, maxPayload))
    ensures NalType(Payloads(nal, maxPayload)[0][1]) == NalType(nal[0])
  {
    var ps, h := Payloads(nal, maxPayload), nal[0];
    forall k | 0 <= k < |ps|
      ensures && IsFragment(ps[k]) && ps[k][0] == FuIndicator(h) && NalType(ps[k][1]) == NalType(h)
              && !ReservedBit(ps[k][1]) && (StartBit(ps[k][1]) <==> k == 0) && (EndBit(ps[k][1]) <==> k == |ps| - 1)
    {
      var part := FragmentIs(h, nal[1..], Chunk(maxPayload), true, k);
      FragmentBytes(h, k == 0, k == |ps| - 1, part);
    }
    BodiesOfFragments(h, nal[1..], Chunk(maxPayload), true);
    FuBytesReadBack(h, true, |ps| == 1);
    FragmentShape(h, nal[1..], Chunk(maxPayload), true, 0);
    assert [h] + nal[1..] == nal;
  }

  lemma PayloadsAreLegal(nal: Bytes, maxPayload: nat)
    requires nal != [] && maxPayload > 0 && Sendable(nal, maxPayload)
    ensures Legal(Payloads(nal, maxPayload), nal)
  {
    if |nal| > maxPayload {
      FragmentedIsRead(nal, maxPayload);
      if |Payloads(nal, maxPayload)| == 1 {
        assert EndBit(Payloads(nal, maxPayload)[0][1]) && StartBit(Payloads(nal, maxPayload)[0][1]) by {
          FragmentedUnit(nal, maxPayload, 0);
        }
        StartAndEndTogetherExactly(nal, maxPayload);
      }
    }
  }

  lemma IrregularUnit(nal: Bytes, maxPayload: nat)
    requires nal != [] && maxPayload > 0 && Survives(nal, maxPayload) && !Sendable(nal, maxPayload)
    ensures !RegularAfter([], Payloads(nal, maxPayload)[0])
  {
    if |nal| > maxPayload {
      FragmentedIsRead(nal, maxPayload);
      FragmentedUnit(nal, maxPayload, 0);
      assert maxPayload == 1 && |nal| == 2 ==> |Payloads(nal, maxPayload)| == 1;
    }
  }

  lemma {:induction false} SendableAreLegal(nals: seq<Bytes>, maxPayload: nat) returns (runs: seq<seq<Bytes>>)
    requires NonEmpty(nals) && maxPayload > 0
    requires forall k :: 0 <= k < |nals| ==> Sendable(nals[k], maxPayload)
    ensures Flatten(runs) == AllPayloads(nals, maxPayload) && AllLegal(runs, nals)
  {
    runs := [];
    if nals != [] {
      var rest := SendableAreLegal(nals[1..], maxPayload);
      PayloadsAreLegal(nals[0], maxPayload);
      runs := [Payloads(nals[0], maxPayload)] + rest;
      assert runs[1..] == rest;
    }
  }

  lemma {:induction false} RegularAreSendable(nals: seq<Bytes>, maxPayload: nat)
    requires NonEmpty(nals) && maxPayload > 0 && AllSurvive(nals, maxPayload)
    requires Regular(AllPayloads(nals, maxPayload))
    ensures forall k :: 0 <= k < |nals| ==> Sendable(nals[k], maxPayload)
  {
    if nals != [] {
      var ps, rest := Payloads(nals[0], maxPayload), AllPayloads(nals[1..], maxPayload);
      assert RegularAt(ps + rest, 0);
      if !Sendable(nals[0], maxPayload) {
        IrregularUnit(nals[0], maxPayload);
      }
      if nals[1..] != [] {
        FirstIsFresh(nals[1], maxPayload);
        assert rest[0] == Payloads(nals[1], maxPayload)[0];
      }
      RegularParts(ps, rest);
      RegularAreSendable(nals[1..], maxPayload);
    }
  }

  lemma FirstIsFresh(nal: Bytes, maxPayload: nat)
    requires nal != [] && maxPayload > 0 && Survives(nal, maxPayload)
    ensures var p := Payloads(nal, maxPayload)[0]; |p| < 2 || NalType(p[0]) != FU_A || StartBit(p[1])
  {
    if |nal| > maxPayload {
      FragmentedUnit(nal, maxPayload, 0);
    }
  }

  /** What the splitter sends for an access unit obeys sections 5.6 and 5.8 of RFC 6184 if
      and only if every unit has a type from 1 to 23 and none of two bytes meets a budget
      of one. */
  lemma SplitsLegallyExactly(nals: seq<Bytes>, maxPayload: nat)
    requires NonEmpty(nals) && maxPayload > 0
    ensures LegalAs(AllPayloads(nals, maxPayload), nals) <==>
            forall k :: 0 <= k < |nals| ==> Sendable(nals[k], maxPayload)
  {
    if forall k :: 0 <= k < |nals| ==> Sendable(nals[k], maxPayload) {
      var runs := SendableAreLegal(nals, maxPayload);
    }
    LegalExactly(AllPayloads(nals, maxPayload), nals);
    if LegalAs(AllPayloads(nals, maxPayload), nals) {
      ReassemblyExactly(nals, maxPayload);
      RegularAreSendable(nals, maxPayload);
    }
  }

  /** No payload exceeds the budget, except that fragments need at least three bytes. */
  lemma PayloadsFitExactly(nal: Bytes, maxPayload: nat)
    requires nal != [] && maxPayload > 0
    ensures (forall k :: 0 <= k < |Payloads(nal, maxPayload)| ==> |Payloads(nal, maxPayload)[k]| <= maxPayload)
            <==> maxPayload >= 3 || |nal| <= maxPayload
  {
    var ps := Payloads(nal, maxPayload);
    if |nal| > maxPayload {
      forall k | 0 <= k < |ps| ensures 3 <= |ps[k]| <= Chunk(maxPayload) + 2 {
        FragmentShape(nal[0], nal[1..], Chunk(maxPayload), true, k);
      }
      assert 3 <= |ps[0]|;
    }
  }
}
