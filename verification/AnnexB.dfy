/** The H.264 byte-stream format (Annex B): NAL units separated by start codes
    00 00 01, optionally preceded by one more zero byte. */
module AnnexB {
  import opened Common

  type Bytes = seq<u8>

  predicate StartCodeAt(data: Bytes, i: int) {
    0 <= i && i + 3 <= |data| && data[i] == 0 && data[i + 1] == 0 && data[i + 2] == 1
  }

  ghost predicate NoStartCode(data: Bytes) {
    forall i :: !StartCodeAt(data, i)
  }

  ghost predicate IsNal(nal: Bytes) {
    nal != [] && NoStartCode(nal)
  }

  ghost predicate AreNals(nals: seq<Bytes>) {
    forall k :: 0 <= k < |nals| ==> IsNal(nals[k])
  }

  // ---- Reference definition: cut at every start code ---------------------------

  /** Position of the first start code from `i` on, or the length if there is none. */
  function FirstFrom(s: Bytes, i: nat): (c: nat)
    requires i <= |s|
    ensures i <= c && (c == |s| || c + 3 <= |s|)
    decreases |s| - i
  {
    if |s| < i + 3 then |s| else if StartCodeAt(s, i) then i else FirstFrom(s, i + 1)
  }

  function FirstCode(s: Bytes): nat {
    FirstFrom(s, 0)
  }

  lemma {:induction false} FirstFromIsFirst(s: Bytes, i: nat)
    requires i <= |s|
    ensures FirstFrom(s, i) < |s| ==> StartCodeAt(s, FirstFrom(s, i))
    ensures forall j :: i <= j < FirstFrom(s, i) ==> !StartCodeAt(s, j)
    decreases |s| - i
  {
    if i + 3 <= |s| && !StartCodeAt(s, i) {
      FirstFromIsFirst(s, i + 1);
    }
  }

  lemma FirstCodeIsFirst(s: Bytes)
    ensures FirstCode(s) < |s| ==> StartCodeAt(s, FirstCode(s))
    ensures forall i :: 0 <= i < FirstCode(s) ==> !StartCodeAt(s, i)
  {
    FirstFromIsFirst(s, 0);
  }

  function TrimZero(body: Bytes): Bytes {
    if body != [] && body[|body| - 1] == 0 then body[..|body| - 1] else body
  }

  function Keep(body: Bytes): seq<Bytes> {
    if body == [] then [] else [body]
  }

  /** The NAL units of what follows a start code. */
  function AfterCode(s: Bytes): seq<Bytes>
    decreases |s|
  {
    var c := FirstCode(s);
    if c == |s| then Keep(s) else Keep(TrimZero(s[..c])) + AfterCode(s[c + 3..])
  }

  /** The non-empty NAL units of an access unit, in order. */
  function Nals(data: Bytes): seq<Bytes> {
    var c := FirstCode(data);
    if c == |data| then [] else AfterCode(data[c + 3..])
  }

  /** The form the depacketizer rebuilds: every NAL unit behind a 4-byte start code. */
  function Canonical(nals: seq<Bytes>): Bytes {
    if nals == [] then [] else [0, 0, 0, 1] + (nals[0] + Canonical(nals[1..]))
  }

  lemma FirstCodeIs(s: Bytes, c: nat)
    requires c <= |s| && (c < |s| ==> StartCodeAt(s, c))
    requires forall i :: 0 <= i < c ==> !StartCodeAt(s, i)
    ensures FirstCode(s) == c
  {
    FirstCodeIsFirst(s);
  }

  lemma PrefixHasNoCode(s: Bytes, n: nat)
    requires n <= |s| && forall i :: 0 <= i < n ==> !StartCodeAt(s, i)
    ensures NoStartCode(s[..n])
  {
    forall i ensures !StartCodeAt(s[..n], i) {
      if StartCodeAt(s[..n], i) {
        assert StartCodeAt(s, i);
      }
    }
  }

  lemma {:induction false} AfterCodeIsNals(s: Bytes)
    ensures AreNals(AfterCode(s))
    decreases |s|
  {
    var c := FirstCode(s);
    FirstCodeIsFirst(s);
    PrefixHasNoCode(s, c);
    assert c == |s| ==> s[..c] == s;
    if c < |s| {
      var body := TrimZero(s[..c]);
      assert body == s[..|body|];
      PrefixHasNoCode(s, |body|);
      AfterCodeIsNals(s[c + 3..]);
    }
  }

  /** Every unit found is non-empty and holds no start code. */
  lemma FoundUnitsAreNals(data: Bytes)
    ensures AreNals(Nals(data))
  {
    var c := FirstCode(data);
    if c < |data| {
      AfterCodeIsNals(data[c + 3..]);
    }
  }

  /** One cut: `head` is what comes before the first start code, `rest` what follows it. */
  lemma CutOnce(s: Bytes, head: Bytes, rest: Bytes)
    requires FirstCode(s) == |head| < |s| && head == s[..|head|] && rest == s[|head| + 3..]
    ensures AfterCode(s) == Keep(TrimZero(head)) + AfterCode(rest)
  {
  }

  /** Up to where a start code of two or three zeros begins to be read, a unit shows none. */
  lemma NoCodeInside(nal: Bytes, zeros: nat, next: Bytes, s: Bytes, i: nat)
    requires IsNal(nal) && 2 <= zeros && s == nal + (seq(zeros, _ => 0) + next) && i < |nal| + zeros - 2
    ensures !StartCodeAt(s, i)
  {
    assert !StartCodeAt(nal, i);
    assert i + 3 > |nal| ==> s[i + 2] == 0;
  }

  /** A unit and the 4-byte start code behind it. */
  lemma UnitBeforeLongCode(nal: Bytes, next: Bytes)
    requires IsNal(nal)
    ensures AfterCode(nal + ([0, 0, 0, 1] + next)) == [nal] + AfterCode(next)
  {
    var s := nal + ([0, 0, 0, 1] + next);
    assert s == nal + (seq(3, _ => 0) + ([1] + next));
    forall i | 0 <= i < |nal| + 1 ensures !StartCodeAt(s, i) {
      NoCodeInside(nal, 3, [1] + next, s, i);
    }
    FirstCodeIs(s, |nal| + 1);
    assert s[..|nal| + 1] == nal + [0] && TrimZero(nal + [0]) == nal;
    CutOnce(s, nal + [0], next);
  }

  /** A unit and the 3-byte start code behind it: the unit must not end in a zero. */
  lemma UnitBeforeShortCode(nal: Bytes, next: Bytes)
    requires IsNal(nal) && nal[|nal| - 1] != 0
    ensures AfterCode(nal + ([0, 0, 1] + next)) == [nal] + AfterCode(next)
  {
    var s := nal + ([0, 0, 1] + next);
    assert s == nal + (seq(2, _ => 0) + ([1] + next));
    forall i | 0 <= i < |nal| ensures !StartCodeAt(s, i) {
      NoCodeInside(nal, 2, [1] + next, s, i);
    }
    FirstCodeIs(s, |nal|);
    CutOnce(s, nal, next);
  }

  lemma LastUnit(nal: Bytes)
    requires IsNal(nal)
    ensures AfterCode(nal) == [nal]
  {
    FirstCodeIs(nal, |nal|);
  }

  lemma LeadingCode(s: Bytes)
    ensures Nals([0, 0, 0, 1] + s) == AfterCode(s) && Nals([0, 0, 1] + s) == AfterCode(s)
  {
    var long, short := [0, 0, 0, 1] + s, [0, 0, 1] + s;
    assert !StartCodeAt(long, 0) && StartCodeAt(long, 1);
    FirstCodeIs(long, 1);
    assert long[4..] == s;
    FirstCodeIs(short, 0);
    assert short[3..] == s;
  }

  lemma {:induction false} CanonicalExtended(nals: seq<Bytes>, nal: Bytes)
    ensures Canonical(nals + [nal]) == Canonical(nals) + ([0, 0, 0, 1] + nal)
  {
    var all := nals + [nal];
    if nals == [] {
      assert all[1..] == [];
    } else {
      assert all[1..] == nals[1..] + [nal];
      CanonicalExtended(nals[1..], nal);
    }
  }

  lemma {:induction false} AfterCodeOfCanonical(nals: seq<Bytes>)
    requires nals != [] && AreNals(nals)
    ensures AfterCode(nals[0] + Canonical(nals[1..])) == nals
    decreases |nals|
  {
    var nal, rest := nals[0], nals[1..];
    if rest == [] {
      LastUnit(nal);
      assert nal + Canonical(rest) == nal;
    } else {
      var next := rest[0] + Canonical(rest[1..]);
      UnitBeforeLongCode(nal, next);
      AfterCodeOfCanonical(rest);
      assert nals == [nal] + rest;
    }
  }

  /** Splitting the canonical form gives back exactly the units it was made of. */
  lemma SplitOfCanonical(nals: seq<Bytes>)
    requires AreNals(nals)
    ensures Nals(Canonical(nals)) == nals
  {
    if nals != [] {
      var s := nals[0] + Canonical(nals[1..]);
      assert Canonical(nals) == [0, 0, 0, 1] + s;
      LeadingCode(s);
      AfterCodeOfCanonical(nals);
    }
  }

  /** Canonicalizing is idempotent: it never changes the list of units. */
  lemma CanonicalIsIdempotent(data: Bytes)
    ensures Nals(Canonical(Nals(data))) == Nals(data)
  {
    FoundUnitsAreNals(data);
    SplitOfCanonical(Nals(data));
  }

  // ---- Streams with start codes of either length ------------------------------------

  /** Units behind 4-byte codes where `long` says so and behind 3-byte codes elsewhere. */
  function Stream(nals: seq<Bytes>, long: seq<bool>): Bytes
    requires |long| == |nals|
  {
    if nals == [] then []
    else (if long[0] then [0, 0, 0, 1] else [0, 0, 1]) + (nals[0] + Stream(nals[1..], long[1..]))
  }

  /** A unit that ends in a zero byte needs a 4-byte code behind it. */
  ghost predicate Separable(nals: seq<Bytes>, long: seq<bool>)
    requires |long| == |nals|
  {
    forall k :: 0 < k < |nals| && !long[k] ==> nals[k - 1] != [] && nals[k - 1][|nals[k - 1]| - 1] != 0
  }

  lemma {:induction false} AfterCodeOfStream(nals: seq<Bytes>, long: seq<bool>)
    requires nals != [] && |long| == |nals| && AreNals(nals) && Separable(nals, long)
    ensures AfterCode(nals[0] + Stream(nals[1..], long[1..])) == nals
    decreases |nals|
  {
    var nal, rest, longs := nals[0], nals[1..], long[1..];
    if rest == [] {
      LastUnit(nal);
      assert nal + Stream(rest, longs) == nal;
    } else {
      SeparableTail(nals, long);
      AfterCodeOfStream(rest, longs);
      UnitBeforeCode(nal, long[1], rest[0] + Stream(rest[1..], longs[1..]));
      assert nals == [nal] + rest;
    }
  }

  lemma SeparableTail(nals: seq<Bytes>, long: seq<bool>)
    requires |nals| >= 2 && |long| == |nals| && AreNals(nals) && Separable(nals, long)
    ensures AreNals(nals[1..]) && Separable(nals[1..], long[1..])
    ensures IsNal(nals[0]) && (!long[1] ==> nals[0][|nals[0]| - 1] != 0)
  {
    var rest, longs := nals[1..], long[1..];
    assert forall k :: 0 < k < |rest| ==> longs[k] == long[k + 1] && rest[k - 1] == nals[k];
  }

  /** A unit and the start code behind it, of either length. */
  lemma UnitBeforeCode(nal: Bytes, long: bool, next: Bytes)
    requires IsNal(nal) && (!long ==> nal[|nal| - 1] != 0)
    ensures AfterCode(nal + ((if long then [0, 0, 0, 1] else [0, 0, 1]) + next)) == [nal] + AfterCode(next)
  {
    if long {
      UnitBeforeLongCode(nal, next);
    } else {
      UnitBeforeShortCode(nal, next);
    }
  }

  /** Whatever start codes an encoder uses, the scan finds exactly the units it wrote. */
  lemma SplitOfStream(nals: seq<Bytes>, long: seq<bool>)
    requires |long| == |nals| && AreNals(nals) && Separable(nals, long)
    ensures Nals(Stream(nals, long)) == nals
  {
    if nals != [] {
      var s := nals[0] + Stream(nals[1..], long[1..]);
      assert Stream(nals, long) == (if long[0] then [0, 0, 0, 1] else [0, 0, 1]) + s;
      LeadingCode(s);
      AfterCodeOfStream(nals, long);
    }
  }

  // ---- The program's scan --------------------------------------------------------

  /** Where a start code begins and where the NAL body behind it begins. */
  datatype Marker = Marker(codeBegin: nat, bodyBegin: nat)

  ghost predicate ValidMarkers(data: Bytes, markers: seq<Marker>) {
    && (forall k :: 0 <= k < |markers| ==> markers[k].codeBegin <= markers[k].bodyBegin <= |data|)
    && (forall j, k :: 0 <= j < k < |markers| ==> markers[j].bodyBegin <= markers[k].codeBegin)
  }

  /** The units enclosed between the first `n` markers. */
  ghost function Enclosed(data: Bytes, markers: seq<Marker>, n: nat): seq<Bytes>
    requires n <= |markers| && ValidMarkers(data, markers)
  {
    if n < 2 then []
    else Enclosed(data, markers, n - 1) + Keep(data[markers[n - 2].bodyBegin..markers[n - 1].codeBegin])
  }

  lemma {:induction false} EnclosedKept(data: Bytes, markers: seq<Marker>, m: Marker, n: nat)
    requires n <= |markers| && ValidMarkers(data, markers) && ValidMarkers(data, markers + [m])
    ensures Enclosed(data, markers + [m], n) == Enclosed(data, markers, n)
  {
    if n >= 2 {
      EnclosedKept(data, markers, m, n - 1);
    }
  }

  lemma MarkerAdded(data: Bytes, markers: seq<Marker>, m: Marker)
    requires markers != [] && ValidMarkers(data, markers)
    requires markers[|markers| - 1].bodyBegin <= m.codeBegin <= m.bodyBegin <= |data|
    ensures ValidMarkers(data, markers + [m])
    ensures Enclosed(data, markers + [m], |markers| + 1)
         == Enclosed(data, markers, |markers|) + Keep(data[markers[|markers| - 1].bodyBegin..m.codeBegin])
  {
    MarkersExtended(data, markers, m);
    EnclosedKept(data, markers, m, |markers|);
  }

  lemma MarkersExtended(data: Bytes, markers: seq<Marker>, m: Marker)
    requires ValidMarkers(data, markers)
    requires markers != [] ==> markers[|markers| - 1].bodyBegin <= m.codeBegin
    requires m.codeBegin <= m.bodyBegin <= |data|
    ensures ValidMarkers(data, markers + [m])
  {
    var all, n := markers + [m], |markers|;
    forall j, k | 0 <= j < k < |all| ensures all[j].bodyBegin <= all[k].codeBegin {
      if k == n {
        assert all[j] == markers[j];
        assert j < n - 1 ==> markers[j].bodyBegin <= markers[n - 1].codeBegin;
      } else {
        assert all[j] == markers[j] && all[k] == markers[k];
      }
    }
  }

  ghost predicate NoCodeBetween(data: Bytes, from: nat, to: nat) {
    forall j :: from <= j < to ==> !StartCodeAt(data, j)
  }

  /** Where the scan has looked: nothing is left behind since the last marker. */
  ghost predicate Scanned(data: Bytes, markers: seq<Marker>, i: nat)
    requires i <= |data|
  {
    && ValidMarkers(data, markers)
    && (if markers == [] then NoCodeBetween(data, 0, i)
        else markers[|markers| - 1].bodyBegin <= i && NoCodeBetween(data, markers[|markers| - 1].bodyBegin, i))
  }

  /** What the scan has found: the enclosed units, and those behind the last marker. */
  ghost predicate Found(data: Bytes, markers: seq<Marker>)
    requires ValidMarkers(data, markers) && markers != []
  {
    Nals(data) == Enclosed(data, markers, |markers|) + AfterCode(data[markers[|markers| - 1].bodyBegin..])
  }

  lemma FirstCodeFrom(data: Bytes, from: nat, at: nat)
    requires from <= at <= |data| && NoCodeBetween(data, from, at)
    requires at < |data| ==> StartCodeAt(data, at)
    ensures FirstCode(data[from..]) == at - from
  {
    var s := data[from..];
    forall j | 0 <= j < at - from ensures !StartCodeAt(s, j) {
      assert !StartCodeAt(data, from + j);
    }
    FirstCodeIs(s, at - from);
  }

  lemma SliceOfRest(data: Bytes, from: nat, at: nat)
    requires from <= at <= |data|
    ensures data[from..][..at - from] == data[from..at] && data[from..][at - from..] == data[at..]
  {
  }

  lemma CutAt(data: Bytes, body: nat, i: nat, codeBegin: nat)
    requires body <= i && NoCodeBetween(data, body, i) && StartCodeAt(data, i)
    requires codeBegin == (if body <= i - 1 && data[i - 1] == 0 then i - 1 else i)
    ensures AfterCode(data[body..]) == Keep(data[body..codeBegin]) + AfterCode(data[i + 3..])
  {
    FirstCodeFrom(data, body, i);
    SliceOfRest(data, body, i);
    SliceOfRest(data, body, i + 3);
    TrimmedIs(data, body, i, codeBegin);
    CutOnce(data[body..], data[body..i], data[i + 3..]);
  }

  lemma TrimmedIs(data: Bytes, body: nat, i: nat, codeBegin: nat)
    requires body <= i <= |data|
    requires codeBegin == (if body <= i - 1 && data[i - 1] == 0 then i - 1 else i)
    ensures TrimZero(data[body..i]) == data[body..codeBegin]
  {
  }

  lemma FirstHit(data: Bytes, i: nat)
    requires NoCodeBetween(data, 0, i) && StartCodeAt(data, i)
    ensures Nals(data) == AfterCode(data[i + 3..])
  {
    FirstCodeFrom(data, 0, i);
    assert data[0..] == data;
  }

  lemma NextHit(data: Bytes, enclosed: seq<Bytes>, body: nat, i: nat, codeBegin: nat)
    requires body <= i && NoCodeBetween(data, body, i) && StartCodeAt(data, i)
    requires codeBegin == (if body <= i - 1 && data[i - 1] == 0 then i - 1 else i)
    requires Nals(data) == enclosed + AfterCode(data[body..])
    ensures Nals(data) == (enclosed + Keep(data[body..codeBegin])) + AfterCode(data[i + 3..])
  {
    CutAt(data, body, i, codeBegin);
    Associate(enclosed, Keep(data[body..codeBegin]), AfterCode(data[i + 3..]));
  }

  function CodeBegin(data: Bytes, markers: seq<Marker>, i: nat): nat
    requires i <= |data|
  {
    if i >= 1 && data[i - 1] == 0 && markers != [] && markers[|markers| - 1].bodyBegin <= i - 1 then i - 1 else i
  }

  lemma ScanHit(data: Bytes, markers: seq<Marker>, i: nat)
    requires i <= |data| && Scanned(data, markers, i) && StartCodeAt(data, i)
    ensures Scanned(data, markers + [Marker(CodeBegin(data, markers, i), i + 3)], i + 3)
  {
    MarkersExtended(data, markers, Marker(CodeBegin(data, markers, i), i + 3));
  }

  lemma FoundFirst(data: Bytes, m: Marker, i: nat)
    requires i <= |data| && Scanned(data, [], i) && StartCodeAt(data, i) && m == Marker(i, i + 3)
    ensures Found(data, [m])
  {
    FirstHit(data, i);
    assert Enclosed(data, [m], 1) == [];
  }

  lemma FoundNext(data: Bytes, markers: seq<Marker>, m: Marker, i: nat)
    requires i <= |data| && Scanned(data, markers, i) && StartCodeAt(data, i)
    requires markers != [] && Found(data, markers) && m == Marker(CodeBegin(data, markers, i), i + 3)
    ensures ValidMarkers(data, markers + [m]) && Found(data, markers + [m])
  {
    MarkerAdded(data, markers, m);
    NextHit(data, Enclosed(data, markers, |markers|), markers[|markers| - 1].bodyBegin, i, m.codeBegin);
  }

  lemma FoundMore(data: Bytes, markers: seq<Marker>, m: Marker, i: nat)
    requires i <= |data| && Scanned(data, markers, i) && StartCodeAt(data, i)
    requires (markers != [] ==> Found(data, markers)) && m == Marker(CodeBegin(data, markers, i), i + 3)
    ensures ValidMarkers(data, markers + [m]) && Found(data, markers + [m])
  {
    if markers == [] {
      FoundFirst(data, m, i);
      assert markers + [m] == [m];
    } else {
      FoundNext(data, markers, m, i);
    }
  }

  lemma ScanMiss(data: Bytes, markers: seq<Marker>, i: nat)
    requires i < |data| && Scanned(data, markers, i) && !StartCodeAt(data, i)
    ensures Scanned(data, markers, i + 1)
  {
  }

  lemma ScanEnd(data: Bytes, markers: seq<Marker>, i: nat)
    requires i <= |data| < i + 3 && Scanned(data, markers, i) && (markers != [] ==> Found(data, markers))
    ensures markers == [] ==> Nals(data) == []
    ensures markers != [] ==>
              Nals(data) == Enclosed(data, markers, |markers|) + Keep(data[markers[|markers| - 1].bodyBegin..])
  {
    if markers == [] {
      FirstCodeIs(data, |data|);
    } else {
      FirstCodeFrom(data, markers[|markers| - 1].bodyBegin, |data|);
    }
  }

  datatype Range = Range(begin: nat, end: nat)

  predicate ValidRanges(data: Bytes, ranges: seq<Range>) {
    && (forall k :: 0 <= k < |ranges| ==> ranges[k].begin < ranges[k].end <= |data|)
    && (forall j, k :: 0 <= j < k < |ranges| ==> ranges[j].end <= ranges[k].begin)
  }

  function Slices(data: Bytes, ranges: seq<Range>): (slices: seq<Bytes>)
    requires ValidRanges(data, ranges)
    ensures |slices| == |ranges|
  {
    if ranges == [] then []
    else
      var last := ranges[|ranges| - 1];
      Slices(data, ranges[..|ranges| - 1]) + [data[last.begin..last.end]]
  }

  method ScanMarkers(data: Bytes) returns (markers: seq<Marker>)
    ensures ValidMarkers(data, markers)
    ensures markers == [] ==> Nals(data) == []
    ensures markers != [] ==>
              Nals(data) == Enclosed(data, markers, |markers|) + Keep(data[markers[|markers| - 1].bodyBegin..])
  {
    var len := |data|;
    markers := [];
    var i := 0;
    while i + 3 <= len
      invariant i <= len && Scanned(data, markers, i) && (markers != [] ==> Found(data, markers))
    {
      if data[i] == 0 && data[i + 1] == 0 && data[i + 2] == 1 {
        var codeBegin := i;
        if i >= 1 && data[i - 1] == 0 && markers != [] && markers[|markers| - 1].bodyBegin <= i - 1 {
          codeBegin := i - 1;
        }
        ScanHit(data, markers, i);
        FoundMore(data, markers, Marker(codeBegin, i + 3), i);
        markers := markers + [Marker(codeBegin, i + 3)];
        i := i + 3;
      } else {
        ScanMiss(data, markers, i);
        i := i + 1;
      }
    }
    ScanEnd(data, markers, i);
  }

  lemma {:induction false} SliceAt(data: Bytes, ranges: seq<Range>, k: nat)
    requires ValidRanges(data, ranges) && k < |ranges|
    ensures Slices(data, ranges)[k] == data[ranges[k].begin..ranges[k].end]
  {
    if k < |ranges| - 1 {
      SliceAt(data, ranges[..|ranges| - 1], k);
    }
  }

  lemma RangesExtended(data: Bytes, ranges: seq<Range>, r: Range)
    requires ValidRanges(data, ranges) && r.begin < r.end <= |data|
    requires ranges != [] ==> ranges[|ranges| - 1].end <= r.begin
    ensures ValidRanges(data, ranges + [r])
  {
    var all, n := ranges + [r], |ranges|;
    forall j, k | 0 <= j < k < |all| ensures all[j].end <= all[k].begin {
      assert all[j] == ranges[j];
      if k == n {
        assert j < n - 1 ==> ranges[j].end <= ranges[n - 1].begin;
      } else {
        assert all[k] == ranges[k];
      }
    }
  }

  lemma SlicesExtended(data: Bytes, ranges: seq<Range>, begin: nat, end: nat)
    requires ValidRanges(data, ranges) && begin < end <= |data|
    requires ranges != [] ==> ranges[|ranges| - 1].end <= begin
    ensures ValidRanges(data, ranges + [Range(begin, end)])
    ensures Slices(data, ranges + [Range(begin, end)]) == Slices(data, ranges) + [data[begin..end]]
  {
    RangesExtended(data, ranges, Range(begin, end));
    assert (ranges + [Range(begin, end)])[..|ranges|] == ranges;
  }

  function AddRange(ranges: seq<Range>, begin: nat, end: nat): seq<Range> {
    if end > begin then ranges + [Range(begin, end)] else ranges
  }

  lemma RangeAdded(data: Bytes, ranges: seq<Range>, begin: nat, end: nat)
    requires ValidRanges(data, ranges) && begin <= end <= |data|
    requires ranges != [] ==> ranges[|ranges| - 1].end <= begin
    ensures ValidRanges(data, AddRange(ranges, begin, end))
    ensures Slices(data, AddRange(ranges, begin, end)) == Slices(data, ranges) + Keep(data[begin..end])
  {
    if end > begin {
      SlicesExtended(data, ranges, begin, end);
    } else {
      assert data[begin..end] == [];
    }
  }

  /** The units found once the first `s` markers have been turned into ranges. */
  ghost predicate Ranged(data: Bytes, markers: seq<Marker>, s: nat, ranges: seq<Range>)
    requires s < |markers| && ValidMarkers(data, markers)
  {
    && ValidRanges(data, ranges)
    && Slices(data, ranges) == Enclosed(data, markers, s + 1)
    && (ranges != [] ==> ranges[|ranges| - 1].end <= markers[s].bodyBegin)
  }

  lemma RangeStep(data: Bytes, markers: seq<Marker>, s: nat, ranges: seq<Range>)
    requires s + 1 < |markers| && ValidMarkers(data, markers) && Ranged(data, markers, s, ranges)
    ensures Ranged(data, markers, s + 1, AddRange(ranges, markers[s].bodyBegin, markers[s + 1].codeBegin))
  {
    RangeAdded(data, ranges, markers[s].bodyBegin, markers[s + 1].codeBegin);
  }

  lemma LastRange(data: Bytes, markers: seq<Marker>, ranges: seq<Range>)
    requires markers != [] && ValidMarkers(data, markers) && Ranged(data, markers, |markers| - 1, ranges)
    ensures var begin := markers[|markers| - 1].bodyBegin;
            var all := AddRange(ranges, begin, |data|);
            ValidRanges(data, all) && Slices(data, all) == Enclosed(data, markers, |markers|) + Keep(data[begin..])
  {
    var begin := markers[|markers| - 1].bodyBegin;
    RangeAdded(data, ranges, begin, |data|);
    ToTheEnd(data, begin);
  }

  lemma ToTheEnd(data: Bytes, begin: nat)
    requires begin <= |data|
    ensures data[begin..|data|] == data[begin..]
  {
  }

  method RangesOf(data: Bytes, markers: seq<Marker>, ghost units: seq<Bytes>) returns (ranges: seq<Range>)
    requires ValidMarkers(data, markers)
    requires markers == [] ==> units == []
    requires markers != [] ==>
               units == Enclosed(data, markers, |markers|) + Keep(data[markers[|markers| - 1].bodyBegin..])
    ensures ValidRanges(data, ranges) && Slices(data, ranges) == units
  {
    ranges := [];
    for s := 0 to |markers|
      invariant s < |markers| ==> Ranged(data, markers, s, ranges)
      invariant s == |markers| ==> ValidRanges(data, ranges) && Slices(data, ranges) == units
    {
      if s + 1 < |markers| {
        RangeStep(data, markers, s, ranges);
      } else {
        LastRange(data, markers, ranges);
      }
      var begin := markers[s].bodyBegin;
      var end := if s + 1 < |markers| then markers[s + 1].codeBegin else |data|;
      if end > begin {
        ranges := ranges + [Range(begin, end)];
      }
    }
  }

  /** The byte ranges of the NAL units of an access unit: in bounds, non-empty, in
      order, without overlap, and holding exactly the units of the reference. */
  method FindNalUnits(data: Bytes) returns (ranges: seq<Range>)
    ensures ValidRanges(data, ranges)
    ensures Slices(data, ranges) == Nals(data)
  {
    var markers := ScanMarkers(data);
    ranges := RangesOf(data, markers, Nals(data));
  }

  // ---- The canonical form byte by byte -------------------------------------------------

  /** Every unit stands behind the four bytes 0, 0, 0, 1 and right before the next. */
  lemma {:induction false} CanonicalExactly(nals: seq<Bytes>, k: nat)
    requires k < |nals|
    ensures var all, at := Canonical(nals), |Canonical(nals[..k])|;
            && |Canonical(nals[..k + 1])| == at + 4 + |nals[k]| <= |all|
            && all[at..at + 4] == [0, 0, 0, 1] && all[at + 4..at + 4 + |nals[k]|] == nals[k]
    decreases |nals| - k
  {
    CanonicalExtended(nals[..k], nals[k]);
    assert nals[..k] + [nals[k]] == nals[..k + 1];
    CanonicalOfBoth(nals[..k + 1], nals[k + 1..]);
    assert nals[..k + 1] + nals[k + 1..] == nals;
    var head := Canonical(nals[..k]);
    assert Canonical(nals) == head + ([0, 0, 0, 1] + nals[k]) + Canonical(nals[k + 1..]);
  }

  lemma {:induction false} CanonicalOfBoth(a: seq<Bytes>, b: seq<Bytes>)
    ensures Canonical(a + b) == Canonical(a) + Canonical(b)
  {
    if a == [] {
      assert a + b == b;
    } else {
      assert (a + b)[1..] == a[1..] + b;
      CanonicalOfBoth(a[1..], b);
      Associate([0, 0, 0, 1] + a[0], Canonical(a[1..]), Canonical(b));
    }
  }
}
