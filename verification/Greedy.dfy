// The greedy scan behind workflow verification, freed of what steps and observations
// look like: steps are rows, observations are columns in time order, and fits says
// which observation satisfies which step.

module Greedy {
  import opened Wrappers

  datatype Mode = Uncorrelated | Prefer | Required

  // A zero time is the zero timestamp.
  datatype Seen = Seen(correlation: string, time: int)

  // The timing bound of each step (0 is none), the observations, and the match relation.
  datatype Incident = Incident(bounds: seq<nat>, seen: seq<Seen>, fits: (nat, nat) -> bool)

  // May a fitting candidate be taken while this correlation is bound ("" is none)?
  predicate Eligible(mode: Mode, correlation: string, candidate: Seen) {
    match mode
    case Uncorrelated => true
    case Prefer => correlation == "" || candidate.correlation == "" || candidate.correlation == correlation
    case Required => candidate.correlation != "" && (correlation == "" || candidate.correlation == correlation)
  }

  function Bind(correlation: string, matched: Seen): string {
    if correlation == "" then matched.correlation else correlation
  }

  predicate CanTake(mode: Mode, correlation: string, w: Incident, n: nat, i: nat)
    requires i < |w.seen|
  {
    w.fits(n, i) && Eligible(mode, correlation, w.seen[i])
  }

  // The first observation from cursor on that step n can take.
  function FirstTaken(mode: Mode, correlation: string, w: Incident, n: nat, cursor: nat): (r: Option<nat>)
    requires cursor <= |w.seen|
    ensures r.Some? ==> cursor <= r.value < |w.seen| && CanTake(mode, correlation, w, n, r.value)
    ensures forall i :: cursor <= i < (if r.Some? then r.value else |w.seen|) ==> !CanTake(mode, correlation, w, n, i)
    decreases |w.seen| - cursor
  {
    if cursor == |w.seen| then None
    else if CanTake(mode, correlation, w, n, cursor) then Some(cursor)
    else FirstTaken(mode, correlation, w, n, cursor + 1)
  }

  // The observations taken for the steps from n on, up to the first that finds none.
  function Taken(mode: Mode, w: Incident, n: nat, cursor: nat, correlation: string): (ix: seq<nat>)
    requires n <= |w.bounds| && cursor <= |w.seen|
    ensures |ix| <= |w.bounds| - n && forall j :: 0 <= j < |ix| ==> ix[j] < |w.seen|
    decreases |w.bounds| - n
  {
    if n == |w.bounds| then []
    else match FirstTaken(mode, correlation, w, n, cursor)
      case None => []
      case Some(i) => [i] + Taken(mode, w, n + 1, i + 1, Bind(correlation, w.seen[i]))
  }

  function Scan(mode: Mode, w: Incident): (ix: seq<nat>)
    ensures |ix| <= |w.bounds|
    ensures forall j :: 0 <= j < |ix| ==> ix[j] < |w.seen|
  {
    Taken(mode, w, 0, 0, "")
  }

  // time.Time.Sub: the difference, saturated to a 64-bit number of nanoseconds.
  const MAX_DURATION := 0x7fff_ffff_ffff_ffff

  function Sub(later: int, earlier: int): int {
    var d := later - earlier;
    if d > MAX_DURATION then MAX_DURATION else if d < -MAX_DURATION - 1 then -MAX_DURATION - 1 else d
  }

  predicate Late(bound: nat, previous: int, time: int) {
    previous != 0 && bound > 0 && Sub(time, previous) > bound
  }

  datatype Finding = MissingStep(step: nat, position: nat) | TimingDrift(step: nat, observation: nat)

  // What there is to report when the observations ix are taken for the steps from n on:
  // each drift among them, then the first step that found none.
  function Report(w: Incident, n: nat, cursor: nat, previous: int, ix: seq<nat>): seq<Finding>
    requires n + |ix| <= |w.bounds| && forall j :: 0 <= j < |ix| ==> ix[j] < |w.seen|
    decreases |ix|
  {
    if ix == [] then
      if n == |w.bounds| then [] else [MissingStep(n, cursor)]
    else
      var time := w.seen[ix[0]].time;
      (if Late(w.bounds[n], previous, time) then [TimingDrift(n, ix[0])] else []) +
      Report(w, n + 1, ix[0] + 1, time, ix[1..])
  }

  lemma ReportCons(w: Incident, n: nat, cursor: nat, previous: int, i: nat, rest: seq<nat>)
    requires n + 1 + |rest| <= |w.bounds| && i < |w.seen| && forall j :: 0 <= j < |rest| ==> rest[j] < |w.seen|
    ensures Report(w, n, cursor, previous, [i] + rest) ==
      (if Late(w.bounds[n], previous, w.seen[i].time) then [TimingDrift(n, i)] else []) +
      Report(w, n + 1, i + 1, w.seen[i].time, rest)
  {
    assert ([i] + rest)[1..] == rest;
  }

  // The findings still to come when the loop stands before step n, at cursor, with this
  // correlation bound and this time of the previous step.
  function Remaining(mode: Mode, w: Incident, n: nat, cursor: nat, correlation: string, previous: int): seq<Finding>
    requires n <= |w.bounds| && cursor <= |w.seen|
  {
    Report(w, n, cursor, previous, Taken(mode, w, n, cursor, correlation))
  }

  function Findings(mode: Mode, w: Incident): seq<Finding> {
    Remaining(mode, w, 0, 0, "", 0)
  }

  lemma NothingTaken(mode: Mode, w: Incident, n: nat, cursor: nat, correlation: string, previous: int)
    requires n < |w.bounds| && cursor <= |w.seen| && FirstTaken(mode, correlation, w, n, cursor).None?
    ensures Remaining(mode, w, n, cursor, correlation, previous) == [MissingStep(n, cursor)]
  {}

  // One turn of the loop, when step n takes observation i and before becomes after.
  lemma Turn(mode: Mode, w: Incident, n: nat, cursor: nat, correlation: string, previous: int,
             i: nat, before: seq<Finding>, after: seq<Finding>)
    requires n < |w.bounds| && cursor <= |w.seen| && FirstTaken(mode, correlation, w, n, cursor) == Some(i)
    requires after == if Late(w.bounds[n], previous, w.seen[i].time) then before + [TimingDrift(n, i)] else before
    ensures before + Remaining(mode, w, n, cursor, correlation, previous) ==
      after + Remaining(mode, w, n + 1, i + 1, Bind(correlation, w.seen[i]), w.seen[i].time)
  {
    var rest := Taken(mode, w, n + 1, i + 1, Bind(correlation, w.seen[i]));
    TakenCons(mode, w, n, cursor, correlation, i);
    ReportCons(w, n, cursor, previous, i, rest);
    Append(before, Late(w.bounds[n], previous, w.seen[i].time), TimingDrift(n, i),
           Report(w, n + 1, i + 1, w.seen[i].time, rest));
  }

  lemma TakenCons(mode: Mode, w: Incident, n: nat, cursor: nat, correlation: string, i: nat)
    requires n < |w.bounds| && cursor <= |w.seen| && FirstTaken(mode, correlation, w, n, cursor) == Some(i)
    ensures Taken(mode, w, n, cursor, correlation) == [i] + Taken(mode, w, n + 1, i + 1, Bind(correlation, w.seen[i]))
  {}

  lemma Append(before: seq<Finding>, late: bool, drift: Finding, rest: seq<Finding>)
    ensures before + ((if late then [drift] else []) + rest) == (if late then before + [drift] else before) + rest
  {}

  // ---------------------------------------------------------------- embeddings

  // One observation for every step, strictly in order.
  ghost predicate Embeds(w: Incident, ix: seq<nat>) {
    && |ix| == |w.bounds|
    && (forall j :: 0 <= j < |ix| ==> ix[j] < |w.seen| && w.fits(j, ix[j]))
    && (forall j, k :: 0 <= j < k < |ix| ==> ix[j] < ix[k])
  }

  // The same, step by step: the first of ix lies at or after from and fits step n, and so on.
  predicate EmbedsFrom(w: Incident, n: nat, from: nat, ix: seq<nat>)
    decreases |ix|
  {
    ix != [] ==> from <= ix[0] < |w.seen| && w.fits(n, ix[0]) && EmbedsFrom(w, n + 1, ix[0] + 1, ix[1..])
  }

  lemma {:induction false} EmbeddedAt(w: Incident, n: nat, from: nat, ix: seq<nat>, j: nat)
    requires EmbedsFrom(w, n, from, ix) && j < |ix|
    ensures from <= ix[j] < |w.seen| && w.fits(n + j, ix[j])
    ensures j > 0 ==> ix[0] < ix[j]
    decreases j
  {
    if j > 0 {
      EmbeddedAt(w, n + 1, ix[0] + 1, ix[1..], j - 1);
    }
  }

  lemma {:induction false} EmbeddedFrom(w: Incident, n: nat, from: nat, ix: seq<nat>, k: nat)
    requires EmbedsFrom(w, n, from, ix) && k < |ix|
    ensures EmbedsFrom(w, n + k, ix[k], ix[k..])
    decreases k
  {
    if k > 0 {
      EmbeddedFrom(w, n + 1, ix[0] + 1, ix[1..], k - 1);
      assert ix[1..][k - 1..] == ix[k..];
    } else {
      assert ix[0..] == ix;
    }
  }

  lemma {:induction false} EmbedsFromSuffix(w: Incident, ix: seq<nat>, n: nat, from: nat)
    requires Embeds(w, ix) && n <= |ix|
    requires n < |ix| ==> from <= ix[n]
    ensures EmbedsFrom(w, n, from, ix[n..])
    decreases |ix| - n
  {
    if n < |ix| {
      assert ix[n..][1..] == ix[n + 1..];
      EmbedsFromSuffix(w, ix, n + 1, ix[n] + 1);
    }
  }

  lemma EmbedsStepwise(w: Incident, ix: seq<nat>)
    ensures Embeds(w, ix) <==> |ix| == |w.bounds| && EmbedsFrom(w, 0, 0, ix)
  {
    if Embeds(w, ix) {
      EmbedsFromSuffix(w, ix, 0, 0);
      assert ix[0..] == ix;
    }
    if EmbedsFrom(w, 0, 0, ix) {
      forall j | 0 <= j < |ix|
        ensures ix[j] < |w.seen| && w.fits(j, ix[j])
      {
        EmbeddedAt(w, 0, 0, ix, j);
      }
      forall j, k | 0 <= j < k < |ix|
        ensures ix[j] < ix[k]
      {
        EmbeddedFrom(w, 0, 0, ix, j);
        EmbeddedAt(w, j, ix[j], ix[j..], k - j);
      }
    }
  }

  ghost predicate NoLater(a: seq<nat>, b: seq<nat>) {
    |a| == |b| && forall j :: 0 <= j < |a| ==> a[j] <= b[j]
  }

  ghost predicate AllCorrelated(w: Incident, ix: seq<nat>, correlation: string) {
    forall j :: 0 <= j < |ix| ==> ix[j] < |w.seen| && w.seen[ix[j]].correlation == correlation
  }

  ghost predicate AllMatched(findings: seq<Finding>) {
    forall f :: f in findings ==> !f.MissingStep?
  }

  lemma {:induction false} ReportsComeLater(w: Incident, n: nat, cursor: nat, previous: int, ix: seq<nat>)
    requires n + |ix| <= |w.bounds| && forall j :: 0 <= j < |ix| ==> ix[j] < |w.seen|
    ensures forall f :: f in Report(w, n, cursor, previous, ix) ==> f.step >= n
    ensures AllMatched(Report(w, n, cursor, previous, ix)) <==> n + |ix| == |w.bounds|
    decreases |ix|
  {
    if ix != [] {
      ReportsComeLater(w, n + 1, ix[0] + 1, w.seen[ix[0]].time, ix[1..]);
    } else if n < |w.bounds| {
      assert Report(w, n, cursor, previous, ix)[0].MissingStep?;
    }
  }

  // Step n + j is reported late exactly when it is later after its predecessor than it may be.
  lemma {:induction false} DriftExactly(w: Incident, n: nat, cursor: nat, previous: int, ix: seq<nat>, j: nat)
    requires n + |ix| <= |w.bounds| && j < |ix| && forall k :: 0 <= k < |ix| ==> ix[k] < |w.seen|
    ensures TimingDrift(n + j, ix[j]) in Report(w, n, cursor, previous, ix) <==>
      Late(w.bounds[n + j], if j == 0 then previous else w.seen[ix[j - 1]].time, w.seen[ix[j]].time)
    decreases j
  {
    var time, rest := w.seen[ix[0]].time, ix[1..];
    ReportsComeLater(w, n + 1, ix[0] + 1, time, rest);
    if j > 0 {
      assert rest[j - 1] == ix[j] && (j > 1 ==> rest[j - 2] == ix[j - 1]);
      DriftExactly(w, n + 1, ix[0] + 1, time, rest, j - 1);
    }
  }

  lemma AllMatchedMeansAllTaken(mode: Mode, w: Incident)
    ensures AllMatched(Findings(mode, w)) <==> |Scan(mode, w)| == |w.bounds|
  {
    ReportsComeLater(w, 0, 0, 0, Scan(mode, w));
  }

  lemma {:induction false} MissingExactly(w: Incident, n: nat, cursor: nat, previous: int, ix: seq<nat>,
                                          step: nat, position: nat)
    requires n + |ix| <= |w.bounds| && forall k :: 0 <= k < |ix| ==> ix[k] < |w.seen|
    ensures MissingStep(step, position) in Report(w, n, cursor, previous, ix) <==>
      step == n + |ix| < |w.bounds| && position == if ix == [] then cursor else ix[|ix| - 1] + 1
    decreases |ix|
  {
    if ix != [] {
      MissingExactly(w, n + 1, ix[0] + 1, w.seen[ix[0]].time, ix[1..], step, position);
    }
  }

  // A step is reported missing exactly when it is the first for which the scan takes
  // nothing, and at the position behind the last observation taken.
  lemma MissingStepExactly(mode: Mode, w: Incident, step: nat, position: nat)
    ensures var ix := Scan(mode, w);
      MissingStep(step, position) in Findings(mode, w) <==>
        step == |ix| < |w.bounds| && position == if ix == [] then 0 else ix[|ix| - 1] + 1
  {
    MissingExactly(w, 0, 0, 0, Scan(mode, w), step, position);
  }

  // A step after the first is reported late exactly when the scan takes an observation for
  // it that comes more than its bound after the one taken for the step before it.
  lemma TimingDriftExactly(mode: Mode, w: Incident, n: nat)
    requires 0 < n < |Scan(mode, w)|
    ensures var ix := Scan(mode, w);
      TimingDrift(n, ix[n]) in Findings(mode, w) <==> Late(w.bounds[n], w.seen[ix[n - 1]].time, w.seen[ix[n]].time)
  {
    DriftExactly(w, 0, 0, 0, Scan(mode, w), n);
  }

  // What is taken is an embedding of the steps it covers, whatever the mode.
  lemma {:induction false} TakenEmbeds(mode: Mode, w: Incident, n: nat, cursor: nat, correlation: string)
    requires n <= |w.bounds| && cursor <= |w.seen|
    ensures EmbedsFrom(w, n, cursor, Taken(mode, w, n, cursor, correlation))
    decreases |w.bounds| - n
  {
    if n < |w.bounds| {
      var first := FirstTaken(mode, correlation, w, n, cursor);
      if first.Some? {
        var i := first.value;
        var next := Bind(correlation, w.seen[i]);
        assert EmbedsFrom(w, n, cursor, [i] + Taken(mode, w, n + 1, i + 1, next)) by {
          TakenEmbeds(mode, w, n + 1, i + 1, next);
          EmbedsCons(w, n, cursor, i, Taken(mode, w, n + 1, i + 1, next));
        }
      }
    }
  }

  lemma EmbedsCons(w: Incident, n: nat, from: nat, i: nat, rest: seq<nat>)
    requires from <= i < |w.seen| && w.fits(n, i) && EmbedsFrom(w, n + 1, i + 1, rest)
    ensures EmbedsFrom(w, n, from, [i] + rest)
  {
    assert ([i] + rest)[1..] == rest;
  }

  // ---------------------------------------------------------------- which correlations may be taken

  // The correlation a scan binds that stands before step n with none bound: that of the
  // first observation it takes that carries any.
  function Binding(mode: Mode, w: Incident, n: nat, cursor: nat): string
    requires n <= |w.bounds| && cursor <= |w.seen|
    decreases |w.bounds| - n
  {
    if n == |w.bounds| then ""
    else match FirstTaken(mode, "", w, n, cursor)
      case None => ""
      case Some(i) => if w.seen[i].correlation != "" then w.seen[i].correlation else Binding(mode, w, n + 1, i + 1)
  }

  function Bound(mode: Mode, w: Incident, n: nat, cursor: nat, correlation: string): string
    requires n <= |w.bounds| && cursor <= |w.seen|
  {
    if correlation != "" then correlation else Binding(mode, w, n, cursor)
  }

  // May an observation with this correlation belong to a workflow that binds bound?
  predicate May(mode: Mode, bound: string, correlation: string) {
    match mode
    case Uncorrelated => true
    case Prefer => correlation == "" || correlation == bound
    case Required => bound != "" && correlation == bound
  }

  ghost predicate Carries(mode: Mode, w: Incident, bound: string, ix: seq<nat>) {
    forall j :: 0 <= j < |ix| ==> ix[j] < |w.seen| && May(mode, bound, w.seen[ix[j]].correlation)
  }

  lemma BoundStays(mode: Mode, w: Incident, n: nat, cursor: nat, c: string, i: nat)
    requires n < |w.bounds| && cursor <= |w.seen| && FirstTaken(mode, c, w, n, cursor) == Some(i)
    ensures Bound(mode, w, n, cursor, c) == Bound(mode, w, n + 1, i + 1, Bind(c, w.seen[i]))
    ensures May(mode, Bound(mode, w, n, cursor, c), w.seen[i].correlation)
  {
    assert CanTake(mode, c, w, n, i);
  }

  // What is taken carries only such correlations.
  lemma {:induction false} TakenCarries(mode: Mode, w: Incident, n: nat, cursor: nat, c: string)
    requires n <= |w.bounds| && cursor <= |w.seen|
    ensures Carries(mode, w, Bound(mode, w, n, cursor, c), Taken(mode, w, n, cursor, c))
    decreases |w.bounds| - n
  {
    if n < |w.bounds| {
      var first := FirstTaken(mode, c, w, n, cursor);
      if first.Some? {
        BoundStays(mode, w, n, cursor, c, first.value);
        TakenCarries(mode, w, n + 1, first.value + 1, Bind(c, w.seen[first.value]));
      }
    }
  }

  // Among the observations that may be taken, the scan takes the earliest possible.
  lemma {:induction false} TakenIsEarliest(mode: Mode, w: Incident, n: nat, cursor: nat, c: string, from: nat,
                                           other: seq<nat>, bound: string)
    requires n <= |w.bounds| && cursor <= |w.seen| && cursor <= from
    requires |other| == |w.bounds| - n && EmbedsFrom(w, n, from, other)
    requires bound == Bound(mode, w, n, cursor, c) && Carries(mode, w, bound, other)
    ensures NoLater(Taken(mode, w, n, cursor, c), other)
    decreases |w.bounds| - n
  {
    if n < |w.bounds| {
      FirstIsEarliest(mode, w, n, cursor, c, other[0], bound);
      var i := FirstTaken(mode, c, w, n, cursor).value;
      BoundStays(mode, w, n, cursor, c, i);
      var next := Bind(c, w.seen[i]);
      TakenIsEarliest(mode, w, n + 1, i + 1, next, other[0] + 1, other[1..], bound);
      NoLaterCons(i, Taken(mode, w, n + 1, i + 1, next), other);
    }
  }

  lemma FirstIsEarliest(mode: Mode, w: Incident, n: nat, cursor: nat, c: string, other: nat, bound: string)
    requires n < |w.bounds| && cursor <= other < |w.seen| && w.fits(n, other)
    requires bound == Bound(mode, w, n, cursor, c) && May(mode, bound, w.seen[other].correlation)
    ensures var first := FirstTaken(mode, c, w, n, cursor);
      first.Some? && first.value <= other
  {
    assert CanTake(mode, c, w, n, other);
  }

  lemma NoLaterCons(i: nat, rest: seq<nat>, other: seq<nat>)
    requires other != [] && i <= other[0] && NoLater(rest, other[1..])
    ensures NoLater([i] + rest, other)
  {
    assert forall j :: 0 < j < |other| ==> other[1..][j - 1] == other[j];
  }

  lemma ScanEmbeds(mode: Mode, w: Incident)
    ensures |Scan(mode, w)| == |w.bounds| ==> Embeds(w, Scan(mode, w))
  {
    TakenEmbeds(mode, w, 0, 0, "");
    EmbedsStepwise(w, Scan(mode, w));
  }

  // ---------------------------------------------------------------- what the scan decides, in every mode

  // One observation for every step, strictly in order, of correlations that may be taken.
  ghost predicate Admissible(mode: Mode, w: Incident, ix: seq<nat>) {
    Embeds(w, ix) && Carries(mode, w, Binding(mode, w, 0, 0), ix)
  }

  ghost predicate Earliest(mode: Mode, w: Incident, ix: seq<nat>) {
    Admissible(mode, w, ix) && forall other :: Admissible(mode, w, other) ==> NoLater(ix, other)
  }

  lemma ScanIsEarliest(mode: Mode, w: Incident, other: seq<nat>)
    requires Admissible(mode, w, other)
    ensures NoLater(Scan(mode, w), other)
  {
    EmbedsStepwise(w, other);
    TakenIsEarliest(mode, w, 0, 0, "", 0, other, Binding(mode, w, 0, 0));
  }

  // No step is reported missing exactly when there is an admissible choice of observations.
  lemma MatchedExactly(mode: Mode, w: Incident)
    ensures AllMatched(Findings(mode, w)) <==> exists ix :: Admissible(mode, w, ix)
    ensures AllMatched(Findings(mode, w)) ==> Earliest(mode, w, Scan(mode, w))
  {
    AllMatchedMeansAllTaken(mode, w);
    ScanEmbeds(mode, w);
    TakenCarries(mode, w, 0, 0, "");
    assert |Scan(mode, w)| == |w.bounds| ==> Admissible(mode, w, Scan(mode, w));
    forall other | Admissible(mode, w, other)
      ensures NoLater(Scan(mode, w), other) && |Scan(mode, w)| == |w.bounds|
    {
      ScanIsEarliest(mode, w, other);
    }
  }

  lemma NoLaterAntisymmetric(a: seq<nat>, b: seq<nat>)
    requires NoLater(a, b) && NoLater(b, a)
    ensures a == b
  {}

  // Every bounded gap is kept, in durations as the program measures them.
  ghost predicate Punctual(w: Incident, ix: seq<nat>)
    requires |ix| == |w.bounds| && forall j :: 0 <= j < |ix| ==> ix[j] < |w.seen|
  {
    forall j :: 0 < j < |ix| ==> !Late(w.bounds[j], w.seen[ix[j - 1]].time, w.seen[ix[j]].time)
  }

  predicate LateAt(w: Incident, n: nat, previous: int, ix: seq<nat>, j: nat)
    requires n + |ix| <= |w.bounds| && j < |ix| && forall k :: 0 <= k < |ix| ==> ix[k] < |w.seen|
  {
    Late(w.bounds[n + j], if j == 0 then previous else w.seen[ix[j - 1]].time, w.seen[ix[j]].time)
  }

  lemma {:induction false} NothingReportedExactly(w: Incident, n: nat, cursor: nat, previous: int, ix: seq<nat>)
    requires n + |ix| == |w.bounds| && forall j :: 0 <= j < |ix| ==> ix[j] < |w.seen|
    ensures Report(w, n, cursor, previous, ix) == [] <==>
      forall j :: 0 <= j < |ix| ==> !LateAt(w, n, previous, ix, j)
    decreases |ix|
  {
    if ix != [] {
      var m, time, rest := n + 1, w.seen[ix[0]].time, ix[1..];
      NothingReportedExactly(w, m, ix[0] + 1, time, rest);
      assert LateAt(w, n, previous, ix, 0) <==> Late(w.bounds[n], previous, time);
      forall j | 0 <= j < |rest|
        ensures LateAt(w, m, time, rest, j) <==> LateAt(w, n, previous, ix, j + 1)
      {
      }
      forall j | 0 < j < |ix|
        ensures LateAt(w, n, previous, ix, j) <==> LateAt(w, m, time, rest, j - 1)
      {
      }
    }
  }

  // Nothing is reported exactly when the scan takes a punctual choice for all steps.
  lemma NoFindingsMeansPunctualScan(mode: Mode, w: Incident)
    ensures Findings(mode, w) == [] <==> |Scan(mode, w)| == |w.bounds| && Punctual(w, Scan(mode, w))
  {
    var ix := Scan(mode, w);
    AllMatchedMeansAllTaken(mode, w);
    if |ix| == |w.bounds| {
      NothingReportedExactly(w, 0, 0, 0, ix);
      assert forall j :: 0 < j < |ix| ==>
        (LateAt(w, 0, 0, ix, j) <==> Late(w.bounds[j], w.seen[ix[j - 1]].time, w.seen[ix[j]].time));
    }
  }

  // Nothing is reported exactly when the earliest admissible choice is punctual.
  lemma NoFindingsExactly(mode: Mode, w: Incident)
    ensures Findings(mode, w) == [] <==> exists ix :: Earliest(mode, w, ix) && Punctual(w, ix)
  {
    NoFindingsMeansPunctualScan(mode, w);
    MatchedExactly(mode, w);
    AllMatchedMeansAllTaken(mode, w);
    forall ix | Earliest(mode, w, ix)
      ensures ix == Scan(mode, w)
    {
      NoLaterAntisymmetric(ix, Scan(mode, w));
    }
  }

  // ---------------------------------------------------------------- mode by mode

  // Without correlation: no step is reported missing exactly when the steps can be
  // embedded in the observations at all.
  lemma UncorrelatedIsComplete(w: Incident)
    ensures AllMatched(Findings(Uncorrelated, w)) <==> exists ix :: Embeds(w, ix)
  {
    MatchedExactly(Uncorrelated, w);
    assert forall ix :: Embeds(w, ix) ==> Admissible(Uncorrelated, w, ix);
  }

  // And the observations it takes are, step by step, the earliest of all embeddings.
  lemma UncorrelatedTakesEarliest(w: Incident, other: seq<nat>)
    requires Embeds(w, other)
    ensures var ix := Scan(Uncorrelated, w);
      Embeds(w, ix) && forall j :: 0 <= j < |ix| ==> ix[j] <= other[j]
  {
    assert Admissible(Uncorrelated, w, other);
    ScanIsEarliest(Uncorrelated, w, other);
    ScanEmbeds(Uncorrelated, w);
  }

  // The correlation that the first step binds: that of the first observation it
  // matches that carries any.
  function FirstBinding(w: Incident): Option<string> {
    if |w.bounds| == 0 then None
    else match FirstTaken(Required, "", w, 0, 0)
      case None => None
      case Some(i) => Some(w.seen[i].correlation)
  }

  lemma FirstStepBinds(w: Incident)
    ensures Binding(Required, w, 0, 0) == match FirstBinding(w) case None => "" case Some(c) => c
    ensures FirstBinding(w).Some? ==> FirstBinding(w).value != ""
  {
    if FirstBinding(w).Some? {
      var i := FirstTaken(Required, "", w, 0, 0).value;
      assert CanTake(Required, "", w, 0, i);
    }
  }

  // With correlation required: no step is reported missing exactly when the steps can
  // be embedded in observations that all carry the correlation the first step binds.
  lemma RequiredCompleteForFirstBinding(w: Incident)
    requires |w.bounds| > 0
    ensures AllMatched(Findings(Required, w)) <==>
      FirstBinding(w).Some? &&
      exists ix :: Embeds(w, ix) && AllCorrelated(w, ix, FirstBinding(w).value)
  {
    MatchedExactly(Required, w);
    FirstStepBinds(w);
    var bound := Binding(Required, w, 0, 0);
    forall ix | Embeds(w, ix)
      ensures Admissible(Required, w, ix) <==> bound != "" && AllCorrelated(w, ix, bound)
    {
      assert ix[0] < |w.seen|;
    }
  }

  // Two steps, three observations: the first step fits the first two, which carry "1" and
  // "2", the second step fits the third, which carries "2".
  ghost predicate AbandonedAttempt(w: Incident) {
    && w.bounds == [0, 0] && w.seen == [Seen("1", 1), Seen("2", 2), Seen("2", 3)]
    && w.fits(0, 0) && w.fits(0, 1) && !w.fits(0, 2)
    && !w.fits(1, 0) && !w.fits(1, 1) && w.fits(1, 2)
  }

  lemma AbandonedEmbeddings(w: Incident, ix: seq<nat>)
    requires AbandonedAttempt(w)
    ensures Embeds(w, [1, 2]) && AllCorrelated(w, [1, 2], "2")
    ensures Embeds(w, ix) ==> w.seen[ix[1]].correlation == "2"
  {
    assert w.seen[1] == Seen("2", 2) && w.seen[2] == Seen("2", 3);
    if Embeds(w, ix) {
      assert w.fits(1, ix[1]);
      assert ix[1] == 2;
    }
  }

  // It is not complete for every correlation: an earlier, abandoned attempt of the
  // first step hides a later complete one.
  lemma AbandonedAttemptHidesCompleteOne(w: Incident)
    requires AbandonedAttempt(w)
    ensures Embeds(w, [1, 2]) && AllCorrelated(w, [1, 2], "2")
    ensures !AllMatched(Findings(Required, w))
  {
    AbandonedEmbeddings(w, []);
    RequiredCompleteForFirstBinding(w);
    assert CanTake(Required, "", w, 0, 0);
    forall ix | Embeds(w, ix)
      ensures !AllCorrelated(w, ix, "1")
    {
      AbandonedEmbeddings(w, ix);
    }
  }

  // With correlation preferred: no step is reported missing exactly when the steps can be
  // embedded in observations that carry no correlation or the one that the scan binds.
  lemma PreferCompleteForBinding(w: Incident)
    ensures AllMatched(Findings(Prefer, w)) <==>
      exists ix :: Embeds(w, ix) && forall j :: 0 <= j < |ix| ==>
        var c := w.seen[ix[j]].correlation; c == "" || c == Binding(Prefer, w, 0, 0)
  {
    MatchedExactly(Prefer, w);
    forall ix | Embeds(w, ix)
      ensures Admissible(Prefer, w, ix) <==> forall j :: 0 <= j < |ix| ==>
        var c := w.seen[ix[j]].correlation; c == "" || c == Binding(Prefer, w, 0, 0)
    {
    }
  }

  // So preferring a correlation hides the complete attempt as requiring one does.
  lemma PreferHidesCompleteOne(w: Incident)
    requires AbandonedAttempt(w)
    ensures Embeds(w, [1, 2]) && AllCorrelated(w, [1, 2], "2")
    ensures !AllMatched(Findings(Prefer, w))
  {
    AbandonedEmbeddings(w, []);
    PreferCompleteForBinding(w);
    assert CanTake(Prefer, "", w, 0, 0);
    assert Binding(Prefer, w, 0, 0) == "1";
    forall ix | Embeds(w, ix)
      ensures exists j :: 0 <= j < |ix| && w.seen[ix[j]].correlation != "" && w.seen[ix[j]].correlation != "1"
    {
      AbandonedEmbeddings(w, ix);
    }
  }

  // And whatever it takes, complete or not, never carries two different correlations.
  lemma PreferNeverMixes(w: Incident)
    ensures forall i :: i in Scan(Prefer, w) ==>
      var c := w.seen[i].correlation; c == "" || c == Binding(Prefer, w, 0, 0)
  {
    TakenCarries(Prefer, w, 0, 0, "");
  }

  // ---------------------------------------------------------------- timing

  ghost predicate OnTime(w: Incident, ix: seq<nat>)
    requires |ix| == |w.bounds| && forall j :: 0 <= j < |ix| ==> ix[j] < |w.seen|
  {
    forall j :: 0 < j < |ix| && 0 < w.bounds[j] < MAX_DURATION ==>
      w.seen[ix[j]].time - w.seen[ix[j - 1]].time <= w.bounds[j]
  }

  // With times set, punctual choices keep every bound that a 64-bit duration can exceed.
  lemma PunctualIsOnTime(w: Incident, ix: seq<nat>)
    requires |ix| == |w.bounds| && forall j :: 0 <= j < |ix| ==> ix[j] < |w.seen|
    requires forall o :: o in w.seen ==> o.time != 0
    ensures Punctual(w, ix) <==> OnTime(w, ix)
  {
    forall j | 0 < j < |ix|
      ensures Late(w.bounds[j], w.seen[ix[j - 1]].time, w.seen[ix[j]].time) <==>
        0 < w.bounds[j] < MAX_DURATION && w.seen[ix[j]].time - w.seen[ix[j - 1]].time > w.bounds[j]
    {
      assert w.seen[ix[j - 1]] in w.seen;
    }
  }

  // No findings, correlation required: the workflow really happened. There is one
  // non-empty correlation, an embedding carrying it, and every bounded gap is kept.
  lemma RequiredIsSound(w: Incident) returns (c: string, ix: seq<nat>)
    requires |w.bounds| > 0 && Findings(Required, w) == []
    requires forall o :: o in w.seen ==> o.time != 0
    ensures c != "" && Embeds(w, ix) && AllCorrelated(w, ix, c) && Punctual(w, ix) && OnTime(w, ix)
  {
    NoFindingsExactly(Required, w);
    ix :| Earliest(Required, w, ix) && Punctual(w, ix);
    c := Binding(Required, w, 0, 0);
    assert ix[0] < |w.seen|;
    PunctualIsOnTime(w, ix);
  }

  // Two steps, the second to follow within 5: the first step fits the observations at
  // times 1 and 10, the second the one at 12.
  ghost predicate Retried(w: Incident) {
    && w.bounds == [0, 5] && w.seen == [Seen("", 1), Seen("", 10), Seen("", 12)]
    && w.fits(0, 0) && w.fits(0, 1) && !w.fits(0, 2)
    && !w.fits(1, 0) && !w.fits(1, 1) && w.fits(1, 2)
  }

  lemma RetriedTakesFirst(w: Incident)
    requires Retried(w)
    ensures Scan(Uncorrelated, w) == [0, 2]
  {
    assert Embeds(w, [0, 2]);
    UncorrelatedTakesEarliest(w, [0, 2]);
    assert w.fits(1, Scan(Uncorrelated, w)[1]);
  }

  // A later choice may be on time where the earliest is not; it is reported all the same.
  lemma RetryRaisesFalseAlarm(w: Incident)
    requires Retried(w)
    ensures Embeds(w, [1, 2]) && OnTime(w, [1, 2])
    ensures Findings(Uncorrelated, w) != []
  {
    assert Findings(Uncorrelated, w) != [] by {
      RetriedTakesFirst(w);
      TimingDriftExactly(Uncorrelated, w, 1);
      assert w.seen[0] == Seen("", 1) && w.seen[2] == Seen("", 12);
    }
    assert w.seen[1] == Seen("", 10) && w.seen[2] == Seen("", 12);
  }

  // The bounds of the steps after the first, up to step n.
  function TotalBound(w: Incident, n: nat): nat
    requires n < |w.bounds|
  {
    if n == 0 then 0 else TotalBound(w, n - 1) + w.bounds[n]
  }

  // When every step after the first is bounded, getting to any step takes no longer
  // than the bounds on the way together.
  lemma {:induction false} EndToEndBound(w: Incident, ix: seq<nat>, n: nat)
    requires |ix| == |w.bounds| > n && forall j :: 0 <= j < |ix| ==> ix[j] < |w.seen|
    requires OnTime(w, ix) && forall j :: 0 < j < |w.bounds| ==> 0 < w.bounds[j] < MAX_DURATION
    ensures w.seen[ix[n]].time - w.seen[ix[0]].time <= TotalBound(w, n)
  {
    if n > 0 {
      EndToEndBound(w, ix, n - 1);
    }
  }
}
