// workflow.VerifyIncident for one workflow: the loops over declared steps and sorted
// observations, proved to report what the greedy scan of Greedy.dfy finds.

module Workflow {
  import opened Wrappers
  import opened Text
  import opened Greedy

  // A zero timestamp is the zero time.
  datatype Observed = Observed(
    protocol: string, direction: string, method_: string, path: string,
    grpcMethod: string, topic: string, correlation: string, timestamp: int)

  // max == 0 means the step has no timing bound.
  datatype Step = Step(
    protocol: string, direction: string, method_: string, pathRegex: Option<string -> bool>,
    grpcMethod: string, topic: string, max: nat)

  predicate Matches(cases: Cases, step: Step, candidate: Observed) {
    && candidate.protocol == step.protocol
    && (step.direction != "" ==> candidate.direction == step.direction)
    && (step.method_ != "" ==> EqualFold(cases, candidate.method_, step.method_))
    && (step.pathRegex.Some? ==> step.pathRegex.value(candidate.path))
    && (step.grpcMethod != "" ==> candidate.grpcMethod == step.grpcMethod)
    && (step.topic == "" || candidate.topic == step.topic)
  }

  // What the scan needs to know of the steps and the observations.
  function IncidentOf(cases: Cases, steps: seq<Step>, obs: seq<Observed>): (w: Incident)
    ensures |w.bounds| == |steps| && |w.seen| == |obs|
    ensures forall n :: 0 <= n < |steps| ==> w.bounds[n] == steps[n].max
    ensures forall i :: 0 <= i < |obs| ==> w.seen[i] == Seen(obs[i].correlation, obs[i].timestamp)
    ensures forall n: nat, i: nat :: w.fits(n, i) <==> n < |steps| && i < |obs| && Matches(cases, steps[n], obs[i])
  {
    Incident(
      seq(|steps|, n requires 0 <= n < |steps| => steps[n].max),
      seq(|obs|, i requires 0 <= i < |obs| => Seen(obs[i].correlation, obs[i].timestamp)),
      (n: nat, i: nat) => n < |steps| && i < |obs| && Matches(cases, steps[n], obs[i]))
  }

  // The candidate loop of one step.
  method FindStep(cases: Cases, mode: Mode, correlation: string, steps: seq<Step>, n: nat, obs: seq<Observed>,
                  cursor: nat,
                  ghost w: Incident)
    returns (matchedIndex: int)
    requires n < |steps| && cursor <= |obs| && w == IncidentOf(cases, steps, obs)
    ensures matchedIndex >= -1
    ensures FirstTaken(mode, correlation, w, n, cursor) == if matchedIndex < 0 then None else Some(matchedIndex)
  {
    var expected := steps[n];
    for index := cursor to |obs|
      invariant FirstTaken(mode, correlation, w, n, cursor) == FirstTaken(mode, correlation, w, n, index)
    {
      var candidate := obs[index];
      assert w.fits(n, index) <==> Matches(cases, expected, candidate);
      if !Matches(cases, expected, candidate) {
        continue;
      }
      if mode.Required? {
        if candidate.correlation == "" {
          continue;
        }
        if correlation != "" && candidate.correlation != correlation {
          continue;
        }
      }
      if mode.Prefer? && correlation != "" && candidate.correlation != "" && candidate.correlation != correlation {
        continue;
      }
      return index;
    }
    return -1;
  }

  // The timing check of one matched step.
  method CheckTiming(findings: seq<Finding>, n: nat, expected: Step, index: nat, matched: Observed, previous: int)
    returns (after: seq<Finding>)
    ensures after ==
      if Late(expected.max, previous, matched.timestamp) then findings + [TimingDrift(n, index)] else findings
  {
    after := findings;
    if previous != 0 && expected.max > 0 && Sub(matched.timestamp, previous) > expected.max {
      after := after + [TimingDrift(n, index)];
    }
  }

  // One observation for every step, strictly in order, each as its step declares it: the
  // protocol; direction, gRPC method and topic where given; the method up to case where
  // given; and a path that the step's expression, if any, accepts.
  ghost predicate Happened(cases: Cases, steps: seq<Step>, obs: seq<Observed>, ix: seq<nat>) {
    && |ix| == |steps|
    && (forall j, k :: 0 <= j < k < |ix| ==> ix[j] < ix[k])
    && (forall j :: 0 <= j < |ix| ==> ix[j] < |obs| && obs[ix[j]].protocol == steps[j].protocol)
    && (forall j :: 0 <= j < |ix| ==> steps[j].direction in {"", obs[ix[j]].direction})
    && (forall j :: 0 <= j < |ix| ==> steps[j].method_ == "" || EqualFold(cases, obs[ix[j]].method_, steps[j].method_))
    && (forall j :: 0 <= j < |ix| ==> steps[j].pathRegex.None? || steps[j].pathRegex.value(obs[ix[j]].path))
    && (forall j :: 0 <= j < |ix| ==> steps[j].grpcMethod in {"", obs[ix[j]].grpcMethod})
    && (forall j :: 0 <= j < |ix| ==> steps[j].topic in {"", obs[ix[j]].topic})
  }

  lemma EmbeddingHappened(cases: Cases, steps: seq<Step>, obs: seq<Observed>, ix: seq<nat>)
    ensures Embeds(IncidentOf(cases, steps, obs), ix) <==> Happened(cases, steps, obs, ix)
  {
    var w := IncidentOf(cases, steps, obs);
    if |ix| == |steps| {
      forall j | 0 <= j < |ix| && ix[j] < |obs|
        ensures w.fits(j, ix[j]) <==> Matches(cases, steps[j], obs[ix[j]])
      {
      }
    }
  }

  // What the findings say about the observations. In every mode, when no step is missing
  // the workflow happened; without correlation the converse holds too.
  lemma FindingsMean(cases: Cases, mode: Mode, steps: seq<Step>, obs: seq<Observed>)
    ensures AllMatched(Findings(mode, IncidentOf(cases, steps, obs))) ==> exists ix :: Happened(cases, steps, obs, ix)
    ensures mode.Uncorrelated? ==>
      (AllMatched(Findings(mode, IncidentOf(cases, steps, obs))) <==> exists ix :: Happened(cases, steps, obs, ix))
  {
    var w := IncidentOf(cases, steps, obs);
    MatchedExactly(mode, w);
    UncorrelatedIsComplete(w);
    forall ix: seq<nat>
      ensures Embeds(w, ix) <==> Happened(cases, steps, obs, ix)
    {
      EmbeddingHappened(cases, steps, obs, ix);
    }
  }

  // Where the step loop stands: the variables it carries from step to step.
  datatype Standing = Standing(cursor: nat, correlation: string, previous: int, findings: seq<Finding>)

  // What the loop will have found in the end.
  ghost function Outcome(mode: Mode, w: Incident, n: nat, at: Standing): seq<Finding>
    requires n <= |w.bounds| && at.cursor <= |w.seen|
  {
    at.findings + Remaining(mode, w, n, at.cursor, at.correlation, at.previous)
  }

  // The body of the step loop, once an observation has been matched.
  method Advance(ghost mode: Mode, ghost w: Incident, n: nat, expected: Step, index: nat, matched: Observed,
                 at: Standing)
    returns (after: Standing)
    requires n < |w.bounds| && w.bounds[n] == expected.max && at.cursor <= |w.seen|
    requires FirstTaken(mode, at.correlation, w, n, at.cursor) == Some(index)
    requires w.seen[index] == Seen(matched.correlation, matched.timestamp)
    ensures after.cursor <= |w.seen| && Outcome(mode, w, n + 1, after) == Outcome(mode, w, n, at)
  {
    var findings := CheckTiming(at.findings, n, expected, index, matched, at.previous);
    Turn(mode, w, n, at.cursor, at.correlation, at.previous, index, at.findings, findings);
    var correlation := at.correlation;
    if correlation == "" && matched.correlation != "" {
      correlation := matched.correlation;
    }
    assert correlation == Bind(at.correlation, w.seen[index]);
    after := Standing(index + 1, correlation, matched.timestamp, findings);
  }

  // The step loop of VerifyIncident.
  method VerifyWorkflow(cases: Cases, mode: Mode, steps: seq<Step>, obs: seq<Observed>) returns (findings: seq<Finding>)
    ensures findings == Findings(mode, IncidentOf(cases, steps, obs))
    ensures AllMatched(findings) ==> exists ix :: Happened(cases, steps, obs, ix)
    ensures mode.Uncorrelated? ==> (AllMatched(findings) <==> exists ix :: Happened(cases, steps, obs, ix))
  {
    findings := ScanSteps(cases, mode, steps, obs);
    FindingsMean(cases, mode, steps, obs);
  }

  method ScanSteps(cases: Cases, mode: Mode, steps: seq<Step>, obs: seq<Observed>) returns (findings: seq<Finding>)
    ensures findings == Findings(mode, IncidentOf(cases, steps, obs))
  {
    ghost var w := IncidentOf(cases, steps, obs);
    var at := Standing(0, "", 0, []);
    for n := 0 to |steps|
      invariant at.cursor <= |obs| && Outcome(mode, w, n, at) == Findings(mode, w)
    {
      var matchedIndex := FindStep(cases, mode, at.correlation, steps, n, obs, at.cursor, w);
      if matchedIndex < 0 {
        NothingTaken(mode, w, n, at.cursor, at.correlation, at.previous);
        return at.findings + [MissingStep(n, at.cursor)];
      }
      at := Advance(mode, w, n, steps[n], matchedIndex, obs[matchedIndex], at);
    }
    assert at.findings + [] == at.findings;
    return at.findings;
  }

  // ---------------------------------------------------------------- inputs the verifier misreads

  function OnTopic(topic: string, max: nat): Step {
    Step("kafka", "outbound", "", None, "", topic, max)
  }

  function Produced(topic: string, correlation: string, timestamp: int): Observed {
    Observed("kafka", "outbound", "", "", "", topic, correlation, timestamp)
  }

  // Order 1 is abandoned, order 2 is paid.
  const ORDER_STEPS := [OnTopic("order", 0), OnTopic("paid", 0)]
  const ORDERS := [Produced("order", "1", 1), Produced("order", "2", 2), Produced("paid", "2", 3)]

  lemma OrdersAreAbandonedAttempt(cases: Cases)
    ensures AbandonedAttempt(IncidentOf(cases, ORDER_STEPS, ORDERS))
  {
    var w := IncidentOf(cases, ORDER_STEPS, ORDERS);
    assert w.bounds == [0, 0];
    assert w.seen == [Seen("1", 1), Seen("2", 2), Seen("2", 3)];
  }

  // Requiring or preferring correlation reports the payment of order 2 missing; without
  // correlation nothing is missing.
  lemma PaidOrderIsReportedMissing(cases: Cases)
    ensures var w := IncidentOf(cases, ORDER_STEPS, ORDERS);
      && Embeds(w, [1, 2]) && AllCorrelated(w, [1, 2], "2")
      && !AllMatched(Findings(Required, w)) && !AllMatched(Findings(Prefer, w)) && AllMatched(Findings(Uncorrelated, w))
  {
    var w := IncidentOf(cases, ORDER_STEPS, ORDERS);
    OrdersAreAbandonedAttempt(cases);
    AbandonedAttemptHidesCompleteOne(w);
    PreferHidesCompleteOne(w);
    UncorrelatedIsComplete(w);
  }

  // A request is retried; the answer follows the retry within its bound.
  const REQUEST_STEPS := [OnTopic("request", 0), OnTopic("answer", 5)]
  const REQUESTS := [Produced("request", "", 1), Produced("request", "", 10), Produced("answer", "", 12)]

  lemma RequestsAreRetried(cases: Cases)
    ensures Retried(IncidentOf(cases, REQUEST_STEPS, REQUESTS))
  {
    var w := IncidentOf(cases, REQUEST_STEPS, REQUESTS);
    assert w.bounds == [0, 5];
    assert w.seen == [Seen("", 1), Seen("", 10), Seen("", 12)];
  }

  lemma PromptAnswerIsReportedLate(cases: Cases)
    ensures var w := IncidentOf(cases, REQUEST_STEPS, REQUESTS);
      Embeds(w, [1, 2]) && OnTime(w, [1, 2]) && Findings(Uncorrelated, w) != []
  {
    RequestsAreRetried(cases);
    RetryRaisesFalseAlarm(IncidentOf(cases, REQUEST_STEPS, REQUESTS));
  }
}
