// heal.ambiguityCount decides whether a proposed matcher may be written: it replays
// every recorded request against the whole log and counts those whose matching events
// answer differently. Shown here: zero is exactly what makes replay independent of
// interleaving, whatever the match relation.

module Healing {
  import opened Wrappers
  import opened Allocation
  import opened StubProxy

  // A log as the healer sees it: which event matches which request, the request that
  // replays each event, and the fingerprint of each captured response.
  datatype Log<!E, !R, F> = Log(
    events: seq<E>,
    accepts: (E, R) -> bool,
    recorded: E -> Option<R>,
    fingerprint: E -> F)

  predicate SameAnswer<E(!new), R, F(==)>(log: Log<E, R, F>, x: E, y: E) {
    log.fingerprint(x) == log.fingerprint(y)
  }

  // Two events that match one recorded request answer it differently.
  ghost predicate Ambiguous<E(!new), R, F>(log: Log<E, R, F>, e: E) {
    log.recorded(e).Some? &&
    exists x, y :: x in log.events && y in log.events
      && log.accepts(x, log.recorded(e).value) && log.accepts(y, log.recorded(e).value) && !SameAnswer(log, x, y)
  }

  ghost function AmbiguousAmong<E(!new), R, F>(log: Log<E, R, F>, n: nat): nat
    requires n <= |log.events|
  {
    if n == 0 then 0
    else AmbiguousAmong(log, n - 1) + if Ambiguous(log, log.events[n - 1]) then 1 else 0
  }

  // heal.equivalentResponses.
  method EquivalentResponses<E(!new), R, F(==)>(log: Log<E, R, F>, matching: seq<E>) returns (same: bool)
    ensures same <==> forall x, y :: x in matching && y in matching ==> SameAnswer(log, x, y)
  {
    if |matching| < 2 {
      return true;
    }
    var first := log.fingerprint(matching[0]);
    for n := 1 to |matching|
      invariant forall i :: 0 <= i < n ==> SameAnswer(log, matching[i], matching[0])
    {
      if log.fingerprint(matching[n]) != first {
        assert !SameAnswer(log, matching[n], matching[0]);
        return false;
      }
    }
    return true;
  }

  // heal.ambiguityCount.
  method AmbiguityCount<E(!new), R, F(==)>(log: Log<E, R, F>) returns (ambiguities: nat)
    ensures ambiguities == AmbiguousAmong(log, |log.events|)
  {
    ambiguities := 0;
    for n := 0 to |log.events|
      invariant ambiguities == AmbiguousAmong(log, n)
    {
      var e := log.events[n];
      var request := log.recorded(e);
      if request.None? {
        continue;
      }
      var matching: seq<E> := [];
      for m := 0 to |log.events|
        invariant forall x :: x in matching <==> x in log.events[..m] && log.accepts(x, request.value)
      {
        assert log.events[..m + 1] == log.events[..m] + [log.events[m]];
        if log.accepts(log.events[m], request.value) {
          matching := matching + [log.events[m]];
        }
      }
      assert log.events[..|log.events|] == log.events;
      var equivalent := EquivalentResponses(log, matching);
      assert equivalent <==> !Ambiguous(log, e);
      if |matching| <= 1 || equivalent {
        continue;
      }
      ambiguities := ambiguities + 1;
    }
  }

  lemma {:induction false} NoneAmbiguous<E(!new), R, F>(log: Log<E, R, F>, n: nat)
    requires n <= |log.events|
    ensures AmbiguousAmong(log, n) == 0 <==> forall i :: 0 <= i < n ==> !Ambiguous(log, log.events[i])
  {
    if n > 0 {
      NoneAmbiguous(log, n - 1);
    }
  }

  // A run over recorded requests: any of them, in any order, any number of times.
  ghost predicate OverRecorded<E(!new), R, F>(log: Log<E, R, F>, reqs: seq<R>) {
    forall r :: r in reqs ==> exists e :: e in log.events && log.recorded(e) == Some(r)
  }

  function Run<E(!new), R(!new), F>(log: Log<E, R, F>, multiplier: nat, reqs: seq<R>): (os: seq<Option<nat>>)
    ensures |os| == |reqs|
  {
    var b := BookOf(log.events, log.accepts, multiplier);
    Outcomes(b, Fresh(b.size), reqs)
  }

  // Whenever one request is answered twice from the log, it gets the same response.
  ghost predicate Steady<E(!new), R(!new), F>(log: Log<E, R, F>, multiplier: nat, reqs: seq<R>) {
    var os := Run(log, multiplier, reqs);
    forall s, t :: 0 <= s < |reqs| && 0 <= t < |reqs| && reqs[s] == reqs[t] && os[s].Some? && os[t].Some? ==>
      && os[s].value < |log.events| && os[t].value < |log.events|
      && SameAnswer(log, log.events[os[s].value], log.events[os[t].value])
  }

  // An event that answers a request matches it.
  lemma ServedIsAccepted<E(!new), R(!new), F>(log: Log<E, R, F>, multiplier: nat, reqs: seq<R>, s: nat)
    requires s < |reqs| && Run(log, multiplier, reqs)[s].Some?
    ensures var i := Run(log, multiplier, reqs)[s].value;
      i < |log.events| && log.events[i] in log.events && log.accepts(log.events[i], reqs[s])
  {
    var b := BookOf(log.events, log.accepts, multiplier);
    OutcomeAt(b, Fresh(b.size), reqs, s);
  }

  lemma UnambiguousRunsAreSteady<E(!new), R(!new), F>(log: Log<E, R, F>, multiplier: nat, reqs: seq<R>)
    requires AmbiguousAmong(log, |log.events|) == 0 && OverRecorded(log, reqs)
    ensures Steady(log, multiplier, reqs)
  {
    NoneAmbiguous(log, |log.events|);
    var os := Run(log, multiplier, reqs);
    forall s, t | 0 <= s < |reqs| && 0 <= t < |reqs| && reqs[s] == reqs[t] && os[s].Some? && os[t].Some?
      ensures os[s].value < |log.events| && os[t].value < |log.events|
      ensures SameAnswer(log, log.events[os[s].value], log.events[os[t].value])
    {
      ServedIsAccepted(log, multiplier, reqs, s);
      ServedIsAccepted(log, multiplier, reqs, t);
      var e :| e in log.events && log.recorded(e) == Some(reqs[s]);
      assert !Ambiguous(log, e);
    }
  }

  function Repeated<R>(r: R, n: nat): (s: seq<R>)
    ensures |s| == n && forall i :: 0 <= i < n ==> s[i] == r
  {
    seq(n, _ => r)
  }

  lemma {:induction false} PeersOfRepeated<R>(b: Book<R>, r: R, reqs: seq<R>)
    requires forall i :: 0 <= i < |reqs| ==> reqs[i] == r
    ensures Peers(b, reqs, r) == |reqs|
    decreases |reqs|
  {
    if reqs != [] {
      PeersOfRepeated(b, r, reqs[..|reqs| - 1]);
    }
  }

  // One request repeated often enough is answered by each of its events in turn.
  lemma RepeatingVisitsTheClass<E(!new), R(!new), F>(log: Log<E, R, F>, r: R, c: nat)
    requires c < |Class(BookOf(log.events, log.accepts, 1), r)|
    ensures Run(log, 1, Repeated(r, |log.events| + 1))[c] == Some(Class(BookOf(log.events, log.accepts, 1), r)[c])
  {
    var b := BookOf(log.events, log.accepts, 1);
    var reqs := Repeated(r, |log.events| + 1);
    ClassFIFO(b, reqs, c);
    PeersOfRepeated(b, r, reqs[..c]);
  }

  // Which turn of the repeated request reaches a given accepting event.
  lemma TurnOf<E(!new), R(!new), F>(log: Log<E, R, F>, r: R, x: E) returns (t: nat)
    requires x in log.events && log.accepts(x, r)
    ensures t < |log.events|
    ensures var o := Run(log, 1, Repeated(r, |log.events| + 1))[t];
      o.Some? && o.value < |log.events| && log.events[o.value] == x
  {
    var b := BookOf(log.events, log.accepts, 1);
    var i :| 0 <= i < |log.events| && log.events[i] == x;
    assert i in Class(b, r);
    t :| 0 <= t < |Class(b, r)| && Class(b, r)[t] == i;
    RepeatingVisitsTheClass(log, r, t);
  }

  lemma AmbiguousRunIsUnsteady<E(!new), R(!new), F>(log: Log<E, R, F>, e: E)
    requires e in log.events && Ambiguous(log, e)
    ensures var reqs := Repeated(log.recorded(e).value, |log.events| + 1);
      OverRecorded(log, reqs) && !Steady(log, 1, reqs)
  {
    var r := log.recorded(e).value;
    var x, y :| x in log.events && y in log.events && log.accepts(x, r) && log.accepts(y, r) && !SameAnswer(log, x, y);
    var s := TurnOf(log, r, x);
    var t := TurnOf(log, r, y);
    var reqs := Repeated(r, |log.events| + 1);
    assert reqs[s] == reqs[t];
  }

  // The count is zero exactly when no run over recorded requests, with any number of
  // uses per event, can ever answer one request in two ways.
  lemma ZeroAmbiguityExactly<E(!new), R(!new), F>(log: Log<E, R, F>)
    ensures AmbiguousAmong(log, |log.events|) == 0 <==>
      forall multiplier: nat, reqs :: OverRecorded(log, reqs) ==> Steady(log, multiplier, reqs)
  {
    NoneAmbiguous(log, |log.events|);
    if AmbiguousAmong(log, |log.events|) == 0 {
      forall multiplier: nat, reqs | OverRecorded(log, reqs)
        ensures Steady(log, multiplier, reqs)
      {
        UnambiguousRunsAreSteady(log, multiplier, reqs);
      }
    } else {
      var i :| 0 <= i < |log.events| && Ambiguous(log, log.events[i]);
      AmbiguousRunIsUnsteady(log, log.events[i]);
    }
  }

  // The count is the number of ambiguous positions in the log.
  lemma {:induction false} AmbiguousAmongExactly<E(!new), R, F>(log: Log<E, R, F>, n: nat)
    requires n <= |log.events|
    ensures AmbiguousAmong(log, n) == |set i: nat | i < n && Ambiguous(log, log.events[i])|
  {
    var all := set i: nat | i < n && Ambiguous(log, log.events[i]);
    if n > 0 {
      AmbiguousAmongExactly(log, n - 1);
      var before := set i: nat | i < n - 1 && Ambiguous(log, log.events[i]);
      if Ambiguous(log, log.events[n - 1]) {
        assert all == before + {n - 1};
      } else {
        assert all == before;
      }
    } else {
      assert all == {};
    }
  }
}
