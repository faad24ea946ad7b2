// A schedule of concurrent requests carried out on the stub itself: each arrival takes a
// ticket, each match asks the captured events. It is shown to do what the state machine
// of Fanout.dfy does, so the fanout theorems are theorems about the stub.

module Schedule {
  import opened Wrappers
  import opened Allocation
  import opened StubProxy
  import opened Fanout
  import EM = ExactMatch

  // The requests admitted and not yet matched, each with its ticket.
  datatype Pending<R> = Pending(request: R, ticket: nat)

  function Requests<R>(pending: seq<Pending<R>>): (rs: seq<R>)
    ensures |rs| == |pending|
  {
    seq(|pending|, i requires 0 <= i < |pending| => pending[i].request)
  }

  lemma RequestsAppend<R>(pending: seq<Pending<R>>, p: Pending<R>)
    ensures multiset(Requests(pending + [p])) == multiset(Requests(pending)) + multiset{p.request}
  {
    assert Requests(pending + [p]) == Requests(pending) + [p.request];
  }

  lemma RequestsRemove<R>(pending: seq<Pending<R>>, k: nat)
    requires k < |pending|
    ensures multiset(Requests(pending[..k] + pending[k + 1..])) ==
      multiset(Requests(pending)) - multiset{pending[k].request}
  {
    var rs := Requests(pending);
    assert Requests(pending[..k] + pending[k + 1..]) == rs[..k] + rs[k + 1..];
    assert rs == rs[..k] + [rs[k]] + rs[k + 1..];
  }

  // The first pending request equal to r, if any.
  method FindPending<R(==)>(pending: seq<Pending<R>>, r: R) returns (k: Option<nat>)
    ensures k.Some? ==> k.value < |pending| && pending[k.value].request == r
    ensures k.None? <==> r !in multiset(Requests(pending))
  {
    for i := 0 to |pending|
      invariant forall j :: 0 <= j < i ==> pending[j].request != r
    {
      if pending[i].request == r {
        assert Requests(pending)[i] == r;
        return Some(i);
      }
    }
    return None;
  }

  function RefusedCount(answers: seq<Option<nat>>): nat {
    if answers == [] then 0
    else RefusedCount(answers[..|answers| - 1]) + if answers[|answers| - 1].None? then 1 else 0
  }

  // The stub stands where the state machine does: the same tickets, use counts and waiting
  // requests, and one divergence for every request turned away or refused.
  ghost predicate Agrees<E, R(!new)>(stub: Stub<E, R>, s: State<R>, pending: seq<Pending<R>>)
    reads stub
  {
    && stub.Valid() && stub.seen == s.seen && stub.maxSeen == s.maxSeen && stub.CurrentUses() == s.uses
    && multiset(Requests(pending)) == s.waiting
    && |stub.divergences| == s.rejected + (if stub.events == [] then 0 else RefusedCount(s.answers))
    && (stub.unexpectedOutbound <==> stub.divergences != [])
    && forall i :: 0 <= i < |pending| ==> pending[i].ticket > 0
  }

  // A request arrives.
  method Take<E, R(!new)>(stub: Stub<E, R>, r: R, ghost s: State<R>, pending: seq<Pending<R>>)
    returns (after: seq<Pending<R>>)
    requires Agrees(stub, s, pending)
    modifies stub`seen, stub`divergences, stub`unexpectedOutbound
    ensures Agrees(stub, Next(stub.Book(), s, Arrive(r)), after)
  {
    var ticket, admitted := stub.Admit();
    assert stub.CurrentUses() == s.uses;
    after := pending;
    if admitted {
      RequestsAppend(pending, Pending(r, ticket));
      after := pending + [Pending(r, ticket)];
    }
  }

  // A waiting request is matched.
  method Serve<E, R(!new)>(stub: Stub<E, R>, k: nat, ghost s: State<R>, pending: seq<Pending<R>>)
    returns (answer: Option<nat>, after: seq<Pending<R>>)
    requires Agrees(stub, s, pending) && k < |pending|
    modifies stub`eventUseCounts, stub`divergences, stub`unexpectedOutbound
    ensures pending[k].request in s.waiting
    ensures answer == old(Allot(stub.Book(), s.uses, pending[k].request))
    ensures Agrees(stub, Next(stub.Book(), s, Match(pending[k].request)), after)
  {
    var p := pending[k];
    assert Requests(pending)[k] == p.request;
    RequestsRemove(pending, k);
    after := pending[..k] + pending[k + 1..];
    answer := None;
    if |stub.events| > 0 {
      answer := stub.Answer(p.request, p.ticket);
    }
    assert (s.answers + [answer])[..|s.answers|] == s.answers;
    assert stub.CurrentUses() == Charged(s.uses, answer);
  }

  lemma AfterStep<R>(b: Book<R>, limit: nat, steps: seq<Step<R>>, n: nat, s: State<R>)
    requires n < |steps| && After(b, limit, steps[..n]) == Some(s) && Enabled(s, steps[n])
    ensures After(b, limit, steps[..n + 1]) == Some(Next(b, s, steps[n]))
  {
    assert steps[..n + 1][..n] == steps[..n] && steps[..n + 1][n] == steps[n];
  }

  // One step of a schedule that is enabled.
  method Perform<E, R(==, !new)>(stub: Stub<E, R>, step: Step<R>, ghost s: State<R>, pending: seq<Pending<R>>)
    returns (enabled: bool, answers: seq<Option<nat>>, after: seq<Pending<R>>)
    requires Agrees(stub, s, pending)
    modifies stub`seen, stub`eventUseCounts, stub`divergences, stub`unexpectedOutbound
    ensures enabled <==> Enabled(s, step)
    ensures enabled ==> var t := Next(stub.Book(), s, step); Agrees(stub, t, after) && t.answers == s.answers + answers
    ensures !enabled ==> Agrees(stub, s, pending)
  {
    enabled, answers, after := true, [], pending;
    match step {
      case Arrive(r) =>
        after := Take(stub, r, s, pending);
        assert s.answers + [] == s.answers;
      case Match(r) =>
        var k := FindPending(pending, r);
        enabled := k.Some?;
        if enabled {
          var answer;
          answer, after := Serve(stub, k.value, s, pending);
          answers := [answer];
        }
    }
  }

  // The whole schedule, up to the first step that is not enabled.
  method RunSchedule<E, R(==, !new)>(stub: Stub<E, R>, steps: seq<Step<R>>)
    returns (n: nat, answers: seq<Option<nat>>, ghost s: State<R>, ghost pending: seq<Pending<R>>)
    requires Agrees(stub, Start(stub.Book(), stub.maxSeen), [])
    modifies stub`seen, stub`eventUseCounts, stub`divergences, stub`unexpectedOutbound
    ensures n <= |steps| && After(stub.Book(), stub.maxSeen, steps[..n]) == Some(s)
    ensures n < |steps| ==> !Enabled(s, steps[n])
    ensures Agrees(stub, s, pending) && answers == s.answers
  {
    ghost var b, limit := stub.Book(), stub.maxSeen;
    var waiting: seq<Pending<R>> := [];
    n, answers, s, pending := 0, [], Start(b, limit), [];
    while n < |steps|
      invariant n <= |steps| && stub.Book() == b && stub.maxSeen == limit
      invariant After(b, limit, steps[..n]) == Some(s)
      invariant Agrees(stub, s, waiting) && answers == s.answers && pending == waiting
    {
      var enabled, more, after := Perform(stub, steps[n], s, waiting);
      if !enabled {
        return;
      }
      AfterStep(b, limit, steps, n, s);
      s, pending, waiting, answers := Next(b, s, steps[n]), after, after, answers + more;
      n := n + 1;
    }
  }

  lemma {:induction false} ArrivalsOfPrefix<R>(steps: seq<Step<R>>, n: nat)
    requires n <= |steps|
    ensures Arrivals(steps[..n]) <= Arrivals(steps)
    decreases |steps|
  {
    if n < |steps| {
      ArrivalsOfPrefix(steps[..|steps| - 1], n);
      assert steps[..|steps| - 1][..n] == steps[..n];
    } else {
      assert steps[..n] == steps;
    }
  }

  lemma PrefixIsSmaller<R>(some: seq<R>, all: seq<R>)
    requires some <= all
    ensures multiset(some) <= multiset(all)
  {
    assert all == some + all[|some|..];
  }

  lemma {:induction false} NoneRefused(answers: seq<Option<nat>>)
    requires forall t :: 0 <= t < |answers| ==> answers[t].Some?
    ensures RefusedCount(answers) == 0
  {
    if answers != [] {
      NoneRefused(answers[..|answers| - 1]);
    }
  }

  lemma {:induction false} CopiesOfNothing<R>(k: nat)
    ensures Copies<R>([], k) == []
  {
    if k > 0 {
      CopiesOfNothing<R>(k - 1);
    }
  }

  lemma NothingCopied<R>(recorded: seq<Option<R>>, k: nat, m: nat)
    requires recorded == [] || k == m
    ensures Copies(recorded, k) == Copies(recorded, m)
  {
    if recorded == [] {
      CopiesOfNothing<R>(k);
      CopiesOfNothing<R>(m);
    }
  }

  // What the fanout theorem says of a schedule that has been carried out in part.
  lemma PartialFanout(events: seq<EM.Event>, cfg: EM.Config, fanout: nat, steps: seq<Step<EM.Request>>, n: nat,
                      s: State<EM.Request>)
    requires fanout > 0 && n <= |steps|
    requires After(EM.ExactBook(events, cfg, fanout), |events| * fanout, steps[..n]) == Some(s)
    ensures multiset(Arrivals(steps)) <= multiset(Copies(EM.Recorded(events), fanout)) ==>
      s.rejected == 0 && RefusedCount(s.answers) == 0
    ensures Finished(s, steps[..n], Copies(EM.Recorded(events), fanout)) ==>
      forall i :: 0 <= i < |events| ==> s.uses[i] == if events[i].url.Some? then fanout else 0
  {
    EM.ExactFanoutNeverDiverges(events, cfg, fanout, steps[..n], s);
    ArrivalsOfPrefix(steps, n);
    PrefixIsSmaller(Arrivals(steps[..n]), Arrivals(steps));
    if multiset(Arrivals(steps)) <= multiset(Copies(EM.Recorded(events), fanout)) {
      NoneRefused(s.answers);
    }
  }

  // A fanout replay of at most fanout copies of the captured requests against their own
  // log: the stub records no divergence, in whatever order requests arrive and are
  // matched; and when all copies are in, each event with a URL has been used fanout times.
  method ReplayFanout(stub: Stub<EM.Event, EM.Request>, cfg: EM.Config, fanout: nat, steps: seq<Step<EM.Request>>)
    returns (n: nat, ghost s: State<EM.Request>)
    requires stub.Valid() && stub.accepts == EM.ExactMatcher(cfg) && fanout > 0
    modifies stub
    ensures multiset(Arrivals(steps)) <= multiset(Copies(EM.Recorded(stub.events), fanout)) ==>
      stub.divergences == [] && !stub.unexpectedOutbound
    ensures n <= |steps| && (n < |steps| ==> !Enabled(s, steps[n]))
    ensures Finished(s, steps[..n], Copies(EM.Recorded(stub.events), fanout)) ==>
      forall i :: 0 <= i < |stub.events| ==>
        stub.CurrentUses()[i] == if stub.events[i].url.Some? then fanout else 0
  {
    stub.BeginRun(fanout);
    var answers;
    ghost var pending;
    n, answers, s, pending := RunSchedule(stub, steps);
    NothingCopied(EM.Recorded(stub.events), fanout, stub.matchMultiplier);
    PartialFanout(stub.events, cfg, stub.matchMultiplier, steps, n, s);
  }
}
