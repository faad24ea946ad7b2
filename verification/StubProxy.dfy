// The dependency stub: it answers outbound requests of a replayed service from the
// captured events. Events, requests and the semantic matcher are parameters.

module StubProxy {
  import opened Wrappers
  import opened Allocation

  // How a request comes in: as CONNECT, with a body that cannot be read or is over the
  // 16 MiB limit, or ready to be answered.
  datatype Intake = Connect | Unreadable | TooLarge | Ready

  datatype Outcome =
    | Tunnelled | TunnelsDisabled | BadBody | BodyTooLarge
    | OverLimit            // more requests than the run may make
    | FromScenario         // answered by the scenario engine
    | NothingCaptured      // the log is empty
    | Refused              // no captured event matches and is still usable
    | Served(index: nat)

  datatype Divergence = UnexpectedOutboundCall(index: int) | NoMatchingCapturedCall(index: int)

  function BookOf<E, R(!new)>(events: seq<E>, accepts: (E, R) -> bool, multiplier: nat): (b: Book<R>)
    ensures b.size == |events| && b.multiplier == multiplier
    ensures forall i, r :: 0 <= i < |events| ==> b.accepts(i, r) == accepts(events[i], r)
  {
    Book(|events|, (i: nat, r: R) => i < |events| && accepts(events[i], r), multiplier)
  }

  class Stub<Event, Request(!new)> {
    const events: seq<Event>
    const accepts: (Event, Request) -> bool
    const interceptsTLS: bool
    var seen: nat
    var maxSeen: nat
    var cycleExpected: bool
    var matchMultiplier: nat
    var eventUseCounts: map<nat, nat>
    var divergences: seq<Divergence>
    var unexpectedOutbound: bool

    ghost predicate Valid()
      reads this
    {
      matchMultiplier > 0 && forall i :: i in eventUseCounts ==> i < |events|
    }

    // A missing entry of the count map reads as zero.
    function Count(i: nat): nat
      reads this
    {
      if i in eventUseCounts then eventUseCounts[i] else 0
    }

    ghost function CurrentUses(): (u: Uses)
      reads this
      ensures |u| == |events|
    {
      seq(|events|, i requires 0 <= i reads this => Count(i))
    }

    ghost function Book(): Book<Request>
      reads this
    {
      BookOf(events, accepts, matchMultiplier)
    }

    constructor (events: seq<Event>, accepts: (Event, Request) -> bool, interceptsTLS: bool)
      ensures Valid() && this.events == events && this.accepts == accepts && this.interceptsTLS == interceptsTLS
      ensures seen == 0 && maxSeen == 0 && matchMultiplier == 1 && CurrentUses() == Fresh(|events|)
      ensures divergences == [] && !unexpectedOutbound
    {
      this.events := events;
      this.accepts := accepts;
      this.interceptsTLS := interceptsTLS;
      seen, maxSeen, cycleExpected, matchMultiplier := 0, 0, false, 1;
      eventUseCounts := map[];
      divergences, unexpectedOutbound := [], false;
    }

    method Reset()
      requires Valid()
      modifies this
      ensures Valid() && seen == 0 && maxSeen == 0 && CurrentUses() == Fresh(|events|)
      ensures divergences == [] && !unexpectedOutbound
      ensures matchMultiplier == old(matchMultiplier) && cycleExpected == old(cycleExpected)
    {
      seen := 0;
      maxSeen := 0;
      divergences := [];
      unexpectedOutbound := false;
      eventUseCounts := map[];
    }

    // The multiplier becomes the least positive number of uses per event that
    // lets the whole log answer maxObserved requests.
    method ConfigureReplayCardinality(cycle: bool, maxObserved: int)
      requires Valid()
      modifies `cycleExpected, `maxSeen, `matchMultiplier
      ensures Valid() && cycleExpected == cycle && maxSeen == if maxObserved < 0 then 0 else maxObserved
      ensures !cycle || events == [] ==> matchMultiplier == 1
      ensures cycle && events != [] ==>
        maxSeen <= matchMultiplier * |events| && (matchMultiplier > 1 ==> (matchMultiplier - 1) * |events| < maxSeen)
    {
      cycleExpected := cycle;
      var limit := if maxObserved < 0 then 0 else maxObserved;
      maxSeen := limit;
      matchMultiplier := 1;
      if cycleExpected && |events| > 0 {
        matchMultiplier := (limit + |events| - 1) / |events|;
        CeilingDivision(limit, |events|);
        if matchMultiplier < 1 {
          matchMultiplier := 1;
        }
      }
    }

    // How the replay command prepares every run of a given fanout.
    method BeginRun(fanout: nat)
      requires Valid() && fanout > 0
      modifies this
      ensures Valid() && seen == 0 && CurrentUses() == Fresh(|events|)
      ensures events != [] ==> matchMultiplier == fanout
      ensures maxSeen == |events| * matchMultiplier
      ensures divergences == [] && !unexpectedOutbound
    {
      Reset();
      ConfigureReplayCardinality(fanout > 1, |events| * fanout);
      if events != [] && fanout > 1 {
        SameMultiple(matchMultiplier, fanout, |events|);
      }
    }

    // The ticket counter at the head of ServeHTTP.
    method Admit() returns (ticket: nat, admitted: bool)
      requires Valid()
      modifies `seen, `divergences, `unexpectedOutbound
      ensures Valid() && ticket == seen == old(seen) + 1
      ensures admitted <==> maxSeen == 0 || seen <= maxSeen
      ensures admitted ==> divergences == old(divergences) && unexpectedOutbound == old(unexpectedOutbound)
      ensures !admitted ==> divergences == old(divergences) + [UnexpectedOutboundCall(ticket - 1)] && unexpectedOutbound
    {
      seen := seen + 1;
      ticket := seen;
      if maxSeen > 0 && ticket > maxSeen {
        divergences := divergences + [UnexpectedOutboundCall(ticket - 1)];
        unexpectedOutbound := true;
        return ticket, false;
      }
      return ticket, true;
    }

    // The event i matches the request and may still be used.
    predicate Usable(i: nat, r: Request)
      reads this
    {
      i < |events| && accepts(events[i], r) && Count(i) < matchMultiplier
    }

    ghost predicate NoneUsable(r: Request)
      reads this
    {
      forall i :: 0 <= i < |events| ==> !Usable(i, r)
    }

    ghost predicate FirstUsable(i: nat, r: Request)
      reads this
    {
      Usable(i, r) && forall j :: 0 <= j < i ==> !Usable(j, r)
    }

    method MatchExpected(r: Request) returns (o: Option<nat>)
      requires Valid()
      modifies `eventUseCounts
      ensures Valid()
      ensures if o.Some? then old(FirstUsable(o.value, r)) else old(NoneUsable(r))
      ensures forall i :: 0 <= i < |events| ==> Count(i) == old(Count(i)) + if o == Some(i) then 1 else 0
      ensures o == Allot(Book(), old(CurrentUses()), r)
      ensures CurrentUses() == Charged(old(CurrentUses()), o)
    {
      for index := 0 to |events|
        invariant Allot(Book(), CurrentUses(), r) == FirstFree(Book(), CurrentUses(), r, index)
      {
        if !accepts(events[index], r) {
          continue;
        }
        if Count(index) >= matchMultiplier {
          continue;
        }
        ghost var before := CurrentUses();
        eventUseCounts := eventUseCounts[index := Count(index) + 1];
        assert CurrentUses() == Charged(before, Some(index));
        return Some(index);
      }
      return None;
    }

    // The part of ServeHTTP that asks the captured events; no match is a divergence.
    method Answer(r: Request, ticket: nat) returns (expected: Option<nat>)
      requires Valid() && ticket > 0
      modifies `eventUseCounts, `divergences, `unexpectedOutbound
      ensures Valid() && expected == Allot(Book(), old(CurrentUses()), r)
      ensures if expected.Some? then old(FirstUsable(expected.value, r)) else old(NoneUsable(r))
      ensures forall i :: 0 <= i < |events| ==> Count(i) == old(Count(i)) + if expected == Some(i) then 1 else 0
      ensures CurrentUses() == Charged(old(CurrentUses()), expected)
      ensures expected.Some? ==> divergences == old(divergences) && unexpectedOutbound == old(unexpectedOutbound)
      ensures expected.None? ==>
        divergences == old(divergences) + [NoMatchingCapturedCall(ticket - 1)] && unexpectedOutbound
    {
      expected := MatchExpected(r);
      if expected.None? {
        divergences := divergences + [NoMatchingCapturedCall(ticket - 1)];
        unexpectedOutbound := true;
      }
      assert CurrentUses() == Charged(old(CurrentUses()), expected);
    }

    // ServeHTTP up to the choice of the answer. Whether the scenario engine takes the
    // request is decided by that engine; it is asked only when the ticket is good.
    method ServeHTTP(intake: Intake, r: Request, scenarioMatches: bool) returns (outcome: Outcome)
      requires Valid()
      modifies this
      ensures Valid() && maxSeen == old(maxSeen) && matchMultiplier == old(matchMultiplier)
      ensures seen == if intake.Ready? then old(seen) + 1 else old(seen)
      ensures outcome.Tunnelled? <==> intake.Connect? && interceptsTLS
      ensures outcome.TunnelsDisabled? <==> intake.Connect? && !interceptsTLS
      ensures outcome.BadBody? <==> intake.Unreadable?
      ensures outcome.BodyTooLarge? <==> intake.TooLarge?
      ensures outcome.OverLimit? <==> intake.Ready? && maxSeen > 0 && old(seen) + 1 > maxSeen
      ensures outcome.FromScenario? <==> intake.Ready? && !outcome.OverLimit? && scenarioMatches
      ensures outcome.NothingCaptured? <==>
        intake.Ready? && !outcome.OverLimit? && !scenarioMatches && events == []
      ensures outcome.Refused? || outcome.Served? <==>
        intake.Ready? && !outcome.OverLimit? && !scenarioMatches && events != []
      ensures outcome.Refused? ==> old(NoneUsable(r))
      ensures outcome.Served? ==> old(FirstUsable(outcome.index, r))
      ensures forall i :: 0 <= i < |events| ==>
        Count(i) == old(Count(i)) + if outcome == Served(i) then 1 else 0
      ensures CurrentUses() ==
        if outcome.Served? then Charged(old(CurrentUses()), Some(outcome.index)) else old(CurrentUses())
      ensures divergences == old(divergences) +
        if outcome.OverLimit? then [UnexpectedOutboundCall(seen - 1)]
        else if outcome.Refused? then [NoMatchingCapturedCall(seen - 1)]
        else []
      ensures unexpectedOutbound == (old(unexpectedOutbound) || outcome.OverLimit? || outcome.Refused?)
    {
      match intake
      case Connect =>
        return if interceptsTLS then Tunnelled else TunnelsDisabled;
      case Unreadable =>
        return BadBody;
      case TooLarge =>
        return BodyTooLarge;
      case Ready =>
        var ticket, admitted := Admit();
        assert CurrentUses() == old(CurrentUses());
        if !admitted {
          return OverLimit;
        }
        if scenarioMatches {
          return FromScenario;
        }
        if |events| == 0 {
          return NothingCaptured;
        }
        var expected := Answer(r, ticket);
        return if expected.Some? then Served(expected.value) else Refused;
    }
  }

  lemma CeilingDivision(x: nat, n: nat)
    requires n > 0
    ensures var m := (x + n - 1) / n; x <= m * n && (m > 0 ==> (m - 1) * n < x)
  {
    var m := (x + n - 1) / n;
    assert m * n <= x + n - 1 < m * n + n;
    assert (m - 1) * n == m * n - n;
  }

  lemma SameMultiple(m: nat, k: nat, n: nat)
    requires n > 0 && k > 0 && m > 0 && n * k <= m * n && (m > 1 ==> (m - 1) * n < n * k)
    ensures m == k
  {
    if m < k {
      MultiplesInOrder(m, k, n);
    } else if m > k + 1 {
      MultiplesInOrder(k, m - 1, n);
    }
  }
}
