// A fanout replay: k workers send the captured requests to one stub at the same
// time. A request first takes a ticket (an atomic counter, checked against the
// limit) and later, under the lock, is matched; between the two, other workers may
// do either. Every such interleaving is a sequence of steps here.

module Fanout {
  import opened Wrappers
  import opened Allocation

  datatype State<R> = State(
    seen: nat,           // tickets taken
    maxSeen: nat,        // 0 means no limit
    rejected: nat,       // requests turned away by the limit
    waiting: multiset<R>,// admitted, not yet matched
    matched: seq<R>,     // requests in the order the lock let them through
    answers: seq<Option<nat>>,
    uses: Uses)

  datatype Step<R> = Arrive(r: R) | Match(r: R)

  function Start<R>(b: Book<R>, maxSeen: nat): State<R> {
    State(0, maxSeen, 0, multiset{}, [], [], Fresh(b.size))
  }

  predicate Enabled<R(==)>(s: State<R>, step: Step<R>) {
    step.Match? ==> step.r in s.waiting
  }

  function Next<R(==)>(b: Book<R>, s: State<R>, step: Step<R>): (t: State<R>)
    requires |s.uses| == b.size && Enabled(s, step)
    ensures |t.uses| == b.size
  {
    match step
    case Arrive(r) =>
      if s.maxSeen > 0 && s.seen + 1 > s.maxSeen then s.(seen := s.seen + 1, rejected := s.rejected + 1)
      else s.(seen := s.seen + 1, waiting := s.waiting + multiset{r})
    case Match(r) =>
      var o := Allot(b, s.uses, r);
      s.(waiting := s.waiting - multiset{r}, matched := s.matched + [r],
         answers := s.answers + [o], uses := Charged(s.uses, o))
  }

  // The state after a sequence of steps; none when some step was not enabled.
  function After<R(==)>(b: Book<R>, maxSeen: nat, steps: seq<Step<R>>): (s: Option<State<R>>)
    ensures s.Some? ==> |s.value.uses| == b.size
  {
    if steps == [] then Some(Start(b, maxSeen))
    else
      var before := After(b, maxSeen, steps[..|steps| - 1]);
      if before.Some? && Enabled(before.value, steps[|steps| - 1])
      then Some(Next(b, before.value, steps[|steps| - 1]))
      else None
  }

  function Arrivals<R>(steps: seq<Step<R>>): seq<R> {
    if steps == [] then []
    else Arrivals(steps[..|steps| - 1]) + if steps[|steps| - 1].Arrive? then [steps[|steps| - 1].r] else []
  }

  // The answers are those of the requests taken one after another in lock order.
  ghost predicate Serial<R>(b: Book<R>, s: State<R>) {
    && s.answers == Outcomes(b, Fresh(b.size), s.matched)
    && s.uses == UsesAfter(b, Fresh(b.size), s.matched)
  }

  lemma {:induction false} MatchStaysSerial<R>(b: Book<R>, s: State<R>, r: R)
    requires Serial(b, s) && r in s.waiting
    ensures Serial(b, Next(b, s, Match(r)))
  {
    RunConcat(b, Fresh(b.size), s.matched, [r]);
    assert [r][1..] == [];
    var o := Allot(b, s.uses, r);
    assert Outcomes(b, s.uses, [r]) == [o];
    assert UsesAfter(b, s.uses, [r]) == Charged(s.uses, o);
  }

  // Every interleaving is serializable, and while the limit is not exceeded every
  // request that arrived is either waiting or matched.
  lemma {:induction false} Serializable<R>(b: Book<R>, maxSeen: nat, steps: seq<Step<R>>, s: State<R>)
    requires After(b, maxSeen, steps) == Some(s)
    ensures Serial(b, s)
    ensures s.seen == |Arrivals(steps)| && s.maxSeen == maxSeen
    ensures maxSeen == 0 || |Arrivals(steps)| <= maxSeen ==>
      s.rejected == 0 && s.waiting + multiset(s.matched) == multiset(Arrivals(steps))
    decreases |steps|
  {
    if steps != [] {
      var last := steps[|steps| - 1];
      var p := After(b, maxSeen, steps[..|steps| - 1]).value;
      Serializable(b, maxSeen, steps[..|steps| - 1], p);
      if last.Match? {
        MatchStaysSerial(b, p, last.r);
      }
    }
  }

  // ---------------------------------------------------------------- k copies of the captured requests

  // The request that replays each captured event; none when its URL does not parse.
  function Present<R>(recorded: seq<Option<R>>): (p: seq<R>)
    ensures |p| <= |recorded|
    ensures forall r :: r in p ==> Some(r) in recorded
  {
    if recorded == [] then []
    else
      var last := recorded[|recorded| - 1];
      Present(recorded[..|recorded| - 1]) + if last.Some? then [last.value] else []
  }

  function Copies<R>(recorded: seq<Option<R>>, k: nat): (c: seq<R>)
    ensures |c| <= |recorded| * k
    ensures forall r :: r in c ==> Some(r) in recorded
  {
    if k == 0 then []
    else
      assert |recorded| * k == |recorded| * (k - 1) + |recorded|;
      Copies(recorded, k - 1) + Present(recorded)
  }

  // Each captured event accepts its own request, an event without a request accepts
  // nothing, and requests fall into classes.
  ghost predicate SelfMatching<R(!new)>(b: Book<R>, recorded: seq<Option<R>>) {
    && |recorded| == b.size
    && (forall i :: 0 <= i < b.size && recorded[i].Some? ==> b.accepts(i, recorded[i].value))
    && (forall i, r :: 0 <= i < b.size && recorded[i].None? ==> !b.accepts(i, r))
    && Classified(b, iset r | Some(r) in recorded)
  }

  lemma {:induction false} PeersConcat<R>(b: Book<R>, first: seq<R>, then_: seq<R>, q: R)
    ensures Peers(b, first + then_, q) == Peers(b, first, q) + Peers(b, then_, q)
    decreases |then_|
  {
    if then_ == [] {
      assert first + then_ == first;
    } else {
      assert (first + then_)[..|first + then_| - 1] == first + then_[..|then_| - 1];
      PeersConcat(b, first, then_[..|then_| - 1], q);
    }
  }

  lemma {:induction false} PeersMonotone<R>(b: Book<R>, some: seq<R>, more: seq<R>, q: R)
    requires multiset(some) <= multiset(more)
    ensures Peers(b, some, q) <= Peers(b, more, q)
    ensures multiset(some) == multiset(more) ==> Peers(b, some, q) == Peers(b, more, q)
    decreases |some|
  {
    if some == [] {
      assert more != [] ==> more[0] in multiset(more);
    } else {
      var n := |some| - 1;
      var x := some[n];
      assert some == some[..n] + [x];
      assert x in multiset(some) && x in more;
      var i :| 0 <= i < |more| && more[i] == x;
      var rest := more[..i] + more[i + 1..];
      assert more == more[..i] + ([x] + more[i + 1..]);
      assert multiset(rest) == multiset(more) - multiset{x};
      assert multiset(some[..n]) == multiset(some) - multiset{x};
      PeersConcat(b, more[..i], [x] + more[i + 1..], q);
      PeersConcat(b, [x], more[i + 1..], q);
      PeersConcat(b, more[..i], more[i + 1..], q);
      PeersConcat(b, some[..n], [x], q);
      PeersMonotone(b, some[..n], rest, q);
    }
  }

  // An event belongs to a request's class exactly when its own request does.
  lemma OwnClass<R(!new)>(b: Book<R>, recorded: seq<Option<R>>, i: nat, q: R)
    requires SelfMatching(b, recorded) && Some(q) in recorded && i < b.size && recorded[i].Some?
    ensures Class(b, recorded[i].value) == Class(b, q) <==> b.accepts(i, q)
  {
    assert i in Class(b, recorded[i].value);
    assert i in Class(b, q) <==> b.accepts(i, q);
    var all := iset r | Some(r) in recorded;
    assert q in all && recorded[i].value in all;
  }

  lemma PresentStep<R>(b: Book<R>, recorded: seq<Option<R>>, n: nat, q: R)
    requires 0 < n <= |recorded|
    ensures Peers(b, Present(recorded[..n]), q) == Peers(b, Present(recorded[..n - 1]), q) +
      if recorded[n - 1].Some? && Class(b, recorded[n - 1].value) == Class(b, q) then 1 else 0
  {
    var some := recorded[..n];
    assert some[..n - 1] == recorded[..n - 1] && some[n - 1] == recorded[n - 1];
    var p := Present(recorded[..n - 1]);
    if recorded[n - 1].Some? {
      assert (p + [recorded[n - 1].value])[..|p|] == p;
    } else {
      assert p + [] == p;
    }
  }

  // How many of the first n events have a request of q's class.
  function OwnCount<R>(b: Book<R>, recorded: seq<Option<R>>, n: nat, q: R): nat
    requires n <= |recorded|
  {
    if n == 0 then 0
    else
      OwnCount(b, recorded, n - 1, q) +
      if recorded[n - 1].Some? && Class(b, recorded[n - 1].value) == Class(b, q) then 1 else 0
  }

  lemma {:induction false} PeersAreOwn<R>(b: Book<R>, recorded: seq<Option<R>>, n: nat, q: R)
    requires n <= |recorded|
    ensures Peers(b, Present(recorded[..n]), q) == OwnCount(b, recorded, n, q)
  {
    if n > 0 {
      PeersAreOwn(b, recorded, n - 1, q);
      PresentStep(b, recorded, n, q);
    }
  }

  lemma {:induction false} OwnAreCandidates<R(!new)>(b: Book<R>, recorded: seq<Option<R>>, n: nat, q: R)
    requires SelfMatching(b, recorded) && n <= b.size && Some(q) in recorded
    ensures OwnCount(b, recorded, n, q) == |Candidates(b, q, n)|
  {
    if n > 0 {
      OwnAreCandidates(b, recorded, n - 1, q);
      if recorded[n - 1].Some? {
        OwnClass(b, recorded, n - 1, q);
      }
    }
  }

  lemma NextMultiple(k: nat, n: nat)
    requires k > 0
    ensures k * n == (k - 1) * n + n
  {}

  lemma {:induction false} PeersRepeated<R>(b: Book<R>, recorded: seq<Option<R>>, k: nat, q: R)
    ensures Peers(b, Copies(recorded, k), q) == k * Peers(b, Present(recorded), q)
  {
    if k > 0 {
      PeersRepeated(b, recorded, k - 1, q);
      PeersConcat(b, Copies(recorded, k - 1), Present(recorded), q);
      NextMultiple(k, Peers(b, Present(recorded), q));
    }
  }

  lemma PeersCopies<R(!new)>(b: Book<R>, recorded: seq<Option<R>>, k: nat, q: R)
    requires SelfMatching(b, recorded) && Some(q) in recorded
    ensures Peers(b, Copies(recorded, k), q) == k * |Class(b, q)|
  {
    PeersRepeated(b, recorded, k, q);
    PeersAreOwn(b, recorded, b.size, q);
    OwnAreCandidates(b, recorded, b.size, q);
    assert recorded[..b.size] == recorded;
  }

  lemma TurnWithinClass(j: nat, k: nat, n: nat)
    requires k > 0 && j < k * n
    ensures j / k < n
  {}

  lemma {:induction false} TurnsAreLeft<R(!new)>(b: Book<R>, recorded: seq<Option<R>>, reqs: seq<R>, t: nat)
    requires SelfMatching(b, recorded) && t < |reqs| && Some(reqs[t]) in recorded
    requires multiset(reqs) <= multiset(Copies(recorded, b.multiplier))
    ensures Peers(b, reqs[..t], reqs[t]) < b.multiplier * |Class(b, reqs[t])|
  {
    var q := reqs[t];
    var upto := reqs[..t] + [q];
    assert reqs == upto + reqs[t + 1..];
    assert upto[..t] == reqs[..t];
    PeersMonotone(b, upto, Copies(recorded, b.multiplier), q);
    PeersCopies(b, recorded, b.multiplier, q);
  }

  lemma {:induction false} CopiesAreServed<R(!new)>(b: Book<R>, recorded: seq<Option<R>>, reqs: seq<R>, t: nat)
    requires SelfMatching(b, recorded) && b.multiplier > 0 && t < |reqs|
    requires multiset(reqs) <= multiset(Copies(recorded, b.multiplier))
    ensures Outcomes(b, Fresh(b.size), reqs)[t].Some?
  {
    AllRecorded(recorded, b.multiplier, reqs);
    ClassFIFO(b, reqs, t);
    TurnsAreLeft(b, recorded, reqs, t);
    TurnWithinClass(Peers(b, reqs[..t], reqs[t]), b.multiplier, |Class(b, reqs[t])|);
  }

  lemma AllRecorded<R>(recorded: seq<Option<R>>, k: nat, reqs: seq<R>)
    requires multiset(reqs) <= multiset(Copies(recorded, k))
    ensures forall r :: r in reqs ==> Some(r) in recorded
  {
    forall r | r in reqs
      ensures Some(r) in recorded
    {
      assert r in multiset(reqs);
      assert r in multiset(Copies(recorded, k));
    }
  }

  lemma {:induction false} UsesOfCopies<R(!new)>(b: Book<R>, recorded: seq<Option<R>>, reqs: seq<R>, i: nat)
    requires SelfMatching(b, recorded) && b.multiplier > 0 && i < b.size
    requires multiset(reqs) == multiset(Copies(recorded, b.multiplier))
    ensures UsesAfter(b, Fresh(b.size), reqs)[i] == if recorded[i].Some? then b.multiplier else 0
  {
    var k := b.multiplier;
    AllRecorded(recorded, k, reqs);
    if recorded[i].Some? {
      var q := recorded[i].value;
      var cs := Class(b, q);
      assert i in cs;
      var c :| 0 <= c < |cs| && cs[c] == i;
      var all := iset r | Some(r) in recorded;
      RunSharesOut(b, reqs, all);
      PeersMonotone(b, reqs, Copies(recorded, k), q);
      PeersCopies(b, recorded, k, q);
      assert q in all;
      MultiplesInOrder(c, |cs|, k);
      assert Share(k * |cs|, c, k) == k;
    } else {
      NeverAcceptedNeverUsed(b, Fresh(b.size), reqs, i);
    }
  }

  lemma {:induction false} NeverAcceptedNeverUsed<R>(b: Book<R>, uses: Uses, reqs: seq<R>, i: nat)
    requires b.size == |uses| && i < b.size && forall r :: r in reqs ==> !b.accepts(i, r)
    ensures UsesAfter(b, uses, reqs)[i] == uses[i]
    decreases |reqs|
  {
    if reqs != [] {
      NeverAcceptedNeverUsed(b, Charged(uses, Allot(b, uses, reqs[0])), reqs[1..], i);
    }
  }

  // At every moment of every interleaving in which the workers have sent no more than k
  // copies of the captured requests: nobody has been turned away by the limit and nobody
  // has been refused.
  lemma FanoutNeverDiverges<R(!new)>(b: Book<R>, recorded: seq<Option<R>>, steps: seq<Step<R>>, s: State<R>)
    requires SelfMatching(b, recorded) && b.multiplier > 0
    requires After(b, b.size * b.multiplier, steps) == Some(s)
    ensures multiset(Arrivals(steps)) <= multiset(Copies(recorded, b.multiplier)) ==>
      s.rejected == 0 && forall t :: 0 <= t < |s.answers| ==> s.answers[t].Some?
  {
    var k := b.multiplier;
    var arrived := Arrivals(steps);
    if multiset(arrived) <= multiset(Copies(recorded, k)) {
      SizesInOrder(arrived, Copies(recorded, k));
      Serializable(b, b.size * k, steps, s);
      assert multiset(s.matched) <= multiset(arrived);
      forall t | 0 <= t < |s.answers|
        ensures s.answers[t].Some?
      {
        CopiesAreServed(b, recorded, s.matched, t);
      }
    }
  }

  // Exactly the expected requests have arrived, and all of them have been matched.
  predicate Finished<R(==)>(s: State<R>, steps: seq<Step<R>>, expected: seq<R>) {
    s.waiting == multiset{} && multiset(Arrivals(steps)) == multiset(expected)
  }

  // And when all k copies have been sent and matched, every event has been used
  // exactly k times.
  lemma FanoutUsesEverything<R(!new)>(b: Book<R>, recorded: seq<Option<R>>, steps: seq<Step<R>>, s: State<R>)
    requires SelfMatching(b, recorded) && b.multiplier > 0
    requires After(b, b.size * b.multiplier, steps) == Some(s)
    ensures Finished(s, steps, Copies(recorded, b.multiplier)) ==>
      && |s.answers| == |Arrivals(steps)|
      && forall i :: 0 <= i < b.size ==> s.uses[i] == if recorded[i].Some? then b.multiplier else 0
  {
    if Finished(s, steps, Copies(recorded, b.multiplier)) {
      SizesInOrder(Arrivals(steps), Copies(recorded, b.multiplier));
      Serializable(b, b.size * b.multiplier, steps, s);
      assert multiset(s.matched) == multiset(Arrivals(steps));
      SizesInOrder(s.matched, Arrivals(steps));
      SizesInOrder(Arrivals(steps), s.matched);
      forall i | 0 <= i < b.size
        ensures s.uses[i] == if recorded[i].Some? then b.multiplier else 0
      {
        UsesOfCopies(b, recorded, s.matched, i);
      }
    }
  }

  lemma SizesInOrder<R>(a: seq<R>, c: seq<R>)
    requires multiset(a) <= multiset(c)
    ensures |a| <= |c|
  {
    assert |multiset(a)| == |a| && |multiset(c)| == |c|;
    assert multiset(c) == multiset(a) + (multiset(c) - multiset(a));
  }
}
