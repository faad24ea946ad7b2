// How the dependency stub allots requests to captured events: first fit in log
// order, every event usable a fixed number of times. Requests and the match
// relation are arbitrary here.

module Allocation {
  import opened Wrappers
  import opened Division

  // A captured log: its length, which event accepts which request, and how often
  // each event may be used in one run.
  datatype Book<!R> = Book(size: nat, accepts: (nat, R) -> bool, multiplier: nat)

  type Uses = seq<nat>

  // The first event from start on that accepts r and is not used up.
  function FirstFree<R>(b: Book<R>, uses: Uses, r: R, start: nat): (o: Option<nat>)
    requires start <= b.size == |uses|
    ensures o.Some? ==> start <= o.value < b.size && b.accepts(o.value, r) && uses[o.value] < b.multiplier
    ensures forall i :: start <= i < (if o.Some? then o.value else b.size) && b.accepts(i, r) ==>
      uses[i] >= b.multiplier
    decreases b.size - start
  {
    if start == b.size then None
    else if b.accepts(start, r) && uses[start] < b.multiplier then Some(start)
    else FirstFree(b, uses, r, start + 1)
  }

  function Allot<R>(b: Book<R>, uses: Uses, r: R): Option<nat>
    requires b.size == |uses|
  {
    FirstFree(b, uses, r, 0)
  }

  function Charged(uses: Uses, o: Option<nat>): Uses
    requires o.Some? ==> o.value < |uses|
  {
    if o.Some? then uses[o.value := uses[o.value] + 1] else uses
  }

  // One run: what each request in turn is answered by (None is a refusal), and the
  // use counts it leaves behind.
  function Outcomes<R>(b: Book<R>, uses: Uses, reqs: seq<R>): (os: seq<Option<nat>>)
    requires b.size == |uses|
    ensures |os| == |reqs|
    decreases |reqs|
  {
    if reqs == [] then []
    else
      var o := Allot(b, uses, reqs[0]);
      [o] + Outcomes(b, Charged(uses, o), reqs[1..])
  }

  function UsesAfter<R>(b: Book<R>, uses: Uses, reqs: seq<R>): (u: Uses)
    requires b.size == |uses|
    ensures |u| == b.size
    decreases |reqs|
  {
    if reqs == [] then uses
    else UsesAfter(b, Charged(uses, Allot(b, uses, reqs[0])), reqs[1..])
  }

  function Fresh(n: nat): (u: Uses)
    ensures |u| == n && forall i :: 0 <= i < n ==> u[i] == 0
  {
    seq(n, _ => 0)
  }

  lemma {:induction false} RunConcat<R>(b: Book<R>, uses: Uses, first: seq<R>, then_: seq<R>)
    requires b.size == |uses|
    ensures UsesAfter(b, uses, first + then_) == UsesAfter(b, UsesAfter(b, uses, first), then_)
    ensures Outcomes(b, uses, first + then_) == Outcomes(b, uses, first) + Outcomes(b, UsesAfter(b, uses, first), then_)
    decreases |first|
  {
    if first == [] {
      assert first + then_ == then_;
    } else {
      assert (first + then_)[1..] == first[1..] + then_;
      RunConcat(b, Charged(uses, Allot(b, uses, first[0])), first[1..], then_);
    }
  }

  // The outcome at position t is decided by the state the prefix leaves.
  lemma OutcomeAt<R>(b: Book<R>, uses: Uses, reqs: seq<R>, t: nat)
    requires b.size == |uses| && t < |reqs|
    ensures Outcomes(b, uses, reqs)[t] == Allot(b, UsesAfter(b, uses, reqs[..t]), reqs[t])
    ensures UsesAfter(b, uses, reqs[..t + 1]) == Charged(UsesAfter(b, uses, reqs[..t]), Outcomes(b, uses, reqs)[t])
  {
    assert reqs == reqs[..t] + reqs[t..];
    RunConcat(b, uses, reqs[..t], reqs[t..]);
    assert reqs[..t + 1] == reqs[..t] + [reqs[t]];
    RunConcat(b, uses, reqs[..t], [reqs[t]]);
  }

  // ---------------------------------------------------------------- invariants for any match relation

  function Total(uses: Uses): nat {
    if uses == [] then 0 else uses[0] + Total(uses[1..])
  }

  lemma {:induction false} TotalCharged(uses: Uses, i: nat)
    requires i < |uses|
    ensures Total(uses[i := uses[i] + 1]) == Total(uses) + 1
  {
    if i == 0 {
      assert uses[0 := uses[0] + 1][1..] == uses[1..];
    } else {
      assert uses[i := uses[i] + 1][1..] == uses[1..][i - 1 := uses[1..][i - 1] + 1];
      TotalCharged(uses[1..], i - 1);
    }
  }

  function ServedCount(os: seq<Option<nat>>): nat {
    if os == [] then 0 else (if os[0].Some? then 1 else 0) + ServedCount(os[1..])
  }

  // Every served request is charged to exactly one event, and no event is overdrawn.
  lemma {:induction false} Conservation<R>(b: Book<R>, uses: Uses, reqs: seq<R>)
    requires b.size == |uses| && forall i :: 0 <= i < |uses| ==> uses[i] <= b.multiplier
    ensures Total(UsesAfter(b, uses, reqs)) == Total(uses) + ServedCount(Outcomes(b, uses, reqs))
    ensures forall i :: 0 <= i < b.size ==> uses[i] <= UsesAfter(b, uses, reqs)[i] <= b.multiplier
    decreases |reqs|
  {
    if reqs != [] {
      var o := Allot(b, uses, reqs[0]);
      if o.Some? {
        TotalCharged(uses, o.value);
      }
      assert Outcomes(b, uses, reqs)[1..] == Outcomes(b, Charged(uses, o), reqs[1..]);
      Conservation(b, Charged(uses, o), reqs[1..]);
    }
  }

  // A refusal means that every event accepting the request is used up.
  lemma RefusalMeansSaturated<R>(b: Book<R>, reqs: seq<R>, t: nat)
    requires t < |reqs|
    ensures Outcomes(b, Fresh(b.size), reqs)[t].None? <==>
      forall i :: 0 <= i < b.size && b.accepts(i, reqs[t]) ==> UsesAfter(b, Fresh(b.size), reqs[..t])[i] == b.multiplier
  {
    OutcomeAt(b, Fresh(b.size), reqs, t);
    Conservation(b, Fresh(b.size), reqs[..t]);
  }

  lemma UsesOnlyGrow<R>(b: Book<R>, reqs: seq<R>, t: nat, later: nat, i: nat)
    requires t <= later <= |reqs| && i < b.size
    ensures UsesAfter(b, Fresh(b.size), reqs[..t])[i] <= UsesAfter(b, Fresh(b.size), reqs[..later])[i] <= b.multiplier
  {
    var before, after := reqs[..t], reqs[t..later];
    Conservation(b, Fresh(b.size), before);
    Conservation(b, UsesAfter(b, Fresh(b.size), before), after);
    RunConcat(b, Fresh(b.size), before, after);
    assert reqs[..later] == before + after;
  }

  // So a request that was refused once is refused from then on.
  lemma RefusalIsFinal<R>(b: Book<R>, reqs: seq<R>, t: nat, later: nat)
    requires t <= later < |reqs| && reqs[later] == reqs[t] && Outcomes(b, Fresh(b.size), reqs)[t].None?
    ensures Outcomes(b, Fresh(b.size), reqs)[later].None?
  {
    RefusalMeansSaturated(b, reqs, t);
    RefusalMeansSaturated(b, reqs, later);
    forall i | 0 <= i < b.size && b.accepts(i, reqs[t])
      ensures UsesAfter(b, Fresh(b.size), reqs[..later])[i] == b.multiplier
    {
      UsesOnlyGrow(b, reqs, t, later, i);
    }
  }

  // ---------------------------------------------------------------- first come, first served, class by class

  // The events that accept r, in log order.
  function Candidates<R>(b: Book<R>, r: R, upto: nat): (c: seq<nat>)
    requires upto <= b.size
    ensures forall i :: i in c <==> 0 <= i < upto && b.accepts(i, r)
    ensures |c| <= upto && forall x :: 0 <= x < |c| ==> c[x] < upto
    ensures forall x, y :: 0 <= x < y < |c| ==> c[x] < c[y]
  {
    if upto == 0 then []
    else if b.accepts(upto - 1, r) then Candidates(b, r, upto - 1) + [upto - 1]
    else Candidates(b, r, upto - 1)
  }

  function Class<R>(b: Book<R>, r: R): (c: seq<nat>)
    ensures |c| <= b.size && forall x :: 0 <= x < |c| ==> c[x] < b.size
  {
    Candidates(b, r, b.size)
  }

  // Any two requests are accepted by the same events, or by none in common.
  ghost predicate Classified<R(!new)>(b: Book<R>, reqs: iset<R>) {
    forall q, r :: q in reqs && r in reqs ==>
      Class(b, q) == Class(b, r) || forall i :: i in Class(b, q) ==> i !in Class(b, r)
  }

  // How many of the requests belong to r's class.
  function Peers<R>(b: Book<R>, reqs: seq<R>, r: R): nat {
    if reqs == [] then 0
    else (if Class(b, reqs[|reqs| - 1]) == Class(b, r) then 1 else 0) + Peers(b, reqs[..|reqs| - 1], r)
  }

  function Clamp(x: int, high: nat): nat {
    if x < 0 then 0 else if x > high then high else x
  }

  // What the event at rank c of a class has been used after j requests of the class.
  function Share(j: nat, c: nat, multiplier: nat): nat {
    Clamp(j - c * multiplier, multiplier)
  }

  lemma MultiplesInOrder(a: nat, c: nat, m: nat)
    requires a < c
    ensures a * m + m <= c * m
  {
    MulMinus(c, a, m);
    MulAtLeast(c - a, m);
  }

  // One more request of the class goes to the event whose turn it is, and that is
  // the first event of the class that is not used up.
  lemma {:induction false} NextShare(j: nat, c: nat, m: nat)
    requires m > 0
    ensures Share(j + 1, c, m) == if c == j / m then Share(j, c, m) + 1 else Share(j, c, m)
    ensures Share(j, c, m) < m <==> c >= j / m
  {
    var q := j / m;
    var qm, cm := q * m, c * m;
    assert qm <= j < qm + m;
    if c < q {
      MultiplesInOrder(c, q, m);
    } else if c > q {
      MultiplesInOrder(q, c, m);
    }
  }

  ghost predicate SharedOut<R(!new)>(b: Book<R>, uses: Uses, served: seq<R>, reqs: iset<R>)
    requires b.size == |uses|
  {
    forall q, c :: q in reqs && 0 <= c < |Class(b, q)| ==>
      uses[Class(b, q)[c]] == Share(Peers(b, served, q), c, b.multiplier)
  }

  lemma {:induction false} AllotInClass<R>(b: Book<R>, uses: Uses, r: R, j: nat)
    requires b.size == |uses| && b.multiplier > 0
    requires forall c :: 0 <= c < |Class(b, r)| ==> uses[Class(b, r)[c]] == Share(j, c, b.multiplier)
    ensures Allot(b, uses, r) ==
      if j / b.multiplier < |Class(b, r)| then Some(Class(b, r)[j / b.multiplier]) else None
  {
    var cs := Class(b, r);
    var o := Allot(b, uses, r);
    var q := j / b.multiplier;
    if q < |cs| {
      NextShare(j, q, b.multiplier);
      assert cs[q] in cs && uses[cs[q]] < b.multiplier;
      if o.Some? {
        var x :| 0 <= x < |cs| && cs[x] == o.value;
        NextShare(j, x, b.multiplier);
      }
    } else if o.Some? {
      var x :| 0 <= x < |cs| && cs[x] == o.value;
      NextShare(j, x, b.multiplier);
    }
  }

  lemma ChargeInClass(uses: Uses, cs: seq<nat>, o: Option<nat>, turn: nat, c: nat)
    requires c < |cs| && forall x :: 0 <= x < |cs| ==> cs[x] < |uses|
    requires forall x, y :: 0 <= x < y < |cs| ==> cs[x] < cs[y]
    requires o == if turn < |cs| then Some(cs[turn]) else None
    ensures Charged(uses, o)[cs[c]] == uses[cs[c]] + if c == turn then 1 else 0
  {
    if c != turn && turn < |cs| {
      assert cs[c] != cs[turn] by {
        assert c < turn || turn < c;
      }
    }
  }

  lemma ShareAfter(uses: Uses, cs: seq<nat>, o: Option<nat>, j: nat, c: nat, m: nat)
    requires m > 0 && c < |cs| && forall x :: 0 <= x < |cs| ==> cs[x] < |uses|
    requires forall x, y :: 0 <= x < y < |cs| ==> cs[x] < cs[y]
    requires uses[cs[c]] == Share(j, c, m)
    requires o == if j / m < |cs| then Some(cs[j / m]) else None
    ensures Charged(uses, o)[cs[c]] == Share(j + 1, c, m)
  {
    NextShare(j, c, m);
    ChargeInClass(uses, cs, o, j / m, c);
  }

  lemma {:induction false} ServeOne<R(!new)>(b: Book<R>, uses: Uses, served: seq<R>, r: R, q: R, c: nat)
    requires b.size == |uses| && b.multiplier > 0 && c < |Class(b, q)|
    requires Class(b, q) == Class(b, r) || forall i :: i in Class(b, q) ==> i !in Class(b, r)
    requires forall x :: 0 <= x < |Class(b, q)| ==> uses[Class(b, q)[x]] == Share(Peers(b, served, q), x, b.multiplier)
    ensures Charged(uses, Allot(b, uses, r))[Class(b, q)[c]] == Share(Peers(b, served + [r], q), c, b.multiplier)
  {
    assert (served + [r])[..|served|] == served;
    var cs := Class(b, q);
    if cs == Class(b, r) {
      var j := Peers(b, served, q);
      assert Peers(b, served + [r], q) == j + 1;
      AllotInClass(b, uses, r, j);
      ShareAfter(uses, cs, Allot(b, uses, r), j, c, b.multiplier);
    } else {
      assert cs[c] in cs;
      assert Peers(b, served + [r], q) == Peers(b, served, q);
    }
  }

  lemma FreshSharesOut<R(!new)>(b: Book<R>, q: R, c: nat)
    requires c < |Class(b, q)|
    ensures Fresh(b.size)[Class(b, q)[c]] == Share(0, c, b.multiplier)
  {
    assert c * b.multiplier >= 0;
  }

  lemma {:induction false} RunSharesOut<R(!new)>(b: Book<R>, reqs: seq<R>, all: iset<R>)
    requires b.multiplier > 0 && Classified(b, all) && forall r :: r in reqs ==> r in all
    ensures SharedOut(b, UsesAfter(b, Fresh(b.size), reqs), reqs, all)
    decreases |reqs|
  {
    if reqs == [] {
      forall q, c | q in all && 0 <= c < |Class(b, q)|
        ensures Fresh(b.size)[Class(b, q)[c]] == Share(0, c, b.multiplier)
      {
        FreshSharesOut(b, q, c);
      }
    } else {
      var before, r := reqs[..|reqs| - 1], reqs[|reqs| - 1];
      RunSharesOut(b, before, all);
      assert reqs == before + [r];
      LastStep(b, before, r);
      var uses := UsesAfter(b, Fresh(b.size), before);
      forall q, c | q in all && 0 <= c < |Class(b, q)|
        ensures Charged(uses, Allot(b, uses, r))[Class(b, q)[c]] == Share(Peers(b, before + [r], q), c, b.multiplier)
      {
        ServeOne(b, uses, before, r, q, c);
      }
    }
  }

  lemma LastStep<R>(b: Book<R>, before: seq<R>, r: R)
    ensures var uses := UsesAfter(b, Fresh(b.size), before);
      UsesAfter(b, Fresh(b.size), before + [r]) == Charged(uses, Allot(b, uses, r))
  {
    OutcomeAt(b, Fresh(b.size), before + [r], |before|);
    assert (before + [r])[..|before|] == before && (before + [r])[..|before| + 1] == before + [r];
  }

  // The event whose turn it is when request t comes.
  function InTurn<R>(b: Book<R>, reqs: seq<R>, t: nat): Option<nat>
    requires b.multiplier > 0 && t < |reqs|
  {
    var c := Class(b, reqs[t]);
    var turn := Peers(b, reqs[..t], reqs[t]) / b.multiplier;
    if turn < |c| then Some(c[turn]) else None
  }

  // In any interleaving, the j-th request of a class (counting from 0) is answered by
  // the class's event number j / multiplier in log order, or refused when there is none.
  lemma ClassFIFO<R(!new)>(b: Book<R>, reqs: seq<R>, t: nat)
    requires b.multiplier > 0 && Classified(b, iset r | r in reqs) && t < |reqs|
    ensures Outcomes(b, Fresh(b.size), reqs)[t] == InTurn(b, reqs, t)
  {
    var all := iset r | r in reqs;
    RunSharesOut(b, reqs[..t], all);
    OutcomeAt(b, Fresh(b.size), reqs, t);
    AllotInClass(b, UsesAfter(b, Fresh(b.size), reqs[..t]), reqs[t], Peers(b, reqs[..t], reqs[t]));
  }

  // ---------------------------------------------------------------- requests of different classes commute

  lemma {:induction false} FirstFreeIgnoresOthers<R>(b: Book<R>, uses: Uses, other: Uses, r: R, start: nat)
    requires start <= b.size == |uses| == |other|
    requires forall i :: 0 <= i < b.size && b.accepts(i, r) ==> uses[i] == other[i]
    ensures FirstFree(b, uses, r, start) == FirstFree(b, other, r, start)
    decreases b.size - start
  {
    if start < b.size {
      FirstFreeIgnoresOthers(b, uses, other, r, start + 1);
    }
  }

  lemma ServeTwo<R>(b: Book<R>, uses: Uses, x: R, y: R, rest: seq<R>)
    requires b.size == |uses|
    requires forall i :: 0 <= i < b.size ==> !(b.accepts(i, x) && b.accepts(i, y))
    ensures var ox, oy := Allot(b, uses, x), Allot(b, uses, y); var both := Charged(Charged(uses, ox), oy);
      Outcomes(b, uses, [x, y] + rest) == [ox, oy] + Outcomes(b, both, rest) &&
      UsesAfter(b, uses, [x, y] + rest) == UsesAfter(b, both, rest)
  {
    var ox, oy := Allot(b, uses, x), Allot(b, uses, y);
    FirstFreeIgnoresOthers(b, uses, Charged(uses, ox), y, 0);
    assert ([x, y] + rest)[1..] == [y] + rest;
    RunConcat(b, Charged(uses, ox), [y], rest);
    assert [y][1..] == [];
    assert UsesAfter(b, Charged(uses, ox), [y]) == Charged(Charged(uses, ox), oy);
    assert Outcomes(b, Charged(uses, ox), [y]) == [oy];
  }

  lemma ChargesCommute(uses: Uses, x: Option<nat>, y: Option<nat>)
    requires (x.Some? ==> x.value < |uses|) && (y.Some? ==> y.value < |uses|)
    ensures Charged(Charged(uses, x), y) == Charged(Charged(uses, y), x)
  {}

  // From any state, swapping two adjacent requests that no event accepts in common
  // changes no answer, neither theirs nor anyone else's.
  lemma SwapChangesNothing<R>(b: Book<R>, uses: Uses, x: R, y: R, rest: seq<R>)
    requires b.size == |uses|
    requires forall i :: 0 <= i < b.size ==> !(b.accepts(i, x) && b.accepts(i, y))
    ensures var xy := Outcomes(b, uses, [x, y] + rest); var yx := Outcomes(b, uses, [y, x] + rest);
      xy[0] == yx[1] && xy[1] == yx[0] && xy[2..] == yx[2..]
    ensures UsesAfter(b, uses, [x, y] + rest) == UsesAfter(b, uses, [y, x] + rest)
  {
    var ox, oy := Allot(b, uses, x), Allot(b, uses, y);
    ServeTwo(b, uses, x, y, rest);
    ServeTwo(b, uses, y, x, rest);
    ChargesCommute(uses, ox, oy);
  }
}
