// kafkasim.Plan and the accounting of kafkasim.Replay: which records are produced when
// messages are reordered, dropped, duplicated and poisoned at fixed periods.

module KafkaPlan {
  import opened Wrappers
  import opened Division
  import opened Windows

  datatype Record = Record(id: string, topic: string, payloadB64: string, payloadSHA256: string)

  datatype Faults = Faults(delay: int, dropEvery: int, duplicateEvery: int, poisonEvery: int, reorderWindow: int)

  datatype Planned = Planned(record: Record, originalIndex: int, duplicateIndex: nat, poisoned: bool)

  // Base64 of the one-character text "{", and its hash as a parameter.
  const POISON_B64 := "ew=="

  predicate Acceptable(f: Faults) {
    f.delay >= 0 && f.dropEvery >= 0 && f.duplicateEvery >= 0 && f.poisonEvery >= 0 && f.reorderWindow >= 0
  }

  // Is the position (counting from 1) hit by a fault of this period? Period 0 is off.
  predicate Hit(position: nat, every: int) {
    every > 0 && position % every == 0
  }

  // The index of the last record with this id.
  function IndexOfId(records: seq<Record>, id: string): int {
    if records == [] then 0
    else if records[|records| - 1].id == id then |records| - 1
    else IndexOfId(records[..|records| - 1], id)
  }

  function Entry(records: seq<Record>, r: Record, position: nat, f: Faults, poisonHash: string): Planned {
    var poisoned := Hit(position, f.poisonEvery);
    Planned(if poisoned then r.(payloadB64 := POISON_B64, payloadSHA256 := poisonHash) else r,
            IndexOfId(records, r.id), 0, poisoned)
  }

  // What the first n positions of the reordered log produce.
  function PlanOf(records: seq<Record>, ordered: seq<Record>, n: nat, f: Faults, poisonHash: string): seq<Planned>
    requires n <= |ordered|
  {
    if n == 0 then []
    else
      var before := PlanOf(records, ordered, n - 1, f, poisonHash);
      var e := Entry(records, ordered[n - 1], n, f, poisonHash);
      if Hit(n, f.dropEvery) then before
      else if Hit(n, f.duplicateEvery) then before + [e, e.(duplicateIndex := 1)]
      else before + [e]
  }

  function Plan(records: seq<Record>, f: Faults, poisonHash: string): Option<seq<Planned>> {
    if Acceptable(f)
    then Some(PlanOf(records, Windowed(records, f.reorderWindow), |records|, f, poisonHash))
    else None
  }

  lemma {:induction false} IndexOfIdOfPrefix(records: seq<Record>, n: nat, id: string)
    requires n < |records|
    ensures IndexOfId(records[..n + 1], id) == if records[n].id == id then n else IndexOfId(records[..n], id)
  {
    assert records[..n + 1][..n] == records[..n];
  }

  // An id that occurs is found at its last occurrence.
  lemma {:induction false} KnownId(records: seq<Record>, id: string)
    requires exists r :: r in records && r.id == id
    ensures 0 <= IndexOfId(records, id) < |records| && records[IndexOfId(records, id)].id == id
    ensures forall i :: IndexOfId(records, id) < i < |records| ==> records[i].id != id
  {
    var last := |records| - 1;
    if records[last].id != id {
      assert records == records[..last] + [records[last]];
      KnownId(records[..last], id);
    }
  }

  // The fault loop of Plan over the reordered log.
  method PlanOrdered(ghost records: seq<Record>, ordered: array<Record>, indexByID: map<string, int>,
                     f: Faults, poisonHash: string)
    returns (planned: seq<Planned>)
    requires forall r :: r in ordered[..] ==> r.id in indexByID && indexByID[r.id] == IndexOfId(records, r.id)
    ensures planned == PlanOf(records, ordered[..], ordered.Length, f, poisonHash)
  {
    planned := [];
    for orderedIndex := 0 to ordered.Length
      invariant planned == PlanOf(records, ordered[..], orderedIndex, f, poisonHash)
    {
      var record := ordered[orderedIndex];
      var position := orderedIndex + 1;
      assert ordered[..][orderedIndex] == record;
      if f.dropEvery > 0 && position % f.dropEvery == 0 {
        continue;
      }
      var entry := Planned(record, indexByID[record.id], 0, false);
      if f.poisonEvery > 0 && position % f.poisonEvery == 0 {
        entry := entry.(record := record.(payloadB64 := POISON_B64, payloadSHA256 := poisonHash), poisoned := true);
      }
      assert entry == Entry(records, record, position, f, poisonHash);
      planned := planned + [entry];
      if f.duplicateEvery > 0 && position % f.duplicateEvery == 0 {
        planned := planned + [entry.(duplicateIndex := 1)];
      }
    }
  }

  // kafkasim.Plan.
  method MakePlan(records: seq<Record>, f: Faults, poisonHash: string) returns (planned: Option<seq<Planned>>)
    ensures planned == Plan(records, f, poisonHash)
  {
    if f.delay < 0 || f.dropEvery < 0 || f.duplicateEvery < 0 || f.poisonEvery < 0 || f.reorderWindow < 0 {
      return None;
    }
    var ordered := new Record[|records|](i requires 0 <= i < |records| => records[i]);
    assert ordered[..] == records;
    ReorderWindows(ordered, f.reorderWindow);
    var indexByID := IndexByID(records);
    forall r | r in ordered[..]
      ensures r in records
    {
      var i :| 0 <= i < ordered.Length && ordered[..][i] == r;
      RecordKept(records, f.reorderWindow, i);
    }
    var out := PlanOrdered(records, ordered, indexByID, f, poisonHash);
    return Some(out);
  }

  lemma RecordKept(records: seq<Record>, w: nat, i: nat)
    requires i < |records|
    ensures Windowed(records, w)[i] in records
  {}

  method IndexByID(records: seq<Record>) returns (index: map<string, int>)
    ensures forall r :: r in records ==> r.id in index && index[r.id] == IndexOfId(records, r.id)
  {
    index := map[];
    for n := 0 to |records|
      invariant forall r :: r in records[..n] ==> r.id in index
      invariant forall id :: id in index ==> index[id] == IndexOfId(records[..n], id)
    {
      forall id
        ensures IndexOfId(records[..n + 1], id) == if records[n].id == id then n else IndexOfId(records[..n], id)
      {
        IndexOfIdOfPrefix(records, n, id);
      }
      assert records[..n + 1] == records[..n] + [records[n]];
      index := index[records[n].id := n];
    }
    assert records[..|records|] == records;
  }

  // ---------------------------------------------------------------- counting

  function Hits(n: nat, every: int): nat {
    if n == 0 then 0 else Hits(n - 1, every) + if Hit(n, every) then 1 else 0
  }

  function BothHits(n: nat, a: int, b: int): nat {
    if n == 0 then 0 else BothHits(n - 1, a, b) + if Hit(n, a) && Hit(n, b) then 1 else 0
  }

  lemma {:induction false} HitsAreQuotient(n: nat, every: nat)
    requires every > 0
    ensures Hits(n, every) == n / every
  {
    if n == 0 {
      DivUnique(0, every, 0, 0);
    } else {
      HitsAreQuotient(n - 1, every);
      NextQuotient(n, every);
    }
  }

  // The least common multiple, found as the first positive number divisible by both.
  function Lcm(a: nat, b: nat): (l: nat)
    requires a > 0 && b > 0
    ensures l > 0 && l % a == 0 && l % b == 0
    ensures forall m :: 0 < m < l ==> !(m % a == 0 && m % b == 0)
  {
    ProductIsCommon(a, b);
    FirstCommon(a, b, 1)
  }

  function FirstCommon(a: nat, b: nat, from: nat): (l: nat)
    requires a > 0 && b > 0 && 0 < from <= a * b && (a * b) % a == 0 && (a * b) % b == 0
    requires forall m :: 0 < m < from ==> !(m % a == 0 && m % b == 0)
    ensures l > 0 && l % a == 0 && l % b == 0
    ensures forall m :: 0 < m < l ==> !(m % a == 0 && m % b == 0)
    decreases a * b - from
  {
    if from % a == 0 && from % b == 0 then from else FirstCommon(a, b, from + 1)
  }

  lemma ProductIsCommon(a: nat, b: nat)
    requires a > 0 && b > 0
    ensures 0 < a * b && (a * b) % a == 0 && (a * b) % b == 0
  {
    MulAtLeast(a, b);
    assert a * b == b * a;
    MultipleMod(b, a);
    MultipleMod(a, b);
  }

  // What remains of a multiple of a after taking out multiples of a multiple of a.
  lemma RemainderKeepsDivisor(p: nat, l: nat, a: nat)
    requires a > 0 && l > 0 && p % a == 0 && l % a == 0
    ensures (p % l) % a == 0
  {
    var x, y, q := p / a, l / a, p / l;
    assert p == x * a && l == y * a && p == q * l + p % l;
    var qy := q * y;
    assert q * l == qy * a;
    MulMinus(x, qy, a);
    MultipleModInt(x - qy, a);
  }

  lemma MultipleModInt(k: int, a: nat)
    requires a > 0
    ensures (k * a) % a == 0
  {
    DivUnique(k * a, a, k, 0);
  }

  // Multiples of a multiple of a are multiples of a.
  lemma MultiplesOfMultiple(p: nat, l: nat, a: nat)
    requires a > 0 && l > 0 && p % l == 0 && l % a == 0
    ensures p % a == 0
  {
    var q, x := p / l, l / a;
    assert p == q * l && l == x * a;
    TimesAssociates(q, x, a);
    MultipleModInt(q * x, a);
  }

  lemma TimesAssociates(q: int, x: int, a: int)
    ensures q * (x * a) == (q * x) * a
  {}

  lemma CommonMultipleExactly(p: nat, a: nat, b: nat)
    requires a > 0 && b > 0
    ensures p % a == 0 && p % b == 0 <==> p % Lcm(a, b) == 0
  {
    var l := Lcm(a, b);
    if p % a == 0 && p % b == 0 {
      RemainderKeepsDivisor(p, l, a);
      RemainderKeepsDivisor(p, l, b);
    }
    if p % l == 0 {
      MultiplesOfMultiple(p, l, a);
      MultiplesOfMultiple(p, l, b);
    }
  }

  lemma {:induction false} BothHitsAreQuotient(n: nat, a: nat, b: nat)
    requires a > 0 && b > 0
    ensures BothHits(n, a, b) == n / Lcm(a, b)
  {
    BothHitsAreLcmHits(n, a, b);
    HitsAreQuotient(n, Lcm(a, b));
  }

  lemma {:induction false} BothHitsAreLcmHits(n: nat, a: nat, b: nat)
    requires a > 0 && b > 0
    ensures BothHits(n, a, b) == Hits(n, Lcm(a, b))
  {
    if n > 0 {
      BothHitsAreLcmHits(n - 1, a, b);
      CommonMultipleExactly(n, a, b);
    }
  }

  // ---------------------------------------------------------------- accounting

  function Indices(planned: seq<Planned>): set<int> {
    set e | e in planned :: e.originalIndex
  }

  // kafkasim.uniquePlanned.
  method UniquePlanned(planned: seq<Planned>) returns (count: nat)
    ensures count == |Indices(planned)|
  {
    var seen: set<int> := {};
    for n := 0 to |planned|
      invariant seen == Indices(planned[..n])
    {
      assert planned[..n + 1] == planned[..n] + [planned[n]];
      seen := seen + {planned[n].originalIndex};
    }
    assert planned[..|planned|] == planned;
    count := |seen|;
  }

  datatype Accounting = Accounting(loaded: nat, dropped: int, duplicated: int, poisoned: nat)

  function PoisonedCount(planned: seq<Planned>): nat {
    if planned == [] then 0
    else PoisonedCount(planned[..|planned| - 1]) + if planned[|planned| - 1].poisoned then 1 else 0
  }

  // The counters Replay reports before it produces anything.
  method Account(records: seq<Record>, planned: seq<Planned>) returns (result: Accounting)
    ensures result == Accounting(|records|, |records| - |Indices(planned)|,
                                 |planned| - |Indices(planned)|, PoisonedCount(planned))
  {
    var unique := UniquePlanned(planned);
    var poisoned := 0;
    for n := 0 to |planned|
      invariant poisoned == PoisonedCount(planned[..n])
    {
      assert planned[..n + 1][..n] == planned[..n];
      if planned[n].poisoned {
        poisoned := poisoned + 1;
      }
    }
    assert planned[..|planned|] == planned;
    result := Accounting(|records|, |records| - unique, |planned| - unique, poisoned);
  }

  // What message.Load guarantees.
  ghost predicate DistinctIds(records: seq<Record>) {
    forall i, j :: 0 <= i < j < |records| ==> records[i].id != records[j].id
  }

  // Where position n of the reordered log comes from.
  function Source(n: nat, w: nat, total: nat): nat
    requires n < total
  {
    if w <= 1 then n else Mirror(n, w, total)
  }

  lemma SourceFacts(records: seq<Record>, w: nat, n: nat)
    requires n < |records| && DistinctIds(records)
    ensures Source(n, w, |records|) < |records|
    ensures Windowed(records, w)[n] == records[Source(n, w, |records|)]
    ensures IndexOfId(records, Windowed(records, w)[n].id) == Source(n, w, |records|)
  {
    var i := Source(n, w, |records|);
    assert records[i] in records;
    KnownId(records, records[i].id);
    var k := IndexOfId(records, records[i].id);
    assert k == i;
  }

  lemma SourceInjective(n: nat, m: nat, w: nat, total: nat)
    requires n < total && m < total && Source(n, w, total) == Source(m, w, total)
    ensures n == m
  {
    if w > 1 {
      MirrorFacts(n, w, total);
      MirrorFacts(m, w, total);
    }
  }

  // Every planned entry is an original record, at its original index, possibly poisoned.
  lemma {:induction false} EntriesAreOriginals(records: seq<Record>, f: Faults, poisonHash: string, n: nat, e: Planned)
    requires DistinctIds(records) && Acceptable(f) && n <= |records|
    ensures e in PlanOf(records, Windowed(records, f.reorderWindow), n, f, poisonHash) ==>
      && 0 <= e.originalIndex < |records|
      && (exists m :: 0 <= m < n && e.originalIndex == Source(m, f.reorderWindow, |records|))
      && var r := records[e.originalIndex];
        e.record == if e.poisoned then r.(payloadB64 := POISON_B64, payloadSHA256 := poisonHash) else r
  {
    if n > 0 {
      SourceFacts(records, f.reorderWindow, n - 1);
      EntriesAreOriginals(records, f, poisonHash, n - 1, e);
    }
  }

  // Position by position: what is planned is exactly the entries of the positions that
  // are not dropped, each followed by its copy when the duplicate period hits.
  lemma {:induction false} PlannedExactly(records: seq<Record>, ordered: seq<Record>, n: nat, f: Faults,
                                          poisonHash: string, e: Planned)
    requires n <= |ordered|
    ensures e in PlanOf(records, ordered, n, f, poisonHash) <==>
      exists p :: 0 < p <= n && !Hit(p, f.dropEvery)
        && e == Copy(Entry(records, ordered[p - 1], p, f, poisonHash), e.duplicateIndex)
        && (e.duplicateIndex == 0 || (e.duplicateIndex == 1 && Hit(p, f.duplicateEvery)))
  {
    if n > 0 {
      PlannedExactly(records, ordered, n - 1, f, poisonHash, e);
      var entry := Entry(records, ordered[n - 1], n, f, poisonHash);
      assert Copy(entry, 0) == entry;
    }
  }

  function Copy(e: Planned, duplicateIndex: nat): Planned {
    e.(duplicateIndex := duplicateIndex)
  }

  // How many entries the first n positions produce.
  function Offset(n: nat, f: Faults): int {
    n - Hits(n, f.dropEvery) + Hits(n, f.duplicateEvery) - BothHits(n, f.dropEvery, f.duplicateEvery)
  }

  // Order and number of the planned entries: a position that is not dropped puts its entry
  // right behind what the positions before it produced, and a copy behind that when the
  // duplicate period hits; nothing else is planned.
  lemma {:induction false} PlannedAt(records: seq<Record>, ordered: seq<Record>, n: nat, f: Faults,
                                     poisonHash: string, p: nat)
    requires 0 < p <= n <= |ordered|
    ensures var planned := PlanOf(records, ordered, n, f, poisonHash);
      var e := Entry(records, ordered[p - 1], p, f, poisonHash);
      && |planned| == Offset(n, f) && 0 <= Offset(p - 1, f) <= Offset(p, f) <= |planned|
      && planned[Offset(p - 1, f)..Offset(p, f)] ==
        if Hit(p, f.dropEvery) then [] else if Hit(p, f.duplicateEvery) then [e, Copy(e, 1)] else [e]
    decreases n
  {
    PlanLength(records, ordered, n, f, poisonHash);
    PlanLength(records, ordered, p - 1, f, poisonHash);
    PlanLength(records, ordered, p, f, poisonHash);
    var planned := PlanOf(records, ordered, n, f, poisonHash);
    if p < n {
      PlannedAt(records, ordered, n - 1, f, poisonHash, p);
      var before := PlanOf(records, ordered, n - 1, f, poisonHash);
      assert before <= planned;
      assert planned[Offset(p - 1, f)..Offset(p, f)] == before[Offset(p - 1, f)..Offset(p, f)];
    }
  }

  lemma {:induction false} PlanLength(records: seq<Record>, ordered: seq<Record>, n: nat, f: Faults, poisonHash: string)
    requires n <= |ordered|
    ensures |PlanOf(records, ordered, n, f, poisonHash)| == Offset(n, f)
  {
    if n > 0 {
      PlanLength(records, ordered, n - 1, f, poisonHash);
    }
  }

  // The records at the first n positions that are not dropped have pairwise distinct ids.
  ghost predicate KeptIdsDistinct(ordered: seq<Record>, n: nat, f: Faults)
    requires n <= |ordered|
  {
    forall p, q :: 0 < p < q <= n && !Hit(p, f.dropEvery) && !Hit(q, f.dropEvery) ==>
      ordered[p - 1].id != ordered[q - 1].id
  }

  lemma IndexOfIdInjective(records: seq<Record>, a: Record, b: Record)
    requires a in records && b in records
    ensures IndexOfId(records, a.id) == IndexOfId(records, b.id) <==> a.id == b.id
  {
    KnownId(records, a.id);
    KnownId(records, b.id);
  }

  // An original index has been planned exactly when a position kept so far has that id.
  lemma {:induction false} IndexPlannedExactly(records: seq<Record>, ordered: seq<Record>, n: nat, f: Faults,
                                               poisonHash: string, r: Record)
    requires n <= |ordered| && r in records && forall o :: o in ordered ==> o in records
    ensures IndexOfId(records, r.id) in Indices(PlanOf(records, ordered, n, f, poisonHash)) <==>
      exists p :: 0 < p <= n && !Hit(p, f.dropEvery) && ordered[p - 1].id == r.id
    decreases n
  {
    if n > 0 {
      IndexPlannedExactly(records, ordered, n - 1, f, poisonHash, r);
      IndexOfIdInjective(records, ordered[n - 1], r);
      IndicesStep(records, ordered, n, f, poisonHash);
    }
  }

  lemma IndicesStep(records: seq<Record>, ordered: seq<Record>, n: nat, f: Faults, poisonHash: string)
    requires 0 < n <= |ordered|
    ensures Indices(PlanOf(records, ordered, n, f, poisonHash)) ==
      Indices(PlanOf(records, ordered, n - 1, f, poisonHash)) +
      if Hit(n, f.dropEvery) then {} else {IndexOfId(records, ordered[n - 1].id)}
  {
    var before, planned := PlanOf(records, ordered, n - 1, f, poisonHash), PlanOf(records, ordered, n, f, poisonHash);
    var e := Entry(records, ordered[n - 1], n, f, poisonHash);
    if !Hit(n, f.dropEvery) {
      assert e in planned && e.originalIndex in Indices(planned);
      assert forall x :: x in before ==> x in planned;
    }
  }

  ghost predicate KeptBefore(ordered: seq<Record>, n: nat, f: Faults, id: string)
    requires n <= |ordered|
  {
    exists p :: 0 < p <= n && !Hit(p, f.dropEvery) && ordered[p - 1].id == id
  }

  lemma KeptIdsStep(ordered: seq<Record>, n: nat, f: Faults)
    requires 0 < n <= |ordered|
    ensures KeptIdsDistinct(ordered, n, f) <==>
      KeptIdsDistinct(ordered, n - 1, f) && (Hit(n, f.dropEvery) || !KeptBefore(ordered, n - 1, f, ordered[n - 1].id))
  {}

  // The distinct indexes are as many as the kept positions exactly when the ids there differ.
  lemma {:induction false} DistinctIndicesExactly(records: seq<Record>, ordered: seq<Record>, n: nat,
      f: Faults, poisonHash: string)
    requires n <= |ordered| && forall o :: o in ordered ==> o in records
    ensures var found := |Indices(PlanOf(records, ordered, n, f, poisonHash))|;
      found <= n - Hits(n, f.dropEvery) && (found == n - Hits(n, f.dropEvery) <==> KeptIdsDistinct(ordered, n, f))
    decreases n
  {
    if n > 0 {
      var last := ordered[n - 1];
      DistinctIndicesExactly(records, ordered, n - 1, f, poisonHash);
      IndicesStep(records, ordered, n, f, poisonHash);
      KeptIdsStep(ordered, n, f);
      assert last in ordered;
      assert IndexOfId(records, last.id) in Indices(PlanOf(records, ordered, n - 1, f, poisonHash)) <==>
          KeptBefore(ordered, n - 1, f, last.id) by {
        IndexPlannedExactly(records, ordered, n - 1, f, poisonHash, last);
      }
    }
  }

  function AllHits(n: nat, a: int, b: int, c: int): nat {
    if n == 0 then 0 else AllHits(n - 1, a, b, c) + if Hit(n, a) && Hit(n, b) && Hit(n, c) then 1 else 0
  }

  lemma {:induction false} AllHitsAreQuotient(n: nat, a: nat, b: nat, c: nat)
    requires a > 0 && b > 0 && c > 0
    ensures AllHits(n, a, b, c) == n / Lcm(Lcm(a, b), c)
  {
    AllHitsAreBothHits(n, a, b, c);
    BothHitsAreQuotient(n, Lcm(a, b), c);
  }

  lemma {:induction false} AllHitsAreBothHits(n: nat, a: nat, b: nat, c: nat)
    requires a > 0 && b > 0
    ensures AllHits(n, a, b, c) == BothHits(n, Lcm(a, b), c)
  {
    if n > 0 {
      AllHitsAreBothHits(n - 1, a, b, c);
      CommonMultipleExactly(n, a, b);
    }
  }

  // Poisoned entries: the kept positions the poison period hits, and again those the
  // duplicate period hits as well.
  lemma {:induction false} PoisonedExactly(records: seq<Record>, ordered: seq<Record>, n: nat, f: Faults,
                                           poisonHash: string)
    requires n <= |ordered|
    ensures PoisonedCount(PlanOf(records, ordered, n, f, poisonHash)) ==
      Hits(n, f.poisonEvery) - BothHits(n, f.dropEvery, f.poisonEvery) +
      BothHits(n, f.poisonEvery, f.duplicateEvery) - AllHits(n, f.dropEvery, f.poisonEvery, f.duplicateEvery)
  {
    if n > 0 {
      PoisonedExactly(records, ordered, n - 1, f, poisonHash);
      var before := PlanOf(records, ordered, n - 1, f, poisonHash);
      var e := Entry(records, ordered[n - 1], n, f, poisonHash);
      PoisonedStep(before, e);
      PoisonedStep(before + [e], e.(duplicateIndex := 1));
      assert before + [e, e.(duplicateIndex := 1)] == before + [e] + [e.(duplicateIndex := 1)];
    }
  }

  lemma PoisonedStep(before: seq<Planned>, e: Planned)
    ensures PoisonedCount(before + [e]) == PoisonedCount(before) + if e.poisoned then 1 else 0
  {
    assert (before + [e])[..|before|] == before;
  }

  // ---------------------------------------------------------------- the counters in closed form

  function Quotient(n: nat, every: int): nat {
    if every <= 0 then 0 else n / every
  }

  function CommonQuotient(n: nat, a: int, b: int): nat {
    if a <= 0 || b <= 0 then 0 else n / Lcm(a, b)
  }

  function TripleQuotient(n: nat, a: int, b: int, c: int): nat {
    if a <= 0 || b <= 0 || c <= 0 then 0 else n / Lcm(Lcm(a, b), c)
  }

  lemma HitsExactly(n: nat, every: int)
    ensures Hits(n, every) == Quotient(n, every)
  {
    if every > 0 {
      HitsAreQuotient(n, every);
    } else {
      NoHits(n, every, every, every);
    }
  }

  lemma BothHitsExactly(n: nat, a: int, b: int)
    ensures BothHits(n, a, b) == CommonQuotient(n, a, b)
  {
    if a > 0 && b > 0 {
      BothHitsAreQuotient(n, a, b);
    } else {
      NoHits(n, a, b, b);
    }
  }

  lemma AllHitsExactly(n: nat, a: int, b: int, c: int)
    ensures AllHits(n, a, b, c) == TripleQuotient(n, a, b, c)
  {
    if a > 0 && b > 0 && c > 0 {
      AllHitsAreQuotient(n, a, b, c);
    } else {
      NoHits(n, a, b, c);
    }
  }

  lemma {:induction false} NoHits(n: nat, a: int, b: int, c: int)
    ensures a <= 0 ==> Hits(n, a) == 0
    ensures a <= 0 || b <= 0 ==> BothHits(n, a, b) == 0
    ensures a <= 0 || b <= 0 || c <= 0 ==> AllHits(n, a, b, c) == 0
  {
    if n > 0 {
      NoHits(n - 1, a, b, c);
    }
  }

  // Whatever the ids and the window: the plan has n - n/D + n/U - n/lcm(D,U) entries, of
  // which n/P - n/lcm(D,P) + n/lcm(P,U) - n/lcm(D,P,U) are poisoned; a period of zero
  // contributes nothing.
  lemma PlanSize(records: seq<Record>, f: Faults, poisonHash: string)
    requires Acceptable(f)
    ensures var n, planned := |records|, Plan(records, f, poisonHash).value;
      && |planned| == n - Quotient(n, f.dropEvery) + Quotient(n, f.duplicateEvery) -
           CommonQuotient(n, f.dropEvery, f.duplicateEvery)
      && PoisonedCount(planned) == Quotient(n, f.poisonEvery) - CommonQuotient(n, f.dropEvery, f.poisonEvery) +
           CommonQuotient(n, f.poisonEvery, f.duplicateEvery) -
           TripleQuotient(n, f.dropEvery, f.poisonEvery, f.duplicateEvery)
  {
    var n, ordered := |records|, Windowed(records, f.reorderWindow);
    PlanLength(records, ordered, n, f, poisonHash);
    PoisonedExactly(records, ordered, n, f, poisonHash);
    HitsExactly(n, f.dropEvery);
    HitsExactly(n, f.duplicateEvery);
    HitsExactly(n, f.poisonEvery);
    BothHitsExactly(n, f.dropEvery, f.duplicateEvery);
    BothHitsExactly(n, f.dropEvery, f.poisonEvery);
    BothHitsExactly(n, f.poisonEvery, f.duplicateEvery);
    AllHitsExactly(n, f.dropEvery, f.poisonEvery, f.duplicateEvery);
  }

  // The counters say n/D dropped and n/U - n/lcm(D,U) duplicated exactly when the ids at
  // the positions that are not dropped are pairwise distinct.
  lemma CountersExactly(records: seq<Record>, f: Faults, poisonHash: string)
    requires Acceptable(f)
    ensures var n, planned := |records|, Plan(records, f, poisonHash).value;
      var both := CommonQuotient(n, f.dropEvery, f.duplicateEvery);
      n - |Indices(planned)| == Quotient(n, f.dropEvery) &&
      |planned| - |Indices(planned)| == Quotient(n, f.duplicateEvery) - both
      <==> KeptIdsDistinct(Windowed(records, f.reorderWindow), n, f)
  {
    var n, ordered := |records|, Windowed(records, f.reorderWindow);
    forall o | o in ordered
      ensures o in records
    {
      var i :| 0 <= i < n && ordered[i] == o;
      RecordKept(records, f.reorderWindow, i);
    }
    DistinctIndicesExactly(records, ordered, n, f, poisonHash);
    HitsExactly(n, f.dropEvery);
    PlanSize(records, f, poisonHash);
  }

  // For records as message.Load returns them, with distinct ids, that is always so.
  lemma FaultArithmetic(records: seq<Record>, f: Faults, poisonHash: string)
    requires DistinctIds(records) && Acceptable(f)
    ensures var n, planned := |records|, Plan(records, f, poisonHash).value;
      var both := CommonQuotient(n, f.dropEvery, f.duplicateEvery);
      && |planned| == n - Quotient(n, f.dropEvery) + Quotient(n, f.duplicateEvery) - both
      && n - |Indices(planned)| == Quotient(n, f.dropEvery)
      && |planned| - |Indices(planned)| == Quotient(n, f.duplicateEvery) - both
  {
    var n, ordered := |records|, Windowed(records, f.reorderWindow);
    forall i, j | 0 <= i < j < n
      ensures ordered[i].id != ordered[j].id
    {
      SourceFacts(records, f.reorderWindow, i);
      SourceFacts(records, f.reorderWindow, j);
      if ordered[i].id == ordered[j].id {
        SourceInjective(i, j, f.reorderWindow, n);
      }
    }
    PlanSize(records, f, poisonHash);
    CountersExactly(records, f, poisonHash);
  }

  // Why ids have to be distinct: two records with one id, both produced, count as one
  // dropped and one duplicated. message.Load refuses such a log.
  lemma SharedIdsMisreport(r: Record, poisonHash: string)
    ensures var planned := Plan([r, r], Faults(0, 0, 0, 0, 0), poisonHash).value;
      |planned| == 2 && |Indices(planned)| == 1
  {
    var f := Faults(0, 0, 0, 0, 0);
    var records := [r, r];
    assert Windowed(records, 0) == records;
    assert IndexOfId(records, r.id) == 1;
    var e := Planned(r, 1, 0, false);
    assert PlanOf(records, records, 1, f, poisonHash) == [e];
    assert PlanOf(records, records, 2, f, poisonHash) == [e, e];
    assert Indices([e, e]) == {1};
  }
}
