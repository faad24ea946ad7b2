// The JSON part of a privacy policy: each rule redacts or drops one location of
// the decoded body, in place, one rule after another.

module Privacy {
  import opened Wrappers
  import opened Json
  import opened JsonPath
  import opened PathEdit
  import opened JsonHeap

  datatype RuleAction = Redact | Drop

  datatype JSONRule = JSONRule(path: string, action: RuleAction)

  const REDACTED := Str("[REDACTED]")

  // The tokens privacy.parsePath finds: paths that start at a root array are refused.
  function RulePath(path: string): Option<Path> {
    if path == "$" || HasPrefix(path, "$.") then ParsePath(path) else None
  }

  function EditOf(rule: RuleAction): Action {
    if rule.Drop? then Delete else Replace
  }

  function Ruled(v: JSON, rule: JSONRule): JSON {
    match RulePath(rule.path)
    case None => v
    case Some(p) => EditAt(v, p, EditOf(rule.action), REDACTED)
  }

  // The walk of applyJSONRule to the container of the last token: it stops at
  // anything that is missing.
  method WalkForRule(d: Document, parts: Path) returns (parent: Option<Ref>)
    requires d.Valid() && parts != []
    ensures match SubAt(d.tree, parts[..|parts| - 1])
            case None => parent.None?
            case Some(t) => parent == Some(RefOf(t)) && Faithful(t)
  {
    var current := d.root;
    for n := 0 to |parts| - 1
      invariant SubAt(d.tree, parts[..n]).Some?
      invariant RefOf(SubAt(d.tree, parts[..n]).value) == current && Faithful(SubAt(d.tree, parts[..n]).value)
    {
      var part := parts[n];
      SubAtStep(d.tree, parts[..n], part);
      assert parts[..n + 1] == parts[..n] + [part];
      DeadEndStaysDead(d.tree, parts, n + 1, |parts| - 1);
      if part.Index? {
        if !current.Slice? || part.index >= current.cells.Length {
          return None;
        }
        current := current.cells[part.index];
      } else {
        if !current.Object? || part.key !in current.cell.members {
          return None;
        }
        current := current.cell.members[part.key];
      }
    }
    return Some(current);
  }

  // The last step of applyJSONRule.
  method ApplyToMember(parent: Ref, last: Token, action: RuleAction, ghost t: Tree)
    requires RefOf(t) == parent && Shallow(t)
    modifies Node(t)
    ensures Shallow(TreeEdit(t, [last], EditOf(action), REDACTED))
  {
    if last.Index? {
      if !parent.Slice? || last.index >= parent.cells.Length {
        return;
      }
      parent.cells[last.index] := Scalar(REDACTED);
      return;
    }
    if !parent.Object? || last.key !in parent.cell.members {
      return;
    }
    match action
    case Drop =>
      parent.cell.members := parent.cell.members - {last.key};
    case Redact =>
      parent.cell.members := parent.cell.members[last.key := Scalar(REDACTED)];
  }

  // privacy.applyJSONRule.
  method ApplyJSONRule(d: Document, rule: JSONRule)
    requires d.Valid()
    modifies d, d.Repr
    ensures d.Valid() && d.Repr <= old(d.Repr)
    ensures d.Contents() == Ruled(old(d.Contents()), rule)
  {
    var parsed := PrivacyParsePath(rule.path);
    if parsed.None? || parsed.value == [] {
      return;
    }
    var parts := parsed.value;
    ghost var q := parts[..|parts| - 1];
    var parent := WalkForRule(d, parts);
    if parent.Some? {
      FaithfulIsFaithfulBut(d.tree, q);
      ApplyToMember(parent.value, parts[|parts| - 1], rule.action, SubAt(d.tree, q).value);
    }
    d.Settle(parts, EditOf(rule.action), REDACTED);
  }

  // The edits a list of rules stands for.
  function RuleEdits(rules: seq<JSONRule>): seq<Edit> {
    if rules == [] then []
    else match RulePath(rules[0].path)
      case None => RuleEdits(rules[1..])
      case Some(p) => [Edit(p, EditOf(rules[0].action))] + RuleEdits(rules[1..])
  }

  // The body after the whole policy.
  function Sanitized(v: JSON, rules: seq<JSONRule>): JSON {
    EditAll(v, RuleEdits(rules), REDACTED)
  }

  lemma SanitizedStep(v: JSON, rules: seq<JSONRule>)
    requires rules != []
    ensures Sanitized(v, rules) == Sanitized(Ruled(v, rules[0]), rules[1..])
  {
    if RulePath(rules[0].path).Some? {
      assert RuleEdits(rules)[1..] == RuleEdits(rules[1..]);
    }
  }

  // The loop of ApplyBody, from the decoded body to the value that is encoded again.
  method ApplyRules(d: Document, rules: seq<JSONRule>) returns (body: JSON)
    requires d.Valid()
    modifies d, d.Repr
    ensures d.Valid() && d.Repr <= old(d.Repr)
    ensures body == d.Contents() == Sanitized(old(d.Contents()), rules)
  {
    ghost var before := d.Contents();
    assert rules[0..] == rules;
    for n := 0 to |rules|
      invariant d.Valid() && d.Repr <= old(d.Repr)
      invariant Sanitized(d.Contents(), rules[n..]) == Sanitized(before, rules)
    {
      SanitizedStep(d.Contents(), rules[n..]);
      assert rules[n..][1..] == rules[n + 1..];
      ApplyJSONRule(d, rules[n]);
    }
    assert rules[|rules|..] == [];
    body := Snapshot(d.root, d.tree);
  }

  // privacy.Policy.ApplyBody; None is the error for a body that is not JSON. Without rules
  // or without a body nothing is decoded, and the text is returned as it is.
  method ApplyBody(policy: Option<seq<JSONRule>>, body: string, decode: string -> Option<JSON>, encode: JSON -> string)
    returns (r: Option<string>)
    ensures r ==
      if policy.None? || policy.value == [] || body == "" then Some(body)
      else match decode(body)
        case None => None
        case Some(v) => Some(encode(Sanitized(v, policy.value)))
  {
    if policy.None? || |policy.value| == 0 || |body| == 0 {
      return Some(body);
    }
    var value := decode(body);
    if value.None? {
      return None;
    }
    var document := Decode(value.value);
    var sanitized := ApplyRules(document, policy.value);
    return Some(encode(sanitized));
  }

  // ---------------------------------------------------------------- what a policy guarantees

  function RulePaths(rules: seq<JSONRule>, action: RuleAction): set<Path> {
    set r | r in rules && r.action == action && RulePath(r.path).Some? :: RulePath(r.path).value
  }

  lemma {:induction false} RuleEditPaths(rules: seq<JSONRule>, action: RuleAction)
    ensures PathsOf(RuleEdits(rules), EditOf(action)) == RulePaths(rules, action)
  {
    if rules != [] {
      var r := rules[0];
      RuleEditPaths(rules[1..], action);
      assert rules == [r] + rules[1..];
      match RulePath(r.path)
      case None =>
        assert RulePaths(rules, action) == RulePaths(rules[1..], action);
      case Some(p) =>
        assert RuleEdits(rules)[1..] == RuleEdits(rules[1..]);
        PathsOfSplit(RuleEdits(rules), EditOf(action));
        assert RulePaths(rules, action) == Added(RulePaths(rules[1..], action), p, r.action == action);
    }
  }

  // A policy is one projection of the body, given by its dropped and its redacted paths.
  lemma PolicyIsProjection(v: JSON, rules: seq<JSONRule>)
    ensures Sanitized(v, rules) == Scrub(v, RulePaths(rules, Drop), RulePaths(rules, Redact), REDACTED)
  {
    EditAllIsScrub(v, RuleEdits(rules), REDACTED);
    RuleEditPaths(rules, Drop);
    RuleEditPaths(rules, Redact);
  }

  lemma RuleOrderDoesNotMatter(v: JSON, rules: seq<JSONRule>, others: seq<JSONRule>)
    requires forall r :: r in rules <==> r in others
    ensures Sanitized(v, rules) == Sanitized(v, others)
  {
    PolicyIsProjection(v, rules);
    PolicyIsProjection(v, others);
    assert RulePaths(rules, Drop) == RulePaths(others, Drop);
    assert RulePaths(rules, Redact) == RulePaths(others, Redact);
  }

  lemma SanitizingIsIdempotent(v: JSON, rules: seq<JSONRule>)
    ensures Sanitized(Sanitized(v, rules), rules) == Sanitized(v, rules)
  {
    EditAllIdempotent(v, RuleEdits(rules), REDACTED);
  }

  function Governing(rules: seq<JSONRule>): set<Path> {
    RulePaths(rules, Drop) + RulePaths(rules, Redact)
  }

  // Location by location: outside every rule the shape is kept; a redacted location
  // that exists holds the marker, a dropped member is gone, a dropped element holds the
  // marker, and nothing is left below.
  lemma SanitizedAt(v: JSON, rules: seq<JSONRule>, loc: Path)
    ensures !Governed(loc, Governing(rules)) ==> SameAt(Lookup(Sanitized(v, rules), loc), Lookup(v, loc))
    ensures Governed(loc, Governing(rules)) ==>
      Lookup(Sanitized(v, rules), loc) ==
        if loc in Governing(rules) && !Governed(loc[..|loc| - 1], Governing(rules)) && Lookup(v, loc).Some?
           && (loc in RulePaths(rules, Drop) ==> loc[|loc| - 1].Index?)
        then Some(REDACTED) else None
  {
    PolicyIsProjection(v, rules);
    ScrubAt(v, RulePaths(rules, Drop), RulePaths(rules, Redact), REDACTED, loc);
  }

  // Exactly what the sanitized body still reveals about the original.
  lemma SanitizedEqualExactly(v: JSON, w: JSON, rules: seq<JSONRule>)
    ensures Sanitized(v, rules) == Sanitized(w, rules)
       <==> forall loc :: LooksAlike(v, w, RulePaths(rules, Drop), RulePaths(rules, Redact), loc)
  {
    PolicyIsProjection(v, rules);
    PolicyIsProjection(w, rules);
    EqualScrubsExactly(v, w, RulePaths(rules, Drop), RulePaths(rules, Redact), REDACTED);
  }

  // Overwrite whatever is at loc; nothing happens when there is nothing.
  function Overwrite(v: JSON, loc: Path, x: JSON): JSON {
    if loc == [] then x
    else match Child(v, loc[0])
      case None => v
      case Some(c) => WithChild(v, loc[0], Overwrite(c, loc[1..], x))
  }

  lemma {:induction false} ScrubHides(v: JSON, deleted: set<Path>, replaced: set<Path>, loc: Path, x: JSON)
    requires Governed(loc, deleted + replaced)
    ensures Scrub(Overwrite(v, loc, x), deleted, replaced, REDACTED) == Scrub(v, deleted, replaced, REDACTED)
    decreases |loc|
  {
    var t, rest := loc[0], loc[1..];
    assert loc == [t] + rest;
    GovernedBelow(t, rest, deleted + replaced);
    assert Below(deleted + replaced, t) == Below(deleted, t) + Below(replaced, t);
    if Child(v, t).Some? {
      var w := Overwrite(v, loc, x);
      if [t] !in deleted + replaced {
        ScrubHides(Child(v, t).value, Below(deleted, t), Below(replaced, t), rest, x);
      }
      forall tok: Token
        ensures Child(Scrub(w, deleted, replaced, REDACTED), tok) == Child(Scrub(v, deleted, replaced, REDACTED), tok)
      {
        ScrubChild(w, deleted, replaced, REDACTED, tok);
        ScrubChild(v, deleted, replaced, REDACTED, tok);
      }
      ScrubChild(w, deleted, replaced, REDACTED, t);
      ScrubChild(v, deleted, replaced, REDACTED, t);
      SameByChildren(Scrub(w, deleted, replaced, REDACTED), Scrub(v, deleted, replaced, REDACTED));
    }
  }

  // The value stored at a governed location leaves no trace in the sanitized body.
  lemma GovernedValueLeavesNoTrace(v: JSON, rules: seq<JSONRule>, loc: Path, x: JSON)
    requires Governed(loc, Governing(rules))
    ensures Sanitized(Overwrite(v, loc, x), rules) == Sanitized(v, rules)
  {
    PolicyIsProjection(v, rules);
    PolicyIsProjection(Overwrite(v, loc, x), rules);
    ScrubHides(v, RulePaths(rules, Drop), RulePaths(rules, Redact), loc, x);
  }

  // ---------------------------------------------------------------- which location a rule text governs

  // A location that a rule can name: clean, and below an object at the root.
  predicate Addressable(p: Path) {
    CleanPath(p) && p != [] && p[0].Key?
  }

  lemma RuleNamesItsLocation(p: Path)
    requires Addressable(p)
    ensures RulePath(PrintPath(p)) == Some(p)
  {
    ParsePrintRoundTrip(p);
    var path := PrintPath(p);
    assert PrintRest(p)[0] == PrintToken(p[0])[0] == '.';
    assert path[..2] == "$.";
  }

  // The rules name the locations ps, one by one.
  predicate Naming(rules: seq<JSONRule>, ps: seq<Path>) {
    |rules| == |ps| && forall i :: 0 <= i < |ps| ==> Addressable(ps[i]) && rules[i].path == PrintPath(ps[i])
  }

  // One of these locations is at or above loc.
  ghost predicate NamedAbove(ps: seq<Path>, loc: Path) {
    exists i :: 0 <= i < |ps| && ps[i] <= loc
  }

  ghost predicate NamedHere(rules: seq<JSONRule>, ps: seq<Path>, action: RuleAction, loc: Path)
    requires |rules| == |ps|
  {
    exists i :: 0 <= i < |ps| && ps[i] == loc && rules[i].action == action
  }

  lemma NamedPaths(rules: seq<JSONRule>, ps: seq<Path>, action: RuleAction, loc: Path)
    requires Naming(rules, ps)
    ensures loc in RulePaths(rules, action) <==> NamedHere(rules, ps, action, loc)
  {
    if loc in RulePaths(rules, action) {
      var r :| r in rules && r.action == action && RulePath(r.path) == Some(loc);
      var i :| 0 <= i < |rules| && rules[i] == r;
      RuleNamesItsLocation(ps[i]);
    }
    if NamedHere(rules, ps, action, loc) {
      var i :| 0 <= i < |ps| && ps[i] == loc && rules[i].action == action;
      RuleNamesItsLocation(ps[i]);
      assert rules[i] in rules;
    }
  }

  lemma NamedGoverns(rules: seq<JSONRule>, ps: seq<Path>, loc: Path)
    requires Naming(rules, ps)
    ensures Governed(loc, Governing(rules)) <==> NamedAbove(ps, loc)
  {
    if Governed(loc, Governing(rules)) {
      var p :| p in Governing(rules) && p != [] && p <= loc;
      NamedPaths(rules, ps, Drop, p);
      NamedPaths(rules, ps, Redact, p);
      var i :| 0 <= i < |ps| && ps[i] == p;
    }
    if NamedAbove(ps, loc) {
      var i :| 0 <= i < |ps| && ps[i] <= loc;
      NamedPaths(rules, ps, rules[i].action, ps[i]);
      assert NamedHere(rules, ps, rules[i].action, ps[i]);
      assert rules[i].action == Drop || rules[i].action == Redact;
    }
  }

  // A policy written with the canonical texts of locations acts at exactly these
  // locations: elsewhere the shape is kept; at the topmost named location a member that
  // some rule drops is gone, and what is redacted, or an element, holds the marker if
  // there was anything; below it nothing is left.
  lemma PolicyActsAtNamedLocations(v: JSON, rules: seq<JSONRule>, ps: seq<Path>, loc: Path)
    requires Naming(rules, ps)
    ensures !NamedAbove(ps, loc) ==> SameAt(Lookup(Sanitized(v, rules), loc), Lookup(v, loc))
    ensures NamedAbove(ps, loc) ==>
      Lookup(Sanitized(v, rules), loc) ==
        if loc != [] && !NamedAbove(ps, loc[..|loc| - 1]) && Lookup(v, loc).Some?
           && (NamedHere(rules, ps, Drop, loc) ==> loc[|loc| - 1].Index?)
        then Some(Str("[REDACTED]")) else None
  {
    SanitizedAt(v, rules, loc);
    NamedGoverns(rules, ps, loc);
    NamedPaths(rules, ps, Drop, loc);
    NamedPaths(rules, ps, Redact, loc);
    if loc != [] {
      NamedGoverns(rules, ps, loc[..|loc| - 1]);
      if NamedAbove(ps, loc) && !NamedAbove(ps, loc[..|loc| - 1]) {
        var i :| 0 <= i < |ps| && ps[i] <= loc;
        PrefixIsShorter(ps[i], loc);
        assert NamedHere(rules, ps, rules[i].action, loc);
      }
    }
  }

  lemma PrefixIsShorter(p: Path, loc: Path)
    requires p <= loc && loc != []
    ensures p == loc || p <= loc[..|loc| - 1]
  {
    if |p| == |loc| {
      assert p == loc[..|p|];
    }
  }

  // One rule, as applyJSONRule leaves the document.
  lemma RuleActsAtItsLocation(v: JSON, p: Path, action: RuleAction, loc: Path)
    requires Addressable(p)
    ensures var after := Ruled(v, JSONRule(PrintPath(p), action));
      && (!(p <= loc) ==> SameAt(Lookup(after, loc), Lookup(v, loc)))
      && (action.Redact? && Lookup(v, p).Some? ==> Lookup(after, p) == Some(Str("[REDACTED]")))
      && (action.Drop? && p[|p| - 1].Key? ==> Lookup(after, p).None?)
      && (action.Drop? && p[|p| - 1].Index? && Lookup(v, p).Some? ==> Lookup(after, p) == Some(Str("[REDACTED]")))
      && (p <= loc && (p != loc || Lookup(v, p).None?) ==> Lookup(after, loc).None?)
  {
    var rule := JSONRule(PrintPath(p), action);
    var rules, ps := [rule], [p];
    SanitizedStep(v, rules);
    assert rules[1..] == [] && Sanitized(Ruled(v, rule), []) == Ruled(v, rule);
    PolicyActsAtNamedLocations(v, rules, ps, loc);
    PolicyActsAtNamedLocations(v, rules, ps, p);
    assert forall l :: NamedAbove(ps, l) <==> p <= l by {
      forall l
        ensures NamedAbove(ps, l) <==> p <= l
      {
        assert ps[0] == p;
      }
    }
    assert NamedHere(rules, ps, action, p) by {
      assert ps[0] == p && rules[0].action == action;
    }
    BelowMissing(v, p, loc);
  }

  lemma {:induction false} BelowMissing(v: JSON, p: Path, loc: Path)
    ensures p <= loc && Lookup(v, p).None? ==> Lookup(v, loc).None?
    decreases |p|
  {
    if p <= loc && p != [] && Child(v, p[0]).Some? {
      BelowMissing(Child(v, p[0]).value, p[1..], loc[1..]);
    }
  }
}
