// The JSON comparison of matcher.Match: every ignored path is removed from the
// request and from the captured body, in place and in Go's map order, and the two
// remainders are compared.

module IgnoredPaths {
  import opened Wrappers
  import opened Json
  import opened JsonPath
  import opened PathEdit
  import opened JsonHeap

  // One step of the walk of removeJSONPath. A missing member is walked through as null;
  // any other dead end abandons the walk.
  method StepForRemoval(current: Ref, token: Token, ghost t: Tree) returns (next: Option<Ref>)
    requires RefOf(t) == current && Faithful(t)
    ensures match Sub(t, token)
            case None => next.None? || next == Some(Scalar(Null))
            case Some(c) => next == Some(RefOf(c)) && Faithful(c)
  {
    if token.Index? {
      if !current.Slice? || token.index >= current.cells.Length {
        return None;
      }
      return Some(current.cells[token.index]);
    }
    if !current.Object? {
      return None;
    }
    return Some(if token.key in current.cell.members then current.cell.members[token.key] else Scalar(Null));
  }

  ghost function Reached(t: Tree, p: Path): Tree {
    match SubAt(t, p) case None => Leaf(Null) case Some(c) => c
  }

  lemma ReachedStep(t: Tree, p: Path, n: nat)
    requires n < |p| - 1
    ensures var c := Sub(Reached(t, p[..n]), p[n]);
      if c.Some? then Reached(t, p[..n + 1]) == c.value
      else Reached(t, p[..n + 1]) == Leaf(Null) && SubAt(t, p[..|p| - 1]).None?
  {
    assert p[..n + 1] == p[..n] + [p[n]];
    SubAtStep(t, p[..n], p[n]);
    DeadEndStaysDead(t, p, n + 1, |p| - 1);
  }

  // The walk to the container of the last token.
  method WalkForRemoval(d: Document, tokens: Path) returns (parent: Option<Ref>)
    requires d.Valid() && tokens != []
    ensures match SubAt(d.tree, tokens[..|tokens| - 1])
            case None => parent.None? || parent == Some(Scalar(Null))
            case Some(t) => parent == Some(RefOf(t)) && Faithful(t)
  {
    var current := d.root;
    for n := 0 to |tokens| - 1
      invariant RefOf(Reached(d.tree, tokens[..n])) == current && Faithful(Reached(d.tree, tokens[..n]))
    {
      var next := StepForRemoval(current, tokens[n], Reached(d.tree, tokens[..n]));
      ReachedStep(d.tree, tokens, n);
      if next.None? {
        return None;
      }
      current := next.value;
    }
    return Some(current);
  }

  // Its last step: null an element, or delete a member.
  method RemoveFrom(parent: Ref, last: Token, ghost t: Tree)
    requires RefOf(t) == parent && Shallow(t)
    modifies Node(t)
    ensures Shallow(TreeEdit(t, [last], Delete, Null))
  {
    if last.Index? {
      if parent.Slice? && last.index < parent.cells.Length {
        parent.cells[last.index] := Scalar(Null);
      }
    } else if parent.Object? {
      parent.cell.members := parent.cell.members - {last.key};
    }
  }

  function Removed(v: JSON, path: string): JSON {
    match ParsePath(path)
    case None => v
    case Some(p) => EditAt(v, p, Delete, Null)
  }

  // matcher.removeJSONPath.
  method RemoveJSONPath(d: Document, path: string)
    requires d.Valid()
    modifies d, d.Repr
    ensures d.Valid() && d.Repr <= old(d.Repr)
    ensures d.Contents() == Removed(old(d.Contents()), path)
  {
    var parsed := ParseJSONPath(path);
    if parsed.None? || parsed.value == [] {
      return;
    }
    var tokens := parsed.value;
    ghost var q := tokens[..|tokens| - 1];
    var parent := WalkForRemoval(d, tokens);
    ghost var holder := if SubAt(d.tree, q).Some? then SubAt(d.tree, q).value else Leaf(Null);
    if SubAt(d.tree, q).Some? {
      FaithfulIsFaithfulBut(d.tree, q);
    }
    if parent.Some? {
      RemoveFrom(parent.value, tokens[|tokens| - 1], holder);
    }
    assert SubAt(d.tree, q).None? ==> Faithful(d.tree);
    assert SubAt(d.tree, q).Some? ==> FaithfulBut(d.tree, q);
    d.Settle(tokens, Delete, Null);
  }

  // The removals a list of path texts stands for; a text that does not parse removes nothing.
  function Removals(paths: seq<string>): seq<Edit> {
    if paths == [] then []
    else match ParsePath(paths[0])
      case None => Removals(paths[1..])
      case Some(p) => [Edit(p, Delete)] + Removals(paths[1..])
  }

  function Ignored(paths: seq<string>): set<Path> {
    set s | s in paths && ParsePath(s).Some? :: ParsePath(s).value
  }

  // The two bodies are the same everywhere outside the ignored locations.
  ghost predicate EqualIgnoring(a: JSON, b: JSON, ignored: set<Path>) {
    forall loc :: !Governed(loc, ignored) ==> SameAt(Lookup(a, loc), Lookup(b, loc))
  }

  lemma {:induction false} RemovalsPaths(paths: seq<string>)
    ensures PathsOf(Removals(paths), Delete) == Ignored(paths)
    ensures PathsOf(Removals(paths), Replace) == {}
  {
    if paths != [] {
      RemovalsPaths(paths[1..]);
      assert paths == [paths[0]] + paths[1..];
      match ParsePath(paths[0])
      case None =>
        assert Ignored(paths) == Ignored(paths[1..]);
      case Some(p) =>
        assert Removals(paths)[1..] == Removals(paths[1..]);
        PathsOfSplit(Removals(paths), Delete);
        PathsOfSplit(Removals(paths), Replace);
        assert Ignored(paths) == Ignored(paths[1..]) + {p};
    }
  }

  // Removing the listed paths from both bodies leaves equal remainders exactly when
  // the bodies agree, shape for shape, at every location not at or below one of them.
  lemma IgnoringMeansAgreeingElsewhere(a: JSON, b: JSON, paths: seq<string>)
    ensures EditAll(a, Removals(paths), Null) == EditAll(b, Removals(paths), Null)
       <==> EqualIgnoring(a, b, Ignored(paths))
  {
    EditAllIsScrub(a, Removals(paths), Null);
    EditAllIsScrub(b, Removals(paths), Null);
    RemovalsPaths(paths);
    EqualScrubsExactly(a, b, Ignored(paths), {}, Null);
    assert Ignored(paths) + {} == Ignored(paths);
    assert forall loc :: LooksAlike(a, b, Ignored(paths), {}, loc) <==>
        (!Governed(loc, Ignored(paths)) ==> SameAt(Lookup(a, loc), Lookup(b, loc)));
  }

  // The remainder depends only on which texts are listed, not on their order or multiplicity.
  lemma RemovalOrderDoesNotMatter(v: JSON, paths: seq<string>, others: seq<string>)
    requires forall s :: s in paths <==> s in others
    ensures EditAll(v, Removals(paths), Null) == EditAll(v, Removals(others), Null)
  {
    EditAllIsScrub(v, Removals(paths), Null);
    EditAllIsScrub(v, Removals(others), Null);
    RemovalsPaths(paths);
    RemovalsPaths(others);
    assert Ignored(paths) == Ignored(others);
  }

  // Ignoring more can only make more bodies equal.
  lemma IgnoringMoreIsWeaker(a: JSON, b: JSON, paths: seq<string>, more: seq<string>)
    requires forall s :: s in paths ==> s in more
    requires EditAll(a, Removals(paths), Null) == EditAll(b, Removals(paths), Null)
    ensures EditAll(a, Removals(more), Null) == EditAll(b, Removals(more), Null)
  {
    IgnoringMeansAgreeingElsewhere(a, b, paths);
    IgnoringMeansAgreeingElsewhere(a, b, more);
    assert Ignored(paths) <= Ignored(more);
    assert forall loc :: Governed(loc, Ignored(paths)) ==> Governed(loc, Ignored(more));
  }

  lemma EqualIgnoringIsEquivalence(a: JSON, b: JSON, c: JSON, paths: seq<string>)
    ensures EqualIgnoring(a, a, Ignored(paths))
    ensures EqualIgnoring(a, b, Ignored(paths)) ==> EqualIgnoring(b, a, Ignored(paths))
    ensures EqualIgnoring(a, b, Ignored(paths)) && EqualIgnoring(b, c, Ignored(paths)) ==>
      EqualIgnoring(a, c, Ignored(paths))
  {
    IgnoringMeansAgreeingElsewhere(a, a, paths);
    IgnoringMeansAgreeingElsewhere(a, b, paths);
    IgnoringMeansAgreeingElsewhere(b, a, paths);
    IgnoringMeansAgreeingElsewhere(b, c, paths);
    IgnoringMeansAgreeingElsewhere(a, c, paths);
  }

  // What remains of a document once all the listed paths have been removed.
  function Pending(v: JSON, paths: seq<string>): JSON {
    EditAll(v, Removals(paths), Null)
  }

  lemma PendingStep(v: JSON, paths: seq<string>)
    requires paths != []
    ensures Pending(v, paths) == Pending(Removed(v, paths[0]), paths[1..])
  {
    if ParsePath(paths[0]).Some? {
      assert Removals(paths)[1..] == Removals(paths[1..]);
    }
  }

  // One turn of the comparison's loop.
  method RemoveFromBoth(request: Document, expected: Document, path: string)
    requires request.Valid() && expected.Valid()
    requires {request} + request.Repr !! {expected} + expected.Repr
    modifies request, request.Repr, expected, expected.Repr
    ensures request.Valid() && expected.Valid()
    ensures request.Repr <= old(request.Repr) && expected.Repr <= old(expected.Repr)
    ensures request.Contents() == Removed(old(request.Contents()), path)
    ensures expected.Contents() == Removed(old(expected.Contents()), path)
  {
    RemoveJSONPath(request, path);
    RemoveJSONPath(expected, path);
  }

  // The comparison itself: edit both documents in place, path by path, then compare.
  method EqualAfterRemoving(request: Document, expected: Document, ignored: seq<string>) returns (equal: bool)
    requires request.Valid() && expected.Valid()
    requires {request} + request.Repr !! {expected} + expected.Repr
    modifies request, request.Repr, expected, expected.Repr
    ensures equal <==> EqualIgnoring(old(request.Contents()), old(expected.Contents()), Ignored(ignored))
  {
    ghost var a, b := request.Contents(), expected.Contents();
    IgnoringMeansAgreeingElsewhere(a, b, ignored);
    assert ignored[0..] == ignored;
    for n := 0 to |ignored|
      invariant request.Valid() && expected.Valid()
      invariant request.Repr <= old(request.Repr) && expected.Repr <= old(expected.Repr)
      invariant Pending(request.Contents(), ignored[n..]) == Pending(a, ignored)
      invariant Pending(expected.Contents(), ignored[n..]) == Pending(b, ignored)
    {
      PendingStep(request.Contents(), ignored[n..]);
      PendingStep(expected.Contents(), ignored[n..]);
      assert ignored[n..][1..] == ignored[n + 1..];
      RemoveFromBoth(request, expected, ignored[n]);
    }
    assert ignored[|ignored|..] == [];
    var left := Snapshot(request.root, request.tree);
    var right := Snapshot(expected.root, expected.tree);
    equal := left == right;
  }

  // ---------------------------------------------------------------- which location a text stands for

  // The texts stand for the locations ps, one by one.
  predicate StandFor(paths: seq<string>, ps: seq<Path>) {
    |paths| == |ps| && forall i :: 0 <= i < |ps| ==> CleanPath(ps[i]) && paths[i] == PrintPath(ps[i])
  }

  // The location is at or below one of ps. The root ignores nothing.
  ghost predicate AtOrBelow(loc: Path, ps: seq<Path>) {
    exists i :: 0 <= i < |ps| && ps[i] != [] && ps[i] <= loc
  }

  lemma IgnoredLocations(paths: seq<string>, ps: seq<Path>, loc: Path)
    requires StandFor(paths, ps)
    ensures Governed(loc, Ignored(paths)) <==> AtOrBelow(loc, ps)
  {
    if Governed(loc, Ignored(paths)) {
      var p :| p in Ignored(paths) && p != [] && p <= loc;
      var s :| s in paths && ParsePath(s) == Some(p);
      var i :| 0 <= i < |paths| && paths[i] == s;
      ParsePrintRoundTrip(ps[i]);
    }
    if AtOrBelow(loc, ps) {
      var i :| 0 <= i < |ps| && ps[i] != [] && ps[i] <= loc;
      ParsePrintRoundTrip(ps[i]);
      assert paths[i] in paths && ps[i] in Ignored(paths);
    }
  }

  // With canonical texts: bodies compare equal exactly when they have the same shape at
  // every location not at or below one of the locations the texts stand for.
  lemma IgnoringNamedLocations(a: JSON, b: JSON, paths: seq<string>, ps: seq<Path>)
    requires StandFor(paths, ps)
    ensures EqualIgnoring(a, b, Ignored(paths)) <==>
      forall loc :: !AtOrBelow(loc, ps) ==> SameAt(Lookup(a, loc), Lookup(b, loc))
  {
    forall loc: Path
      ensures Governed(loc, Ignored(paths)) <==> AtOrBelow(loc, ps)
    {
      IgnoredLocations(paths, ps, loc);
    }
  }

  // One removal, as removeJSONPath leaves the document: a member is gone, an element is
  // null, nothing is left below, and every other location keeps its shape.
  lemma RemovalActsAtItsLocation(v: JSON, p: Path, loc: Path)
    requires CleanPath(p) && p != []
    ensures var after := Removed(v, PrintPath(p));
      && (!(p <= loc) ==> SameAt(Lookup(after, loc), Lookup(v, loc)))
      && (p[|p| - 1].Key? ==> Lookup(after, p).None?)
      && (p[|p| - 1].Index? ==> Lookup(after, p) == if Lookup(v, p).Some? then Some(Null) else None)
      && (p <= loc && p != loc ==> Lookup(after, loc).None?)
  {
    ParsePrintRoundTrip(p);
    var edits := [Edit(p, Delete)];
    assert edits[1..] == [];
    assert EditAll(EditAt(v, p, Delete, Null), [], Null) == EditAt(v, p, Delete, Null);
    EditAllIsScrub(v, edits, Null);
    assert PathsOf(edits, Delete) == {p} by {
      assert edits[0] in edits;
    }
    assert PathsOf(edits, Replace) == {};
    OnlyGovernedBelow(p, loc);
    OnlyGovernedBelow(p, p);
    OnlyGovernedBelow(p, p[..|p| - 1]);
    if loc != [] {
      OnlyGovernedBelow(p, loc[..|loc| - 1]);
    }
    ScrubAt(v, {p}, {}, Null, loc);
    ScrubAt(v, {p}, {}, Null, p);
    assert {p} + {} == {p};
  }

  lemma OnlyGovernedBelow(p: Path, loc: Path)
    requires p != []
    ensures Governed(loc, {p}) <==> p <= loc
  {
    if p <= loc {
      assert p in {p};
    }
  }
}
