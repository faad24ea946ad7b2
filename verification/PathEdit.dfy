// What a list of path edits means. matcher.removeJSONPath and
// privacy.applyJSONRule both walk to one location and edit it in place; a list
// of such edits, applied one after another in whatever order, is shown here to
// be one simultaneous projection of the document (Scrub).

module PathEdit {
  import opened Wrappers
  import opened Json

  // What happens to an object member: deleted, or replaced by the filler.
  // An array element is replaced by the filler in both cases.
  datatype Action = Delete | Replace

  datatype Edit = Edit(path: Path, action: Action)

  function WithChild(v: JSON, t: Token, c: JSON): JSON
    requires Child(v, t).Some?
  {
    match t
    case Key(k) => Obj(v.fields[k := c])
    case Index(i) => Arr(v.items[i := c])
  }

  // One edit. The root has no container to be edited in, so the root path changes nothing.
  function EditAt(v: JSON, p: Path, action: Action, filler: JSON): JSON {
    if p == [] || Child(v, p[0]).None? then v
    else if |p| > 1 then WithChild(v, p[0], EditAt(Child(v, p[0]).value, p[1..], action, filler))
    else if p[0].Key? && action.Delete? then Obj(v.fields - {p[0].key})
    else WithChild(v, p[0], filler)
  }

  // A list of edits, applied in order.
  function EditAll(v: JSON, edits: seq<Edit>, filler: JSON): JSON
    decreases |edits|
  {
    if edits == [] then v
    else EditAll(EditAt(v, edits[0].path, edits[0].action, filler), edits[1..], filler)
  }

  function PathsOf(edits: seq<Edit>, action: Action): set<Path> {
    set e | e in edits && e.action == action :: e.path
  }

  // The paths of s that go through t, seen from below t.
  function Below(s: set<Path>, t: Token): set<Path> {
    set p | p in s && p != [] && p[0] == t :: p[1..]
  }

  // All edits at once, in one pass over the document.
  function Scrub(v: JSON, deleted: set<Path>, replaced: set<Path>, filler: JSON): JSON {
    match v
    case Obj(fields) =>
      Obj(map k | k in fields && [Key(k)] !in deleted ::
            if [Key(k)] in replaced then filler
            else Scrub(fields[k], Below(deleted, Key(k)), Below(replaced, Key(k)), filler))
    case Arr(items) =>
      Arr(seq(|items|, i requires 0 <= i < |items| =>
                if [Index(i)] in deleted + replaced then filler
                else Scrub(items[i], Below(deleted, Index(i)), Below(replaced, Index(i)), filler)))
    case _ => v
  }

  // ---------------------------------------------------------------- documents, one level at a time

  // Two values of one shape: equal scalars, two objects, or arrays of one length.
  predicate SameShape(a: JSON, b: JSON) {
    if a.Obj? then b.Obj?
    else if a.Arr? then b.Arr? && |a.items| == |b.items|
    else a == b
  }

  lemma {:induction false} SameByChildren(a: JSON, b: JSON)
    requires SameShape(a, b)
    requires forall t :: Child(a, t) == Child(b, t)
    ensures a == b
  {
    match a
    case Obj(fields) =>
      forall k: string
        ensures (k in fields <==> k in b.fields) && (k in fields ==> fields[k] == b.fields[k])
      {
        assert Child(a, Key(k)) == Child(b, Key(k));
      }
      assert fields == b.fields;
    case Arr(items) =>
      forall i: nat | i < |items|
        ensures items[i] == b.items[i]
      {
        assert Child(a, Index(i)) == Child(b, Index(i));
      }
    case _ =>
  }

  lemma {:induction false} EditAtChild(v: JSON, p: Path, action: Action, filler: JSON, t: Token)
    ensures SameShape(EditAt(v, p, action, filler), v)
    ensures Child(EditAt(v, p, action, filler), t) ==
      if p == [] || p[0] != t || Child(v, t).None? then Child(v, t)
      else if |p| > 1 then Some(EditAt(Child(v, t).value, p[1..], action, filler))
      else if t.Key? && action.Delete? then None
      else Some(filler)
  {}

  lemma {:induction false} ScrubChild(v: JSON, deleted: set<Path>, replaced: set<Path>, filler: JSON, t: Token)
    ensures SameShape(Scrub(v, deleted, replaced, filler), v)
    ensures Child(Scrub(v, deleted, replaced, filler), t) ==
      if Child(v, t).None? || (t.Key? && [t] in deleted) then None
      else if [t] in deleted + replaced then Some(filler)
      else Some(Scrub(Child(v, t).value, Below(deleted, t), Below(replaced, t), filler))
  {}

  // ---------------------------------------------------------------- a list of edits is one projection

  lemma {:induction false} BelowAdd(s: set<Path>, p: Path, t: Token)
    requires p != []
    ensures Below(s + {p}, t) == if p[0] == t then Below(s, t) + {p[1..]} else Below(s, t)
    ensures [t] in s + {p} <==> [t] in s || (p[0] == t && |p| == 1)
  {
    if p[0] == t {
      assert p in s + {p} && p[1..] in Below(s + {p}, t);
      assert |p| == 1 ==> p == [t];
    }
  }

  function Added(s: set<Path>, p: Path, yes: bool): set<Path> {
    if yes then s + {p} else s
  }

  // Root paths are never looked at.
  lemma {:induction false} ScrubIgnoresRoot(v: JSON, deleted: set<Path>, replaced: set<Path>, d: set<Path>,
                                            r: set<Path>, filler: JSON)
    requires d == deleted || d == deleted + {[]}
    requires r == replaced || r == replaced + {[]}
    ensures Scrub(v, d, r, filler) == Scrub(v, deleted, replaced, filler)
  {
    var left, right := Scrub(v, d, r, filler), Scrub(v, deleted, replaced, filler);
    forall t: Token
      ensures SameShape(left, right) && Child(left, t) == Child(right, t)
    {
      ScrubChild(v, d, r, filler, t);
      ScrubChild(v, deleted, replaced, filler, t);
      assert Below(d, t) == Below(deleted, t) && Below(r, t) == Below(replaced, t);
    }
    assert SameShape(left, right) by { assert Child(left, Index(0)) == Child(right, Index(0)); }
    SameByChildren(left, right);
  }

  // Editing first makes no difference to a projection that covers the edit.
  lemma {:induction false} ScrubAbsorbsEdit(v: JSON, p: Path, action: Action, deleted: set<Path>,
                                            replaced: set<Path>, filler: JSON)
    requires filler.IsScalar()
    ensures Scrub(EditAt(v, p, action, filler), deleted, replaced, filler)
         == Scrub(v, Added(deleted, p, action.Delete?), Added(replaced, p, action.Replace?), filler)
    decreases |p|
  {
    if p == [] {
      ScrubIgnoresRoot(v, deleted, replaced,
                       Added(deleted, p, action.Delete?), Added(replaced, p, action.Replace?), filler);
      return;
    }
    var d, r := Added(deleted, p, action.Delete?), Added(replaced, p, action.Replace?);
    var edited := EditAt(v, p, action, filler);
    var left, right := Scrub(edited, deleted, replaced, filler), Scrub(v, d, r, filler);
    forall t: Token
      ensures SameShape(left, right) && Child(left, t) == Child(right, t)
    {
      EditAtChild(v, p, action, filler, t);
      ScrubChild(edited, deleted, replaced, filler, t);
      ScrubChild(v, d, r, filler, t);
      BelowAdd(deleted, p, t);
      BelowAdd(replaced, p, t);
      if p[0] == t && |p| > 1 && Child(v, t).Some? {
        ScrubAbsorbsEdit(Child(v, t).value, p[1..], action, Below(deleted, t), Below(replaced, t), filler);
      }
    }
    assert SameShape(left, right) by { assert Child(left, Index(0)) == Child(right, Index(0)); }
    SameByChildren(left, right);
  }

  lemma {:induction false} ScrubNothing(v: JSON, filler: JSON)
    ensures Scrub(v, {}, {}, filler) == v
  {
    forall t: Token
      ensures Child(Scrub(v, {}, {}, filler), t) == Child(v, t)
    {
      ScrubChild(v, {}, {}, filler, t);
      assert Below({}, t) == {};
      if Child(v, t).Some? {
        ScrubNothing(Child(v, t).value, filler);
      }
    }
    ScrubChild(v, {}, {}, filler, Index(0));
    SameByChildren(Scrub(v, {}, {}, filler), v);
  }

  lemma {:induction false} PathsOfSplit(edits: seq<Edit>, action: Action)
    requires edits != []
    ensures PathsOf(edits, action) == Added(PathsOf(edits[1..], action), edits[0].path, edits[0].action == action)
  {
    assert edits == [edits[0]] + edits[1..];
  }

  // Applying the edits one by one is the single projection given by the two sets
  // of paths. So neither their order nor repetitions can matter.
  lemma {:induction false} EditAllIsScrub(v: JSON, edits: seq<Edit>, filler: JSON)
    requires filler.IsScalar()
    ensures EditAll(v, edits, filler) == Scrub(v, PathsOf(edits, Delete), PathsOf(edits, Replace), filler)
    decreases |edits|
  {
    if edits == [] {
      assert PathsOf(edits, Delete) == {} == PathsOf(edits, Replace);
      ScrubNothing(v, filler);
    } else {
      var e, rest := edits[0], edits[1..];
      EditAllIsScrub(EditAt(v, e.path, e.action, filler), rest, filler);
      ScrubAbsorbsEdit(v, e.path, e.action, PathsOf(rest, Delete), PathsOf(rest, Replace), filler);
      PathsOfSplit(edits, Delete);
      PathsOfSplit(edits, Replace);
    }
  }

  lemma OrderDoesNotMatter(v: JSON, edits: seq<Edit>, others: seq<Edit>, filler: JSON)
    requires filler.IsScalar()
    requires forall e :: e in edits <==> e in others
    ensures EditAll(v, edits, filler) == EditAll(v, others, filler)
  {
    EditAllIsScrub(v, edits, filler);
    EditAllIsScrub(v, others, filler);
    forall action: Action
      ensures PathsOf(edits, action) == PathsOf(others, action)
    {
    }
  }

  lemma {:induction false} EditAllConcat(v: JSON, edits: seq<Edit>, others: seq<Edit>, filler: JSON)
    ensures EditAll(v, edits + others, filler) == EditAll(EditAll(v, edits, filler), others, filler)
    decreases |edits|
  {
    if edits == [] {
      assert edits + others == others;
    } else {
      assert (edits + others)[1..] == edits[1..] + others;
      EditAllConcat(EditAt(v, edits[0].path, edits[0].action, filler), edits[1..], others, filler);
    }
  }

  lemma EditAllIdempotent(v: JSON, edits: seq<Edit>, filler: JSON)
    requires filler.IsScalar()
    ensures EditAll(EditAll(v, edits, filler), edits, filler) == EditAll(v, edits, filler)
  {
    EditAllConcat(v, edits, edits, filler);
    OrderDoesNotMatter(v, edits + edits, edits, filler);
  }

  // ---------------------------------------------------------------- what a projection shows and hides

  // At or below one of the paths. The root path governs nothing.
  ghost predicate Governed(loc: Path, paths: set<Path>) {
    exists p :: p in paths && p != [] && p <= loc
  }

  lemma {:induction false} GovernedBelow(t: Token, loc: Path, paths: set<Path>)
    ensures Governed([t] + loc, paths) <==> [t] in paths || Governed(loc, Below(paths, t))
  {
    if Governed([t] + loc, paths) && [t] !in paths {
      var p :| p in paths && p != [] && p <= [t] + loc;
      assert p[0] == t && p != [t] && p == [t] + p[1..];
      assert p[1..] in Below(paths, t) && p[1..] <= loc;
    }
    if [t] in paths {
      assert [t] <= [t] + loc;
    }
    if Governed(loc, Below(paths, t)) {
      var q :| q in Below(paths, t) && q != [] && q <= loc;
      var p :| p in paths && p != [] && p[0] == t && p[1..] == q;
      assert p <= [t] + loc;
    }
  }

  predicate SameAt(a: Option<JSON>, b: Option<JSON>) {
    a.Some? == b.Some? && (a.Some? ==> SameShape(a.value, b.value))
  }

  // What an observer of the projected documents can tell at one location: the
  // shape there unless governed; mere presence where a replacement stands.
  ghost predicate LooksAlike(v: JSON, w: JSON, deleted: set<Path>, replaced: set<Path>, loc: Path) {
    && (!Governed(loc, deleted + replaced) ==> SameAt(Lookup(v, loc), Lookup(w, loc)))
    && (loc in replaced && loc !in deleted && loc != [] && !Governed(loc[..|loc| - 1], deleted + replaced)
        ==> Lookup(v, loc).Some? == Lookup(w, loc).Some?)
  }

  lemma {:induction false} LooksAlikeBelow(v: JSON, w: JSON, deleted: set<Path>, replaced: set<Path>, t: Token,
                                           loc: Path)
    requires Child(v, t).Some? && Child(w, t).Some? && [t] !in deleted + replaced
    ensures LooksAlike(v, w, deleted, replaced, [t] + loc) <==>
      LooksAlike(Child(v, t).value, Child(w, t).value, Below(deleted, t), Below(replaced, t), loc)
  {
    var whole := [t] + loc;
    assert whole[1..] == loc;
    assert Below(deleted + replaced, t) == Below(deleted, t) + Below(replaced, t);
    GovernedBelow(t, loc, deleted + replaced);
    if loc != [] {
      GovernedBelow(t, loc[..|loc| - 1], deleted + replaced);
      assert whole[..|whole| - 1] == [t] + loc[..|loc| - 1];
      assert whole in replaced <==> loc in Below(replaced, t) by { ThroughToken(replaced, t, loc); }
      assert whole in deleted <==> loc in Below(deleted, t) by { ThroughToken(deleted, t, loc); }
    }
  }

  lemma {:induction false} ThroughToken(s: set<Path>, t: Token, loc: Path)
    ensures [t] + loc in s <==> loc in Below(s, t)
  {
    var whole := [t] + loc;
    assert whole[1..] == loc;
    if loc in Below(s, t) {
      var p :| p in s && p != [] && p[0] == t && p[1..] == loc;
      assert p == whole;
    }
  }

  lemma {:induction false} EqualScrubsLookAlike(v: JSON, w: JSON, deleted: set<Path>, replaced: set<Path>,
                                                filler: JSON, loc: Path)
    requires Scrub(v, deleted, replaced, filler) == Scrub(w, deleted, replaced, filler)
    ensures LooksAlike(v, w, deleted, replaced, loc)
    decreases |loc|
  {
    if loc == [] {
      ScrubChild(v, deleted, replaced, filler, Index(0));
      ScrubChild(w, deleted, replaced, filler, Index(0));
    } else {
      var t := loc[0];
      ScrubChild(v, deleted, replaced, filler, t);
      ScrubChild(w, deleted, replaced, filler, t);
      assert loc == [t] + loc[1..];
      GovernedBelow(t, loc[1..], deleted + replaced);
      if [t] in deleted + replaced {
        if |loc| > 1 {
          assert loc[..|loc| - 1] == [t] + loc[1..|loc| - 1];
          GovernedBelow(t, loc[1..|loc| - 1], deleted + replaced);
        } else {
          assert loc == [t];
        }
      } else if Child(v, t).Some? {
        LooksAlikeBelow(v, w, deleted, replaced, t, loc[1..]);
        EqualScrubsLookAlike(Child(v, t).value, Child(w, t).value,
                             Below(deleted, t), Below(replaced, t), filler, loc[1..]);
      }
    }
  }

  lemma {:induction false} LookAlikesScrubEqual(v: JSON, w: JSON, deleted: set<Path>, replaced: set<Path>, filler: JSON)
    requires forall loc :: LooksAlike(v, w, deleted, replaced, loc)
    ensures Scrub(v, deleted, replaced, filler) == Scrub(w, deleted, replaced, filler)
  {
    var left, right := Scrub(v, deleted, replaced, filler), Scrub(w, deleted, replaced, filler);
    assert SameShape(left, right) by {
      assert LooksAlike(v, w, deleted, replaced, []);
      ScrubChild(v, deleted, replaced, filler, Index(0));
      ScrubChild(w, deleted, replaced, filler, Index(0));
    }
    forall t: Token
      ensures Child(left, t) == Child(right, t)
    {
      ScrubChild(v, deleted, replaced, filler, t);
      ScrubChild(w, deleted, replaced, filler, t);
      PresentAlike(v, w, deleted, replaced, t);
      if Child(v, t).Some? && Child(w, t).Some? && [t] !in deleted + replaced {
        forall loc: Path
          ensures LooksAlike(Child(v, t).value, Child(w, t).value, Below(deleted, t), Below(replaced, t), loc)
        {
          LooksAlikeBelow(v, w, deleted, replaced, t, loc);
        }
        LookAlikesScrubEqual(Child(v, t).value, Child(w, t).value, Below(deleted, t), Below(replaced, t), filler);
      }
    }
    SameByChildren(left, right);
  }

  lemma PresentAlike(v: JSON, w: JSON, deleted: set<Path>, replaced: set<Path>, t: Token)
    requires LooksAlike(v, w, deleted, replaced, []) && LooksAlike(v, w, deleted, replaced, [t])
    ensures (t.Key? && [t] in deleted) || Child(v, t).Some? == Child(w, t).Some?
  {
    GovernedBelow(t, [], deleted + replaced);
    assert [t] + [] == [t] && [t][1..] == [] && [t][..0] == [];
    assert Lookup(v, [t]).Some? == Child(v, t).Some?;
    assert Lookup(w, [t]).Some? == Child(w, t).Some?;
  }

  // Two documents have the same projection exactly when they look alike at every location.
  lemma EqualScrubsExactly(v: JSON, w: JSON, deleted: set<Path>, replaced: set<Path>, filler: JSON)
    ensures Scrub(v, deleted, replaced, filler) == Scrub(w, deleted, replaced, filler)
       <==> forall loc :: LooksAlike(v, w, deleted, replaced, loc)
  {
    if Scrub(v, deleted, replaced, filler) == Scrub(w, deleted, replaced, filler) {
      forall loc
        ensures LooksAlike(v, w, deleted, replaced, loc)
      {
        EqualScrubsLookAlike(v, w, deleted, replaced, filler, loc);
      }
    } else if forall loc :: LooksAlike(v, w, deleted, replaced, loc) {
      LookAlikesScrubEqual(v, w, deleted, replaced, filler);
    }
  }

  // The projection itself, location by location.
  lemma {:induction false} ScrubAt(v: JSON, deleted: set<Path>, replaced: set<Path>, filler: JSON, loc: Path)
    requires filler.IsScalar()
    ensures !Governed(loc, deleted + replaced) ==>
      SameAt(Lookup(Scrub(v, deleted, replaced, filler), loc), Lookup(v, loc))
    ensures Governed(loc, deleted + replaced) ==>
      Lookup(Scrub(v, deleted, replaced, filler), loc) ==
        if loc in deleted + replaced && !Governed(loc[..|loc| - 1], deleted + replaced) && Lookup(v, loc).Some?
           && (loc in deleted ==> loc[|loc| - 1].Index?)
        then Some(filler) else None
    decreases |loc|
  {
    ScrubChild(v, deleted, replaced, filler, if loc == [] then Index(0) else loc[0]);
    if loc != [] {
      var t, rest := loc[0], loc[1..];
      assert loc == [t] + rest;
      GovernedBelow(t, rest, deleted + replaced);
      assert Below(deleted + replaced, t) == Below(deleted, t) + Below(replaced, t);
      ThroughToken(deleted, t, rest);
      ThroughToken(replaced, t, rest);
      if rest != [] {
        assert loc[..|loc| - 1] == [t] + rest[..|rest| - 1];
        GovernedBelow(t, rest[..|rest| - 1], deleted + replaced);
      }
      if [t] in deleted + replaced {
        assert rest == [] ==> loc == [t] && !Governed(loc[..|loc| - 1], deleted + replaced);
        assert rest != [] ==> Lookup(filler, rest).None?;
      } else if Child(v, t).Some? {
        assert rest != [] ==> rest[|rest| - 1] == loc[|loc| - 1];
        ScrubAt(Child(v, t).value, Below(deleted, t), Below(replaced, t), filler, rest);
      }
    }
  }
}
