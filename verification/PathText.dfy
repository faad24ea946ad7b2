// When a location can be recovered from its canonical text: by the matcher, and at all.

module PathText {
  import opened Wrappers
  import opened Json
  import opened JsonPath

  // A document in which p, and only p, leads to true.
  function Witness(p: Path): JSON {
    if p == [] then Bool(true)
    else match p[0]
      case Key(k) => Obj(map[k := Witness(p[1..])])
      case Index(i) => Arr(seq(i, _ => Null) + [Witness(p[1..])])
  }

  lemma {:induction false} WitnessSeparates(p: Path, q: Path)
    ensures Lookup(Witness(p), q) == Some(Bool(true)) <==> p == q
  {
    if p != [] && q != [] {
      var c := Child(Witness(p), q[0]);
      if c.Some? {
        if q[0] == p[0] {
          WitnessSeparates(p[1..], q[1..]);
          assert p == [p[0]] + p[1..] && q == [q[0]] + q[1..];
        } else {
          assert c == Some(Null);
        }
      }
    }
  }

  predicate ScalarAt(v: JSON, p: Path) {
    Lookup(v, p).Some? && Lookup(v, p).value.IsScalar()
  }

  // The matcher finds a scalar under the text of its location, in every document, exactly
  // when the location is clean: non-empty keys without '.' and '[', indexes of 63 bits.
  lemma TextIsReadBackExactly(p: Path)
    ensures (forall v :: ScalarAt(v, p) ==> PathValue(v, PrintPath(p)) == Lookup(v, p)) <==> CleanPath(p)
  {
    if CleanPath(p) {
      ParsePrintRoundTrip(p);
    } else {
      var w := Witness(p);
      WitnessSeparates(p, p);
      var q := ParsePath(PrintPath(p));
      if q.Some? {
        ParsedPathsAreClean(PrintPath(p));
        WitnessSeparates(p, q.value);
      }
      assert ScalarAt(w, p) && PathValue(w, PrintPath(p)) != Lookup(w, p);
    }
  }

  // ---------------------------------------------------------------- texts that stand for two locations

  // A key whose text cannot be taken for that of several tokens: it holds no dot and does
  // not end in a printed index.
  ghost predicate Apart(k: string) {
    '.' !in k && !EndsInIndex(k)
  }

  ghost predicate EndsInIndex(k: string) {
    exists x: string, i: nat :: k == x + PrintToken(Index(i))
  }

  ghost predicate ApartPath(p: Path) {
    forall t :: t in p && t.Key? ==> Apart(t.key)
  }

  // A key without dots and brackets is apart, even when it is empty.
  lemma DelimiterFreeIsApart(k: string)
    requires forall i :: 0 <= i < |k| ==> !IsDelimiter(k[i])
    ensures Apart(k)
  {
    forall x: string, i: nat
      ensures k != x + PrintToken(Index(i))
    {
      var whole := x + PrintToken(Index(i));
      assert IsDelimiter(whole[|x|]);
    }
  }

  lemma {:induction false} PrintRestConcat(p: Path, q: Path)
    ensures PrintRest(p + q) == PrintRest(p) + PrintRest(q)
  {
    if p == [] {
      assert p + q == q;
    } else {
      assert (p + q)[1..] == p[1..] + q;
      PrintRestConcat(p[1..], q);
    }
  }

  lemma ItoaInjective(i: nat, j: nat)
    requires Itoa(i) == Itoa(j)
    ensures i == j
  {
    assert DigitsValue(Itoa(i)) == DigitsValue(Itoa(j));
  }

  // A printed index at the head of a text cannot reach beyond a boundary in that text.
  lemma IndexAtHead(s: string, y: string, rest: string, t: string, d: string, more: string)
    requires s == y + rest && s == t + more && t == "[" + d + "]"
    requires AllDigits(d) && y != [] && AtBoundary(rest)
    ensures |t| <= |y| && y == t + y[|t|..] && y[|t|..] + rest == more
  {
    forall k | 0 < k < |t|
      ensures !IsDelimiter(t[k])
    {
      assert k < |t| - 1 ==> t[k] == d[k - 1] && IsDigit(d[k - 1]);
    }
    assert |y| < |s| ==> IsDelimiter(s[|y|]);
    assert forall k :: 0 <= k < |t| ==> s[k] == t[k];
    assert y[..|t|] == s[..|t|] == t;
    assert s[|t|..] == more;
  }

  lemma IndexEnds(y: string, t: string, tail: string, i: nat)
    requires y == t + tail && t == PrintToken(Index(i)) && (tail == [] || EndsInIndex(tail))
    ensures EndsInIndex(y)
  {
    if tail == [] {
      assert y == "" + PrintToken(Index(i));
    } else {
      var x, j :| tail == x + PrintToken(Index(j));
      assert y == (t + x) + PrintToken(Index(j));
    }
  }

  // What is left of a text when a shorter key is read off in place of a longer one: only
  // printed indexes fit between the end of the shorter and the end of the longer.
  lemma {:induction false} IndexesBetween(y: string, rest: string, q: Path)
    requires y != [] && '.' !in y && AtBoundary(rest) && y + rest == PrintRest(q)
    ensures EndsInIndex(y)
    decreases |y|
  {
    var s := PrintRest(q);
    assert s[0] == PrintToken(q[0])[0] == y[0];
    var i := q[0].index;
    var t, more := PrintToken(Index(i)), PrintRest(q[1..]);
    IndexAtHead(s, y, rest, t, Itoa(i), more);
    var tail := y[|t|..];
    if tail != [] {
      IndexesBetween(tail, rest, q[1..]);
    }
    IndexEnds(y, t, tail, i);
  }

  lemma EndsLikeItsTail(k: string, x: string, y: string)
    requires k == x + y && EndsInIndex(y)
    ensures EndsInIndex(k)
  {
    var z, i :| y == z + PrintToken(Index(i));
    assert k == (x + z) + PrintToken(Index(i));
  }

  // No shorter key can be read in place of one that is apart.
  lemma NoShorterKey(s: string, k: string, x: string, rest: string, other: string, q: Path)
    requires s == k + rest && s == x + other && other == PrintRest(q)
    requires Apart(k) && AtBoundary(rest)
    ensures |x| >= |k|
  {
    if |x| < |k| {
      var y := k[|x|..];
      TailOfKey(s, k, x, y, rest, other);
      IndexesBetween(y, rest, q);
      EndsLikeItsTail(k, x, y);
      assert false;
    }
  }

  lemma TailOfKey(s: string, k: string, x: string, y: string, rest: string, other: string)
    requires s == k + rest && s == x + other && |x| < |k| && y == k[|x|..]
    ensures k == x + y && y + rest == other
  {
    assert x == s[..|x|] == k[..|x|];
    assert other == s[|x|..];
  }

  lemma SameKey(s: string, k: string, x: string, rest: string, other: string, p: Path, q: Path)
    requires Apart(k) && Apart(x) && rest == PrintRest(p) && other == PrintRest(q)
    requires s == k + rest && s == x + other
    ensures k == x
  {
    PrintRestAtBoundary(p);
    PrintRestAtBoundary(q);
    NoShorterKey(s, k, x, rest, other, q);
    NoShorterKey(s, x, k, other, rest, p);
    assert k == s[..|k|] == x;
  }

  lemma SameDigits(s: string, d: string, e: string, rest: string, other: string)
    requires AllDigits(d) && AllDigits(e) && s == d + "]" + rest && s == e + "]" + other
    ensures d == e
  {
    FirstBracket(d, rest);
    FirstBracket(e, other);
    assert d == s[..|d|] == e;
  }

  lemma SameIndex(s: string, i: nat, j: nat, d: string, e: string, rest: string, other: string)
    requires d == Itoa(i) && e == Itoa(j) && s == "[" + d + "]" + rest && s == "[" + e + "]" + other
    ensures i == j
  {
    assert s[1..] == d + "]" + rest;
    assert s[1..] == e + "]" + other;
    SameDigits(s[1..], d, e, rest, other);
    ItoaInjective(i, j);
  }

  lemma AfterDot(s: string, k: string, rest: string)
    requires s == "." + k + rest
    ensures s[1..] == k + rest
  {}

  lemma SameKeyAtHead(s: string, k: string, x: string, rest: string, other: string, p: Path, q: Path)
    requires Apart(k) && Apart(x) && rest == PrintRest(p) && other == PrintRest(q)
    requires s == "." + k + rest && s == "." + x + other
    ensures k == x
  {
    AfterDot(s, k, rest);
    AfterDot(s, x, other);
    SameKey(s[1..], k, x, rest, other, p, q);
  }

  lemma SameFirstToken(s: string, t: Token, u: Token, rest: string, other: string, p: Path, q: Path)
    requires (t.Key? ==> Apart(t.key)) && (u.Key? ==> Apart(u.key))
    requires rest == PrintRest(p) && other == PrintRest(q)
    requires s == PrintToken(t) + rest && s == PrintToken(u) + other
    ensures t == u
  {
    assert s[0] == (if t.Key? then '.' else '[') && s[0] == if u.Key? then '.' else '[';
    if t.Key? {
      SameKeyAtHead(s, t.key, u.key, rest, other, p, q);
    } else {
      SameIndex(s, t.index, u.index, Itoa(t.index), Itoa(u.index), rest, other);
    }
  }

  // Two locations whose keys are all apart never share a text.
  lemma {:induction false} ApartTextsDiffer(p: Path, q: Path)
    requires ApartPath(p) && ApartPath(q) && PrintRest(p) == PrintRest(q)
    ensures p == q
    decreases |p|
  {
    if p != [] && q != [] {
      var s := PrintRest(p);
      var rest, other := PrintRest(p[1..]), PrintRest(q[1..]);
      SameFirstToken(s, p[0], q[0], rest, other, p[1..], q[1..]);
      assert rest == s[|PrintToken(p[0])|..] == other;
      ApartTextsDiffer(p[1..], q[1..]);
      assert p == [p[0]] + p[1..] && q == [q[0]] + q[1..];
    }
  }

  // The text of a location that starts with a key.
  ghost predicate Spells(q: Path, k: string) {
    ApartPath(q) && q != [] && q[0].Key? && PrintRest(q) == "." + k
  }

  lemma SpellsAtDot(first: Path, second: Path, a: string, b: string, k: string)
    requires Spells(first, a) && Spells(second, b) && k == a + ("." + b)
    ensures Spells(first + second, k)
  {
    PrintRestConcat(first, second);
    Glued(PrintRest(first + second), a, "." + b, k);
  }

  lemma SpellsWithIndex(first: Path, x: string, i: nat, t: string, k: string)
    requires Spells(first, x) && t == PrintToken(Index(i)) && k == x + t
    ensures Spells(first + [Index(i)], k)
  {
    PrintRestConcat(first, [Index(i)]);
    PrintOne(Index(i));
    Glued(PrintRest(first + [Index(i)]), x, t, k);
  }

  lemma PrintOne(t: Token)
    ensures PrintRest([t]) == PrintToken(t)
  {
    assert [t][1..] == [] && PrintToken(t) + "" == PrintToken(t);
  }

  lemma Glued(s: string, a: string, b: string, k: string)
    requires s == ("." + a) + b && k == a + b
    ensures s == "." + k
  {}

  // Every key text is the text of a location whose keys are apart: split it at its dots
  // and take the indexes off its end.
  lemma {:induction false} SplitKey(k: string) returns (q: Path)
    ensures Spells(q, k)
    decreases |k|
  {
    if '.' in k {
      var j :| 0 <= j < |k| && k[j] == '.';
      var a, b := k[..j], k[j + 1..];
      var first := SplitKey(a);
      var second := SplitKey(b);
      q := first + second;
      assert k == a + ("." + b);
      SpellsAtDot(first, second, a, b, k);
    } else if EndsInIndex(k) {
      var x, i :| k == x + PrintToken(Index(i));
      var first := SplitKey(x);
      q := first + [Index(i)];
      SpellsWithIndex(first, x, i, PrintToken(Index(i)), k);
    } else {
      q := [Key(k)];
    }
  }

  lemma NothingAfterKey(k: string, x: string, rest: string, q: Path)
    requires Apart(k) && k == x + rest && rest == PrintRest(q)
    ensures q == [] && x == k
  {
    if q != [] {
      assert rest != "" && rest + "" == rest;
      IndexesBetween(rest, "", q);
      EndsLikeItsTail(k, x, rest);
      assert false;
    }
  }

  lemma StartsWithKey(q: Path, s: string)
    requires s != "" && s[0] == '.' && PrintRest(q) == s
    ensures q != [] && q[0].Key? && s == "." + q[0].key + PrintRest(q[1..])
  {
    assert s[0] == PrintToken(q[0])[0];
  }

  // A key that is apart does not share its text with any location whatsoever.
  lemma ApartKeyIsAlone(k: string, q: Path)
    requires Apart(k) && PrintRest(q) == "." + k
    ensures q == [Key(k)]
  {
    var s := "." + k;
    StartsWithKey(q, s);
    assert k == q[0].key + PrintRest(q[1..]) by {
      AfterDot(s, q[0].key, PrintRest(q[1..]));
      assert s[1..] == k;
    }
    NothingAfterKey(k, q[0].key, PrintRest(q[1..]), q[1..]);
    assert q == [q[0]] + q[1..];
  }

  // A key shares its text with another location, in some document, exactly when it is not
  // apart.
  lemma KeyCollidesExactly(k: string)
    ensures !Apart(k) <==> exists v, q ::
      ScalarAt(v, [Key(k)]) && ScalarAt(v, q) && q != [Key(k)] && PrintPath(q) == PrintPath([Key(k)])
  {
    PrintOne(Key(k));
    if Apart(k) {
      forall q | PrintPath(q) == PrintPath([Key(k)])
        ensures q == [Key(k)]
      {
        assert PrintPath(q)[1..] == PrintRest(q) && PrintPath([Key(k)])[1..] == PrintRest([Key(k)]);
        ApartKeyIsAlone(k, q);
      }
    } else {
      var v, q := CollidingDocument(k);
      assert ScalarAt(v, [Key(k)]) && ScalarAt(v, q) && q != [Key(k)] && PrintPath(q) == PrintPath([Key(k)]);
    }
  }

  // The other location can be chosen with keys that are all apart.
  lemma CollidingDocument(k: string) returns (v: JSON, q: Path)
    requires !Apart(k)
    ensures ScalarAt(v, [Key(k)]) && ScalarAt(v, q) && ApartPath(q) && q != [Key(k)]
    ensures PrintPath(q) == PrintPath([Key(k)])
  {
    q := SplitKey(k);
    var x := q[0].key;
    assert q[0] in q && x != k;
    v := Obj(map[k := Bool(true), x := Witness(q[1..])]);
    WitnessSeparates(q[1..], q[1..]);
    assert [Key(k)][1..] == [];
    PrintOne(Key(k));
  }
}
