// heal.flattenJSON lists every scalar of a captured body under a path text. The
// healer later hands those texts to the matcher, so they have to find the same
// scalars again.

module Flatten {
  import opened Wrappers
  import opened Json
  import opened JsonPath
  import opened PathText
  import opened Sorting

  // after extends before by entries for the scalars of v, and only by those. The
  // container v sits at location at of the whole body.
  ghost predicate Flattened(before: map<string, string>, after: map<string, string>,
                            v: JSON, at: Path, render: JSON -> string)
  {
    && before.Keys <= after.Keys
    && (forall p :: Covered(after, v, at, p))
    && (forall s :: Explained(before, after, s, v, at, render))
  }

  // A scalar of v has an entry.
  predicate Covered(after: map<string, string>, v: JSON, at: Path, p: Path) {
    ScalarAt(v, p) ==> PrintPath(at + p) in after
  }

  // An entry was there before or belongs to a scalar of v.
  ghost predicate Explained(before: map<string, string>, after: map<string, string>, s: string,
                            v: JSON, at: Path, render: JSON -> string)
  {
    s in after ==> Carried(before, after, s) || Entry(after, s, v, at, render)
  }

  ghost predicate Carried(before: map<string, string>, after: map<string, string>, s: string)
    requires s in after
  {
    s in before && after[s] == before[s]
  }

  ghost predicate Entry(after: map<string, string>, s: string, v: JSON, at: Path, render: JSON -> string)
    requires s in after
  {
    exists p :: ScalarAt(v, p) && s == PrintPath(at + p) && after[s] == render(Lookup(v, p).value)
  }

  // The same, for the part of a container below some of its tokens.
  ghost predicate FlattenedBelow(before: map<string, string>, after: map<string, string>,
                                 v: JSON, at: Path, tokens: set<Token>, render: JSON -> string)
  {
    && before.Keys <= after.Keys
    && (forall p :: p != [] && p[0] in tokens ==> Covered(after, v, at, p))
    && (forall s :: Explained(before, after, s, v, at, render))
  }

  lemma Reassociate(a: string, b: string, c: string, d: string)
    ensures a + (b + c) == (a + b) + c && a + (b + c + d) == a + b + c + d
  {}

  // What the walk appends to its path for a member or an element.
  lemma PrintAppendKey(p: Path, k: string)
    ensures PrintPath(p + [Key(k)]) == PrintPath(p) + "." + k
  {
    PrintRestAppend(p, Key(k));
    Reassociate("$", PrintRest(p), PrintToken(Key(k)), "");
    Reassociate(PrintPath(p), ".", k, "");
  }

  lemma PrintAppendIndex(p: Path, i: nat)
    ensures PrintPath(p + [Index(i)]) == PrintPath(p) + "[" + Itoa(i) + "]"
  {
    PrintRestAppend(p, Index(i));
    Reassociate("$", PrintRest(p), PrintToken(Index(i)), "");
    Reassociate(PrintPath(p), "[", Itoa(i), "]");
  }

  lemma {:induction false} PrintRestAppend(p: Path, t: Token)
    ensures PrintRest(p + [t]) == PrintRest(p) + PrintToken(t)
  {
    if p == [] {
      assert (p + [t])[1..] == [] && (p + [t])[0] == t;
    } else {
      assert (p + [t])[1..] == p[1..] + [t];
      PrintRestAppend(p[1..], t);
    }
  }

  lemma EntryOfChild(after: map<string, string>, s: string, v: JSON, at: Path, t: Token, c: JSON,
                     render: JSON -> string)
    requires s in after && Child(v, t) == Some(c) && Entry(after, s, c, at + [t], render)
    ensures Entry(after, s, v, at, render)
  {
    var q :| ScalarAt(c, q) && s == PrintPath((at + [t]) + q) && after[s] == render(Lookup(c, q).value);
    var p := [t] + q;
    assert p[1..] == q;
    assert Lookup(v, p) == Lookup(c, q);
    assert (at + [t]) + q == at + p;
  }

  lemma CoveredByChild(after: map<string, string>, v: JSON, at: Path, t: Token, c: JSON, p: Path)
    requires Child(v, t) == Some(c) && p != [] && p[0] == t && Covered(after, c, at + [t], p[1..])
    ensures Covered(after, v, at, p)
  {
    assert (at + [t]) + p[1..] == at + p;
  }

  lemma FlattenedChild(before: map<string, string>, mid: map<string, string>, after: map<string, string>,
                       v: JSON, at: Path, tokens: set<Token>, t: Token, c: JSON, render: JSON -> string)
    requires FlattenedBelow(before, mid, v, at, tokens, render)
    requires Child(v, t) == Some(c) && Flattened(mid, after, c, at + [t], render)
    ensures FlattenedBelow(before, after, v, at, tokens + {t}, render)
  {
    forall p | p != [] && p[0] in tokens + {t}
      ensures Covered(after, v, at, p)
    {
      if p[0] == t {
        CoveredByChild(after, v, at, t, c, p);
      } else {
        assert Covered(mid, v, at, p);
      }
    }
    forall s
      ensures Explained(before, after, s, v, at, render)
    {
      assert Explained(before, mid, s, v, at, render) && Explained(mid, after, s, c, at + [t], render);
      if s in after && !Carried(before, after, s) {
        if Entry(after, s, c, at + [t], render) {
          EntryOfChild(after, s, v, at, t, c, render);
        } else {
          EntryKept(mid, after, s, v, at, render);
        }
      }
    }
  }

  lemma EntryKept(mid: map<string, string>, after: map<string, string>, s: string, v: JSON, at: Path,
                  render: JSON -> string)
    requires s in mid && s in after && after[s] == mid[s] && Entry(mid, s, v, at, render)
    ensures Entry(after, s, v, at, render)
  {}

  lemma AllChildrenFlattened(before: map<string, string>, after: map<string, string>,
                             v: JSON, at: Path, tokens: set<Token>, render: JSON -> string)
    requires FlattenedBelow(before, after, v, at, tokens, render) && !v.IsScalar()
    requires forall t :: Child(v, t).Some? ==> t in tokens
    ensures Flattened(before, after, v, at, render)
  {
    forall p
      ensures Covered(after, v, at, p)
    {
      if ScalarAt(v, p) {
        assert p != [] && Child(v, p[0]).Some?;
      }
    }
  }

  lemma FlattenedScalar(before: map<string, string>, after: map<string, string>, v: JSON, at: Path,
                        render: JSON -> string)
    requires v.IsScalar() && after == before[PrintPath(at) := render(v)]
    ensures Flattened(before, after, v, at, render)
  {
    assert at + [] == at;
    assert ScalarAt(v, []);
  }

  // ---------------------------------------------------------------- in which order entries are written

  type Entries = seq<(string, string)>

  // What the walk writes for v, in the order it does: members by sorted key, elements by index.
  ghost function Listed(v: JSON, path: string, render: JSON -> string): Entries
    decreases v, 1
  {
    match v
    case Obj(fields) => ListedMembers(v, fields.Keys, path, render)
    case Arr(items) => ListedElements(v, |items|, path, render)
    case _ => [(path, render(v))]
  }

  ghost function ListedMembers(v: JSON, keys: set<string>, path: string, render: JSON -> string): Entries
    requires v.Obj? && keys <= v.fields.Keys
    decreases v, 0, |keys|
  {
    if keys == {} then []
    else
      var k := Least(keys);
      Listed(v.fields[k], path + "." + k, render) + ListedMembers(v, keys - {k}, path, render)
  }

  ghost function ListedElements(v: JSON, n: nat, path: string, render: JSON -> string): Entries
    requires v.Arr? && n <= |v.items|
    decreases v, 0, n
  {
    if n == 0 then []
    else
      ListedElements(v, n - 1, path, render) +
      Listed(v.items[n - 1], path + "[" + Itoa(n - 1) + "]", render)
  }

  // Later entries replace earlier ones of the same text.
  function Written(before: map<string, string>, entries: Entries): map<string, string>
    decreases |entries|
  {
    if entries == [] then before else Written(before[entries[0].0 := entries[0].1], entries[1..])
  }

  lemma {:induction false} WrittenConcat(before: map<string, string>, a: Entries, b: Entries)
    ensures Written(before, a + b) == Written(Written(before, a), b)
    decreases |a|
  {
    if a == [] {
      assert a + b == b;
    } else {
      assert (a + b)[1..] == a[1..] + b;
      WrittenConcat(before[a[0].0 := a[0].1], a[1..], b);
    }
  }

  class Flattener {
    var result: map<string, string>
    const render: JSON -> string

    constructor (render: JSON -> string)
      ensures result == map[] && this.render == render
    {
      this.result := map[];
      this.render := render;
    }

    // The recursive closure of flattenJSON.
    method Walk(current: JSON, path: string)
      modifies this
      ensures result == Written(old(result), Listed(current, path, render))
      decreases current, 1
    {
      match current
      case Obj(fields) =>
        WalkObject(current, path);
      case Arr(items) =>
        WalkArray(current, path);
      case _ =>
        result := result[path := render(current)];
    }

    method WalkObject(current: JSON, path: string)
      requires current.Obj?
      modifies this
      ensures result == Written(old(result), ListedMembers(current, current.fields.Keys, path, render))
      decreases current, 0
    {
      var keys := current.fields.Keys;
      while keys != {}
        invariant keys <= current.fields.Keys
        invariant Written(result, ListedMembers(current, keys, path, render)) ==
          Written(old(result), ListedMembers(current, current.fields.Keys, path, render))
        decreases |keys|
      {
        var key := FindLeast(keys);
        LeastIsUnique(key, Least(keys), keys);
        WrittenConcat(result, Listed(current.fields[key], path + "." + key, render),
                      ListedMembers(current, keys - {key}, path, render));
        Walk(current.fields[key], path + "." + key);
        keys := keys - {key};
      }
    }

    method WalkArray(current: JSON, path: string)
      requires current.Arr?
      modifies this
      ensures result == Written(old(result), ListedElements(current, |current.items|, path, render))
      decreases current, 0
    {
      for index := 0 to |current.items|
        invariant result == Written(old(result), ListedElements(current, index, path, render))
      {
        WrittenConcat(old(result), ListedElements(current, index, path, render),
                      Listed(current.items[index], path + "[" + Itoa(index) + "]", render));
        Walk(current.items[index], path + "[" + Itoa(index) + "]");
      }
    }
  }

  // heal.flattenJSON; a body that is empty or does not decode has no entries.
  method FlattenJSON(body: string, decode: string -> Option<JSON>, render: JSON -> string)
    returns (result: map<string, string>)
    ensures result ==
      if body == "" || decode(body).None? then map[]
      else Written(map[], Listed(decode(body).value, "$", render))
  {
    if |body| == 0 {
      return map[];
    }
    var value := decode(body);
    if value.None? {
      return map[];
    }
    var f := new Flattener(render);
    f.Walk(value.value, "$");
    return f.result;
  }

  lemma ScalarIsWritten(before: map<string, string>, v: JSON, path: string, render: JSON -> string)
    requires v.IsScalar()
    ensures Written(before, Listed(v, path, render)) == before[path := render(v)]
  {
    var entries := [(path, render(v))];
    assert Listed(v, path, render) == entries;
    assert entries[1..] == [];
    assert Written(before[path := render(v)], entries[1..]) == before[path := render(v)];
  }

  // What is written for a value are the entries of its scalars, and only those.
  lemma {:induction false} ListedIsFlattened(before: map<string, string>, v: JSON, at: Path, path: string,
                                             render: JSON -> string)
    requires path == PrintPath(at)
    ensures Flattened(before, Written(before, Listed(v, path, render)), v, at, render)
    decreases v, 1
  {
    match v
    case Obj(fields) =>
      MembersAreFlattened(before, before, v, fields.Keys, at, path, {}, render);
    case Arr(items) =>
      ElementsAreFlattened(before, v, |items|, at, path, render);
      AllChildrenFlattened(before, Written(before, Listed(v, path, render)), v, at, IndexesBelow(|items|), render);
    case _ =>
      ScalarIsWritten(before, v, path, render);
      FlattenedScalar(before, Written(before, Listed(v, path, render)), v, at, render);
  }

  function IndexesBelow(n: nat): (s: set<Token>)
    ensures forall i: nat :: i < n <==> Index(i) in s
    ensures forall t :: t in s ==> t.Index?
  {
    set i: nat | i < n :: Index(i)
  }

  lemma {:induction false} MembersAreFlattened(before: map<string, string>, mid: map<string, string>, v: JSON,
                                               keys: set<string>, at: Path, path: string, done: set<Token>,
                                               render: JSON -> string)
    requires v.Obj? && keys <= v.fields.Keys && path == PrintPath(at)
    requires FlattenedBelow(before, mid, v, at, done, render)
    requires forall k :: k in v.fields && k !in keys ==> Key(k) in done
    ensures Flattened(before, Written(mid, ListedMembers(v, keys, path, render)), v, at, render)
    decreases v, 0, |keys|
  {
    if keys == {} {
      AllChildrenFlattened(before, mid, v, at, done, render);
    } else {
      var k := Least(keys);
      var entries := Listed(v.fields[k], path + "." + k, render);
      var after := Written(mid, entries);
      PrintAppendKey(at, k);
      ListedIsFlattened(mid, v.fields[k], at + [Key(k)], path + "." + k, render);
      FlattenedChild(before, mid, after, v, at, done, Key(k), v.fields[k], render);
      MembersAreFlattened(before, after, v, keys - {k}, at, path, done + {Key(k)}, render);
      WrittenConcat(mid, entries, ListedMembers(v, keys - {k}, path, render));
    }
  }

  lemma FlattenedNext(before: map<string, string>, mid: map<string, string>, after: map<string, string>,
                      v: JSON, at: Path, i: nat, c: JSON, render: JSON -> string)
    requires FlattenedBelow(before, mid, v, at, IndexesBelow(i), render)
    requires Child(v, Index(i)) == Some(c) && Flattened(mid, after, c, at + [Index(i)], render)
    ensures FlattenedBelow(before, after, v, at, IndexesBelow(i + 1), render)
  {
    FlattenedChild(before, mid, after, v, at, IndexesBelow(i), Index(i), c, render);
    assert IndexesBelow(i + 1) == IndexesBelow(i) + {Index(i)};
  }

  lemma {:induction false} ElementsAreFlattened(before: map<string, string>, v: JSON, n: nat, at: Path, path: string,
                                                render: JSON -> string)
    requires v.Arr? && n <= |v.items| && path == PrintPath(at)
    ensures FlattenedBelow(before, Written(before, ListedElements(v, n, path, render)), v, at, IndexesBelow(n), render)
    decreases v, 0, n
  {
    if n > 0 {
      var i := n - 1;
      var front, c, own := ListedElements(v, i, path, render), v.items[i], path + "[" + Itoa(i) + "]";
      var mid, entries := Written(before, front), Listed(c, own, render);
      ElementsAreFlattened(before, v, i, at, path, render);
      PrintAppendIndex(at, i);
      ListedIsFlattened(mid, c, at + [Index(i)], own, render);
      assert ListedElements(v, n, path, render) == front + entries;
      WrittenConcat(before, front, entries);
      FlattenedNext(before, mid, Written(mid, entries), v, at, i, c, render);
    }
  }

  // Every scalar of the body has an entry, and every entry is that of a scalar.
  lemma EntriesAreScalars(v: JSON, render: JSON -> string)
    ensures Flattened(map[], Written(map[], Listed(v, "$", render)), v, [], render)
  {
    assert PrintPath([]) == "$";
    ListedIsFlattened(map[], v, [], "$", render);
  }

  // ---------------------------------------------------------------- which entry survives

  predicate TokenBefore(a: Token, b: Token) {
    || (a.Key? && b.Key? && Less(a.key, b.key))
    || (a.Index? && b.Index? && a.index < b.index)
  }

  // Does the walk come to location p before location q?
  predicate Before(p: Path, q: Path) {
    p != [] && q != [] && (TokenBefore(p[0], q[0]) || (p[0] == q[0] && Before(p[1..], q[1..])))
  }

  // Of the scalars of v whose text is s, the one at p comes last in the walk.
  ghost predicate IsLast(v: JSON, at: Path, s: string, p: Path) {
    && ScalarAt(v, p) && PrintPath(at + p) == s
    && forall q :: ScalarAt(v, q) && q != p && PrintPath(at + q) == s ==> Before(q, p)
  }

  ghost predicate Holds(entries: map<string, string>, s: string, text: string) {
    s in entries && entries[s] == text
  }

  // No scalar of v below tokens has the text s.
  ghost predicate NoneAt(v: JSON, at: Path, s: string, tokens: set<Token>) {
    forall q :: ScalarAt(v, q) && q != [] && q[0] in tokens ==> PrintPath(at + q) != s
  }

  ghost predicate NoneIn(c: JSON, at: Path, s: string) {
    forall q :: ScalarAt(c, q) ==> PrintPath(at + q) != s
  }

  lemma NotBeforeItself(t: Token)
    ensures !TokenBefore(t, t)
  {
    if t.Key? {
      LessIsStrict(t.key, t.key);
    }
  }

  // A location of a child, seen from its parent.
  lemma Descend(v: JSON, at: Path, t: Token, c: JSON, r: Path, q: Path)
    requires Child(v, t) == Some(c) && q == [t] + r
    ensures q[1..] == r && Lookup(v, q) == Lookup(c, r) && PrintPath((at + [t]) + r) == PrintPath(at + q)
  {
    assert q[1..] == r;
    assert (at + [t]) + r == at + q;
  }

  lemma ChildIsLast(v: JSON, at: Path, s: string, p: Path, t: Token, rest: Path, c: JSON)
    requires IsLast(v, at, s, p) && p == [t] + rest && Child(v, t) == Some(c)
    ensures IsLast(c, at + [t], s, rest)
  {
    Descend(v, at, t, c, rest, p);
    NotBeforeItself(t);
    forall r: Path | ScalarAt(c, r) && r != rest && PrintPath((at + [t]) + r) == s
      ensures Before(r, rest)
    {
      var q := [t] + r;
      Descend(v, at, t, c, r, q);
      assert Before(q, p);
    }
  }

  lemma ChildHasNone(v: JSON, at: Path, s: string, tokens: set<Token>, t: Token, c: JSON)
    requires NoneAt(v, at, s, tokens) && t in tokens && Child(v, t) == Some(c)
    ensures NoneIn(c, at + [t], s)
  {
    forall r: Path | ScalarAt(c, r)
      ensures PrintPath((at + [t]) + r) != s
    {
      Descend(v, at, t, c, r, [t] + r);
      assert ScalarAt(v, [t] + r);
    }
  }

  lemma Untouched(before: map<string, string>, c: JSON, at: Path, path: string, render: JSON -> string,
                  s: string, text: string)
    requires path == PrintPath(at) && NoneIn(c, at, s) && Holds(before, s, text)
    ensures Holds(Written(before, Listed(c, path, render)), s, text)
  {
    var after := Written(before, Listed(c, path, render));
    ListedIsFlattened(before, c, at, path, render);
    assert Explained(before, after, s, c, at, render);
  }

  function Members(keys: set<string>): (s: set<Token>)
    ensures forall k :: k in keys <==> Key(k) in s
    ensures forall t :: t in s ==> t.Key?
  {
    set k | k in keys :: Key(k)
  }

  lemma {:induction false} MembersUntouched(before: map<string, string>, v: JSON, keys: set<string>, at: Path,
                                            path: string, render: JSON -> string, s: string, text: string)
    requires v.Obj? && keys <= v.fields.Keys && path == PrintPath(at)
    requires NoneAt(v, at, s, Members(keys)) && Holds(before, s, text)
    ensures Holds(Written(before, ListedMembers(v, keys, path, render)), s, text)
    decreases |keys|
  {
    if keys != {} {
      var k := Least(keys);
      var c, own, rest := v.fields[k], path + "." + k, ListedMembers(v, keys - {k}, path, render);
      PrintAppendKey(at, k);
      ChildHasNone(v, at, s, Members(keys), Key(k), c);
      Untouched(before, c, at + [Key(k)], own, render, s, text);
      MembersUntouched(Written(before, Listed(c, own, render)), v, keys - {k}, at, path, render, s, text);
      WrittenConcat(before, Listed(c, own, render), rest);
    }
  }

  lemma {:induction false} LastIsWritten(before: map<string, string>, v: JSON, at: Path, path: string,
                                         render: JSON -> string, s: string, p: Path)
    requires path == PrintPath(at) && IsLast(v, at, s, p)
    ensures Holds(Written(before, Listed(v, path, render)), s, render(Lookup(v, p).value))
    decreases v, 1
  {
    if v.IsScalar() {
      assert p == [] && at + [] == at;
      ScalarIsWritten(before, v, path, render);
    } else {
      assert p != [] && Child(v, p[0]).Some?;
      if v.Obj? {
        LastMemberIsWritten(before, v, v.fields.Keys, at, path, render, s, p);
      } else {
        LastElementIsWritten(before, v, |v.items|, at, path, render, s, p);
      }
    }
  }

  lemma {:induction false} LastMemberIsWritten(before: map<string, string>, v: JSON, keys: set<string>, at: Path,
                                               path: string, render: JSON -> string, s: string, p: Path)
    requires v.Obj? && keys <= v.fields.Keys && path == PrintPath(at)
    requires IsLast(v, at, s, p) && p != [] && p[0].Key? && p[0].key in keys
    ensures Holds(Written(before, ListedMembers(v, keys, path, render)), s, render(Lookup(v, p).value))
    decreases v, 0, |keys|
  {
    var k := Least(keys);
    var c, own, rest := v.fields[k], path + "." + k, ListedMembers(v, keys - {k}, path, render);
    var mid, text := Written(before, Listed(c, own, render)), render(Lookup(v, p).value);
    assert Holds(Written(mid, rest), s, text) by {
      if p[0] == Key(k) {
        PrintAppendKey(at, k);
        ChildIsLast(v, at, s, p, Key(k), p[1..], c);
        LastIsWritten(before, c, at + [Key(k)], own, render, s, p[1..]);
        LaterMembersHaveNone(v, keys, k, at, s, p);
        MembersUntouched(mid, v, keys - {k}, at, path, render, s, text);
      } else {
        LastMemberIsWritten(mid, v, keys - {k}, at, path, render, s, p);
      }
    }
    WrittenConcat(before, Listed(c, own, render), rest);
  }

  lemma LaterMembersHaveNone(v: JSON, keys: set<string>, k: string, at: Path, s: string, p: Path)
    requires IsLast(v, at, s, p) && p != [] && p[0] == Key(k) && IsLeast(k, keys)
    ensures NoneAt(v, at, s, Members(keys - {k}))
  {
    forall q: Path | ScalarAt(v, q) && q != [] && q[0] in Members(keys - {k})
      ensures PrintPath(at + q) != s
    {
      LessIsStrict(k, q[0].key);
    }
  }

  lemma ElementsWritten(before: map<string, string>, v: JSON, i: nat, path: string, own: string,
                        render: JSON -> string)
    requires v.Arr? && i < |v.items| && own == path + "[" + Itoa(i) + "]"
    ensures Written(before, ListedElements(v, i + 1, path, render)) ==
      Written(Written(before, ListedElements(v, i, path, render)), Listed(v.items[i], own, render))
  {
    WrittenConcat(before, ListedElements(v, i, path, render), Listed(v.items[i], own, render));
  }

  lemma {:induction false} LastElementIsWritten(before: map<string, string>, v: JSON, n: nat, at: Path, path: string,
                                                render: JSON -> string, s: string, p: Path)
    requires v.Arr? && n <= |v.items| && path == PrintPath(at)
    requires IsLast(v, at, s, p) && p != [] && p[0].Index? && p[0].index < n
    ensures Holds(Written(before, ListedElements(v, n, path, render)), s, render(Lookup(v, p).value))
    decreases v, 0, n
  {
    var i, c := n - 1, v.items[n - 1];
    var own, mid := path + "[" + Itoa(i) + "]", Written(before, ListedElements(v, i, path, render));
    PrintAppendIndex(at, i);
    ElementsWritten(before, v, i, path, own, render);
    if p[0].index == i {
      ChildIsLast(v, at, s, p, Index(i), p[1..], c);
      LastIsWritten(mid, c, at + [Index(i)], own, render, s, p[1..]);
    } else {
      LastElementIsWritten(before, v, i, at, path, render, s, p);
      LaterElementHasNone(v, i, at, s, p, c);
      Untouched(mid, c, at + [Index(i)], own, render, s, render(Lookup(v, p).value));
    }
  }

  lemma LaterElementHasNone(v: JSON, i: nat, at: Path, s: string, p: Path, c: JSON)
    requires IsLast(v, at, s, p) && p != [] && p[0].Index? && p[0].index < i && Child(v, Index(i)) == Some(c)
    ensures NoneIn(c, at + [Index(i)], s)
  {
    ChildHasNone(v, at, s, {Index(i)}, Index(i), c);
  }

  // Of all scalars that share a text, the entry is that of the one the walk comes to last:
  // at the first token where their locations differ it has the greater key in the order of
  // sort.Strings, or the greater index.
  lemma LastScalarSurvives(v: JSON, render: JSON -> string, p: Path)
    requires ScalarAt(v, p)
    requires forall q :: ScalarAt(v, q) && q != p && PrintPath(q) == PrintPath(p) ==> Before(q, p)
    ensures var after := Written(map[], Listed(v, "$", render));
      PrintPath(p) in after && after[PrintPath(p)] == render(Lookup(v, p).value)
  {
    assert PrintPath([]) == "$";
    assert IsLast(v, [], PrintPath(p), p) by {
      assert forall q: Path :: [] + q == q;
    }
    LastIsWritten(map[], v, [], "$", render, PrintPath(p), p);
  }

  // ---------------------------------------------------------------- documents the path language can name

  // Keys are non-empty and free of '.' and '[', and arrays have machine-sized lengths.
  predicate CleanDocument(v: JSON) {
    match v
    case Obj(fields) => forall k :: k in fields ==> CleanKey(k) && CleanDocument(fields[k])
    case Arr(items) => |items| <= MAX_INT && forall i :: 0 <= i < |items| ==> CleanDocument(items[i])
    case _ => true
  }

  lemma {:induction false} LocationsAreClean(v: JSON, p: Path)
    requires CleanDocument(v) && Lookup(v, p).Some?
    ensures CleanPath(p)
  {
    if p != [] {
      LocationsAreClean(Child(v, p[0]).value, p[1..]);
      assert p == [p[0]] + p[1..];
    }
  }

  // The flattened texts are exactly the canonical texts at which the matcher finds a
  // scalar, and each carries the rendering of the scalar the matcher finds there.
  lemma FlattenAgreesWithLookup(v: JSON, result: map<string, string>, render: JSON -> string, s: string)
    requires CleanDocument(v) && result == Written(map[], Listed(v, "$", render))
    ensures s in result <==>
      && PathValue(v, s).Some? && PathValue(v, s).value.IsScalar()
      && ParsePath(s).Some? && s == PrintPath(ParsePath(s).value)
    ensures s in result ==> result[s] == render(PathValue(v, s).value)
  {
    EntriesAreScalars(v, render);
    if s in result {
      assert Explained(map[], result, s, v, [], render);
      var p :| ScalarAt(v, p) && s == PrintPath([] + p) && result[s] == render(Lookup(v, p).value);
      assert [] + p == p;
      LocationsAreClean(v, p);
      ParsePrintRoundTrip(p);
    }
    if ParsePath(s).Some? && ScalarAt(v, ParsePath(s).value) {
      assert [] + ParsePath(s).value == ParsePath(s).value;
      assert Covered(result, v, [], ParsePath(s).value);
    }
  }

  // Every key is apart, whatever else it holds; empty keys are fine.
  ghost predicate KeysApart(v: JSON) {
    match v
    case Obj(fields) => forall k :: k in fields ==> Apart(k) && KeysApart(fields[k])
    case Arr(items) => forall i :: 0 <= i < |items| ==> KeysApart(items[i])
    case _ => true
  }

  lemma {:induction false} LocationsAreApart(v: JSON, p: Path)
    requires KeysApart(v) && Lookup(v, p).Some?
    ensures ApartPath(p)
  {
    if p != [] {
      LocationsAreApart(Child(v, p[0]).value, p[1..]);
      assert p == [p[0]] + p[1..];
    }
  }

  // One entry per scalar: in a document whose keys are apart, different locations never
  // share a text. PathText.KeyCollidesExactly shows that every other key can lose its entry.
  lemma FlattenKeepsLocationsApart(v: JSON, p: Path, q: Path)
    requires KeysApart(v) && ScalarAt(v, p) && ScalarAt(v, q) && p != q
    ensures PrintPath(p) != PrintPath(q)
  {
    LocationsAreApart(v, p);
    LocationsAreApart(v, q);
    if PrintPath(p) == PrintPath(q) {
      assert PrintPath(p)[1..] == PrintRest(p) && PrintPath(q)[1..] == PrintRest(q);
      ApartTextsDiffer(p, q);
    }
  }

  // One such document: two scalars share one text, and only one of them survives.
  lemma DottedKeyCollides()
    ensures var v := Obj(map["a.b" := Null, "a" := Obj(map["b" := Bool(true)])]);
      && ScalarAt(v, [Key("a.b")]) && ScalarAt(v, [Key("a"), Key("b")])
      && PrintPath([Key("a.b")]) == PrintPath([Key("a"), Key("b")])
  {
    var v := Obj(map["a.b" := Null, "a" := Obj(map["b" := Bool(true)])]);
    assert [Key("a"), Key("b")][1..] == [Key("b")];
    assert Lookup(v, [Key("a"), Key("b")]) == Lookup(v.fields["a"], [Key("b")]);
    assert PrintRest([Key("b")]) == ".b";
    assert PrintRest([Key("a"), Key("b")]) == ".a" + ".b";
    assert PrintRest([Key("a.b")]) == ".a.b";
  }
}
