// A decoded JSON document as it lives in memory: objects and arrays are shared,
// mutable containers, and removeJSONPath and applyJSONRule change one of them in
// place. A ghost tree records which container belongs where; the in-place edits
// are proved to have exactly the effect of PathEdit.EditAt on the document's value.

module JsonHeap {
  import opened Wrappers
  import opened Json
  import opened PathEdit

  class ObjectCell {
    var members: map<string, Ref>
  }

  datatype Ref = Scalar(value: JSON) | Slice(cells: array<Ref>) | Object(cell: ObjectCell)

  datatype Tree =
    | Leaf(value: JSON)
    | ArrTree(cells: array<Ref>, elems: seq<Tree>)
    | ObjTree(cell: ObjectCell, kids: map<string, Tree>)

  ghost function RefOf(t: Tree): Ref {
    match t
    case Leaf(v) => Scalar(v)
    case ArrTree(a, _) => Slice(a)
    case ObjTree(c, _) => Object(c)
  }

  ghost function Value(t: Tree): JSON {
    match t
    case Leaf(v) => v
    case ArrTree(_, elems) => Arr(seq(|elems|, i requires 0 <= i < |elems| => Value(elems[i])))
    case ObjTree(_, kids) => Obj(map k | k in kids :: Value(kids[k]))
  }

  ghost function Node(t: Tree): set<object> {
    match t
    case Leaf(_) => {}
    case ArrTree(a, _) => {a}
    case ObjTree(c, _) => {c}
  }

  // The containers a tree is made of.
  ghost function Foot(t: Tree): set<object> {
    Node(t) +
    match t
    case Leaf(_) => {}
    case ArrTree(_, elems) => set i, o | 0 <= i < |elems| && o in Foot(elems[i]) :: o
    case ObjTree(_, kids) => set k, o | k in kids.Keys && o in Foot(kids[k]) :: o
  }

  ghost function Sub(t: Tree, tok: Token): (r: Option<Tree>)
    ensures r.Some? ==> r.value < t && Foot(r.value) <= Foot(t)
  {
    match tok
    case Key(k) => if t.ObjTree? && k in t.kids then Some(t.kids[k]) else None
    case Index(i) => if t.ArrTree? && i < |t.elems| then Some(t.elems[i]) else None
  }

  // No container occurs twice.
  ghost predicate Separate(t: Tree)
    decreases t
  {
    && (t.Leaf? ==> t.value.IsScalar())
    && (forall tok :: Sub(t, tok).Some? ==> Separate(Sub(t, tok).value) && Node(t) !! Foot(Sub(t, tok).value))
    && (forall tok, other :: tok != other && Sub(t, tok).Some? && Sub(t, other).Some? ==>
          Foot(Sub(t, tok).value) !! Foot(Sub(t, other).value))
  }

  // The container at the root of t holds references to the roots of its children.
  ghost predicate Shallow(t: Tree)
    reads Node(t)
  {
    match t
    case Leaf(_) => true
    case ArrTree(a, elems) =>
      a.Length == |elems| && forall i :: 0 <= i < |elems| ==> a[i] == RefOf(elems[i])
    case ObjTree(c, kids) =>
      c.members.Keys == kids.Keys && forall k :: k in kids ==> c.members[k] == RefOf(kids[k])
  }

  ghost predicate Faithful(t: Tree)
    reads Foot(t)
    decreases t
  {
    && Shallow(t)
    && forall tok :: Sub(t, tok).Some? ==> Faithful(Sub(t, tok).value)
  }

  ghost predicate Owns(root: Ref, t: Tree)
    reads Foot(t)
  {
    RefOf(t) == root && Separate(t) && Faithful(t)
  }

  // ---------------------------------------------------------------- trees and values

  lemma ChildIsSub(t: Tree, tok: Token)
    requires Separate(t)
    ensures Child(Value(t), tok) == match Sub(t, tok) case None => None case Some(c) => Some(Value(c))
  {}

  ghost function WithSub(t: Tree, tok: Token, c: Tree): Tree
    requires Sub(t, tok).Some?
  {
    match tok
    case Key(k) => ObjTree(t.cell, t.kids[k := c])
    case Index(i) => ArrTree(t.cells, t.elems[i := c])
  }

  // The tree after one edit: the same containers, minus whatever the edit cut off.
  ghost function TreeEdit(t: Tree, p: Path, action: Action, filler: JSON): Tree {
    if p == [] || Sub(t, p[0]).None? then t
    else if |p| > 1 then WithSub(t, p[0], TreeEdit(Sub(t, p[0]).value, p[1..], action, filler))
    else if p[0].Key? && action.Delete? then ObjTree(t.cell, t.kids - {p[0].key})
    else WithSub(t, p[0], Leaf(filler))
  }

  lemma {:induction false} TreeEditSub(t: Tree, p: Path, action: Action, filler: JSON, tok: Token)
    ensures RefOf(TreeEdit(t, p, action, filler)) == RefOf(t) && Node(TreeEdit(t, p, action, filler)) == Node(t)
    ensures Sub(TreeEdit(t, p, action, filler), tok) ==
      if p == [] || p[0] != tok || Sub(t, tok).None? then Sub(t, tok)
      else if |p| > 1 then Some(TreeEdit(Sub(t, tok).value, p[1..], action, filler))
      else if tok.Key? && action.Delete? then None
      else Some(Leaf(filler))
  {}

  lemma {:induction false} FootBySubs(t: Tree, o: object)
    ensures o in Foot(t) <==> o in Node(t) || exists tok :: Sub(t, tok).Some? && o in Foot(Sub(t, tok).value)
  {
    if o in Foot(t) && o !in Node(t) {
      match t
      case ArrTree(_, elems) =>
        var i: nat :| i < |elems| && o in Foot(elems[i]);
        assert Sub(t, Index(i)) == Some(elems[i]);
      case ObjTree(_, kids) =>
        var k :| k in kids && o in Foot(kids[k]);
        assert Sub(t, Key(k)) == Some(kids[k]);
    }
  }

  lemma {:induction false} TreeEditFoot(t: Tree, p: Path, action: Action, filler: JSON)
    ensures Foot(TreeEdit(t, p, action, filler)) <= Foot(t)
    decreases |p|
  {
    var e := TreeEdit(t, p, action, filler);
    if p != [] && Sub(t, p[0]).Some? && |p| > 1 {
      TreeEditFoot(Sub(t, p[0]).value, p[1..], action, filler);
    }
    forall o | o in Foot(e)
      ensures o in Foot(t)
    {
      FootBySubs(e, o);
      TreeEditSub(t, p, action, filler, Index(0));
      if o !in Node(e) {
        var tok :| Sub(e, tok).Some? && o in Foot(Sub(e, tok).value);
        TreeEditSub(t, p, action, filler, tok);
      }
    }
  }

  lemma {:induction false} TreeEditSeparate(t: Tree, p: Path, action: Action, filler: JSON)
    requires Separate(t) && filler.IsScalar()
    ensures Separate(TreeEdit(t, p, action, filler))
    decreases |p|
  {
    if p != [] && Sub(t, p[0]).Some? {
      var e := TreeEdit(t, p, action, filler);
      if |p| > 1 {
        TreeEditSeparate(Sub(t, p[0]).value, p[1..], action, filler);
        TreeEditFoot(Sub(t, p[0]).value, p[1..], action, filler);
      }
      forall tok | Sub(e, tok).Some?
        ensures Sub(t, tok).Some? && Foot(Sub(e, tok).value) <= Foot(Sub(t, tok).value) && Node(e) == Node(t)
        ensures Separate(Sub(e, tok).value)
      {
        TreeEditSub(t, p, action, filler, tok);
      }
    }
  }

  lemma {:induction false} ValueTreeEdit(t: Tree, p: Path, action: Action, filler: JSON)
    requires Separate(t) && filler.IsScalar()
    ensures Value(TreeEdit(t, p, action, filler)) == EditAt(Value(t), p, action, filler)
    decreases |p|
  {
    if p != [] {
      ChildIsSub(t, p[0]);
      if Sub(t, p[0]).Some? {
        if |p| > 1 {
          ValueTreeEdit(Sub(t, p[0]).value, p[1..], action, filler);
        }
        var e := TreeEdit(t, p, action, filler);
        TreeEditSeparate(t, p, action, filler);
        forall tok: Token
          ensures Child(Value(e), tok) == Child(EditAt(Value(t), p, action, filler), tok)
        {
          ChildIsSub(t, tok);
          ChildIsSub(e, tok);
          TreeEditSub(t, p, action, filler, tok);
          EditAtChild(Value(t), p, action, filler, tok);
        }
        EditAtChild(Value(t), p, action, filler, p[0]);
        SameByChildren(Value(e), EditAt(Value(t), p, action, filler));
      }
    }
  }

  // ---------------------------------------------------------------- one container changed

  ghost function SubAt(t: Tree, p: Path): (r: Option<Tree>)
    ensures r.Some? ==> Foot(r.value) <= Foot(t) && (Separate(t) ==> Separate(r.value))
  {
    if p == [] then Some(t)
    else match Sub(t, p[0])
      case None => None
      case Some(c) => SubAt(c, p[1..])
  }

  lemma {:induction false} SubAtStep(t: Tree, p: Path, tok: Token)
    ensures SubAt(t, p + [tok]) == match SubAt(t, p) case None => None case Some(c) => Sub(c, tok)
  {
    if p == [] {
      assert SubAt(t, [tok]) == match Sub(t, tok) case None => None case Some(c) => SubAt(c, []);
    } else {
      assert (p + [tok])[1..] == p[1..] + [tok];
      if Sub(t, p[0]).Some? {
        SubAtStep(Sub(t, p[0]).value, p[1..], tok);
      }
    }
  }

  // Faithful except perhaps for the contents of the container at q. The value of
  // this predicate does not depend on that container, so changing it in place
  // cannot change the predicate.
  ghost predicate FaithfulBut(t: Tree, q: Path)
    requires Separate(t) && SubAt(t, q).Some?
    reads Foot(t) - Node(SubAt(t, q).value)
    decreases |q|
  {
    && (q != [] ==> Shallow(t) && FaithfulBut(Sub(t, q[0]).value, q[1..]))
    && forall tok :: Sub(t, tok).Some? && (q == [] || tok != q[0]) ==> Faithful(Sub(t, tok).value)
  }

  lemma {:induction false} FaithfulIsFaithfulBut(t: Tree, q: Path)
    requires Separate(t) && SubAt(t, q).Some? && Faithful(t)
    ensures FaithfulBut(t, q)
    decreases |q|
  {
    if q != [] {
      FaithfulIsFaithfulBut(Sub(t, q[0]).value, q[1..]);
    }
  }

  lemma {:induction false} ShallowWithSub(t: Tree, tok: Token, c: Tree)
    requires Sub(t, tok).Some? && Shallow(t) && RefOf(c) == RefOf(Sub(t, tok).value)
    ensures Shallow(WithSub(t, tok, c))
  {}

  lemma {:induction false} EditedHere(t: Tree, tok: Token, action: Action, filler: JSON)
    requires Separate(t) && FaithfulBut(t, [])
    requires Shallow(TreeEdit(t, [tok], action, filler))
    ensures Faithful(TreeEdit(t, [tok], action, filler))
  {
    var e := TreeEdit(t, [tok], action, filler);
    forall other: Token | Sub(e, other).Some?
      ensures Faithful(Sub(e, other).value)
    {
      TreeEditSub(t, [tok], action, filler, other);
    }
  }

  // Once the container that the edit addresses holds what the edited tree says,
  // the whole edited tree is faithful.
  lemma {:induction false} EditedInPlace(t: Tree, q: Path, tok: Token, action: Action, filler: JSON)
    requires Separate(t) && SubAt(t, q).Some? && FaithfulBut(t, q)
    requires Shallow(TreeEdit(SubAt(t, q).value, [tok], action, filler))
    ensures Faithful(TreeEdit(t, q + [tok], action, filler))
    decreases |q|
  {
    if q == [] {
      assert q + [tok] == [tok];
      EditedHere(t, tok, action, filler);
    } else {
      var p := q + [tok];
      assert p[0] == q[0] && p[1..] == q[1..] + [tok];
      var c := Sub(t, q[0]).value;
      EditedInPlace(c, q[1..], tok, action, filler);
      TreeEditSub(c, p[1..], action, filler, tok);
      ShallowWithSub(t, q[0], TreeEdit(c, p[1..], action, filler));
      var e := TreeEdit(t, p, action, filler);
      forall other: Token | Sub(e, other).Some?
        ensures Faithful(Sub(e, other).value)
      {
        TreeEditSub(t, p, action, filler, other);
      }
    }
  }

  lemma {:induction false} NothingThere(t: Tree, p: Path, n: nat, action: Action, filler: JSON)
    requires 0 < n <= |p| && SubAt(t, p[..n]).None?
    ensures TreeEdit(t, p, action, filler) == t
    decreases |p|
  {
    if Sub(t, p[0]).Some? {
      assert p[..n][1..] == p[1..][..n - 1];
      NothingThere(Sub(t, p[0]).value, p[1..], n - 1, action, filler);
    }
  }

  lemma {:induction false} DeadEndStaysDead(t: Tree, p: Path, n: nat, m: nat)
    requires n <= m <= |p|
    ensures SubAt(t, p[..n]).None? ==> SubAt(t, p[..m]).None?
  {
    if n < m {
      DeadEndStaysDead(t, p, n, m - 1);
      assert p[..m] == p[..m - 1] + [p[m - 1]];
      SubAtStep(t, p[..m - 1], p[m - 1]);
    }
  }

  // A container brought in line with the edited tree makes the edited tree faithful and
  // its value the edited value.
  lemma EditSettled(t: Tree, p: Path, action: Action, filler: JSON)
    requires p != [] && filler.IsScalar() && Separate(t)
    requires match SubAt(t, p[..|p| - 1])
             case None => Faithful(t)
             case Some(holder) =>
               FaithfulBut(t, p[..|p| - 1]) && Shallow(TreeEdit(holder, [p[|p| - 1]], action, filler))
    ensures var e := TreeEdit(t, p, action, filler);
      && Foot(e) <= Foot(t) && Owns(RefOf(t), e) && Value(e) == EditAt(Value(t), p, action, filler)
  {
    var q, last := p[..|p| - 1], p[|p| - 1];
    assert q + [last] == p;
    if SubAt(t, q).Some? {
      EditedInPlace(t, q, last, action, filler);
    } else {
      NothingThere(t, p, |q|, action, filler);
    }
    assert Faithful(TreeEdit(t, p, action, filler));
    ValueTreeEdit(t, p, action, filler);
    TreeEditSeparate(t, p, action, filler);
    TreeEditFoot(t, p, action, filler);
    TreeEditSub(t, p, action, filler, last);
  }

  // ---------------------------------------------------------------- documents

  // A decoded body: the reference the caller holds, and the containers behind it.
  class Document {
    const root: Ref
    ghost var tree: Tree
    ghost var Repr: set<object>

    constructor (root: Ref, ghost tree: Tree, ghost repr: set<object>)
      requires Owns(root, tree) && repr == Foot(tree)
      ensures this.root == root && this.tree == tree && Repr == repr && Valid()
    {
      this.root := root;
      this.tree := tree;
      this.Repr := repr;
    }

    ghost predicate Valid()
      reads this, Repr
    {
      this !in Repr && Repr == Foot(tree) && Owns(root, tree)
    }

    ghost function Contents(): JSON
      reads this
    {
      Value(tree)
    }

    // Bookkeeping after an edit: the container addressed by the path has been
    // brought in line with the edited tree, and nothing else was touched.
    ghost method Settle(p: Path, action: Action, filler: JSON)
      requires p != [] && filler.IsScalar() && this !in Repr && Repr == Foot(tree)
      requires RefOf(tree) == root && Separate(tree)
      requires match SubAt(tree, p[..|p| - 1])
               case None => Faithful(tree)
               case Some(holder) =>
                 FaithfulBut(tree, p[..|p| - 1]) && Shallow(TreeEdit(holder, [p[|p| - 1]], action, filler))
      modifies this
      ensures Valid() && Repr <= old(Repr)
      ensures Contents() == EditAt(old(Contents()), p, action, filler)
    {
      var edited := TreeEdit(tree, p, action, filler);
      EditSettled(tree, p, action, filler);
      tree := edited;
      Repr := Foot(edited);
      assert Owns(root, edited);
    }
  }

  // json.Marshal followed by decoding: the value a document currently holds.
  function Snapshot(r: Ref, ghost t: Tree): (v: JSON)
    requires Owns(r, t)
    reads Foot(t)
    ensures v == Value(t)
    decreases t, 2, 0
  {
    match r
    case Scalar(v) => v
    case Slice(a) =>
      var items := SnapshotItems(a, t, a.Length);
      assert items == Value(t).items;
      Arr(items)
    case Object(c) =>
      var fields := SnapshotFields(c, t);
      assert fields == Value(t).fields;
      Obj(fields)
  }

  function SnapshotFields(c: ObjectCell, ghost t: Tree): (fields: map<string, JSON>)
    requires Owns(Object(c), t)
    reads Foot(t)
    ensures fields.Keys == t.kids.Keys && forall k :: k in fields ==> fields[k] == Value(t.kids[k])
    decreases t, 1
  {
    assert forall k :: k in c.members ==> Sub(t, Key(k)) == Some(t.kids[k]);
    map k | k in c.members :: Snapshot(c.members[k], t.kids[k])
  }

  function SnapshotItems(a: array<Ref>, ghost t: Tree, n: nat): (items: seq<JSON>)
    requires Owns(Slice(a), t) && n <= a.Length
    reads Foot(t)
    ensures |items| == n && forall i :: 0 <= i < n ==> items[i] == Value(t.elems[i])
    decreases t, 1, n
  {
    if n == 0 then []
    else
      assert Sub(t, Index(n - 1)) == Some(t.elems[n - 1]);
      SnapshotItems(a, t, n - 1) + [Snapshot(a[n - 1], t.elems[n - 1])]
  }

  // ---------------------------------------------------------------- decoding

  // A child under construction: a tree of its own within the containers made so far.
  ghost predicate Finished(t: Tree, r: Ref, v: JSON, repr: set<object>)
    reads Foot(t)
  {
    Foot(t) <= repr && Owns(r, t) && Value(t) == v
  }

  // json.Unmarshal builds a document out of new containers.
  method Build(v: JSON) returns (r: Ref, ghost t: Tree, ghost repr: set<object>)
    ensures Owns(r, t) && repr == Foot(t) && fresh(repr) && Value(t) == v
    decreases v, 1
  {
    match v
    case Arr(items) =>
      r, t, repr := BuildArray(v);
    case Obj(fields) =>
      r, t, repr := BuildObject(v);
    case _ =>
      r, t, repr := Scalar(v), Leaf(v), {};
  }

  // The elements of v built so far, in pairwise separate containers out of repr.
  ghost predicate ElementsBuilt(refs: seq<Ref>, elems: seq<Tree>, v: JSON, repr: set<object>)
    requires v.Arr?
    reads repr
  {
    && |refs| == |elems| <= |v.items|
    && (forall k :: 0 <= k < |elems| ==> Foot(elems[k]) <= repr && Finished(elems[k], refs[k], v.items[k], repr))
    && (forall j, k :: 0 <= j < k < |elems| ==> Foot(elems[j]) !! Foot(elems[k]))
  }

  lemma ElementAdded(refs: seq<Ref>, elems: seq<Tree>, v: JSON, repr: set<object>,
                     child: Ref, childTree: Tree, childRepr: set<object>)
    requires v.Arr? && |elems| < |v.items| && ElementsBuilt(refs, elems, v, repr)
    requires Finished(childTree, child, v.items[|elems|], childRepr) && repr !! childRepr
    ensures ElementsBuilt(refs + [child], elems + [childTree], v, repr + childRepr)
  {}

  lemma ArrayAssembled(cells: array<Ref>, elems: seq<Tree>, v: JSON, reprs: set<object>)
    requires v.Arr? && |elems| == cells.Length == |v.items| && cells !in reprs
    requires ElementsBuilt(cells[..], elems, v, reprs)
    ensures var t := ArrTree(cells, elems); Owns(Slice(cells), t) && Value(t) == v && Foot(t) <= reprs + {cells}
  {
    var t := ArrTree(cells, elems);
    forall tok, other | tok != other && Sub(t, tok).Some? && Sub(t, other).Some?
      ensures Foot(Sub(t, tok).value) !! Foot(Sub(t, other).value)
    {
      var i, j := tok.index, other.index;
      assert i < j || j < i;
    }
    assert Value(t).items == v.items;
  }

  // The members of v built so far, in pairwise separate containers out of repr.
  ghost predicate MembersBuilt(members: map<string, Ref>, kids: map<string, Tree>, v: JSON, repr: set<object>)
    requires v.Obj?
    reads repr
  {
    && kids.Keys == members.Keys <= v.fields.Keys
    && (forall k :: k in kids ==> Foot(kids[k]) <= repr && Finished(kids[k], members[k], v.fields[k], repr))
    && (forall j, k :: j in kids && k in kids && j != k ==> Foot(kids[j]) !! Foot(kids[k]))
  }

  lemma MemberAdded(members: map<string, Ref>, kids: map<string, Tree>, v: JSON, repr: set<object>,
                    key: string, child: Ref, childTree: Tree, childRepr: set<object>)
    requires v.Obj? && MembersBuilt(members, kids, v, repr) && key in v.fields && key !in kids
    requires Finished(childTree, child, v.fields[key], childRepr) && repr !! childRepr
    ensures MembersBuilt(members[key := child], kids[key := childTree], v, repr + childRepr)
  {}

  lemma ObjectAssembled(cell: ObjectCell, kids: map<string, Tree>, v: JSON, reprs: set<object>)
    requires v.Obj? && MembersBuilt(cell.members, kids, v, reprs) && kids.Keys == v.fields.Keys && cell !in reprs
    ensures var t := ObjTree(cell, kids); Owns(Object(cell), t) && Value(t) == v && Foot(t) <= reprs + {cell}
  {
    var t := ObjTree(cell, kids);
    assert Value(t).fields == v.fields;
  }

  method BuildArray(v: JSON) returns (r: Ref, ghost t: Tree, ghost repr: set<object>)
    requires v.Arr?
    ensures Owns(r, t) && repr == Foot(t) && fresh(repr) && Value(t) == v
    decreases v, 0
  {
    var cells := new Ref[|v.items|](_ => Scalar(Null));
    ghost var elems: seq<Tree> := [];
    ghost var reprs: set<object> := {};
    for i := 0 to |v.items|
      invariant |elems| == i && fresh(reprs) && cells !in reprs
      invariant ElementsBuilt(cells[..i], elems, v, reprs)
    {
      var child, childTree, childRepr := Build(v.items[i]);
      ElementAdded(cells[..i], elems, v, reprs, child, childTree, childRepr);
      ghost var refs := cells[..i] + [child];
      cells[i] := child;
      assert cells[..i + 1] == refs;
      elems := elems + [childTree];
      reprs := reprs + childRepr;
    }
    assert cells[..] == cells[..|v.items|];
    r := Slice(cells);
    t := ArrTree(cells, elems);
    repr := Foot(t);
    ArrayAssembled(cells, elems, v, reprs);
  }

  method BuildObject(v: JSON) returns (r: Ref, ghost t: Tree, ghost repr: set<object>)
    requires v.Obj?
    ensures Owns(r, t) && repr == Foot(t) && fresh(repr) && Value(t) == v
    decreases v, 0
  {
    var cell := new ObjectCell;
    cell.members := map[];
    ghost var kids: map<string, Tree> := map[];
    ghost var reprs: set<object> := {};
    var keys := v.fields.Keys;
    while keys != {}
      invariant keys <= v.fields.Keys && kids.Keys == v.fields.Keys - keys
      invariant fresh(cell) && fresh(reprs) && cell !in reprs
      invariant MembersBuilt(cell.members, kids, v, reprs)
    {
      var key :| key in keys;
      var child, childTree, childRepr := Build(v.fields[key]);
      MemberAdded(cell.members, kids, v, reprs, key, child, childTree, childRepr);
      cell.members := cell.members[key := child];
      kids := kids[key := childTree];
      reprs := reprs + childRepr;
      keys := keys - {key};
    }
    r := Object(cell);
    t := ObjTree(cell, kids);
    repr := Foot(t);
    ObjectAssembled(cell, kids, v, reprs);
  }

  method Decode(v: JSON) returns (d: Document)
    ensures fresh(d) && fresh(d.Repr) && d.Valid() && d.Contents() == v
  {
    var r, t, repr := Build(v);
    d := new Document(r, t, repr);
  }
}
