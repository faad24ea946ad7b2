// What each violation that contract.validateSchema reports says about the payload. The
// validator meets one schema at each location it visits; a violation is reported exactly
// when it is true of a location that is visited.

module Violations {
  import opened Wrappers
  import opened Json
  import opened JsonPath
  import opened OpenApi

  // Where a chain of references ends: at a schema of its own, with the components opened on
  // the way; at a reference that leads out of the document or nowhere; or nowhere at all,
  // because there is no schema or its component is open already.
  datatype Met = Plain(schema: Schema, open: set<string>) | Outside(ref: string) | Absent(name: string) | Skipped

  function Resolve(components: Components, schema: Option<Schema>, open: set<string>): Met
    decreases components.Keys - open
  {
    if schema.None? then Skipped
    else if schema.value.ref == "" then Plain(schema.value, open)
    else if !IsLocal(schema.value.ref) then Outside(schema.value.ref)
    else
      var name := RefName(schema.value.ref);
      if name in open then Skipped
      else if Target(components, name).None? then Absent(name)
      else Resolve(components, components[name], open + {name})
  }

  // The schema applies to the value: it is not a null that the schema allows, and the type is right.
  predicate Applies(s: Schema, value: JSON) {
    !(value.Null? && s.nullable) && (SchemaType(s.typ) == "" || MatchesType(SchemaType(s.typ), value))
  }

  // What the validator meets at a location below value, and the value there.
  datatype Spot = Spot(met: Met, value: JSON)

  function Visited(components: Components, schema: Option<Schema>, value: JSON, open: set<string>,
                   p: Path): Option<Spot>
    decreases |p|
  {
    var met := Resolve(components, schema, open);
    if p == [] then Some(Spot(met, value))
    else if !met.Plain? || !Applies(met.schema, value) then None
    else match p[0]
      case Key(k) =>
        if value.Obj? && k in met.schema.properties && k in value.fields
        then Visited(components, met.schema.properties[k], value.fields[k], met.open, p[1..])
        else None
      case Index(i) =>
        if value.Arr? && i < |value.items|
        then Visited(components, met.schema.items, value.items[i], met.open, p[1..])
        else None
  }

  lemma {:induction false} VisitedValue(components: Components, schema: Option<Schema>, value: JSON, open: set<string>,
                                        p: Path)
    ensures var spot := Visited(components, schema, value, open, p);
      spot.Some? ==> Lookup(value, p) == Some(spot.value.value)
    decreases |p|
  {
    var met := Resolve(components, schema, open);
    if p != [] && Visited(components, schema, value, open, p).Some? {
      match p[0]
      case Key(k) => VisitedValue(components, met.schema.properties[k], value.fields[k], met.open, p[1..]);
      case Index(i) => VisitedValue(components, met.schema.items, value.items[i], met.open, p[1..]);
    }
  }

  // The violation is true of what is met there, and names that place.
  predicate TrueThere(v: Violation, place: string, spot: Spot) {
    match v
    case ExternalReference(at, ref) => at == place && spot.met == Outside(ref)
    case MissingReference(at, name) => at == place && spot.met == Absent(name)
    case WrongType(at, expected) =>
      at == place && spot.met.Plain? && !(spot.value.Null? && spot.met.schema.nullable) &&
      expected != "" && expected == SchemaType(spot.met.schema.typ) && !MatchesType(expected, spot.value)
    case NotInEnumeration(at) =>
      at == place && spot.met.Plain? && Applies(spot.met.schema, spot.value) &&
      spot.met.schema.enumeration != [] && spot.value !in spot.met.schema.enumeration
    case MissingRequired(at, name) =>
      at == place && spot.met.Plain? && Applies(spot.met.schema, spot.value) &&
      spot.value.Obj? && name in spot.met.schema.required && name !in spot.value.fields
  }

  ghost predicate TrueAt(components: Components, schema: Option<Schema>, value: JSON, path: string, open: set<string>,
                         v: Violation, p: Path)
  {
    var spot := Visited(components, schema, value, open, p);
    spot.Some? && TrueThere(v, path + PrintRest(p), spot.value)
  }

  // ---------------------------------------------------------------- below one schema

  lemma {:induction false} MissingNamesExactly(required: seq<string>, fields: map<string, JSON>, path: string,
                                               v: Violation)
    ensures v in MissingNames(required, fields, path) <==>
      v.MissingRequired? && v.path == path && v.name in required && v.name !in fields
    ensures v.MissingRequired? && v.path == path && v.name !in fields ==>
      MissingNames(required, fields, path)[v] == multiset(required)[v.name]
  {
    if required != [] {
      var last := |required| - 1;
      MissingNamesExactly(required[..last], fields, path, v);
      assert required == required[..last] + [required[last]];
    }
  }

  lemma {:induction false} PropertiesExactly(components: Components, s: Schema, fields: map<string, JSON>,
                                             names: set<string>, path: string, open: set<string>, v: Violation)
    requires names <= s.properties.Keys
    ensures v in FoundInProperties(components, s, fields, names, path, open) <==>
      exists k :: k in names && v in FoundInProperty(components, s, fields, k, path, open)
    decreases |names|
  {
    if names != {} {
      PropertiesExactly(components, s, fields, names - {Pick(names)}, path, open, v);
    }
  }

  function ElementPath(path: string, i: nat): string {
    path + "[" + Itoa(i) + "]"
  }

  ghost predicate FoundInItem(components: Components, s: Schema, items: seq<JSON>, i: nat, path: string,
                              open: set<string>, v: Violation)
  {
    i < |items| && v in Found(components, s.items, items[i], ElementPath(path, i), open)
  }

  lemma {:induction false} ItemsExactly(components: Components, s: Schema, items: seq<JSON>, path: string,
                                        open: set<string>, v: Violation)
    ensures v in FoundInItems(components, s, items, path, open) <==>
      exists i: nat :: FoundInItem(components, s, items, i, path, open, v)
    decreases |items|
  {
    if items != [] {
      var last := |items| - 1;
      ItemsExactly(components, s, items[..last], path, open, v);
      LastItem(components, s, items, path, open, v);
      forall i: nat | i != last
        ensures FoundInItem(components, s, items, i, path, open, v) <==>
          FoundInItem(components, s, items[..last], i, path, open, v)
      {
      }
      assert !FoundInItem(components, s, items[..last], last, path, open, v);
    }
  }

  lemma LastItem(components: Components, s: Schema, items: seq<JSON>, path: string, open: set<string>, v: Violation)
    requires items != []
    ensures v in FoundInItems(components, s, items, path, open) <==>
      v in FoundInItems(components, s, items[..|items| - 1], path, open) ||
      FoundInItem(components, s, items, |items| - 1, path, open, v)
  {}

  lemma Glue(path: string, token: string, rest: string, below: string, whole: string)
    requires below == path + token && whole == token + rest
    ensures below + rest == path + whole
  {}

  // The path text of a member or an element.
  function Below(path: string, t: Token): string {
    match t case Key(k) => path + "." + k case Index(i) => ElementPath(path, i)
  }

  lemma BelowIsPrinted(path: string, t: Token)
    ensures Below(path, t) == path + PrintToken(t)
  {
    match t
    case Key(k) => Associate(path, ".", k, "");
    case Index(i) => Associate(path, "[", Itoa(i), "]");
  }

  lemma Associate(path: string, open: string, text: string, close: string)
    ensures path + open + text + close == path + (open + text + close)
    ensures path + open + text == path + (open + text)
  {}

  lemma PlaceBelow(path: string, p: Path)
    requires p != []
    ensures Below(path, p[0]) + PrintRest(p[1..]) == path + PrintRest(p)
  {
    BelowIsPrinted(path, p[0]);
    Glue(path, PrintToken(p[0]), PrintRest(p[1..]), Below(path, p[0]), PrintRest(p));
  }

  // The schema of the child at t, when the validator visits it.
  function ChildSchema(s: Schema, value: JSON, t: Token): Option<Option<Schema>> {
    match t
    case Key(k) => if value.Obj? && k in s.properties && k in value.fields then Some(s.properties[k]) else None
    case Index(i) => if value.Arr? && i < |value.items| then Some(s.items) else None
  }

  // ---------------------------------------------------------------- reported exactly when true

  lemma TrueBelow(components: Components, s: Schema, value: JSON, path: string, open: set<string>, v: Violation,
                  p: Path)
    requires s.ref == "" && Applies(s, value) && p != []
    ensures var child := ChildSchema(s, value, p[0]);
      TrueAt(components, Some(s), value, path, open, v, p) <==>
      child.Some? && TrueAt(components, child.value, Child(value, p[0]).value, Below(path, p[0]), open, v, p[1..])
  {
    PlaceBelow(path, p);
  }

  lemma TrueHere(components: Components, schema: Option<Schema>, value: JSON, path: string, open: set<string>,
                 v: Violation)
    ensures TrueAt(components, schema, value, path, open, v, []) <==>
      TrueThere(v, path, Spot(Resolve(components, schema, open), value))
  {
    assert path + PrintRest([]) == path;
  }

  lemma NothingBelow(components: Components, schema: Option<Schema>, value: JSON, path: string, open: set<string>,
                     v: Violation)
    requires var met := Resolve(components, schema, open); met.Plain? ==> !Applies(met.schema, value)
    ensures (exists p :: TrueAt(components, schema, value, path, open, v, p)) <==>
      TrueThere(v, path, Spot(Resolve(components, schema, open), value))
  {
    TrueHere(components, schema, value, path, open, v);
    assert forall p :: TrueAt(components, schema, value, path, open, v, p) ==> p == [];
  }

  lemma FoundHere(s: Schema, value: JSON, path: string, open: set<string>, v: Violation)
    requires Applies(s, value)
    ensures TrueThere(v, path, Spot(Plain(s, open), value)) <==>
      v in NotEnumerated(s, value, path) || (value.Obj? && v in MissingNames(s.required, value.fields, path))
  {
    if value.Obj? {
      MissingNamesExactly(s.required, value.fields, path, v);
    }
  }

  lemma ThroughReference(components: Components, s: Schema, value: JSON, open: set<string>, p: Path)
    requires s.ref != "" && IsLocal(s.ref) && RefName(s.ref) !in open && Target(components, RefName(s.ref)).Some?
    ensures var name := RefName(s.ref);
      Visited(components, Some(s), value, open, p) == Visited(components, components[name], value, open + {name}, p)
  {}

  lemma FoundThroughReference(components: Components, s: Schema, value: JSON, path: string, open: set<string>)
    requires s.ref != "" && IsLocal(s.ref) && RefName(s.ref) !in open && Target(components, RefName(s.ref)).Some?
    ensures var name := RefName(s.ref);
      Found(components, Some(s), value, path, open) == Found(components, components[name], value, path, open + {name})
  {}

  lemma FoundAtDeadEnd(components: Components, schema: Option<Schema>, value: JSON, path: string, open: set<string>,
                       v: Violation)
    requires schema.Some? && schema.value.ref != "" ==>
      !IsLocal(schema.value.ref) || RefName(schema.value.ref) in open ||
      Target(components, RefName(schema.value.ref)).None?
    requires schema.Some? && schema.value.ref == "" ==> !Applies(schema.value, value)
    ensures v in Found(components, schema, value, path, open) <==>
      TrueThere(v, path, Spot(Resolve(components, schema, open), value))
  {}

  // A violation is found exactly when it is true of some visited location.
  lemma {:induction false} FoundExactly(components: Components, schema: Option<Schema>, value: JSON, path: string,
                                        open: set<string>, v: Violation)
    ensures v in Found(components, schema, value, path, open) <==>
      exists p :: TrueAt(components, schema, value, path, open, v, p)
    decreases components.Keys - open, schema
  {
    var met := Resolve(components, schema, open);
    if schema.Some? && schema.value.ref == "" && Applies(schema.value, value) {
      AppliedExactly(components, schema.value, value, path, open, v);
    } else if schema.Some? && schema.value.ref != "" && IsLocal(schema.value.ref)
              && RefName(schema.value.ref) !in open && Target(components, RefName(schema.value.ref)).Some? {
      var name := RefName(schema.value.ref);
      FoundExactly(components, components[name], value, path, open + {name}, v);
      FoundThroughReference(components, schema.value, value, path, open);
      forall p: Path
        ensures TrueAt(components, schema, value, path, open, v, p) <==>
          TrueAt(components, components[name], value, path, open + {name}, v, p)
      {
        ThroughReference(components, schema.value, value, open, p);
      }
    } else {
      FoundAtDeadEnd(components, schema, value, path, open, v);
      NothingBelow(components, schema, value, path, open, v);
    }
  }

  lemma {:induction false} AppliedExactly(components: Components, s: Schema, value: JSON, path: string,
                                          open: set<string>, v: Violation)
    requires s.ref == "" && Applies(s, value)
    ensures v in Found(components, Some(s), value, path, open) <==>
      exists p :: TrueAt(components, Some(s), value, path, open, v, p)
    decreases components.Keys - open, s, 1
  {
    FoundHere(s, value, path, open, v);
    TrueHere(components, Some(s), value, path, open, v);
    ChildrenExactly(components, s, value, path, open, v);
    FoundParts(components, s, value, path, open, v);
  }

  lemma FoundParts(components: Components, s: Schema, value: JSON, path: string, open: set<string>, v: Violation)
    requires s.ref == "" && Applies(s, value)
    ensures v in Found(components, Some(s), value, path, open) <==>
      || v in NotEnumerated(s, value, path)
      || (value.Obj? && v in MissingNames(s.required, value.fields, path))
      || FoundInChild(components, s, value, path, open, v)
  {
    assert Found(components, Some(s), value, path, open) == FoundPlain(components, s, value, path, open);
    var below := FoundBelow(components, s, value, path, open);
    assert v in NotEnumerated(s, value, path) + below <==> v in NotEnumerated(s, value, path) || v in below;
  }

  ghost predicate FoundInChild(components: Components, s: Schema, value: JSON, path: string, open: set<string>,
                               v: Violation) {
    match value
    case Obj(fields) => v in FoundInProperties(components, s, fields, s.properties.Keys, path, open)
    case Arr(items) => v in FoundInItems(components, s, items, path, open)
    case _ => false
  }

  lemma {:induction false} ChildrenExactly(components: Components, s: Schema, value: JSON, path: string,
                                           open: set<string>, v: Violation)
    requires s.ref == "" && Applies(s, value)
    ensures FoundInChild(components, s, value, path, open, v) <==>
      exists p :: p != [] && TrueAt(components, Some(s), value, path, open, v, p)
    decreases components.Keys - open, s, 0
  {
    if FoundInChild(components, s, value, path, open, v) {
      var t := ChildThatFails(components, s, value, path, open, v);
      FoundExactly(components, ChildSchema(s, value, t).value, Child(value, t).value, Below(path, t), open, v);
      var rest :| TrueAt(components, ChildSchema(s, value, t).value, Child(value, t).value,
                       Below(path, t), open, v, rest);
      var p := [t] + rest;
      assert p[1..] == rest;
      TrueBelow(components, s, value, path, open, v, p);
    }
    if exists p :: p != [] && TrueAt(components, Some(s), value, path, open, v, p) {
      var p :| p != [] && TrueAt(components, Some(s), value, path, open, v, p);
      TrueBelow(components, s, value, path, open, v, p);
      FoundExactly(components, ChildSchema(s, value, p[0]).value, Child(value, p[0]).value, Below(path, p[0]), open, v);
      FailingChildIsFound(components, s, value, path, open, v, p[0]);
    }
  }

  lemma ChildThatFails(components: Components, s: Schema, value: JSON, path: string, open: set<string>, v: Violation)
    returns (t: Token)
    requires FoundInChild(components, s, value, path, open, v)
    ensures ChildSchema(s, value, t).Some?
    ensures v in Found(components, ChildSchema(s, value, t).value, Child(value, t).value, Below(path, t), open)
  {
    match value
    case Obj(fields) =>
      PropertiesExactly(components, s, fields, s.properties.Keys, path, open, v);
      var k :| k in s.properties.Keys && v in FoundInProperty(components, s, fields, k, path, open);
      t := Key(k);
    case Arr(items) =>
      ItemsExactly(components, s, items, path, open, v);
      var i: nat :| FoundInItem(components, s, items, i, path, open, v);
      t := Index(i);
  }

  lemma FailingChildIsFound(components: Components, s: Schema, value: JSON, path: string, open: set<string>,
                            v: Violation, t: Token)
    requires ChildSchema(s, value, t).Some?
    requires v in Found(components, ChildSchema(s, value, t).value, Child(value, t).value, Below(path, t), open)
    ensures FoundInChild(components, s, value, path, open, v)
  {
    match t
    case Key(k) =>
      PropertiesExactly(components, s, value.fields, s.properties.Keys, path, open, v);
      assert v in FoundInProperty(components, s, value.fields, k, path, open);
    case Index(i) =>
      ItemsExactly(components, s, value.items, path, open, v);
      assert FoundInItem(components, s, value.items, i, path, open, v);
  }

  // ---------------------------------------------------------------- and as often as it is true

  lemma {:induction false} ItemsContain(components: Components, s: Schema, items: seq<JSON>, i: nat, path: string,
                                        open: set<string>, v: Violation)
    requires i < |items|
    ensures Found(components, s.items, items[i], ElementPath(path, i), open)[v] <=
      FoundInItems(components, s, items, path, open)[v]
    decreases |items|
  {
    var last := |items| - 1;
    var front := items[..last];
    ItemsCount(components, s, items, front, path, open, v);
    if i < last {
      assert front[i] == items[i];
      ItemsContain(components, s, front, i, path, open, v);
    }
  }

  lemma ItemsCount(components: Components, s: Schema, items: seq<JSON>, front: seq<JSON>, path: string,
                   open: set<string>, v: Violation)
    requires items != [] && front == items[..|items| - 1]
    ensures var last := |items| - 1;
      FoundInItems(components, s, items, path, open)[v] ==
        FoundInItems(components, s, front, path, open)[v] +
        Found(components, s.items, items[last], ElementPath(path, last), open)[v]
  {}

  lemma BelowContained(components: Components, s: Schema, value: JSON, path: string, open: set<string>, v: Violation)
    requires s.ref == "" && Applies(s, value)
    ensures FoundBelow(components, s, value, path, open)[v] <= Found(components, Some(s), value, path, open)[v]
  {
    assert Found(components, Some(s), value, path, open) == FoundPlain(components, s, value, path, open);
  }

  lemma ChildContained(components: Components, s: Schema, value: JSON, path: string, open: set<string>, t: Token,
                       v: Violation)
    requires s.ref == "" && Applies(s, value) && ChildSchema(s, value, t).Some?
    ensures Found(components, ChildSchema(s, value, t).value, Child(value, t).value, Below(path, t), open)[v] <=
      Found(components, Some(s), value, path, open)[v]
  {
    BelowContained(components, s, value, path, open, v);
    match t
    case Key(k) =>
      VisitFirst(components, s, value.fields, s.properties.Keys, k, path, open);
      assert FoundInProperty(components, s, value.fields, k, path, open)[v] <=
        FoundInProperties(components, s, value.fields, s.properties.Keys, path, open)[v];
    case Index(i) => ItemsContain(components, s, value.items, i, path, open, v);
  }

  lemma NamesContained(components: Components, s: Schema, value: JSON, path: string, open: set<string>, name: string)
    requires s.ref == "" && Applies(s, value) && value.Obj? && name !in value.fields
    ensures multiset(s.required)[name] <= Found(components, Some(s), value, path, open)[MissingRequired(path, name)]
  {
    var v := MissingRequired(path, name);
    BelowContained(components, s, value, path, open, v);
    MissingNamesExactly(s.required, value.fields, path, v);
  }

  // A required name that is absent at a visited location is reported there at least as often
  // as the schema lists it.
  lemma {:induction false} MissingNameIsReported(components: Components, schema: Option<Schema>, value: JSON,
                                                 path: string, open: set<string>, p: Path, name: string)
    requires TrueAt(components, schema, value, path, open, MissingRequired(path + PrintRest(p), name), p)
    ensures var s := Visited(components, schema, value, open, p).value.met.schema;
      Found(components, schema, value, path, open)[MissingRequired(path + PrintRest(p), name)] >=
        multiset(s.required)[name] > 0
    decreases |p|, components.Keys - open
  {
    var v := MissingRequired(path + PrintRest(p), name);
    if schema.value.ref != "" {
      var target := RefName(schema.value.ref);
      assert Found(components, schema, value, path, open)[v] ==
          Found(components, components[target], value, path, open + {target})[v] by {
        FoundThroughReference(components, schema.value, value, path, open);
      }
      ThroughReference(components, schema.value, value, open, p);
      MissingNameIsReported(components, components[target], value, path, open + {target}, p, name);
    } else if p == [] {
      assert path + PrintRest(p) == path;
      NamesContained(components, schema.value, value, path, open, name);
    } else {
      var s := schema.value;
      PlaceBelow(path, p);
      TrueBelow(components, s, value, path, open, v, p);
      ChildContained(components, s, value, path, open, p[0], v);
      MissingNameIsReported(components, ChildSchema(s, value, p[0]).value, Child(value, p[0]).value,
                            Below(path, p[0]), open, p[1..], name);
    }
  }
}
