// The document model shared by the matcher, the privacy policy, the template
// engine, the healer and the contract checker: the trees that decoding a JSON
// text produces, and the token paths that address locations inside them.

module Wrappers {
  datatype Option<+T> = None | Some(value: T)
}

module Json {
  import opened Wrappers

  type Magnitude = x: real | x >= 0.0

  // A finite IEEE double. JSON text keeps the sign of zero, so it is kept here.
  datatype Float = Float(negative: bool, magnitude: Magnitude)

  datatype JSON =
    | Null
    | Bool(b: bool)
    | Num(num: Float)
    | Str(text: string)
    | Arr(items: seq<JSON>)
    | Obj(fields: map<string, JSON>)
  {
    predicate IsScalar() {
      !Arr? && !Obj?
    }
  }

  // One step of a path: an object key or a non-negative array index.
  datatype Token = Key(key: string) | Index(index: nat)

  type Path = seq<Token>

  // The child of v at one token, if v is a container of the right kind that has it.
  function Child(v: JSON, t: Token): Option<JSON> {
    match t
    case Key(k) => if v.Obj? && k in v.fields then Some(v.fields[k]) else None
    case Index(i) => if v.Arr? && i < |v.items| then Some(v.items[i]) else None
  }

  // The value at location p of v.
  function Lookup(v: JSON, p: Path): Option<JSON> {
    if p == [] then Some(v)
    else match Child(v, p[0])
      case None => None
      case Some(c) => Lookup(c, p[1..])
  }
}
