// simtemplate.lookup walks the document while it scans the path text, with no
// token list in between. It is compared here with the matcher's
// parse-then-walk: the exact set of path texts on which the two agree on every
// document, and agreement on every canonical text.

module TemplatePath {
  import opened Wrappers
  import opened Json
  import opened JsonPath
  import opened PathText

  // What the one-pass scanner reads from the text after '$'. A key may be empty,
  // and nothing but a dot or a bracket may follow a closing bracket.
  function ScanRest(s: string): Option<Path>
    decreases |s|
  {
    if s == [] then Some([])
    else if s[0] == '.' then
      var n := UntilDelimiter(s[1..]);
      Prepend(Key(s[1..][..n]), ScanRest(s[1..][n..]))
    else if s[0] == '[' then
      match ReadBracket(s)
      case None => None
      case Some(b) => Prepend(Index(b.index), ScanRest(s[b.end..]))
    else None
  }

  // A path without a leading '$' is read as if "$." stood in front of it.
  function ScanPath(path: string): Option<Path> {
    if path == "" || path == "$" then Some([])
    else if HasPrefix(path, "$") then ScanRest(path[1..])
    else ScanRest("." + path)
  }

  function Walk(root: JSON, p: Option<Path>): Option<JSON> {
    match p
    case None => None
    case Some(tokens) => Lookup(root, tokens)
  }

  // The root itself is reported absent when it is null.
  function TemplateValue(root: JSON, path: string): Option<JSON> {
    if path == "" || path == "$" then (if root.Null? then None else Some(root))
    else Walk(root, ScanPath(path))
  }

  lemma WalkStep(root: JSON, t: Token, rest: Option<Path>)
    ensures Walk(root, Prepend(t, rest)) ==
      match Child(root, t) case None => None case Some(c) => Walk(c, rest)
  {
    if rest.Some? {
      assert ([t] + rest.value)[1..] == rest.value;
    }
  }

  // The walk through what is left of the text, from the value reached so far.
  function WalkRest(current: JSON, remaining: string): Option<JSON> {
    Walk(current, ScanRest(remaining))
  }

  function WalkOn(current: JSON, t: Token, remaining: string): Option<JSON> {
    match Child(current, t)
    case None => None
    case Some(c) => WalkRest(c, remaining)
  }

  lemma KeyStep(current: JSON, remaining: string, key: string, rest: string)
    requires remaining != [] && remaining[0] == '.'
    requires var n := UntilDelimiter(remaining[1..]); key == remaining[1..][..n] && rest == remaining[1..][n..]
    ensures WalkRest(current, remaining) == WalkOn(current, Key(key), rest)
  {
    WalkStep(current, Key(key), ScanRest(rest));
  }

  lemma IndexStep(current: JSON, remaining: string, close: nat, index: nat, rest: string)
    requires remaining != [] && remaining[0] == '[' && IndexOf(remaining, ']') == Some(close) && close >= 2
    requires Atoi(remaining[1..close]) == Some(index) && rest == remaining[close + 1..]
    ensures WalkRest(current, remaining) == WalkOn(current, Index(index), rest)
  {
    WalkStep(current, Index(index), ScanRest(rest));
  }

  lemma DeadEnd(current: JSON, remaining: string)
    requires remaining != [] && remaining[0] != '.' && (remaining[0] == '[' ==> ReadBracket(remaining).None?)
    ensures WalkRest(current, remaining).None?
  {}

  // simtemplate.lookup.
  method TemplateLookup(root: JSON, path: string) returns (r: Option<JSON>)
    ensures r == TemplateValue(root, path)
  {
    if path == "" || path == "$" {
      if root.Null? {
        return None;
      }
      return Some(root);
    }
    var absolute := path;
    if !HasPrefix(path, "$") {
      absolute := "$." + path;
    }
    var current := root;
    var remaining := absolute[1..];
    assert !HasPrefix(path, "$") ==> remaining == "." + path;
    while remaining != []
      invariant TemplateValue(root, path) == WalkRest(current, remaining)
      decreases |remaining|
    {
      ghost var before := remaining;
      if remaining[0] == '.' {
        remaining := remaining[1..];
        var end := UntilDelimiter(remaining);
        var key := remaining[..end];
        remaining := remaining[end..];
        KeyStep(current, before, key, remaining);
        if !current.Obj? || key !in current.fields {
          return None;
        }
        current := current.fields[key];
      } else if remaining[0] == '[' {
        var end := IndexOf(remaining, ']');
        if end.None? {
          DeadEnd(current, remaining);
          return None;
        }
        var index := Atoi(remaining[1..end.value]);
        if index.None? || index.value < 0 {
          DeadEnd(current, remaining);
          return None;
        }
        remaining := remaining[end.value + 1..];
        IndexStep(current, before, end.value, index.value, remaining);
        if !current.Arr? || index.value >= |current.items| {
          return None;
        }
        current := current.items[index.value];
      } else {
        DeadEnd(current, remaining);
        return None;
      }
    }
    return Some(current);
  }

  // ---------------------------------------------------------------- which texts agree

  // Every dot is followed by a non-empty key, every bracket holds an index, and
  // after a closing bracket comes a dot, a bracket or the end.
  predicate RegularRest(s: string)
    decreases |s|
  {
    if s == [] then true
    else if s[0] == '.' then
      var n := UntilDelimiter(s[1..]);
      n > 0 && RegularRest(s[1..][n..])
    else s[0] == '[' && ReadBracket(s).Some? && RegularRest(s[ReadBracket(s).value.end..])
  }

  predicate Regular(path: string) {
    (HasPrefix(path, "$.") || HasPrefix(path, "$[")) && RegularRest(path[1..])
  }

  lemma {:induction false} RegularReadAlike(s: string)
    requires RegularRest(s)
    ensures ScanRest(s) == ParseRest(s) && ParseRest(s).Some?
    decreases |s|
  {
    if s == [] {
    } else if s[0] == '.' {
      RegularReadAlike(s[1..][UntilDelimiter(s[1..])..]);
    } else {
      RegularReadAlike(s[ReadBracket(s).value.end..]);
    }
  }

  lemma {:induction false} UnparsableIsUnscannable(s: string)
    requires ParseRest(s).None?
    ensures ScanRest(s).None?
    decreases |s|
  {
    if s[0] == '.' {
      var n := UntilDelimiter(s[1..]);
      if n == 0 {
        assert s[1..][n..] == s[1..];
      }
      UnparsableIsUnscannable(s[1..][n..]);
    } else if s[0] == '[' && ReadBracket(s).Some? {
      UnparsableIsUnscannable(s[ReadBracket(s).value.end..]);
    }
  }

  lemma {:induction false} IrregularReadApart(s: string)
    requires !RegularRest(s) && ScanRest(s).Some?
    ensures Key("") in ScanRest(s).value
    decreases |s|
  {
    if s[0] == '.' {
      if UntilDelimiter(s[1..]) > 0 {
        IrregularReadApart(s[1..][UntilDelimiter(s[1..])..]);
      }
    } else {
      IrregularReadApart(s[ReadBracket(s).value.end..]);
    }
  }

  ghost predicate Agree(path: string) {
    forall root :: TemplateValue(root, path) == PathValue(root, path)
  }

  lemma ReadApartDisagree(path: string, p: Option<Path>, q: Option<Path>)
    requires p != q
    requires forall root :: TemplateValue(root, path) == Walk(root, p) || root.Null?
    requires forall root :: PathValue(root, path) == Walk(root, q)
    ensures !Agree(path)
  {
    var w := if p.Some? then Witness(p.value) else Witness(q.value);
    if p.Some? {
      WitnessSeparates(p.value, p.value);
      if q.Some? {
        WitnessSeparates(p.value, q.value);
      }
    } else {
      WitnessSeparates(q.value, q.value);
    }
    assert TemplateValue(w, path) != PathValue(w, path);
  }

  // On every path text: the template engine and the matcher find the same value
  // in every document exactly when the text is regular, or both reject it.
  lemma TemplateAgreesExactlyWhenRegular(path: string)
    ensures Agree(path) <==> Regular(path) || (ParsePath(path).None? && ScanPath(path).None?)
  {
    if HasPrefix(path, "$.") || HasPrefix(path, "$[") {
      var s := path[1..];
      if HasPrefix(path, "$.") {
        assert path[2..] == s[1..];
      }
      assert ParsePath(path) == ParseRest(s) && ScanPath(path) == ScanRest(s);
      if RegularRest(s) {
        RegularReadAlike(s);
      } else if ParseRest(s).None? {
        UnparsableIsUnscannable(s);
      } else {
        ParseRestClean(s);
        if ScanRest(s).Some? {
          IrregularReadApart(s);
          assert !CleanToken(Key(""));
        }
        ReadApartDisagree(path, ScanPath(path), ParsePath(path));
      }
    } else if path == "$" {
      assert TemplateValue(Null, path) != PathValue(Null, path);
    } else {
      assert ParsePath(path).None?;
      if ScanPath(path).Some? {
        ReadApartDisagree(path, ScanPath(path), None);
      }
    }
  }

  lemma RegularKey(s: string, k: string, rest: string)
    requires CleanKey(k) && AtBoundary(rest) && RegularRest(rest)
    requires s != [] && s[0] == '.' && s[1..] == k + rest
    ensures RegularRest(s)
  {
    UntilDelimiterOfKey(k, rest);
    assert s[1..][|k|..] == rest;
  }

  lemma RegularIndex(s: string, i: nat, rest: string)
    requires i <= MAX_INT && RegularRest(rest) && s == "[" + Itoa(i) + "]" + rest
    ensures RegularRest(s)
  {
    ReadPrintedBracket(s, i, Itoa(i), rest);
    assert s[|Itoa(i)| + 2..] == rest;
  }

  lemma RegularPrintedToken(t: Token, rest: string)
    requires CleanToken(t) && AtBoundary(rest) && RegularRest(rest)
    ensures RegularRest(PrintToken(t) + rest)
  {
    match t
    case Key(k) => RegularKey(PrintToken(t) + rest, k, rest);
    case Index(i) => RegularIndex(PrintToken(t) + rest, i, rest);
  }

  lemma {:induction false} CanonicalIsRegular(p: Path)
    requires CleanPath(p)
    ensures RegularRest(PrintRest(p))
  {
    if p != [] {
      CanonicalIsRegular(p[1..]);
      PrintRestAtBoundary(p[1..]);
      RegularPrintedToken(p[0], PrintRest(p[1..]));
    }
  }

  // On the canonical text of a non-root location, all three implementations
  // find what walking the tokens finds.
  lemma CanonicalPathsAgree(root: JSON, p: Path)
    requires CleanPath(p) && p != []
    ensures TemplateValue(root, PrintPath(p)) == PathValue(root, PrintPath(p)) == Lookup(root, p)
  {
    ParsePrintRoundTrip(p);
    CanonicalIsRegular(p);
    var path := PrintPath(p);
    assert path[1..] == PrintRest(p);
    assert PrintRest(p)[0] == PrintToken(p[0])[0];
    assert Regular(path);
    TemplateAgreesExactlyWhenRegular(path);
  }

  // An empty key segment: the matcher skips it, the template engine looks it up.
  lemma DoubledDotDisagrees()
    ensures ParsePath("$.a..b") == Some([Key("a"), Key("b")])
    ensures !Agree("$.a..b")
  {
    ParseDoubledDot();
    var path := "$.a..b";
    assert path[2..] == "a..b" && path[1..] == ".a..b";
    UntilDelimiterOfKey("a", "..b");
    assert !RegularRest("..b") by { assert UntilDelimiter("..b"[1..]) == 0; }
    assert ".a..b"[1..] == "a" + "..b" && ("a" + "..b")[1..] == "..b";
    assert !RegularRest(".a..b");
    TemplateAgreesExactlyWhenRegular(path);
  }

  lemma ParseDoubledDot()
    ensures ParseRest("a..b") == Some([Key("a"), Key("b")])
  {
    UntilDelimiterOfKey("b", "");
    assert "b" + "" == "b";
    assert "b"[1..] == "" && "b"[..1] == "b";
    assert [Key("b")] + [] == [Key("b")] && ParseRest("") == Some([]);
    assert ParseRest("b") == Prepend(Key("b"), ParseRest("")) == Some([Key("b")]);
    assert "..b"[1..] == ".b" && ".b"[1..] == "b";
    assert ParseRest("..b") == ParseRest(".b") == ParseRest("b");
    UntilDelimiterOfKey("a", "..b");
    assert "a" + "..b" == "a..b" && "a..b"[..1] == "a" && "a..b"[1..] == "..b";
    assert ParseRest("a..b") == Prepend(Key("a"), ParseRest("..b"));
    assert [Key("a")] + [Key("b")] == [Key("a"), Key("b")];
  }

  // A path without a leading '$' means what it means with "$." in front.
  lemma BarePathsMeanTheSame(root: JSON, path: string)
    requires path != "" && path[0] != '$'
    ensures TemplateValue(root, path) == TemplateValue(root, "$." + path)
  {
    var absolute := "$." + path;
    assert absolute[1..] == "." + path;
    assert absolute[0] == '$' && |absolute| > 2;
  }

  // So a location below an object may be written without "$.".
  lemma BarePathsFindTheirLocation(root: JSON, p: Path, bare: string)
    requires CleanPath(p) && p != [] && p[0].Key? && bare != "" && bare[0] != '$' && PrintPath(p) == "$." + bare
    ensures TemplateValue(root, bare) == Lookup(root, p)
  {
    BarePathsMeanTheSame(root, bare);
    CanonicalPathsAgree(root, p);
  }
}
