// The path language of pkg/matcher, pkg/privacy and pkg/simtemplate.
// ParsePath is the reference meaning of a path text. The two loops that parse
// a path (matcher and privacy) are proved equal to it, and the single-pass
// interpreter of the template engine is compared with parse-then-walk.

module JsonPath {
  import opened Wrappers
  import opened Json

  const MAX_INT := 0x7fff_ffff_ffff_ffff

  // ---------------------------------------------------------------- decimal numbers

  predicate IsDigit(c: char) {
    '0' <= c <= '9'
  }

  predicate AllDigits(s: string) {
    forall i :: 0 <= i < |s| ==> IsDigit(s[i])
  }

  function DigitsValue(s: string): nat
    requires AllDigits(s)
  {
    if s == [] then 0
    else 10 * DigitsValue(s[..|s| - 1]) + (s[|s| - 1] as int - '0' as int)
  }

  // strconv.Atoi on a 64-bit machine: an optional sign, then decimal digits, in range.
  function Atoi(s: string): Option<int> {
    var signed := s != [] && (s[0] == '+' || s[0] == '-');
    var digits := if signed then s[1..] else s;
    if digits == [] || !AllDigits(digits) then None
    else
      var value := if signed && s[0] == '-' then -(DigitsValue(digits) as int) else DigitsValue(digits);
      if -MAX_INT - 1 <= value <= MAX_INT then Some(value) else None
  }

  // strconv.Itoa for a non-negative number.
  function Itoa(n: nat): (s: string)
    ensures s != [] && AllDigits(s) && DigitsValue(s) == n
  {
    var last := [('0' as int + n % 10) as char];
    if n < 10 then last else Itoa(n / 10) + last
  }

  lemma AtoiItoa(n: nat)
    requires n <= MAX_INT
    ensures Atoi(Itoa(n)) == Some(n)
  {
    var s := Itoa(n);
    assert IsDigit(s[0]);
  }

  // ---------------------------------------------------------------- scanning

  predicate IsDelimiter(c: char) {
    c == '.' || c == '['
  }

  // Position of the first '.' or '[', or the length of s when there is none.
  function UntilDelimiter(s: string): (n: nat)
    ensures n <= |s|
    ensures forall i :: 0 <= i < n ==> !IsDelimiter(s[i])
    ensures n < |s| ==> IsDelimiter(s[n])
  {
    if s == [] || IsDelimiter(s[0]) then 0 else 1 + UntilDelimiter(s[1..])
  }

  // Position of the first occurrence of c.
  function IndexOf(s: string, c: char): (r: Option<nat>)
    ensures r.Some? ==> r.value < |s| && s[r.value] == c && c !in s[..r.value]
    ensures r.None? ==> c !in s
  {
    if s == [] then None
    else if s[0] == c then Some(0)
    else match IndexOf(s[1..], c)
      case None => None
      case Some(i) => Some(i + 1)
  }

  // The token and the end of a bracketed index at the head of s.
  datatype Bracket = Bracket(index: nat, end: nat)

  function ReadBracket(s: string): (r: Option<Bracket>)
    requires s != [] && s[0] == '['
    ensures r.Some? ==> 2 < r.value.end <= |s|
  {
    match IndexOf(s, ']')
    case None => None
    case Some(close) =>
      if close < 2 then None
      else match Atoi(s[1..close])
        case None => None
        case Some(i) => if i < 0 then None else Some(Bracket(i, close + 1))
  }

  // Meaning of the text after the leading '$': dots separate, brackets index,
  // every other maximal run of characters is an object key.
  function ParseRest(s: string): Option<Path>
    decreases |s|
  {
    if s == [] then Some([])
    else if s[0] == '.' then ParseRest(s[1..])
    else if s[0] == '[' then
      match ReadBracket(s)
      case None => None
      case Some(b) => Prepend(Index(b.index), ParseRest(s[b.end..]))
    else
      Prepend(Key(s[..UntilDelimiter(s)]), ParseRest(s[UntilDelimiter(s)..]))
  }

  function Prepend(t: Token, r: Option<Path>): Option<Path> {
    match r
    case None => None
    case Some(p) => Some([t] + p)
  }

  predicate HasPrefix(s: string, prefix: string) {
    prefix <= s
  }

  function ParsePath(path: string): Option<Path> {
    if path == "$" then Some([])
    else if HasPrefix(path, "$.") then ParseRest(path[2..])
    else if HasPrefix(path, "$[") then ParseRest(path[1..])
    else None
  }

  // What the loops carry: the tokens read so far in front of the meaning of the rest.
  function Joined(done: Path, rest: Option<Path>): Option<Path> {
    match rest
    case None => None
    case Some(p) => Some(done + p)
  }

  lemma JoinedPrepend(done: Path, t: Token, rest: Option<Path>)
    ensures Joined(done, Prepend(t, rest)) == Joined(done + [t], rest)
  {
    if rest.Some? {
      assert done + ([t] + rest.value) == (done + [t]) + rest.value;
    }
  }

  lemma JoinedNothing(rest: Option<Path>)
    ensures Joined([], rest) == rest
  {
    if rest.Some? {
      assert [] + rest.value == rest.value;
    }
  }

  lemma KeyRead(s: string, end: nat)
    requires end == UntilDelimiter(s) > 0
    ensures ParseRest(s) == Prepend(Key(s[..end]), ParseRest(s[end..]))
  {}

  lemma BracketRead(s: string, index: nat, close: nat)
    requires s != [] && s[0] == '[' && IndexOf(s, ']') == Some(close) && close >= 2
    requires Atoi(s[1..close]) == Some(index)
    ensures ParseRest(s) == Prepend(Index(index), ParseRest(s[close + 1..]))
  {}

  // matcher.parseJSONPath.
  method ParseJSONPath(path: string) returns (r: Option<Path>)
    ensures r == ParsePath(path)
  {
    if path == "$" {
      return Some([]);
    }
    var remaining: string;
    if HasPrefix(path, "$.") {
      remaining := path[2..];
    } else if HasPrefix(path, "$[") {
      remaining := path[1..];
    } else {
      return None;
    }
    var tokens: Path := [];
    JoinedNothing(ParseRest(remaining));
    while remaining != []
      invariant ParsePath(path) == Joined(tokens, ParseRest(remaining))
      decreases |remaining|
    {
      var end := UntilDelimiter(remaining);
      if end > 0 {
        KeyRead(remaining, end);
        JoinedPrepend(tokens, Key(remaining[..end]), ParseRest(remaining[end..]));
        tokens := tokens + [Key(remaining[..end])];
        remaining := remaining[end..];
      }
      if HasPrefix(remaining, ".") {
        remaining := remaining[1..];
        continue;
      }
      if HasPrefix(remaining, "[") {
        var closeAt := IndexOf(remaining, ']');
        if closeAt.None? || closeAt.value < 2 {
          return None;
        }
        var index := Atoi(remaining[1..closeAt.value]);
        if index.None? || index.value < 0 {
          return None;
        }
        BracketRead(remaining, index.value, closeAt.value);
        JoinedPrepend(tokens, Index(index.value), ParseRest(remaining[closeAt.value + 1..]));
        tokens := tokens + [Index(index.value)];
        remaining := remaining[closeAt.value + 1..];
        if HasPrefix(remaining, ".") {
          remaining := remaining[1..];
        }
        continue;
      }
    }
    assert tokens + [] == tokens;
    return Some(tokens);
  }

  // privacy.parsePath: the same language without paths that start at a root array.
  method PrivacyParsePath(path: string) returns (r: Option<Path>)
    ensures r == if path == "$" || HasPrefix(path, "$.") then ParsePath(path) else None
  {
    if path == "$" {
      return Some([]);
    }
    if !HasPrefix(path, "$.") {
      return None;
    }
    var input := path[2..];
    var out: Path := [];
    JoinedNothing(ParseRest(input));
    while input != []
      invariant ParsePath(path) == Joined(out, ParseRest(input))
      decreases |input|
    {
      var keyEnd := UntilDelimiter(input);
      if keyEnd > 0 {
        KeyRead(input, keyEnd);
        JoinedPrepend(out, Key(input[..keyEnd]), ParseRest(input[keyEnd..]));
        out := out + [Key(input[..keyEnd])];
        input := input[keyEnd..];
      }
      if HasPrefix(input, ".") {
        input := input[1..];
        continue;
      }
      if HasPrefix(input, "[") {
        var end := IndexOf(input, ']');
        if end.None? || end.value < 2 {
          return None;
        }
        var index := Atoi(input[1..end.value]);
        if index.None? || index.value < 0 {
          return None;
        }
        BracketRead(input, index.value, end.value);
        JoinedPrepend(out, Index(index.value), ParseRest(input[end.value + 1..]));
        out := out + [Index(index.value)];
        input := input[end.value + 1..];
        if HasPrefix(input, ".") {
          input := input[1..];
        }
      }
    }
    assert out + [] == out;
    return Some(out);
  }

  // matcher.JSONPathValue.
  method JSONPathValue(root: JSON, path: string) returns (r: Option<JSON>)
    ensures r == PathValue(root, path)
  {
    var parsed := ParseJSONPath(path);
    if parsed.None? {
      return None;
    }
    var current := root;
    for n := 0 to |parsed.value|
      invariant Lookup(root, parsed.value) == Lookup(current, parsed.value[n..])
    {
      var token := parsed.value[n];
      assert parsed.value[n..][1..] == parsed.value[n + 1..];
      if token.Index? {
        if !current.Arr? || token.index >= |current.items| {
          return None;
        }
        current := current.items[token.index];
        continue;
      }
      if !current.Obj? || token.key !in current.fields {
        return None;
      }
      current := current.fields[token.key];
    }
    return Some(current);
  }

  // The value a path text denotes in a document: parse, then walk.
  function PathValue(root: JSON, path: string): Option<JSON> {
    match ParsePath(path)
    case None => None
    case Some(p) => Lookup(root, p)
  }

  // ---------------------------------------------------------------- canonical printing

  // Keys the path language can name.
  predicate CleanKey(k: string) {
    k != [] && forall i :: 0 <= i < |k| ==> !IsDelimiter(k[i])
  }

  predicate CleanToken(t: Token) {
    match t
    case Key(k) => CleanKey(k)
    case Index(i) => i <= MAX_INT
  }

  predicate CleanPath(p: Path) {
    forall i :: 0 <= i < |p| ==> CleanToken(p[i])
  }

  function PrintToken(t: Token): string {
    match t
    case Key(k) => "." + k
    case Index(i) => "[" + Itoa(i) + "]"
  }

  function PrintRest(p: Path): string {
    if p == [] then "" else PrintToken(p[0]) + PrintRest(p[1..])
  }

  function PrintPath(p: Path): string {
    "$" + PrintRest(p)
  }

  predicate AtBoundary(s: string) {
    s == [] || IsDelimiter(s[0])
  }

  lemma PrintRestAtBoundary(p: Path)
    ensures AtBoundary(PrintRest(p))
  {}

  lemma {:induction false} UntilDelimiterOfKey(k: string, rest: string)
    requires forall i :: 0 <= i < |k| ==> !IsDelimiter(k[i])
    requires AtBoundary(rest)
    ensures UntilDelimiter(k + rest) == |k|
  {
    if k == [] {
      assert k + rest == rest;
    } else {
      assert (k + rest)[1..] == k[1..] + rest;
      UntilDelimiterOfKey(k[1..], rest);
    }
  }

  lemma {:induction false} FirstBracket(d: string, rest: string)
    requires AllDigits(d)
    ensures IndexOf(d + "]" + rest, ']') == Some(|d|)
  {
    if d == [] {
      assert d + "]" + rest == "]" + rest;
    } else {
      assert (d + "]" + rest)[0] == d[0] && IsDigit(d[0]);
      assert (d + "]" + rest)[1..] == d[1..] + "]" + rest;
      FirstBracket(d[1..], rest);
    }
  }

  lemma ReadPrintedBracket(s: string, i: nat, d: string, rest: string)
    requires i <= MAX_INT && d == Itoa(i) && s == "[" + d + "]" + rest
    ensures ReadBracket(s) == Some(Bracket(i, |d| + 2))
  {
    assert s[1..] == d + "]" + rest;
    FirstBracket(d, rest);
    assert s[1..|d| + 1] == d;
    AtoiItoa(i);
  }

  lemma ParsePrintedIndex(s: string, i: nat, d: string, rest: string)
    requires i <= MAX_INT && d == Itoa(i) && s == "[" + d + "]" + rest
    ensures ParseRest(s) == Prepend(Index(i), ParseRest(rest))
  {
    ReadPrintedBracket(s, i, d, rest);
    assert s[|d| + 2..] == rest;
  }

  lemma ParsePrintedKey(s: string, k: string, rest: string)
    requires CleanKey(k) && AtBoundary(rest) && s == "." + k + rest
    ensures ParseRest(s) == Prepend(Key(k), ParseRest(rest))
  {
    var afterDot := s[1..];
    assert afterDot == k + rest;
    UntilDelimiterOfKey(k, rest);
    KeyRead(afterDot, |k|);
    assert afterDot[..|k|] == k && afterDot[|k|..] == rest;
  }

  lemma ParsePrintedToken(t: Token, rest: string)
    requires CleanToken(t) && AtBoundary(rest)
    ensures ParseRest(PrintToken(t) + rest) == Prepend(t, ParseRest(rest))
  {
    match t
    case Key(k) => ParsePrintedKey(PrintToken(t) + rest, k, rest);
    case Index(i) => ParsePrintedIndex(PrintToken(t) + rest, i, Itoa(i), rest);
  }

  lemma {:induction false} ParseRestPrintRest(p: Path)
    requires CleanPath(p)
    ensures ParseRest(PrintRest(p)) == Some(p)
  {
    if p != [] {
      ParseRestPrintRest(p[1..]);
      PrintRestAtBoundary(p[1..]);
      ParsePrintedToken(p[0], PrintRest(p[1..]));
      assert [p[0]] + p[1..] == p;
    }
  }

  lemma ParseDollar(path: string, rest: string)
    requires path == "$" + rest && AtBoundary(rest)
    ensures ParsePath(path) == ParseRest(rest)
  {
    if rest != [] {
      assert path[1..] == rest && path[1] == rest[0];
      assert path[2..] == rest[1..];
    }
  }

  // Parsing inverts the canonical printer on every list of tokens it can name.
  lemma ParsePrintRoundTrip(p: Path)
    requires CleanPath(p)
    ensures ParsePath(PrintPath(p)) == Some(p)
  {
    ParseRestPrintRest(p);
    PrintRestAtBoundary(p);
    ParseDollar(PrintPath(p), PrintRest(p));
  }

  // Distinct clean token lists have distinct canonical texts.
  lemma PrintPathInjective(p: Path, q: Path)
    requires CleanPath(p) && CleanPath(q)
    requires PrintPath(p) == PrintPath(q)
    ensures p == q
  {
    ParsePrintRoundTrip(p);
    ParsePrintRoundTrip(q);
  }

  // Every path that parses denotes only clean tokens, so printing then parsing
  // normalises a path text without changing what it means.
  lemma {:induction false} ParseRestClean(s: string)
    ensures ParseRest(s).Some? ==> CleanPath(ParseRest(s).value)
    decreases |s|
  {
    if s != [] && ParseRest(s).Some? {
      if s[0] == '.' {
        ParseRestClean(s[1..]);
      } else if s[0] == '[' {
        ParseRestClean(s[ReadBracket(s).value.end..]);
      } else {
        ParseRestClean(s[UntilDelimiter(s)..]);
      }
    }
  }

  lemma ParsedPathsAreClean(path: string)
    ensures ParsePath(path).Some? ==>
      CleanPath(ParsePath(path).value) && ParsePath(PrintPath(ParsePath(path).value)) == ParsePath(path)
  {
    if HasPrefix(path, "$.") {
      ParseRestClean(path[2..]);
    } else if HasPrefix(path, "$[") {
      ParseRestClean(path[1..]);
    }
    if ParsePath(path).Some? {
      ParsePrintRoundTrip(ParsePath(path).value);
    }
  }
}
