// Which path texts are accepted, and what they mean, as a grammar: the reference meaning of
// JsonPath is what the pieces of a text spell.

module PathGrammar {
  import opened Wrappers
  import opened Json
  import opened JsonPath

  // What a path text is made of: dots, names, and bracketed numbers.
  datatype Piece = Dot | Name(name: string) | Bracketed(number: string, index: nat) {
    predicate WellFormed() {
      match this
      case Dot => true
      case Name(name) => CleanKey(name)
      case Bracketed(number, index) => ']' !in number && Atoi(number) == Some(index)
    }

    function Text(): string {
      match this
      case Dot => "."
      case Name(name) => name
      case Bracketed(number, _) => "[" + number + "]"
    }

    function Tokens(): Path {
      match this
      case Dot => []
      case Name(name) => [Key(name)]
      case Bracketed(_, index) => [Index(index)]
    }
  }

  function TextOf(pieces: seq<Piece>): string {
    if pieces == [] then "" else pieces[0].Text() + TextOf(pieces[1..])
  }

  function TokensOf(pieces: seq<Piece>): Path {
    if pieces == [] then [] else pieces[0].Tokens() + TokensOf(pieces[1..])
  }

  // Every piece is well-formed, and two names never stand side by side.
  predicate WellFormed(pieces: seq<Piece>) {
    pieces != [] ==>
      pieces[0].WellFormed() && WellFormed(pieces[1..]) && (|pieces| > 1 ==> !(pieces[0].Name? && pieces[1].Name?))
  }

  lemma {:induction false} FirstClose(number: string, rest: string)
    requires ']' !in number
    ensures IndexOf(number + "]" + rest, ']') == Some(|number|)
  {
    var s := number + "]" + rest;
    if number == [] {
      assert s == "]" + rest;
    } else {
      assert s[0] == number[0] && s[1..] == number[1..] + "]" + rest;
      FirstClose(number[1..], rest);
    }
  }

  lemma BracketedIsRead(number: string, index: nat, rest: string, s: string)
    requires ']' !in number && Atoi(number) == Some(index) && s == "[" + number + "]" + rest
    ensures ParseRest(s) == Prepend(Index(index), ParseRest(rest))
  {
    assert s[1..] == number + "]" + rest;
    FirstClose(number, rest);
    var close := |number| + 1;
    assert s[1..close] == number && s[close + 1..] == rest;
    BracketRead(s, index, close);
  }

  lemma PieceIsRead(piece: Piece, rest: string, s: string, r: Option<Path>)
    requires piece.WellFormed() && s == piece.Text() + rest && r == ParseRest(rest)
    requires piece.Name? ==> AtBoundary(rest)
    ensures ParseRest(s) == Joined(piece.Tokens(), r)
  {
    match piece
    case Dot =>
      assert s[1..] == rest;
      JoinedNothing(r);
    case Name(name) =>
      UntilDelimiterOfKey(name, rest);
      assert s[..|name|] == name && s[|name|..] == rest;
      KeyRead(s, |name|);
    case Bracketed(number, index) =>
      BracketedIsRead(number, index, rest, s);
  }

  lemma {:induction false} PiecesAreRead(pieces: seq<Piece>)
    requires WellFormed(pieces)
    ensures ParseRest(TextOf(pieces)) == Some(TokensOf(pieces))
  {
    if pieces != [] {
      PiecesAreRead(pieces[1..]);
      PieceIsRead(pieces[0], TextOf(pieces[1..]), TextOf(pieces), Some(TokensOf(pieces[1..])));
    }
  }

  lemma CutAround(s: string, close: nat)
    requires 0 < close < |s| && s[0] == '[' && s[close] == ']' && ']' !in s[..close]
    ensures s == "[" + s[1..close] + "]" + s[close + 1..] && ']' !in s[1..close]
  {
    assert s[1..close] == s[..close][1..];
  }

  lemma FirstBracketed(s: string, close: nat, index: nat)
    requires s != [] && s[0] == '[' && IndexOf(s, ']') == Some(close) && close >= 2
    requires Atoi(s[1..close]) == Some(index)
    ensures s == "[" + s[1..close] + "]" + s[close + 1..] && ']' !in s[1..close]
    ensures ParseRest(s) == Joined([Index(index)], ParseRest(s[close + 1..]))
  {
    CutAround(s, close);
    BracketRead(s, index, close);
  }

  lemma FirstNamed(s: string, end: nat)
    requires end == UntilDelimiter(s) > 0
    ensures s == s[..end] + s[end..] && CleanKey(s[..end]) && AtBoundary(s[end..])
    ensures ParseRest(s) == Joined([Key(s[..end])], ParseRest(s[end..]))
  {
    KeyRead(s, end);
  }

  lemma FirstPiece(s: string) returns (piece: Piece, rest: string)
    requires s != [] && ParseRest(s).Some?
    ensures piece.WellFormed() && s == piece.Text() + rest && ParseRest(rest).Some? && |rest| < |s|
    ensures ParseRest(s) == Joined(piece.Tokens(), ParseRest(rest))
    ensures piece.Name? ==> AtBoundary(rest)
  {
    if s[0] == '.' {
      piece, rest := Dot, s[1..];
      JoinedNothing(ParseRest(rest));
    } else if s[0] == '[' {
      var close, index := IndexOf(s, ']').value, ReadBracket(s).value.index;
      piece, rest := Bracketed(s[1..close], index), s[close + 1..];
      FirstBracketed(s, close, index);
    } else {
      var end := UntilDelimiter(s);
      piece, rest := Name(s[..end]), s[end..];
      FirstNamed(s, end);
    }
  }

  // Well-formed pieces that make up s and stand for p.
  predicate ReadAs(s: string, pieces: seq<Piece>, p: Path) {
    WellFormed(pieces) && TextOf(pieces) == s && TokensOf(pieces) == p
  }

  lemma {:induction false} ReadAsPieces(s: string)
    requires ParseRest(s).Some?
    ensures exists pieces: seq<Piece> :: ReadAs(s, pieces, ParseRest(s).value)
    decreases |s|
  {
    if s == [] {
      assert ReadAs(s, [], []);
    } else {
      var piece, rest := FirstPiece(s);
      ReadAsPieces(rest);
      var more: seq<Piece> :| ReadAs(rest, more, ParseRest(rest).value);
      var pieces := [piece] + more;
      assert pieces[1..] == more;
      if more != [] && more[0].Name? {
        assert rest[0] == more[0].name[0];
      }
      assert ReadAs(s, pieces, ParseRest(s).value);
    }
  }

  // The pieces are what follows "$.", or what follows "$" when that is a bracket.
  predicate Spell(pieces: seq<Piece>, path: string) {
    || (HasPrefix(path, "$.") && path[2..] == TextOf(pieces))
    || (HasPrefix(path, "$[") && path[1..] == TextOf(pieces))
  }

  lemma SpelledIsRead(pieces: seq<Piece>, path: string)
    requires WellFormed(pieces) && Spell(pieces, path)
    ensures ParsePath(path) == Some(TokensOf(pieces))
  {
    PiecesAreRead(pieces);
  }

  // Which path texts are accepted, and what they mean: a text after "$." or, when it starts
  // with an index, after "$", is dots, names and bracketed numbers in any order except a
  // name behind a name. Names and numbers are the tokens; dots mean nothing.
  lemma PathsExactly(path: string, p: Path)
    ensures ParsePath(path) == Some(p) <==>
      || (path == "$" && p == [])
      || exists pieces: seq<Piece> :: WellFormed(pieces) && Spell(pieces, path) && TokensOf(pieces) == p
  {
    if ParsePath(path) == Some(p) && path != "$" {
      var s := if HasPrefix(path, "$.") then path[2..] else path[1..];
      ReadAsPieces(s);
      var pieces: seq<Piece> :| ReadAs(s, pieces, p);
      assert Spell(pieces, path);
    }
    forall pieces: seq<Piece> | WellFormed(pieces) && Spell(pieces, path)
      ensures ParsePath(path) == Some(TokensOf(pieces))
    {
      SpelledIsRead(pieces, path);
    }
  }
}
