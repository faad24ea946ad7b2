// String comparison as the matchers use it. A character is a Unicode code point.

module Text {
  // The case tables of the unicode package; fold takes a character to a representative of
  // the characters it is equal to under simple folding.
  datatype Cases = Cases(lower: char -> char, upper: char -> char, fold: char -> char)

  function Mapped(f: char -> char, s: string): string {
    seq(|s|, i requires 0 <= i < |s| => f(s[i]))
  }

  // strings.EqualFold: equal position by position up to folding.
  predicate EqualFold(cases: Cases, a: string, b: string) {
    |a| == |b| && forall i :: 0 <= i < |a| ==> a[i] == b[i] || cases.fold(a[i]) == cases.fold(b[i])
  }

  function TrimSuffix(s: string, suffix: string): string {
    if |s| >= |suffix| && s[|s| - |suffix|..] == suffix then s[..|s| - |suffix|] else s
  }

  lemma EqualFoldIsSameFold(cases: Cases, a: string, b: string)
    ensures EqualFold(cases, a, b) <==> Mapped(cases.fold, a) == Mapped(cases.fold, b)
  {
    var x, y := Mapped(cases.fold, a), Mapped(cases.fold, b);
    if x == y {
      assert |a| == |x| == |y| == |b|;
      forall i | 0 <= i < |a|
        ensures cases.fold(a[i]) == cases.fold(b[i])
      {
        assert x[i] == y[i];
      }
    }
  }

  // unicode.IsSpace.
  predicate IsSpace(c: char) {
    || '\t' <= c <= '\r' || c == ' ' || c == '\U{85}' || c == '\U{A0}' || c == '\U{1680}'
    || '\U{2000}' <= c <= '\U{200A}' || c == '\U{2028}' || c == '\U{2029}' || c == '\U{202F}'
    || c == '\U{205F}' || c == '\U{3000}'
  }
}
