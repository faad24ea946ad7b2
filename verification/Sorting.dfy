// The order of sort.Strings, and the least of a set of keys under it.

module Sorting {
  predicate Less(a: string, b: string) {
    b != "" && (a == "" || a[0] < b[0] || (a[0] == b[0] && Less(a[1..], b[1..])))
  }

  lemma {:induction false} LessIsTotal(a: string, b: string)
    ensures a == b || Less(a, b) || Less(b, a)
  {
    if a != "" && b != "" && a[0] == b[0] {
      LessIsTotal(a[1..], b[1..]);
      assert a == [a[0]] + a[1..] && b == [b[0]] + b[1..];
    }
  }

  lemma {:induction false} LessIsStrict(a: string, b: string)
    ensures !(Less(a, b) && Less(b, a))
  {
    if a != "" && b != "" && a[0] == b[0] {
      LessIsStrict(a[1..], b[1..]);
    }
  }

  lemma {:induction false} LessIsTransitive(a: string, b: string, c: string)
    requires Less(a, b) && Less(b, c)
    ensures Less(a, c)
  {
    if a != "" && a[0] == b[0] && b[0] == c[0] {
      LessIsTransitive(a[1..], b[1..], c[1..]);
    }
  }

  ghost predicate IsLeast(k: string, keys: set<string>) {
    k in keys && forall other :: other in keys && other != k ==> Less(k, other)
  }

  lemma LeastIsUnique(j: string, k: string, keys: set<string>)
    requires IsLeast(j, keys) && IsLeast(k, keys)
    ensures j == k
  {
    LessIsStrict(j, k);
  }

  // One pass over the keys finds the least.
  method FindLeast(keys: set<string>) returns (k: string)
    requires keys != {}
    ensures IsLeast(k, keys)
  {
    k :| k in keys;
    var rest := keys - {k};
    while rest != {}
      invariant rest < keys && IsLeast(k, keys - rest)
      decreases |rest|
    {
      var other :| other in rest;
      LessIsTotal(k, other);
      if Less(other, k) {
        forall seen | seen in keys - rest && seen != k
          ensures Less(other, seen)
        {
          LessIsTransitive(other, k, seen);
        }
        k := other;
      }
      rest := rest - {other};
    }
    assert keys - rest == keys;
  }

  lemma {:induction false} LeastExists(keys: set<string>)
    requires keys != {}
    ensures exists k :: IsLeast(k, keys)
    decreases |keys|
  {
    var k :| k in keys;
    if keys == {k} {
      assert IsLeast(k, keys);
    } else {
      LeastExists(keys - {k});
      var j :| IsLeast(j, keys - {k});
      LessIsTotal(j, k);
      if Less(k, j) {
        forall other | other in keys && other != k && other != j
          ensures Less(k, other)
        {
          LessIsTransitive(k, j, other);
        }
        assert IsLeast(k, keys);
      } else {
        assert IsLeast(j, keys);
      }
    }
  }

  ghost function Least(keys: set<string>): (k: string)
    requires keys != {}
    ensures IsLeast(k, keys)
  {
    LeastExists(keys);
    var k :| IsLeast(k, keys); k
  }

  // The texts differ first at i, where a's character is smaller.
  ghost predicate FirstDifferenceAt(a: string, b: string, i: nat) {
    i < |a| && i < |b| && a[..i] == b[..i] && a[i] < b[i]
  }

  lemma HeadsOfPrefixes(a: string, b: string, i: nat)
    requires i <= |a| && i <= |b|
    ensures i > 0 && a[..i] == b[..i] ==> a[0] == b[0]
  {
    if i > 0 {
      assert a[..i][0] == a[0];
      assert b[..i][0] == b[0];
    }
  }

  // A text comes before another when it is a proper prefix of it or is smaller where they
  // first differ.
  lemma {:induction false} LessExactly(a: string, b: string)
    ensures Less(a, b) <==> a < b || exists i: nat :: FirstDifferenceAt(a, b, i)
  {
    if a != "" && b != "" {
      if a[0] == b[0] {
        LessExactly(a[1..], b[1..]);
        assert a == [a[0]] + a[1..] && b == [b[0]] + b[1..];
        assert a[1..] < b[1..] <==> a < b;
        if exists i: nat :: FirstDifferenceAt(a[1..], b[1..], i) {
          var i: nat :| FirstDifferenceAt(a[1..], b[1..], i);
          assert a[..i + 1] == [a[0]] + a[1..][..i] && b[..i + 1] == [b[0]] + b[1..][..i];
          assert FirstDifferenceAt(a, b, i + 1);
        }
        if exists i: nat :: FirstDifferenceAt(a, b, i) {
          var i: nat :| FirstDifferenceAt(a, b, i);
          assert a[1..][..i - 1] == a[..i][1..] && b[1..][..i - 1] == b[..i][1..];
          assert FirstDifferenceAt(a[1..], b[1..], i - 1);
        }
      } else {
        forall i: nat | FirstDifferenceAt(a, b, i)
          ensures i == 0
        {
          HeadsOfPrefixes(a, b, i);
        }
        assert FirstDifferenceAt(a, b, 0) <==> a[0] < b[0];
      }
    }
  }
}
