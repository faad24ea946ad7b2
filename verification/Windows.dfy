// The reorder fault of kafkasim.Plan: consecutive windows of the log are reversed in
// place, the last one possibly shorter.

module Windows {
  // Where the window that holds position i starts.
  function WindowStart(i: nat, w: nat): (start: nat)
    requires w > 0
    ensures start <= i < start + w
  {
    if i < w then 0 else w + WindowStart(i - w, w)
  }

  predicate IsStart(start: nat, w: nat)
    requires w > 0
  {
    WindowStart(start, w) == start
  }

  function WindowEnd(i: nat, w: nat, n: nat): (end: nat)
    requires w > 0 && i < n
    ensures i < end <= n
  {
    if WindowStart(i, w) + w > n then n else WindowStart(i, w) + w
  }

  // Where position i is sent: the mirror image inside its window.
  function Mirror(i: nat, w: nat, n: nat): (m: nat)
    requires w > 0 && i < n
    ensures WindowStart(i, w) <= m < WindowEnd(i, w, n)
  {
    WindowStart(i, w) + WindowEnd(i, w, n) - 1 - i
  }

  lemma {:induction false} SameWindow(start: nat, i: nat, w: nat)
    requires w > 0 && IsStart(start, w) && start <= i < start + w
    ensures WindowStart(i, w) == start
    decreases start
  {
    if start >= w {
      SameWindow(start - w, i - w, w);
    }
  }

  lemma {:induction false} StartsAreStarts(i: nat, w: nat)
    requires w > 0
    ensures IsStart(WindowStart(i, w), w)
    decreases i
  {
    if i >= w {
      StartsAreStarts(i - w, w);
    }
  }

  // The mirror image stays in its window, moves by less than a window, sends offset o
  // of a window of actual length len to len - 1 - o, and is undone by itself.
  lemma MirrorFacts(i: nat, w: nat, n: nat)
    requires w > 0 && i < n
    ensures var m := Mirror(i, w, n); var len := WindowEnd(i, w, n) - WindowStart(i, w);
      && WindowStart(m, w) == WindowStart(i, w) && WindowEnd(m, w, n) == WindowEnd(i, w, n)
      && m - WindowStart(i, w) == len - 1 - (i - WindowStart(i, w))
      && i - w < m && m < i + w
      && Mirror(m, w, n) == i
  {
    StartsAreStarts(i, w);
    SameWindow(WindowStart(i, w), Mirror(i, w, n), w);
  }

  // The log after the fault; a window of at most one record changes nothing.
  function Windowed<T>(s: seq<T>, w: nat): (r: seq<T>)
    ensures |r| == |s|
  {
    if w <= 1 then s
    else seq(|s|, i requires 0 <= i < |s| => s[Mirror(i, w, |s|)])
  }

  lemma WindowedIsInvolution<T>(s: seq<T>, w: nat)
    ensures Windowed(Windowed(s, w), w) == s
  {
    if w > 1 {
      forall i | 0 <= i < |s|
        ensures Windowed(Windowed(s, w), w)[i] == s[i]
      {
        MirrorFacts(i, w, |s|);
      }
    }
  }

  // ---------------------------------------------------------------- it is a permutation

  function Reversed<T>(s: seq<T>): (r: seq<T>)
    ensures |r| == |s| && forall i :: 0 <= i < |s| ==> r[i] == s[|s| - 1 - i]
  {
    seq(|s|, i requires 0 <= i < |s| => s[|s| - 1 - i])
  }

  lemma {:induction false} ReversedKeepsMultiset<T>(s: seq<T>)
    ensures multiset(Reversed(s)) == multiset(s)
  {
    if s != [] {
      ReversedKeepsMultiset(s[1..]);
      assert Reversed(s) == Reversed(s[1..]) + [s[0]];
      assert s == [s[0]] + s[1..];
    }
  }

  lemma MirrorInFirstWindow(i: nat, w: nat, n: nat)
    requires 0 < w && i < n && i < w
    ensures Mirror(i, w, n) == (if w > n then n else w) - 1 - i
  {}

  lemma MirrorInLaterWindow(i: nat, w: nat, n: nat)
    requires 0 < w <= i < n
    ensures Mirror(i, w, n) == w + Mirror(i - w, w, n - w)
  {}

  // The same reordering, described window by window.
  function ByWindows<T>(s: seq<T>, w: nat): (r: seq<T>)
    requires w > 0
    ensures |r| == |s|
    decreases |s|
  {
    if s == [] then []
    else
      var n := if w > |s| then |s| else w;
      Reversed(s[..n]) + ByWindows(s[n..], w)
  }

  lemma {:induction false} ByWindowsAt<T>(s: seq<T>, w: nat, i: nat)
    requires w > 0 && i < |s|
    ensures ByWindows(s, w)[i] == s[Mirror(i, w, |s|)]
    decreases |s|
  {
    var m := Mirror(i, w, |s|);
    if i < w {
      var n := if w > |s| then |s| else w;
      assert m == n - 1 - i by {
        MirrorInFirstWindow(i, w, |s|);
      }
      assert Reversed(s[..n])[i] == s[m];
    } else {
      var rest := s[w..];
      var k := Mirror(i - w, w, |rest|);
      assert m == w + k by {
        MirrorInLaterWindow(i, w, |s|);
      }
      ByWindowsAt(rest, w, i - w);
      assert ByWindows(s, w)[i] == rest[k] == s[m];
    }
  }

  lemma {:induction false} WindowedIsByWindows<T>(s: seq<T>, w: nat)
    requires w > 1
    ensures Windowed(s, w) == ByWindows(s, w)
  {
    forall i | 0 <= i < |s|
      ensures Windowed(s, w)[i] == ByWindows(s, w)[i]
    {
      ByWindowsAt(s, w, i);
    }
  }

  lemma {:induction false} ByWindowsIsPermutation<T>(s: seq<T>, w: nat)
    requires w > 0
    ensures multiset(ByWindows(s, w)) == multiset(s)
    decreases |s|
  {
    if s != [] {
      var n := if w > |s| then |s| else w;
      var head, rest := s[..n], s[n..];
      ReversedKeepsMultiset(head);
      ByWindowsIsPermutation(rest, w);
      assert s == head + rest;
      assert multiset(Reversed(head) + ByWindows(rest, w)) == multiset(head) + multiset(rest);
    }
  }

  lemma WindowedIsPermutation<T>(s: seq<T>, w: nat)
    ensures multiset(Windowed(s, w)) == multiset(s)
  {
    if w > 1 {
      WindowedIsByWindows(s, w);
      ByWindowsIsPermutation(s, w);
    }
  }

  // ---------------------------------------------------------------- in place

  // The two-pointer loop over one window.
  method ReverseRange<T>(a: array<T>, start: nat, end: nat)
    requires start <= end <= a.Length
    modifies a
    ensures forall k :: start <= k < end ==> a[k] == old(a[start + end - 1 - k])
    ensures forall k :: 0 <= k < a.Length && !(start <= k < end) ==> a[k] == old(a[k])
  {
    var left, right: int := start, end - 1;
    while left < right
      invariant start <= left && right < end && left + right == start + end - 1
      invariant left <= right + 1
      invariant forall k :: start <= k < left || right < k < end ==> a[k] == old(a[start + end - 1 - k])
      invariant forall k :: left <= k <= right ==> a[k] == old(a[k])
      invariant forall k :: 0 <= k < a.Length && !(start <= k < end) ==> a[k] == old(a[k])
    {
      a[left], a[right] := a[right], a[left];
      left, right := left + 1, right - 1;
    }
  }

  lemma MirrorInWindow(start: nat, i: nat, w: nat, n: nat, end: nat)
    requires w > 0 && IsStart(start, w) && end == (if start + w > n then n else start + w) && start <= i < end
    ensures Mirror(i, w, n) == start + end - 1 - i
  {
    SameWindow(start, i, w);
  }

  lemma NextStart(start: nat, w: nat)
    requires w > 0 && IsStart(start, w)
    ensures IsStart(start + w, w)
  {}

  // The reorder loop of Plan.
  method ReorderWindows<T>(ordered: array<T>, window: int)
    modifies ordered
    ensures ordered[..] == Windowed(old(ordered[..]), if window < 0 then 0 else window)
  {
    if window > 1 {
      var start := 0;
      ghost var before := ordered[..];
      while start < ordered.Length
        invariant 0 <= start && IsStart(start, window)
        invariant forall k :: 0 <= k < ordered.Length && k < start ==> ordered[k] == before[Mirror(k, window, |before|)]
        invariant forall k :: start <= k < ordered.Length ==> ordered[k] == before[k]
        decreases ordered.Length - start
      {
        var end := start + window;
        if end > ordered.Length {
          end := ordered.Length;
        }
        ReverseRange(ordered, start, end);
        forall k | start <= k < end
          ensures ordered[k] == before[Mirror(k, window, |before|)]
        {
          MirrorInWindow(start, k, window, |before|, end);
        }
        NextStart(start, window);
        start := start + window;
      }
    }
  }
}
