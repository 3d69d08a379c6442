/** sort.Slice: a permutation ordered by a key; ties may come out in any order, so callers
    may rely on nothing but the two postconditions. */
module Sorting {

  ghost predicate SortedBy<T>(s: seq<T>, key: T -> int) {
    forall i, j :: 0 <= i < j < |s| ==> key(s[i]) <= key(s[j])
  }

  method SortBy<T>(s: seq<T>, key: T -> int) returns (out: seq<T>)
    ensures SortedBy(out, key) && multiset(out) == multiset(s)
  {
    out := [];
    for i := 0 to |s|
      invariant SortedBy(out, key) && multiset(out) == multiset(s[..i])
    {
      assert s[..i + 1] == s[..i] + [s[i]];
      out := InsertBy(out, s[i], key);
    }
    assert s[..|s|] == s;
  }

  method InsertBy<T>(s: seq<T>, x: T, key: T -> int) returns (out: seq<T>)
    requires SortedBy(s, key)
    ensures SortedBy(out, key) && multiset(out) == multiset(s) + multiset{x}
  {
    var p := |s|;
    while p > 0 && key(s[p - 1]) > key(x)
      invariant 0 <= p <= |s|
      invariant p < |s| ==> key(s[p]) > key(x)
    {
      p := p - 1;
    }
    InsertionSorted(s[..p], x, s[p..], key);
    assert s == s[..p] + s[p..];
    out := s[..p] + [x] + s[p..];
  }

  lemma InsertionSorted<T>(low: seq<T>, x: T, high: seq<T>, key: T -> int)
    requires SortedBy(low, key) && SortedBy(high, key)
    requires low != [] ==> key(low[|low| - 1]) <= key(x)
    requires high != [] ==> key(x) < key(high[0])
    ensures SortedBy(low + [x] + high, key)
  {
    forall i | 0 <= i < |low| ensures key(low[i]) <= key(x) {
      assert i < |low| - 1 ==> key(low[i]) <= key(low[|low| - 1]);
    }
    forall j | 0 <= j < |high| ensures key(x) < key(high[j]) {
      assert 0 < j ==> key(high[0]) <= key(high[j]);
    }
  }
}
