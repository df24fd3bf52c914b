/** What the solvers need of order: the exchange sort they repeat, where each position in
    turn is swapped with every later, smaller element, and a queue popped by least cost. */
module Ordering {

  ghost predicate SortedBy<T>(s: seq<T>, key: T -> real) {
    forall i, j :: 0 <= i < j < |s| ==> key(s[i]) <= key(s[j])
  }

  /** The first n elements are in order and below all later ones. */
  ghost predicate Placed<T>(s: seq<T>, key: T -> real, n: int) {
    forall i, j :: 0 <= i < n && i < j < |s| ==> key(s[i]) <= key(s[j])
  }

  lemma SwapKeepsMultiset<T>(s: seq<T>, i: nat, j: nat)
    requires i < |s| && j < |s|
    ensures multiset(s[i := s[j]][j := s[i]]) == multiset(s)
  {
  }

  lemma SameElements<T>(a: seq<T>, b: seq<T>)
    requires multiset(a) == multiset(b)
    ensures |a| == |b| && forall x :: x in a <==> x in b
  {
    assert |a| == |multiset(a)| && |b| == |multiset(b)|;
    assert forall x :: x in a <==> x in multiset(a);
    assert forall x :: x in b <==> x in multiset(b);
  }

  lemma SwapKeepsPlaced<T>(s: seq<T>, key: T -> real, i: nat, j: nat)
    requires i < j < |s| && Placed(s, key, i)
    ensures Placed(s[i := s[j]][j := s[i]], key, i)
  {
  }

  /** The inner loop: position i receives a least element of the rest. */
  method PlaceLeast<T>(a: array<T>, key: T -> real, i: nat)
    requires i < a.Length && Placed(a[..], key, i)
    modifies a
    ensures multiset(a[..]) == old(multiset(a[..]))
    ensures Placed(a[..], key, i + 1)
  {
    var j := i + 1;
    while j < a.Length
      invariant i < j <= a.Length
      invariant multiset(a[..]) == old(multiset(a[..]))
      invariant Placed(a[..], key, i)
      invariant forall y :: i < y < j ==> key(a[i]) <= key(a[y])
    {
      if key(a[j]) < key(a[i]) {
        ghost var before := a[..];
        a[i], a[j] := a[j], a[i];
        assert a[..] == before[i := before[j]][j := before[i]];
        SwapKeepsMultiset(before, i, j);
        SwapKeepsPlaced(before, key, i, j);
      }
      j := j + 1;
    }
  }

  /** Sorts a in place by key, ascending. */
  method ExchangeSort<T>(a: array<T>, key: T -> real)
    modifies a
    ensures SortedBy(a[..], key)
    ensures multiset(a[..]) == old(multiset(a[..]))
  {
    var i := 0;
    while i < a.Length - 1
      invariant 0 <= i <= a.Length
      invariant multiset(a[..]) == old(multiset(a[..]))
      invariant Placed(a[..], key, i)
    {
      PlaceLeast(a, key, i);
      i := i + 1;
    }
  }

  /** A sorted copy of s. */
  method Sorted<T>(s: seq<T>, key: T -> real) returns (r: seq<T>)
    ensures SortedBy(r, key)
    ensures multiset(r) == multiset(s)
  {
    var a := new T[|s|](i requires 0 <= i < |s| => s[i]);
    assert a[..] == s;
    ExchangeSort(a, key);
    r := a[..];
  }

  lemma Move<T>(seen: multiset<T>, rest: multiset<T>, y: T)
    requires y in rest
    ensures (seen + multiset{y}) + (rest - multiset{y}) == seen + rest && |rest - multiset{y}| < |rest|
    ensures forall z :: z in seen + multiset{y} <==> z in seen || z == y
  {
  }

  /** An element of least cost and the rest of the queue; ties are broken arbitrarily, as
      the layout of a binary heap breaks them. */
  method PopLeast<T(==)>(queue: multiset<T>, cost: T -> real) returns (x: T, rest: multiset<T>)
    requires queue != multiset{}
    ensures x in queue && rest == queue - multiset{x}
    ensures forall y :: y in queue ==> cost(x) <= cost(y)
  {
    x :| x in queue;
    rest := queue - multiset{x};
    var seen := multiset{x};
    while rest != multiset{}
      invariant seen + rest == queue && x in seen
      invariant forall y :: y in seen ==> cost(x) <= cost(y)
      decreases |rest|
    {
      var y :| y in rest;
      Move(seen, rest, y);
      rest := rest - multiset{y};
      seen := seen + multiset{y};
      if cost(y) < cost(x) {
        x := y;
      }
    }
    assert seen == queue;
    rest := queue - multiset{x};
  }
}
