/** The batcher's deadline queue: a binary heap of items that each record their own place,
    so that an item can be taken out from the middle. */
module DeadlineHeap {

  /** An item by its address: the batch it belongs to, its deadline and its place. */
  datatype HeapItem = HeapItem(batch: nat, deadline: int, index: int)

  /** An item without its place. */
  datatype Entry = Entry(batch: nat, deadline: int)

  // ---------- Order, on the deadlines alone ----------

  function Parent(k: int): int {
    if k <= 0 then 0 else (k - 1) / 2
  }

  /** The edge from k up to its parent is in order. */
  predicate InOrder(d: seq<int>, k: int)
    requires 0 <= k < |d|
  {
    d[Parent(k)] <= d[k]
  }

  ghost predicate Ordered(d: seq<int>, n: int)
    requires n <= |d|
  {
    forall k :: 0 < k < n ==> InOrder(d, k)
  }

  function SwapInts(d: seq<int>, i: int, j: int): seq<int>
    requires 0 <= i < |d| && 0 <= j < |d|
  {
    d[i := d[j]][j := d[i]]
  }

  lemma {:induction false} RootIsLeast(d: seq<int>, n: nat, k: nat)
    requires n <= |d| && Ordered(d, n) && k < n
    ensures d[0] <= d[k]
  {
    if k > 0 {
      assert InOrder(d, k);
      RootIsLeast(d, n, Parent(k));
    }
  }

  /** Only the edge above j may be out of order, and its children clear its parent. */
  ghost predicate AlmostUp(d: seq<int>, n: int, j: int)
    requires n <= |d|
  {
    && 0 <= j < n
    && (forall k :: 0 < k < n && k != j ==> InOrder(d, k))
    && (forall k :: 0 < k < n && Parent(k) == j && j > 0 ==> d[Parent(j)] <= d[k])
  }

  /** Only the edges below i may be out of order, and the one above it while i is the place
      the descent began; the children of i clear its parent. */
  ghost predicate AlmostDown(d: seq<int>, n: int, i: int, i0: int)
    requires n <= |d|
  {
    && 0 <= i0 <= i < |d|
    && (forall k :: 0 < k < n && Parent(k) != i && (k != i0 || i != i0) ==> InOrder(d, k))
    && (forall k :: 0 < k < n && Parent(k) == i && i > 0 ==> d[Parent(i)] <= d[k])
  }

  /** j is a child of i no later than the other one. */
  ghost predicate LesserChild(d: seq<int>, n: int, i: int, j: int)
    requires n <= |d|
  {
    && 0 <= i && 2 * i + 1 < n && (j == 2 * i + 1 || (j == 2 * i + 2 && j < n))
    && d[j] <= d[2 * i + 1] && (2 * i + 2 < n ==> d[j] <= d[2 * i + 2])
  }

  lemma UpStep(d: seq<int>, n: int, j: int)
    requires n <= |d| && AlmostUp(d, n, j) && j > 0 && d[j] < d[Parent(j)]
    ensures AlmostUp(SwapInts(d, Parent(j), j), n, Parent(j))
  {
    var i := Parent(j);
    var e := SwapInts(d, i, j);
    assert i > 0 ==> InOrder(d, i);
    forall k | 0 < k < n && k != i
      ensures InOrder(e, k)
    {
      assert k != j ==> InOrder(d, k);
    }
    forall k | 0 < k < n && Parent(k) == i && i > 0
      ensures e[Parent(i)] <= e[k]
    {
      assert k != j ==> InOrder(d, k);
    }
  }

  lemma SwapAt(d: seq<int>, i: int, j: int, k: int)
    requires 0 <= i < |d| && 0 <= j < |d| && 0 <= k < |d|
    ensures SwapInts(d, i, j)[k] == if k == i then d[j] else if k == j then d[i] else d[k]
  {
  }

  lemma DownStepEdge(d: seq<int>, n: int, i: int, i0: int, j: int, k: int)
    requires n <= |d| && AlmostDown(d, n, i, i0) && LesserChild(d, n, i, j) && d[j] < d[i]
    requires 0 < k < n && Parent(k) != j
    ensures InOrder(SwapInts(d, i, j), k)
  {
    SwapAt(d, i, j, k);
    SwapAt(d, i, j, Parent(k));
    assert Parent(j) == i && i < j;
    if Parent(k) == i {
      assert k == 2 * i + 1 || k == 2 * i + 2;
    } else if k == i {
      assert i > 0 && d[Parent(i)] <= d[j];
    } else {
      assert InOrder(d, k);
    }
  }

  lemma DownStep(d: seq<int>, n: int, i: int, i0: int, j: int)
    requires n <= |d| && AlmostDown(d, n, i, i0) && LesserChild(d, n, i, j) && d[j] < d[i]
    ensures AlmostDown(SwapInts(d, i, j), n, j, i0)
  {
    var e := SwapInts(d, i, j);
    assert Parent(j) == i && i < j;
    forall k | 0 < k < n && Parent(k) != j && (k != i0 || j != i0)
      ensures InOrder(e, k)
    {
      DownStepEdge(d, n, i, i0, j, k);
    }
    forall k | 0 < k < n && Parent(k) == j
      ensures e[Parent(j)] <= e[k]
    {
      assert InOrder(d, k);
      SwapAt(d, i, j, k);
      SwapAt(d, i, j, i);
    }
  }

  /** Replacing the item at i by a later one leaves the heap almost in order below i. */
  lemma ReplacedIsAlmostDown(d: seq<int>, n: int, i: int)
    requires 0 <= i < n < |d| && Ordered(d, n + 1)
    ensures AlmostDown(SwapInts(d, i, n), n, i, i)
  {
    var e := SwapInts(d, i, n);
    forall k | 0 < k < n && Parent(k) != i && k != i
      ensures InOrder(e, k)
    {
      assert InOrder(d, k);
    }
    forall k | 0 < k < n && Parent(k) == i && i > 0
      ensures e[Parent(i)] <= e[k]
    {
      assert InOrder(d, k) && InOrder(d, i);
    }
  }

  lemma AlmostDownPlace(d: seq<int>, n: int, i: int, i0: int)
    requires n <= |d| && AlmostDown(d, n, i, i0)
    ensures 0 <= i0 <= i < |d|
  {
  }

  /** With its children no earlier than it, the item has sunk far enough. */
  lemma DownDone(d: seq<int>, n: int, i: int, i0: int)
    requires n <= |d| && AlmostDown(d, n, i, i0)
    requires (2 * i + 1 < n ==> d[i] <= d[2 * i + 1]) && (2 * i + 2 < n ==> d[i] <= d[2 * i + 2])
    ensures i > i0 || i0 == 0 ==> Ordered(d, n)
    ensures i == i0 && i0 < n ==> AlmostUp(d, n, i0)
  {
    forall k | 0 < k < n && Parent(k) == i
      ensures InOrder(d, k)
    {
      assert k == 2 * i + 1 || k == 2 * i + 2;
    }
  }

  lemma SingleIsAlmostDown(d: seq<int>)
    requires |d| == 1
    ensures AlmostDown(SwapInts(d, 0, 0), 0, 0, 0)
  {
  }

  lemma OrderedPrefix(d: seq<int>, n: int)
    requires n < |d| && Ordered(d, |d|)
    ensures Ordered(d, n)
  {
  }

  lemma AppendedIsAlmostUp(d: seq<int>, x: int)
    requires Ordered(d, |d|)
    ensures AlmostUp(d + [x], |d| + 1, |d|)
  {
    forall k | 0 < k < |d|
      ensures InOrder(d + [x], k)
    {
      assert InOrder(d, k);
    }
  }

  // ---------- The heap ----------

  ghost predicate PlacedIn(h: seq<nat>, items: map<nat, HeapItem>) {
    && (forall i :: 0 <= i < |h| ==> h[i] in items && items[h[i]].index == i)
    && (forall a :: a in items ==> 0 <= items[a].index < |h| && h[items[a].index] == a)
  }

  function SwapItems(h: seq<nat>, items: map<nat, HeapItem>, i: int, j: int): map<nat, HeapItem>
    requires 0 <= i < |h| && 0 <= j < |h| && h[i] in items && h[j] in items
  {
    var moved := items[h[j] := items[h[j]].(index := i)];
    moved[h[i] := moved[h[i]].(index := j)]
  }

  lemma SwapKeepsPlaces(h: seq<nat>, items: map<nat, HeapItem>, i: int, j: int)
    requires PlacedIn(h, items) && 0 <= i < |h| && 0 <= j < |h|
    ensures PlacedIn(h[i := h[j]][j := h[i]], SwapItems(h, items, i, j))
  {
    var h', items' := h[i := h[j]][j := h[i]], SwapItems(h, items, i, j);
    assert items'.Keys == items.Keys;
    forall k | 0 <= k < |h'|
      ensures h'[k] in items' && items'[h'[k]].index == k
    {
      assert h'[k] == if k == j then h[i] else if k == i then h[j] else h[k];
    }
  }

  lemma SwapKeepsItems(h: seq<nat>, items: map<nat, HeapItem>, i: int, j: int)
    requires PlacedIn(h, items) && 0 <= i < |h| && 0 <= j < |h|
    ensures SwapItems(h, items, i, j).Keys == items.Keys
    ensures forall a :: a in items ==> SwapItems(h, items, i, j)[a].batch == items[a].batch && SwapItems(h, items, i, j)[a].deadline == items[a].deadline
  {
  }

  class MinHeap {
    var h: seq<nat>
    var items: map<nat, HeapItem>

    constructor ()
      ensures Valid() && Entries() == map[]
    {
      h, items := [], map[];
    }

    /** Every item sits at the place it records. */
    ghost predicate Placed()
      reads this
    {
      PlacedIn(h, items)
    }

    ghost function Deadlines(): (d: seq<int>)
      requires Placed()
      reads this
      ensures |d| == |h| && forall i :: 0 <= i < |h| ==> d[i] == items[h[i]].deadline
    {
      var hs, its := h, items;
      seq(|hs|, i requires 0 <= i < |hs| && hs[i] in its => its[hs[i]].deadline)
    }

    ghost predicate Valid()
      reads this
    {
      Placed() && Ordered(Deadlines(), |h|)
    }

    /** What the heap holds, by address. */
    ghost function Entries(): (m: map<nat, Entry>)
      reads this
      ensures m.Keys == items.Keys
    {
      map a | a in items :: Entry(items[a].batch, items[a].deadline)
    }

    predicate Less(i: int, j: int)
      requires Placed() && 0 <= i < |h| && 0 <= j < |h|
      reads this
    {
      items[h[i]].deadline < items[h[j]].deadline
    }

    method Swap(i: int, j: int)
      requires Placed() && 0 <= i < |h| && 0 <= j < |h|
      modifies this
      ensures Placed() && h == old(h)[i := old(h)[j]][j := old(h)[i]] && Entries() == old(Entries())
      ensures Deadlines() == SwapInts(old(Deadlines()), i, j)
    {
      SwapKeepsPlaces(h, items, i, j);
      SwapKeepsItems(h, items, i, j);
      hide PlacedIn;
      var a, b := h[i], h[j];
      h := h[i := b][j := a];
      items := items[b := items[b].(index := i)];
      items := items[a := items[a].(index := j)];
    }

    /** Moves the item at j0 towards the root; the first n items end up in order. */
    method Up(j0: int, ghost n: int)
      requires Placed() && 0 <= n <= |h| && AlmostUp(Deadlines(), n, j0)
      modifies this
      ensures Placed() && Entries() == old(Entries()) && |h| == old(|h|) && h[n..] == old(h)[n..]
      ensures Ordered(Deadlines(), n)
    {
      var j := j0;
      while true
        invariant Placed() && |h| == old(|h|) && AlmostUp(Deadlines(), n, j) && Entries() == old(Entries()) && h[n..] == old(h)[n..]
        decreases j
      {
        var i := Parent(j);
        if i == j || !Less(j, i) {
          break;
        }
        UpStep(Deadlines(), n, j);
        Swap(i, j);
        j := i;
      }
      assert j == 0 || InOrder(Deadlines(), j);
    }

    method ChooseChild(i: int, n: int) returns (j: int)
      requires Placed() && 0 <= i && 2 * i + 1 < n <= |h|
      ensures LesserChild(Deadlines(), n, i, j)
    {
      var j1 := 2 * i + 1;
      j := j1;
      if j1 + 1 < n && Less(j1 + 1, j1) {
        j := j1 + 1;
      }
    }

    /** Moves the item at i0 away from the root, among the first n; says whether it moved. */
    method Down(i0: int, n: int) returns (moved: bool)
      requires Placed() && 0 <= n <= |h| && AlmostDown(Deadlines(), n, i0, i0)
      modifies this
      ensures Placed() && Entries() == old(Entries()) && |h| == old(|h|) && h[n..] == old(h)[n..]
      ensures (moved || i0 == 0) ==> Ordered(Deadlines(), n)
      ensures !moved ==> h == old(h) && Deadlines() == old(Deadlines())
      ensures !moved && i0 < n ==> AlmostUp(Deadlines(), n, i0)
    {
      hide Entries, AlmostDown, AlmostUp, Ordered, InOrder, Placed, Parent;
      var i := i0;
      AlmostDownPlace(Deadlines(), n, i, i0);
      while true
        invariant Placed() && |h| == old(|h|) && AlmostDown(Deadlines(), n, i, i0) && Entries() == old(Entries())
        invariant h[n..] == old(h)[n..] && i0 <= i < |h| && (i == i0 ==> h == old(h) && Deadlines() == old(Deadlines()))
        decreases |h| - i
      {
        var j1 := 2 * i + 1;
        if j1 >= n {
          break;
        }
        var j := ChooseChild(i, n);
        if !Less(j, i) {
          break;
        }
        DownStep(Deadlines(), n, i, i0, j);
        Swap(i, j);
        i := j;
      }
      DownDone(Deadlines(), n, i, i0);
      moved := i > i0;
    }

    /** The first item has the least deadline. */
    lemma FirstIsLeast(a: nat)
      requires Valid() && a in items
      ensures |h| > 0 && h[0] in items && items[h[0]].deadline <= items[a].deadline
    {
      RootIsLeast(Deadlines(), |h|, items[a].index);
    }

    /** `heap.Push`. */
    method Push(a: nat, batch: nat, deadline: int)
      requires Valid() && a !in items
      modifies this
      ensures Valid() && Entries() == old(Entries())[a := Entry(batch, deadline)]
    {
      hide AlmostUp, InOrder;
      ghost var d := Deadlines();
      items := items[a := HeapItem(batch, deadline, |h|)];
      h := h + [a];
      assert Placed();
      assert Deadlines() == d + [deadline];
      AppendedIsAlmostUp(d, deadline);
      assert Entries() == old(Entries())[a := Entry(batch, deadline)];
      hide Placed, Deadlines, Entries, Ordered, AlmostUp;
      Up(|h| - 1, |h|);
    }

    /** Takes the last item off. */
    method PopLast() returns (a: nat)
      requires Placed() && |h| > 0 && Ordered(Deadlines(), |h| - 1)
      modifies this
      ensures Valid() && a == old(h)[|old(h)| - 1] && Entries() == old(Entries()) - {a}
    {
      ghost var d := Deadlines();
      a := h[|h| - 1];
      h := h[..|h| - 1];
      items := items - {a};
      assert Placed();
      forall k | 0 < k < |h|
        ensures InOrder(Deadlines(), k)
      {
        assert InOrder(d, k);
      }
    }

    /** `heap.Pop`: an item of least deadline. */
    method Pop() returns (a: nat)
      requires Valid() && |h| > 0
      modifies this
      ensures Valid() && a == old(h)[0] && Entries() == old(Entries()) - {a}
    {
      hide PlacedIn, Ordered, AlmostDown, AlmostUp, Entries, Deadlines, SwapInts;
      ghost var d := Deadlines();
      var n := |h| - 1;
      if n > 0 {
        ReplacedIsAlmostDown(d, n, 0);
      } else {
        SingleIsAlmostDown(d);
      }
      Swap(0, n);
      var _ := Down(0, n);
      assert h[n..][0] == old(h)[0];
      a := PopLast();
    }

    /** `heap.Remove`: the item at place i. */
    method Remove(i: int) returns (a: nat)
      requires Valid() && 0 <= i < |h|
      modifies this
      ensures Valid() && a == old(h)[i] && Entries() == old(Entries()) - {a}
    {
      hide PlacedIn, Ordered, AlmostDown, AlmostUp, Entries, Deadlines, SwapInts;
      ghost var d := Deadlines();
      var n := |h| - 1;
      if n != i {
        ReplacedIsAlmostDown(d, n, i);
        Swap(i, n);
        var moved := Down(i, n);
        if !moved {
          Up(i, n);
        }
        assert h[n..][0] == old(h)[i];
      } else {
        OrderedPrefix(d, n);
      }
      a := PopLast();
    }
  }
}
