/** Paths written as strings: hops joined with "->", as the candidate queue and the
    duplicate checks keep them. */
module PathNames {

  const ARROW := "->"

  ghost predicate ArrowAt(s: string, i: nat) {
    i + 1 < |s| && s[i] == '-' && s[i + 1] == '>'
  }

  /** The name holds no separator. */
  ghost predicate ArrowFree(s: string) {
    forall i: nat :: !ArrowAt(s, i)
  }

  /** Position of the first separator at or after i, or |s|. */
  function IndexOf(s: string, i: nat): (k: nat)
    requires i <= |s|
    ensures i <= k <= |s|
    ensures k < |s| ==> ArrowAt(s, k)
    ensures forall j: nat :: i <= j < k ==> !ArrowAt(s, j)
    decreases |s| - i
  {
    if i == |s| then i
    else if i + 1 < |s| && s[i] == '-' && s[i + 1] == '>' then i
    else IndexOf(s, i + 1)
  }

  function Join(hops: seq<string>): string {
    if hops == [] then ""
    else if |hops| == 1 then hops[0]
    else hops[0] + ARROW + Join(hops[1..])
  }

  function Split(s: string): (hops: seq<string>)
    ensures hops != [] && forall h :: h in hops ==> ArrowFree(h)
    decreases |s|
  {
    var k := IndexOf(s, 0);
    if k == |s| then [s]
    else
      assert forall i: nat :: ArrowAt(s[..k], i) ==> ArrowAt(s, i);
      [s[..k]] + Split(s[k + 2..])
  }

  /** The key of the edge between two nodes. */
  function EdgeKey(from: string, to: string): string {
    from + ARROW + to
  }

  lemma KeyIsJoin(u: string, v: string)
    ensures EdgeKey(u, v) == Join([u, v])
  {
    assert [u, v][1..] == [v];
  }

  /** The first separator after an arrow-free name is the one joined on. */
  lemma FirstArrow(h: string, rest: string)
    requires ArrowFree(h)
    ensures IndexOf(h + ARROW + rest, 0) == |h|
  {
    var s := h + ARROW + rest;
    assert ArrowAt(s, |h|);
    forall j: nat | j < |h|
      ensures !ArrowAt(s, j)
    {
      assert j + 1 < |h| ==> !ArrowAt(h, j);
    }
  }

  lemma {:induction false} SplitUndoesJoin(hops: seq<string>)
    requires hops != [] && forall h :: h in hops ==> ArrowFree(h)
    ensures Split(Join(hops)) == hops
  {
    if |hops| == 1 {
      assert ArrowFree(hops[0]);
      assert Split(hops[0]) == [hops[0]];
    } else {
      var s := Join(hops);
      FirstArrow(hops[0], Join(hops[1..]));
      assert s[..|hops[0]|] == hops[0] && s[|hops[0]| + 2..] == Join(hops[1..]);
      SplitUndoesJoin(hops[1..]);
    }
  }

  /** Reading a joined path back gives the path exactly when it has a hop and no name
      holds the separator. */
  lemma RoundTripIff(hops: seq<string>)
    ensures Split(Join(hops)) == hops <==> hops != [] && forall h :: h in hops ==> ArrowFree(h)
  {
    if hops != [] && forall h :: h in hops ==> ArrowFree(h) {
      SplitUndoesJoin(hops);
    }
  }

  /** Comparing joined paths is comparing paths. */
  lemma JoinIsInjective(a: seq<string>, b: seq<string>)
    requires a != [] && b != []
    requires forall h :: h in a + b ==> ArrowFree(h)
    ensures Join(a) == Join(b) <==> a == b
  {
    assert forall h :: h in a || h in b ==> h in a + b;
    SplitUndoesJoin(a);
    SplitUndoesJoin(b);
  }
}
