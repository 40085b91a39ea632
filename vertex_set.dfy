/** The candidate-set operations the enumerator calls. A candidate set is a
    sorted list of vertex ids; the subtraction set is the stack of vertices
    chosen along the current recursion path. */
module VertexSets {
  import opened SortedSeq

  /** `build_vertex_set`: with no father set, the new vertex's adjacency list
      itself; otherwise the father's members that are also adjacent to the new
      vertex, and in clique mode only those below it. */
  function BuildVertexSet(hasFather: bool, father: seq<int>, adj: seq<int>, vertex: int, clique: bool): (r: seq<int>)
    ensures !hasFather ==> r == adj
    ensures hasFather ==> forall x :: x in r <==> x in father && x in adj && (!clique || x < vertex)
    ensures hasFather && StrictlySorted(father) ==> StrictlySorted(r)
  {
    if hasFather then Intersect(father, adj, vertex, clique) else adj
  }

  /** The members of `a` that are in `b` (and below `bound` when `clique`),
      in `a`'s order. */
  function Intersect(a: seq<int>, b: seq<int>, bound: int, clique: bool): (r: seq<int>)
    ensures forall x :: x in r <==> x in a && x in b && (!clique || x < bound)
    ensures StrictlySorted(a) ==> StrictlySorted(r)
    decreases |a|
  {
    if |a| == 0 then []
    else
      var rest := Intersect(a[1..], b, bound, clique);
      if a[0] in b && (!clique || a[0] < bound) then
        assert StrictlySorted(a) ==> StrictlySorted([a[0]] + rest) by {
          if StrictlySorted(a) {
            var r := [a[0]] + rest;
            forall i, j | 0 <= i < j < |r| ensures r[i] < r[j] {
              assert r[j] == rest[j - 1] && rest[j - 1] in a[1..];
            }
          }
        }
        [a[0]] + rest
      else rest
  }

  /** The values among the first k entries of s that are not on the stack. */
  ghost function Unchosen(s: seq<int>, stack: seq<int>, k: nat): set<int>
    requires k <= |s|
  {
    set x | x in s[..k] && x !in stack
  }

  /** `unorderd_subtraction_size`: how many of the first `limit` entries of
      the set are not on the stack. */
  function SubtractionSize(s: seq<int>, stack: seq<int>, limit: nat): (r: nat)
    requires limit <= |s|
    ensures StrictlySorted(s) ==> r == |Unchosen(s, stack, limit)|
  {
    if limit == 0 then
      assert Unchosen(s, stack, 0) == {};
      0
    else
      var r := SubtractionSize(s, stack, limit - 1) + if s[limit - 1] in stack then 0 else 1;
      UnchosenStep(s, stack, limit);
      r
  }

  /** Extending the prefix by one entry adds that entry when it is off the
      stack; in a sorted list it is new. */
  lemma UnchosenStep(s: seq<int>, stack: seq<int>, k: nat)
    requires 0 < k <= |s|
    ensures StrictlySorted(s) ==>
      |Unchosen(s, stack, k)| == |Unchosen(s, stack, k - 1)| + if s[k - 1] in stack then 0 else 1
  {
    if StrictlySorted(s) {
      var x := s[k - 1];
      assert s[..k] == s[..k - 1] + [x];
      assert forall i :: 0 <= i < k - 1 ==> s[i] < x;
      assert x !in s[..k - 1];
      if x in stack {
        assert Unchosen(s, stack, k) == Unchosen(s, stack, k - 1);
      } else {
        assert Unchosen(s, stack, k) == Unchosen(s, stack, k - 1) + {x};
      }
    }
  }

  /** The number of leading entries below `bound`: where `std::lower_bound`
      lands in a sorted list. */
  ghost function FirstReach(s: seq<int>, bound: int): (r: nat)
    ensures r <= |s| && forall i :: 0 <= i < r ==> s[i] < bound
    ensures r < |s| ==> s[r] >= bound
  {
    if |s| == 0 || s[0] >= bound then 0 else 1 + FirstReach(s[1..], bound)
  }

  /** In a sorted list, the leading entries below `bound` are all the entries
      below it. */
  lemma FirstReachIsBelow(s: seq<int>, bound: int)
    requires StrictlySorted(s)
    ensures s[..FirstReach(s, bound)] == Below(s, bound)
    ensures forall i :: FirstReach(s, bound) <= i < |s| ==> s[i] >= bound
  {
    var k := FirstReach(s, bound);
    if k < |s| {
      SortedSuffix(s, k);
    }
    BelowIsPrefix(s, bound, k);
  }

  /** The binary search of `std::lower_bound`: the first position whose entry
      is not below `bound`. */
  method LowerBound(s: seq<int>, bound: int) returns (k: nat)
    requires StrictlySorted(s)
    ensures k == FirstReach(s, bound)
    ensures forall i :: 0 <= i < k ==> s[i] < bound
    ensures forall i :: k <= i < |s| ==> s[i] >= bound
  {
    var lo, hi := 0, |s|;
    while lo < hi
      invariant 0 <= lo <= hi <= |s|
      invariant forall i :: 0 <= i < lo ==> s[i] < bound
      invariant forall i :: hi <= i < |s| ==> s[i] >= bound
      decreases hi - lo
    {
      var mid := lo + (hi - lo) / 2;
      if s[mid] < bound {
        lo := mid + 1;
      } else {
        hi := mid;
      }
    }
    k := lo;
    SplitIsFirstReach(s, bound, k);
  }

  /** Any position with only entries below `bound` before it and an entry
      reaching it (or the end) at it is the first reach. */
  lemma {:induction false} SplitIsFirstReach(s: seq<int>, bound: int, k: nat)
    requires k <= |s| && forall i :: 0 <= i < k ==> s[i] < bound
    requires k < |s| ==> s[k] >= bound
    ensures k == FirstReach(s, bound)
  {
    if k > 0 {
      SplitIsFirstReach(s[1..], bound, k - 1);
    }
  }

  /** The stack of chosen vertices, kept in a candidate-set object. */
  class SubtractionSet {
    var data: seq<int>

    /** `init()`: an empty stack. */
    constructor ()
      ensures data == []
    {
      data := [];
    }

    method PushBack(x: int)
      modifies this
      ensures data == old(data) + [x]
    {
      data := data + [x];
    }

    method PopBack()
      requires |data| > 0
      modifies this
      ensures data == old(data)[..|old(data)| - 1]
    {
      data := data[..|data| - 1];
    }

    /** The vertex pushed last. */
    method GetLast() returns (x: int)
      requires |data| > 0
      ensures x == data[|data| - 1]
    {
      x := data[|data| - 1];
    }

    /** The vertex chosen at depth i. */
    method GetData(i: int) returns (x: int)
      requires 0 <= i < |data|
      ensures x == data[i]
    {
      x := data[i];
    }

    /** `has_data`: a linear scan for x. */
    method HasData(x: int) returns (b: bool)
      ensures b <==> x in data
    {
      var i := 0;
      while i < |data|
        invariant 0 <= i <= |data|
        invariant x !in data[..i]
      {
        if data[i] == x {
          return true;
        }
        assert data[..i + 1] == data[..i] + [data[i]];
        i := i + 1;
      }
      assert data[..i] == data;
      return false;
    }
  }
}
