/** Two worked plans for the three-vertex clique. Depth 0 chooses v and sets
    prefix 0 to N(v); depth 1 iterates over prefix 0 and, for each chosen u,
    sets prefix 1 to N(v) ∩ N(u); depth 2 counts prefix 1. Run through
    `pattern_matching`, the unrestricted plan reproduces the serial triangle
    counters: in clique mode `tc_mt`'s sum, otherwise `triangle_counting`'s
    sum before the division by six. The plan with the restrictions u < v and
    w < u, run in aggressive mode, reproduces `tc_mt`'s sum too. */
module TrianglePlan {
  import opened SortedSeq
  import opened Csr
  import opened Plan
  import opened VertexSets
  import opened GraphImpl
  import opened Enumerator

  /** The shape of both triangle plans, as the lemmas below use it: three
      depths, prefix 0 built from the first vertex's neighbours and iterated
      at depth 1, prefix 1 built from prefix 0 and the second vertex's
      neighbours and counted at depth 2. */
  ghost predicate TriangleShape(s: Schedule) {
    && WellFormed(s) && s.size == 3 && s.totalPrefixNum == 2
    && s.loopSetPrefixId[1] == 0 && s.loopSetPrefixId[2] == 1
    && s.last[0] == 0 && s.last[1] == 1
    && s.next[0] == -1 && s.next[1] == -1
    && s.father[0] == -1 && s.father[1] == 0
    && ChainSet(s, 0) == {0} && ChainSet(s, 1) == {1} && Touched(s, 2) == {}
  }

  /** The triangle plan without restrictions. */
  ghost predicate IsTrianglePlan(s: Schedule) {
    TriangleShape(s) && s.totalRestrictNum == 0
  }

  /** The triangle plan's tables. */
  function Triangle(): (s: Schedule)
    ensures IsTrianglePlan(s)
  {
    var s := Schedule(3, 2, 0, [0, 0, 1], [0, 1, -1], [-1, -1], [-1, 0], [-1, -1, -1], [], []);
    assert ChainSet(s, 0) == {0} && ChainSet(s, 1) == {1};
    assert Touched(s, 2) == {} && Touched(s, 1) == {1};
    s
  }

  /** The last depth, clique mode: it counts the common neighbours of v and
      u below u, what `intersection_size_clique(v, u)` counts. */
  lemma CliqueLeafIsShare(s: Schedule, g: CsrGraph, sets: seq<seq<int>>, v: int, u: int)
    requires IsTrianglePlan(s) && Valid(g) && 0 <= v < g.vCnt && |sets| == 2 && sets[0] == Adj(g, v)
    ensures Enum(g, s, Rebuild(g, s, sets, 1, u, true), [v, u], 2, Clique).count
            == TcShare(g, v, u)
  {
    var built := BuildVertexSet(true, sets[0], AdjOf(g, u), u, true);
    assert Rebuild(g, s, sets, 1, u, true) == sets[1 := built];
    AdjFacts(g, v);
    DistinctCount(built);
    assert (set x | x in built) == CommonBelow(Adj(g, v), AdjOf(g, u), u);
  }

  /** One candidate of depth 1 that is neither past the bound nor skipped:
      the descent adds the last depth's count, and the loop goes on from the
      next candidate with the sets the descent left, prefix 0 unchanged. */
  lemma LoopStep(s: Schedule, g: CsrGraph, sets: seq<seq<int>>, v: int, mode: Mode, loop: seq<int>, i: nat)
    returns (next: seq<seq<int>>)
    requires TriangleShape(s) && Offsets(g) && |sets| == 2 && i < |loop|
    requires !(mode != Plain && v <= loop[i]) && !(mode != Clique && loop[i] in [v])
    ensures |next| == 2 && next[0] == sets[0]
    ensures EnumLoop(g, s, sets, [v], 1, mode, loop, v, i).count
            == Enum(g, s, Rebuild(g, s, sets, 1, loop[i], mode == Clique), [v, loop[i]], 2, mode).count
               + EnumLoop(g, s, next, [v], 1, mode, loop, v, i + 1).count
  {
    var u := loop[i];
    assert [v] + [u] == [v, u];
    var inner := Enum(g, s, Rebuild(g, s, sets, 1, u, mode == Clique), [v, u], 2, mode);
    assert 0 !in Touched(s, 2) && 0 !in ChainSet(s, 1);
    next := inner.sets;
  }

  /** The i-th neighbour u of v, below v, in clique mode: it adds
      |{x ∈ N(v) ∩ N(u) : x < u}|, as `tc_mt`'s running sum does. */
  lemma CliqueStep(s: Schedule, g: CsrGraph, sets: seq<seq<int>>, v: int, i: nat) returns (next: seq<seq<int>>)
    requires IsTrianglePlan(s) && Valid(g) && 0 <= v < g.vCnt && |sets| == 2 && sets[0] == Adj(g, v)
    requires i < |Adj(g, v)| && Adj(g, v)[i] < v
    ensures |next| == 2 && next[0] == sets[0]
    ensures EnumLoop(g, s, sets, [v], 1, Clique, Adj(g, v), v, i).count + TcPrefixSum(g, v, i)
            == EnumLoop(g, s, next, [v], 1, Clique, Adj(g, v), v, i + 1).count + TcPrefixSum(g, v, i + 1)
  {
    var n := Adj(g, v);
    next := LoopStep(s, g, sets, v, Clique, n, i);
    CliqueLeafIsShare(s, g, sets, v, n[i]);
  }

  /** Depth 1 in clique mode ends at the end of N(v) or at the first
      neighbour not below v, adding nothing more: what it has added is all
      of v's `tc_mt` share. */
  lemma CliqueLoopStops(s: Schedule, g: CsrGraph, sets: seq<seq<int>>, v: int, i: nat)
    requires IsTrianglePlan(s) && Valid(g) && |sets| == 2 && 0 <= v < g.vCnt
    requires i <= |Adj(g, v)| && (i == 0 || Adj(g, v)[i - 1] < v) && (i < |Adj(g, v)| ==> v <= Adj(g, v)[i])
    ensures EnumLoop(g, s, sets, [v], 1, Clique, Adj(g, v), v, i).count + TcPrefixSum(g, v, i) == TcVertexSum(g, v)
  {
    TcVertexSumIsPrefix(g, v, i);
  }

  /** Depth 1 in clique mode over the neighbours of v, from prefix 0 set to
      N(v): it runs over those below v, stops at the first one that is not,
      and adds v's `tc_mt` share. */
  lemma CliqueLoop(s: Schedule, g: CsrGraph, sets: seq<seq<int>>, v: int)
    requires IsTrianglePlan(s) && Valid(g) && 0 <= v < g.vCnt && |sets| == 2 && sets[0] == Adj(g, v)
    ensures EnumLoop(g, s, sets, [v], 1, Clique, Adj(g, v), v, 0).count == TcVertexSum(g, v)
  {
    var n := Adj(g, v);
    var cur, i := sets, 0;
    while i < |n| && n[i] < v
      invariant i <= |n| && (i == 0 || n[i - 1] < v) && |cur| == 2 && cur[0] == n
      invariant EnumLoop(g, s, sets, [v], 1, Clique, n, v, 0).count
                == EnumLoop(g, s, cur, [v], 1, Clique, n, v, i).count + TcPrefixSum(g, v, i)
      decreases |n| - i
    {
      cur := CliqueStep(s, g, cur, v, i);
      i := i + 1;
    }
    CliqueLoopStops(s, g, cur, v, i);
  }

  /** One vertex of the outer loop in clique mode: depth 0 sets prefix 0 to
      the vertex's neighbours, and the descent adds the vertex's `tc_mt`
      share. */
  lemma CliqueVertex(s: Schedule, g: CsrGraph, sets: seq<seq<int>>, vertex: nat) returns (next: seq<seq<int>>)
    requires IsTrianglePlan(s) && Valid(g) && |sets| == 2 && vertex < g.vCnt
    ensures |next| == 2
    ensures Outer(g, s, sets, true, vertex).count == TcVertexSum(g, vertex) + Outer(g, s, next, true, vertex + 1).count
  {
    var built := Rebuild(g, s, sets, s.last[0], vertex, false);
    assert built == sets[0 := Adj(g, vertex)];
    var inner := Enum(g, s, built, [vertex], 1, TopMode(s, true));
    CliqueLoop(s, g, built, vertex);
    next := inner.sets;
  }

  /** The outer loop in clique mode from `vertex` on adds what `tc_mt` adds
      over the same vertices, whatever candidate sets it starts from. */
  lemma {:induction false} CliqueOuterIsTcSum(s: Schedule, g: CsrGraph, sets: seq<seq<int>>, vertex: nat)
    requires IsTrianglePlan(s) && Valid(g) && |sets| == 2 && vertex <= g.vCnt
    ensures Outer(g, s, sets, true, vertex).count + TcRangeSum(g, 0, vertex) == TcSum(g)
    decreases g.vCnt - vertex
  {
    if vertex < g.vCnt {
      var next := CliqueVertex(s, g, sets, vertex);
      CliqueOuterIsTcSum(s, g, next, vertex + 1);
    }
  }

  /** `pattern_matching` in clique mode with the triangle plan returns
      `tc_mt`'s total: on a simple graph, the number of triangles. */
  lemma CliqueCountsTriangles(g: CsrGraph)
    requires Valid(g)
    ensures Count(g, Triangle(), true) == TcSum(g)
    ensures Simple(g) ==> Count(g, Triangle(), true) == |Triangles(g)|
  {
    CliqueOuterIsTcSum(Triangle(), g, seq(2, _ => []), 0);
    if Simple(g) {
      CountersAgree(g);
    }
  }

  /** No vertex below k is its own neighbour. */
  ghost predicate Loopless(g: CsrGraph, k: nat)
    requires Offsets(g) && k <= g.vCnt
  {
    k == 0 || (Loopless(g, k - 1) && k - 1 !in Adj(g, k - 1))
  }

  lemma {:induction false} LooplessAt(g: CsrGraph, k: nat, x: int)
    requires Offsets(g) && k <= g.vCnt && Loopless(g, k) && 0 <= x < k
    ensures x !in Adj(g, x)
    decreases k
  {
    if x < k - 1 {
      LooplessAt(g, k - 1, x);
    }
  }

  lemma {:induction false} SimpleIsLoopless(g: CsrGraph, k: nat)
    requires Simple(g) && k <= g.vCnt
    ensures Loopless(g, k)
    decreases k
  {
    if k > 0 {
      SimpleIsLoopless(g, k - 1);
      assert !Adjacent(g, k - 1, k - 1);
    }
  }

  /** The last depth, plain mode: without self-loops no common neighbour of
      v and u is v or u, so it counts all of them, what
      `intersection_size(v, u)` counts. */
  lemma PlainLeafIsCommon(s: Schedule, g: CsrGraph, sets: seq<seq<int>>, v: int, u: int)
    requires IsTrianglePlan(s) && Valid(g) && 0 <= v < g.vCnt && |sets| == 2 && sets[0] == Adj(g, v)
    requires v !in Adj(g, v) && u !in AdjOf(g, u)
    ensures Enum(g, s, Rebuild(g, s, sets, 1, u, false), [v, u], 2, Plain).count
            == |Common(Adj(g, v), AdjOf(g, u))|
  {
    var built := BuildVertexSet(true, sets[0], AdjOf(g, u), u, false);
    assert Rebuild(g, s, sets, 1, u, false) == sets[1 := built];
    AdjFacts(g, v);
    assert built[..|built|] == built;
    assert Unchosen(built, [v, u], |built|) == Common(Adj(g, v), AdjOf(g, u));
  }

  /** The i-th neighbour u of v, in plain mode: not skipped, since v is not
      its own neighbour, and it adds |N(v) ∩ N(u)|, as
      `triangle_counting`'s running sum does. */
  lemma PlainStep(s: Schedule, g: CsrGraph, sets: seq<seq<int>>, v: int, i: nat) returns (next: seq<seq<int>>)
    requires IsTrianglePlan(s) && Valid(g) && Loopless(g, g.vCnt) && 0 <= v < g.vCnt && |sets| == 2 && sets[0] == Adj(g, v)
    requires i < |Adj(g, v)|
    ensures |next| == 2 && next[0] == sets[0]
    ensures EnumLoop(g, s, sets, [v], 1, Plain, Adj(g, v), v, i).count + PrefixSum(g, v, i)
            == EnumLoop(g, s, next, [v], 1, Plain, Adj(g, v), v, i + 1).count + PrefixSum(g, v, i + 1)
  {
    var n := Adj(g, v);
    var u := n[i];
    NeighbourAt(g, v, i);
    assert u in n;
    LooplessAt(g, g.vCnt, v);
    LooplessAt(g, g.vCnt, u);
    next := LoopStep(s, g, sets, v, Plain, n, i);
    PlainLeafIsCommon(s, g, sets, v, u);
  }

  /** Depth 1 in plain mode over the neighbours of v, from prefix 0 set to
      N(v): no neighbour is skipped, since no vertex is its own neighbour,
      and it adds v's share of `triangle_counting`'s sum. */
  lemma PlainLoop(s: Schedule, g: CsrGraph, sets: seq<seq<int>>, v: int)
    requires IsTrianglePlan(s) && Valid(g) && Loopless(g, g.vCnt) && 0 <= v < g.vCnt && |sets| == 2 && sets[0] == Adj(g, v)
    ensures EnumLoop(g, s, sets, [v], 1, Plain, Adj(g, v), v, 0).count == VertexSum(g, v)
  {
    var n := Adj(g, v);
    var cur, i := sets, 0;
    while i < |n|
      invariant i <= |n| && |cur| == 2 && cur[0] == n
      invariant EnumLoop(g, s, sets, [v], 1, Plain, n, v, 0).count
                == EnumLoop(g, s, cur, [v], 1, Plain, n, v, i).count + PrefixSum(g, v, i)
      decreases |n| - i
    {
      cur := PlainStep(s, g, cur, v, i);
      i := i + 1;
    }
  }

  /** One vertex of the outer loop in plain mode: depth 0 sets prefix 0 to
      the vertex's neighbours, and the descent adds the vertex's share of
      `triangle_counting`'s sum. */
  lemma PlainVertex(s: Schedule, g: CsrGraph, sets: seq<seq<int>>, vertex: nat) returns (next: seq<seq<int>>)
    requires IsTrianglePlan(s) && Valid(g) && Loopless(g, g.vCnt) && |sets| == 2 && vertex < g.vCnt
    ensures |next| == 2
    ensures Outer(g, s, sets, false, vertex).count == VertexSum(g, vertex) + Outer(g, s, next, false, vertex + 1).count
  {
    var built := Rebuild(g, s, sets, s.last[0], vertex, false);
    assert built == sets[0 := Adj(g, vertex)];
    var inner := Enum(g, s, built, [vertex], 1, TopMode(s, false));
    PlainLoop(s, g, built, vertex);
    next := inner.sets;
  }

  /** The outer loop in plain mode from `vertex` on adds what
      `triangle_counting` sums over the same vertices. */
  lemma {:induction false} PlainOuterIsRangeSum(s: Schedule, g: CsrGraph, sets: seq<seq<int>>, vertex: nat)
    requires IsTrianglePlan(s) && Valid(g) && Loopless(g, g.vCnt) && |sets| == 2 && vertex <= g.vCnt
    ensures Outer(g, s, sets, false, vertex).count + RangeSum(g, 0, vertex) == TriangleSum(g)
    decreases g.vCnt - vertex
  {
    if vertex < g.vCnt {
      var next := PlainVertex(s, g, sets, vertex);
      PlainOuterIsRangeSum(s, g, next, vertex + 1);
    }
  }

  /** Without the clique bound the triangle plan counts every ordered walk
      around a triangle: six per triangle on a simple graph, `triangle_counting`'s
      total before the division. */
  lemma PlainCountsOrderedTriangles(g: CsrGraph)
    requires Simple(g)
    ensures Count(g, Triangle(), false) == TriangleSum(g)
    ensures Count(g, Triangle(), false) == 6 * |Triangles(g)| == 6 * Count(g, Triangle(), true)
  {
    SimpleIsLoopless(g, g.vCnt);
    PlainOuterIsRangeSum(Triangle(), g, seq(2, _ => []), 0);
    CountersAgree(g);
    CliqueCountsTriangles(g);
  }

  /** The enumerator in clique mode with the triangle plan and the serial
      `tc_mt` return the same total on every graph both accept. */
  method CliqueAgreesWithTcMt(graph: Graph) returns (matched: int, counted: int)
    requires graph.Valid() && graph.Padded()
    ensures matched == counted
    ensures Simple(graph.View()) ==> matched == |Triangles(graph.View())|
  {
    matched := PatternMatching(graph, Triangle(), true);
    counted := graph.TcMt();
    CliqueCountsTriangles(graph.View());
  }

  /** Without the clique bound, on a simple graph, the enumerator's total is
      six times what `triangle_counting` returns. */
  method PlainAgreesWithTriangleCounting(graph: Graph) returns (matched: int, counted: int)
    requires graph.Valid() && Simple(graph.View())
    ensures matched == 6 * counted
  {
    matched := PatternMatching(graph, Triangle(), false);
    counted := graph.TriangleCounting();
    PlainCountsOrderedTriangles(graph.View());
    CountersAgree(graph.View());
  }

  /** The triangle plan with restrictions: the second vertex below the
      first (restriction 0, active at depth 1, pointing to slot 0) and the
      third below the second (restriction 1, active at depth 2, pointing to
      slot 1). */
  ghost predicate IsOrderedTrianglePlan(s: Schedule) {
    && TriangleShape(s) && s.totalRestrictNum == 2
    && s.restrictLast[1] == 0 && s.restrictLast[2] == 1
    && s.restrictNext[0] == -1 && s.restrictNext[1] == -1
    && s.restrictIndex[0] == 0 && s.restrictIndex[1] == 1
  }

  /** The ordered triangle plan's tables. */
  function OrderedTriangle(): (s: Schedule)
    ensures IsOrderedTrianglePlan(s)
  {
    var s := Schedule(3, 2, 2, [0, 0, 1], [0, 1, -1], [-1, -1], [-1, 0], [-1, 0, 1], [-1, -1], [0, 1]);
    assert ChainSet(s, 0) == {0} && ChainSet(s, 1) == {1};
    assert Touched(s, 2) == {} && Touched(s, 1) == {1};
    assert RestrictsBelow(s, 0, 1) && RestrictsBelow(s, 1, 2);
    s
  }

  /** The last depth of the ordered plan, for u below v: the restriction
      bounds the count by u, and the candidates below u are neither v nor u,
      so it counts the common neighbours of v and u below u. */
  lemma OrderedLeafIsShare(s: Schedule, g: CsrGraph, sets: seq<seq<int>>, v: int, u: int)
    requires IsOrderedTrianglePlan(s) && Valid(g) && 0 <= u < v < g.vCnt && |sets| == 2 && sets[0] == Adj(g, v)
    ensures Enum(g, s, Rebuild(g, s, sets, 1, u, false), [v, u], 2, Aggressive).count
            == TcShare(g, v, u)
  {
    var built := BuildVertexSet(true, sets[0], AdjOf(g, u), u, false);
    assert Rebuild(g, s, sets, 1, u, false) == sets[1 := built];
    AdjFacts(g, v);
    var stack := [v, u];
    assert Bounds(s, stack, 1) == {u};
    forall x | x in built
      ensures Admissible(g, s, stack, 2, Aggressive, x) <==> x < u
    {
      assert x in Adj(g, v);
    }
    assert (set x | x in built && Admissible(g, s, stack, 2, Aggressive, x))
           == CommonBelow(Adj(g, v), AdjOf(g, u), u);
    LeafCount(g, s, built, stack, 2, Aggressive);
  }

  /** The i-th neighbour u of v, below v, in aggressive mode: it adds
      |{x ∈ N(v) ∩ N(u) : x < u}|, as `tc_mt`'s running sum does. */
  lemma OrderedStep(s: Schedule, g: CsrGraph, sets: seq<seq<int>>, v: int, i: nat) returns (next: seq<seq<int>>)
    requires IsOrderedTrianglePlan(s) && Valid(g) && 0 <= v < g.vCnt && |sets| == 2 && sets[0] == Adj(g, v)
    requires i < |Adj(g, v)| && Adj(g, v)[i] < v
    ensures |next| == 2 && next[0] == sets[0]
    ensures EnumLoop(g, s, sets, [v], 1, Aggressive, Adj(g, v), v, i).count + TcPrefixSum(g, v, i)
            == EnumLoop(g, s, next, [v], 1, Aggressive, Adj(g, v), v, i + 1).count + TcPrefixSum(g, v, i + 1)
  {
    var n := Adj(g, v);
    NeighbourAt(g, v, i);
    next := LoopStep(s, g, sets, v, Aggressive, n, i);
    OrderedLeafIsShare(s, g, sets, v, n[i]);
  }

  /** Depth 1 of the ordered plan over the neighbours of v, from prefix 0
      set to N(v): the restriction bounds it by v, so it runs over the
      neighbours below v and adds v's `tc_mt` share. */
  lemma OrderedLoop(s: Schedule, g: CsrGraph, sets: seq<seq<int>>, v: int)
    requires IsOrderedTrianglePlan(s) && Valid(g) && 0 <= v < g.vCnt && |sets| == 2 && sets[0] == Adj(g, v)
    ensures EnumLoop(g, s, sets, [v], 1, Aggressive, Adj(g, v), v, 0).count == TcVertexSum(g, v)
  {
    var n := Adj(g, v);
    var cur, i := sets, 0;
    while i < |n| && n[i] < v
      invariant i <= |n| && (i == 0 || n[i - 1] < v) && |cur| == 2 && cur[0] == n
      invariant EnumLoop(g, s, sets, [v], 1, Aggressive, n, v, 0).count
                == EnumLoop(g, s, cur, [v], 1, Aggressive, n, v, i).count + TcPrefixSum(g, v, i)
      decreases |n| - i
    {
      cur := OrderedStep(s, g, cur, v, i);
      i := i + 1;
    }
    TcVertexSumIsPrefix(g, v, i);
  }

  /** One vertex of the outer loop with the ordered plan: depth 0 sets
      prefix 0 to the vertex's neighbours, the restriction bound at depth 1
      is the vertex itself, and the descent adds the vertex's `tc_mt`
      share. */
  lemma OrderedVertex(s: Schedule, g: CsrGraph, sets: seq<seq<int>>, vertex: nat) returns (next: seq<seq<int>>)
    requires IsOrderedTrianglePlan(s) && Valid(g) && |sets| == 2 && vertex < g.vCnt
    ensures |next| == 2
    ensures Outer(g, s, sets, false, vertex).count == TcVertexSum(g, vertex) + Outer(g, s, next, false, vertex + 1).count
  {
    var built := Rebuild(g, s, sets, s.last[0], vertex, false);
    assert built == sets[0 := Adj(g, vertex)];
    assert ChainMin(s, [vertex], 0, g.vCnt) == vertex;
    var inner := Enum(g, s, built, [vertex], 1, TopMode(s, false));
    OrderedLoop(s, g, built, vertex);
    next := inner.sets;
  }

  /** The outer loop with the ordered plan from `vertex` on adds what
      `tc_mt` adds over the same vertices. */
  lemma {:induction false} OrderedOuterIsTcSum(s: Schedule, g: CsrGraph, sets: seq<seq<int>>, vertex: nat)
    requires IsOrderedTrianglePlan(s) && Valid(g) && |sets| == 2 && vertex <= g.vCnt
    ensures Outer(g, s, sets, false, vertex).count + TcRangeSum(g, 0, vertex) == TcSum(g)
    decreases g.vCnt - vertex
  {
    if vertex < g.vCnt {
      var next := OrderedVertex(s, g, sets, vertex);
      OrderedOuterIsTcSum(s, g, next, vertex + 1);
    }
  }

  /** `pattern_matching` in aggressive mode with the ordered triangle plan
      counts each triangle once, from its largest vertex down: `tc_mt`'s
      total, the number of triangles on a simple graph. */
  lemma OrderedCountsTriangles(g: CsrGraph)
    requires Valid(g)
    ensures Count(g, OrderedTriangle(), false) == TcSum(g)
    ensures Simple(g) ==> Count(g, OrderedTriangle(), false) == |Triangles(g)|
  {
    OrderedOuterIsTcSum(OrderedTriangle(), g, seq(2, _ => []), 0);
    if Simple(g) {
      CountersAgree(g);
    }
  }

  /** The enumerator in aggressive mode with the ordered triangle plan and
      the serial `tc_mt` return the same total on every graph both accept. */
  method AggressiveAgreesWithTcMt(graph: Graph) returns (matched: int, counted: int)
    requires graph.Valid() && graph.Padded()
    ensures matched == counted
    ensures Simple(graph.View()) ==> matched == |Triangles(graph.View())|
  {
    matched := PatternMatching(graph, OrderedTriangle(), false);
    counted := graph.TcMt();
    OrderedCountsTriangles(graph.View());
  }
}
