/** The graph in compressed-sparse-row form, as values, and the quantities the
    triangle counters compute: the pre-division sum of `triangle_counting`, the
    sum of `tc_mt`, and the set of triangles both are meant to count. */
module Csr {
  import opened SortedSeq

  /** A vertex triple (v, (u, w)), nested the way the counting sums nest. */
  type Triple = (int, (int, int))

  /** The CSR arrays as values: vertex v's neighbours are
      edge[vertex[v] .. vertex[v + 1]]. */
  datatype CsrGraph = CsrGraph(vCnt: nat, vertex: seq<int>, edge: seq<int>)

  /** Vertex v's slice starts at or after 0, ends no later than the last
      slice ends, and the last slice ends inside `edge`. */
  ghost predicate SliceOk(g: CsrGraph, v: int)
    requires |g.vertex| == g.vCnt + 1 && 0 <= v < g.vCnt
  {
    0 <= g.vertex[v] <= g.vertex[v + 1] <= g.vertex[g.vCnt] <= |g.edge|
  }

  /** The offsets are monotone and stay inside `edge`. */
  ghost predicate Offsets(g: CsrGraph) {
    && |g.vertex| == g.vCnt + 1
    && 0 <= g.vertex[0] <= g.vertex[g.vCnt] <= |g.edge|
    && forall v {:trigger SliceOk(g, v)} :: 0 <= v < g.vCnt ==> SliceOk(g, v)
  }

  /** N(v), the adjacency slice of vertex v. */
  ghost function Adj(g: CsrGraph, v: int): seq<int>
    requires Offsets(g) && 0 <= v < g.vCnt
  {
    assert SliceOk(g, v);
    Entries(g.edge, g.vertex[v], g.vertex[v + 1])
  }

  /** s[lo], s[lo + 1], ..., s[hi - 1], one entry at a time. */
  ghost function Entries(s: seq<int>, lo: int, hi: int): (r: seq<int>)
    requires 0 <= lo <= hi <= |s|
    ensures |r| == hi - lo
    decreases hi - lo
  {
    if lo == hi then [] else [s[lo]] + Entries(s, lo + 1, hi)
  }

  lemma {:induction false} EntriesIsSlice(s: seq<int>, lo: int, hi: int)
    requires 0 <= lo <= hi <= |s|
    ensures Entries(s, lo, hi) == s[lo..hi]
    decreases hi - lo
  {
    if lo < hi {
      EntriesIsSlice(s, lo + 1, hi);
    }
  }

  /** N(v) is edge[vertex[v] .. vertex[v + 1]]. */
  lemma AdjIsSlice(g: CsrGraph, v: int)
    requires Offsets(g) && 0 <= v < g.vCnt
    ensures SliceOk(g, v) && Adj(g, v) == g.edge[g.vertex[v]..g.vertex[v + 1]]
  {
    assert SliceOk(g, v);
    EntriesIsSlice(g.edge, g.vertex[v], g.vertex[v + 1]);
  }

  /** N(u) for a vertex id, and nothing for an id that is not a vertex. */
  ghost function AdjOf(g: CsrGraph, u: int): seq<int>
    requires Offsets(g)
  {
    if 0 <= u < g.vCnt then Adj(g, u) else []
  }

  /** What every algorithm assumes of its input: monotone offsets, and from
      vertex 0 on, sorted duplicate-free adjacency lists of vertex ids. */
  ghost predicate Valid(g: CsrGraph) {
    Offsets(g) && ValidFrom(g, 0)
  }

  /** Every vertex from v on has a sorted, duplicate-free list of vertex
      ids. */
  ghost predicate ValidFrom(g: CsrGraph, v: nat)
    requires Offsets(g)
    decreases g.vCnt - v
  {
    v >= g.vCnt || (AdjOk(g, v) && ValidFrom(g, v + 1))
  }

  /** Vertex v's list is sorted without duplicates and holds vertex ids. */
  ghost predicate AdjOk(g: CsrGraph, v: int)
    requires Offsets(g) && 0 <= v < g.vCnt
  {
    StrictlySorted(Adj(g, v)) && forall u :: u in Adj(g, v) ==> 0 <= u < g.vCnt
  }

  lemma {:induction false} ValidFromAt(g: CsrGraph, w: nat, v: int)
    requires Offsets(g) && ValidFrom(g, w) && w <= v < g.vCnt
    ensures AdjOk(g, v)
    decreases v - w
  {
    if w < v {
      ValidFromAt(g, w + 1, v);
    }
  }

  lemma {:induction false} ValidFromAll(g: CsrGraph, w: nat)
    requires Offsets(g) && forall v :: w <= v < g.vCnt ==> AdjOk(g, v)
    ensures ValidFrom(g, w)
    decreases g.vCnt - w
  {
    if w < g.vCnt {
      ValidFromAll(g, w + 1);
    }
  }

  /** `Valid` is the quantified condition: offsets in range, every list
      sorted without duplicates, every neighbour a vertex. */
  lemma ValidIff(g: CsrGraph)
    ensures Valid(g) <==> Offsets(g) && forall v :: 0 <= v < g.vCnt ==> AdjOk(g, v)
  {
    if Offsets(g) {
      if ValidFrom(g, 0) {
        forall v | 0 <= v < g.vCnt ensures AdjOk(g, v) {
          ValidFromAt(g, 0, v);
        }
      } else if forall v :: 0 <= v < g.vCnt ==> AdjOk(g, v) {
        ValidFromAll(g, 0);
      }
    }
  }

  /** What `Valid` says about one vertex's slice. */
  lemma AdjFacts(g: CsrGraph, v: int)
    requires Valid(g) && 0 <= v < g.vCnt
    ensures 0 <= g.vertex[v] <= g.vertex[v + 1] <= g.vertex[g.vCnt] <= |g.edge|
    ensures StrictlySorted(Adj(g, v))
    ensures forall u :: u in Adj(g, v) ==> 0 <= u < g.vCnt
    ensures Adj(g, v) == g.edge[g.vertex[v]..g.vertex[v + 1]]
  {
    ValidFromAt(g, 0, v);
    AdjIsSlice(g, v);
  }

  /** The i-th neighbour of v is read from edge[vertex[v] + i] and is a
      vertex. */
  lemma NeighbourAt(g: CsrGraph, v: int, i: int)
    requires Valid(g) && 0 <= v < g.vCnt && 0 <= i < |Adj(g, v)|
    ensures 0 <= g.vertex[v] && g.vertex[v] + i < |g.edge| && Adj(g, v)[i] == g.edge[g.vertex[v] + i]
    ensures 0 <= Adj(g, v)[i] < g.vCnt
  {
    AdjIsSlice(g, v);
    ValidFromAt(g, 0, v);
    assert Adj(g, v)[i] in Adj(g, v);
  }

  ghost predicate Adjacent(g: CsrGraph, x: int, y: int)
    requires Offsets(g)
  {
    0 <= x < g.vCnt && 0 <= y < g.vCnt && y in Adj(g, x)
  }

  /** An undirected graph without self-loops, stored with both directions of
      every edge. */
  ghost predicate Simple(g: CsrGraph) {
    && Valid(g)
    && (forall x, y :: Adjacent(g, x, y) ==> Adjacent(g, y, x))
    && (forall x :: !Adjacent(g, x, x))
  }

  /** Each pair of x, y, z is joined: y and z are neighbours of x, and z a
      neighbour of y. */
  ghost predicate Mutual(g: CsrGraph, x: int, y: int, z: int)
    requires Offsets(g)
  {
    Adjacent(g, x, y) && Adjacent(g, x, z) && Adjacent(g, y, z)
  }

  /** The triangles of the graph, each once, as (a, (b, c)) with c < b < a. */
  ghost function Triangles(g: CsrGraph): set<Triple>
    requires Offsets(g)
  {
    set a, b, c | 0 <= c < b < a < g.vCnt && Mutual(g, a, b, c) :: (a, (b, c))
  }

  /** Every ordered way of walking a triangle: v, then a neighbour u of v,
      then a common neighbour w of both. */
  ghost function OrderedTriples(g: CsrGraph): set<Triple>
    requires Offsets(g)
  {
    set v, u, w | 0 <= v < g.vCnt && 0 <= u < g.vCnt && 0 <= w < g.vCnt && Mutual(g, v, u, w) :: (v, (u, w))
  }

  // ---------------------------------------------------------------------------
  // The sums the counters accumulate

  /** u maps to N(v) ∩ N(u), the set `intersection_size(v, u)` counts. */
  ghost function CommonWith(g: CsrGraph, v: int): int -> set<int>
    requires Offsets(g) && 0 <= v < g.vCnt
  {
    u => Common(Adj(g, v), AdjOf(g, u))
  }

  /** u maps to {x ∈ N(v) ∩ N(u) : x < u}, the set
      `intersection_size_clique(v, u)` counts. */
  ghost function CommonBelowWith(g: CsrGraph, v: int): int -> set<int>
    requires Offsets(g) && 0 <= v < g.vCnt
  {
    u => CommonBelow(Adj(g, v), AdjOf(g, u), u)
  }

  lemma CommonWithAt(g: CsrGraph, v: int, u: int)
    requires Offsets(g) && 0 <= v < g.vCnt
    ensures |CommonWith(g, v)(u)| == |Common(Adj(g, v), AdjOf(g, u))|
    ensures |CommonBelowWith(g, v)(u)| == |CommonBelow(Adj(g, v), AdjOf(g, u), u)|
  {
  }

  /** Σ_{i < k} |N(v) ∩ N(u)| with u = N(v)[i]: the running sum of
      `triangle_counting` over the first k neighbours of v. */
  ghost function PrefixSum(g: CsrGraph, v: int, k: nat): nat
    requires Offsets(g) && 0 <= v < g.vCnt && k <= |Adj(g, v)|
  {
    if k == 0 then 0
    else PrefixSum(g, v, k - 1) + |Common(Adj(g, v), AdjOf(g, Adj(g, v)[k - 1]))|
  }

  /** Σ_{i < k} |{x ∈ N(v) ∩ N(u) : x < u}| with u = N(v)[i]: the running sum
      of `tc_mt` over the first k neighbours of v. */
  ghost function TcPrefixSum(g: CsrGraph, v: int, k: nat): nat
    requires Offsets(g) && 0 <= v < g.vCnt && k <= |Adj(g, v)|
  {
    if k == 0 then 0 else TcPrefixSum(g, v, k - 1) + TcShare(g, v, Adj(g, v)[k - 1])
  }

  ghost function TcShare(g: CsrGraph, v: int, u: int): nat
    requires Offsets(g) && 0 <= v < g.vCnt
  {
    |CommonBelow(Adj(g, v), AdjOf(g, u), u)|
  }

  /** Σ_{u ∈ N(v)} |N(v) ∩ N(u)|: one outer iteration of `triangle_counting`. */
  ghost function VertexSum(g: CsrGraph, v: int): nat
    requires Offsets(g) && 0 <= v < g.vCnt
  {
    PrefixSum(g, v, |Adj(g, v)|)
  }

  /** Σ_{u ∈ N(v), u < v} |{x ∈ N(v) ∩ N(u) : x < u}|: one outer iteration of
      `tc_mt`. The neighbours below v come first in a sorted list, so this
      is the running sum over as many neighbours as there are below v. */
  ghost function TcVertexSum(g: CsrGraph, v: int): nat
    requires Offsets(g) && 0 <= v < g.vCnt
  {
    TcPrefixSum(g, v, |Below(Adj(g, v), v)|)
  }

  /** Σ_{lo <= v < hi} VertexSum(v). */
  ghost function RangeSum(g: CsrGraph, lo: nat, hi: nat): nat
    requires Offsets(g) && lo <= hi <= g.vCnt
    decreases hi - lo
  {
    if hi == lo then 0 else RangeSum(g, lo, hi - 1) + VertexSum(g, hi - 1)
  }

  /** Σ_{lo <= v < hi} TcVertexSum(v). */
  ghost function TcRangeSum(g: CsrGraph, lo: nat, hi: nat): nat
    requires Offsets(g) && lo <= hi <= g.vCnt
    decreases hi - lo
  {
    if hi == lo then 0 else TcRangeSum(g, lo, hi - 1) + TcVertexSum(g, hi - 1)
  }

  /** The total `triangle_counting` divides by six. */
  ghost function TriangleSum(g: CsrGraph): nat
    requires Offsets(g)
  {
    RangeSum(g, 0, g.vCnt)
  }

  /** The total the sequential `tc_mt` accumulates over all vertices. */
  ghost function TcSum(g: CsrGraph): nat
    requires Offsets(g)
  {
    TcRangeSum(g, 0, g.vCnt)
  }

  /** `tc_mt`'s scan of N(v) may stop at the first neighbour that is not
      below v: the neighbours it skips add nothing. */
  lemma TcVertexSumIsPrefix(g: CsrGraph, v: int, k: nat)
    requires Valid(g) && 0 <= v < g.vCnt && k <= |Adj(g, v)|
    requires k == 0 || Adj(g, v)[k - 1] < v
    requires k < |Adj(g, v)| ==> Adj(g, v)[k] >= v
    ensures TcVertexSum(g, v) == TcPrefixSum(g, v, k)
  {
    var n := Adj(g, v);
    AdjFacts(g, v);
    assert forall i :: 0 <= i < k ==> n[i] < v;
    assert forall i :: k <= i < |n| ==> n[i] >= v by {
      if k < |n| {
        SortedSuffix(n, k);
      }
    }
    BelowIsPrefix(n, v, k);
  }

  /** A sum over two adjacent ranges of vertices is the sum over their
      union. */
  lemma {:induction false} RangeSumSplit(g: CsrGraph, lo: nat, mid: nat, hi: nat)
    requires Offsets(g) && lo <= mid <= hi <= g.vCnt
    ensures RangeSum(g, lo, mid) + RangeSum(g, mid, hi) == RangeSum(g, lo, hi)
    decreases hi - mid
  {
    if mid < hi {
      RangeSumSplit(g, lo, mid, hi - 1);
    }
  }

  // ---------------------------------------------------------------------------
  // Lemmas

  /** The running sums, written with the per-neighbour sets as functions. */
  lemma {:induction false} PrefixSumIsSumCard(g: CsrGraph, v: int, k: nat)
    requires Offsets(g) && 0 <= v < g.vCnt && k <= |Adj(g, v)|
    ensures PrefixSum(g, v, k) == SumCard(Adj(g, v), k, CommonWith(g, v))
  {
    if k > 0 {
      PrefixSumIsSumCard(g, v, k - 1);
      var n := Adj(g, v);
      var u := n[k - 1];
      assert PrefixSum(g, v, k) == PrefixSum(g, v, k - 1) + |Common(n, AdjOf(g, u))|;
      assert SumCard(n, k, CommonWith(g, v)) == SumCard(n, k - 1, CommonWith(g, v)) + |CommonWith(g, v)(u)|;
      CommonWithAt(g, v, u);
    }
  }

  lemma {:induction false} TcPrefixSumIsSumCard(g: CsrGraph, v: int, k: nat)
    requires Offsets(g) && 0 <= v < g.vCnt && k <= |Adj(g, v)|
    ensures TcPrefixSum(g, v, k) == SumCard(Adj(g, v), k, CommonBelowWith(g, v))
  {
    if k > 0 {
      TcPrefixSumIsSumCard(g, v, k - 1);
      var n := Adj(g, v);
      var u := n[k - 1];
      assert TcPrefixSum(g, v, k) == TcPrefixSum(g, v, k - 1) + TcShare(g, v, u);
      assert SumCard(n, k, CommonBelowWith(g, v)) == SumCard(n, k - 1, CommonBelowWith(g, v)) + |CommonBelowWith(g, v)(u)|;
      CommonWithAt(g, v, u);
    }
  }

  /** VertexSum as a function of the vertex, zero outside the graph. */
  ghost function VertexSums(g: CsrGraph): int -> nat
    requires Offsets(g)
  {
    v => if 0 <= v < g.vCnt then VertexSum(g, v) else 0
  }

  ghost function TcVertexSums(g: CsrGraph): int -> nat
    requires Offsets(g)
  {
    v => if 0 <= v < g.vCnt then TcVertexSum(g, v) else 0
  }

  /** The range sums, written with the per-vertex terms as functions. */
  lemma {:induction false} RangeSumIsSumRange(g: CsrGraph, hi: nat)
    requires Offsets(g) && hi <= g.vCnt
    ensures RangeSum(g, 0, hi) == SumRange(VertexSums(g), 0, hi)
    ensures TcRangeSum(g, 0, hi) == SumRange(TcVertexSums(g), 0, hi)
  {
    if hi > 0 {
      RangeSumIsSumRange(g, hi - 1);
    }
  }

  ghost function FanAt(g: CsrGraph): int -> set<(int, int)>
    requires Offsets(g)
  {
    v => if 0 <= v < g.vCnt then Tagged(Adj(g, v), CommonWith(g, v)) else {}
  }

  ghost function TcFanAt(g: CsrGraph): int -> set<(int, int)>
    requires Offsets(g)
  {
    v => if 0 <= v < g.vCnt then Tagged(Below(Adj(g, v), v), CommonBelowWith(g, v)) else {}
  }

  /** One vertex's term counts the walks that start at it. */
  lemma VertexSumIsFanCard(g: CsrGraph, v: int)
    requires Valid(g) && 0 <= v < g.vCnt
    ensures VertexSums(g)(v) == |FanAt(g)(v)|
  {
    var n := Adj(g, v);
    AdjFacts(g, v);
    PrefixSumIsSumCard(g, v, |n|);
    SumCardIsTaggedCard(n, |n|, CommonWith(g, v));
    assert n[..|n|] == n;
    assert VertexSums(g)(v) == VertexSum(g, v);
    assert FanAt(g)(v) == Tagged(n, CommonWith(g, v));
  }

  /** One vertex's term of `tc_mt` counts the triangles whose largest
      vertex it is. */
  lemma TcVertexSumIsFanCard(g: CsrGraph, v: int)
    requires Valid(g) && 0 <= v < g.vCnt
    ensures TcVertexSums(g)(v) == |TcFanAt(g)(v)|
  {
    var n := Adj(g, v);
    var b := Below(n, v);
    AdjFacts(g, v);
    TcPrefixSumIsSumCard(g, v, |b|);
    BelowIsTake(n, v);
    SumCardPrefix(n, |b|, |b|, CommonBelowWith(g, v));
    SumCardIsTaggedCard(b, |b|, CommonBelowWith(g, v));
    assert b[..|b|] == b;
    assert TcVertexSums(g)(v) == TcVertexSum(g, v);
    assert TcFanAt(g)(v) == Tagged(b, CommonBelowWith(g, v));
  }

  lemma RangeSumIsSumCard(g: CsrGraph)
    requires Valid(g)
    ensures TriangleSum(g) == |Tagged(Range(g.vCnt), FanAt(g))|
  {
    forall v | 0 <= v < g.vCnt ensures VertexSums(g)(v) == |FanAt(g)(v)| {
      VertexSumIsFanCard(g, v);
    }
    var r := Range(g.vCnt);
    RangeSumIsSumRange(g, g.vCnt);
    SumRangeIsSumCard(VertexSums(g), FanAt(g), g.vCnt, g.vCnt);
    SumCardIsTaggedCard(r, g.vCnt, FanAt(g));
    assert r[..g.vCnt] == r;
  }

  lemma TcRangeSumIsSumCard(g: CsrGraph)
    requires Valid(g)
    ensures TcSum(g) == |Tagged(Range(g.vCnt), TcFanAt(g))|
  {
    forall v | 0 <= v < g.vCnt ensures TcVertexSums(g)(v) == |TcFanAt(g)(v)| {
      TcVertexSumIsFanCard(g, v);
    }
    var r := Range(g.vCnt);
    RangeSumIsSumRange(g, g.vCnt);
    SumRangeIsSumCard(TcVertexSums(g), TcFanAt(g), g.vCnt, g.vCnt);
    SumCardIsTaggedCard(r, g.vCnt, TcFanAt(g));
    assert r[..g.vCnt] == r;
  }

  lemma FanAtMember(g: CsrGraph, v: int, u: int, w: int)
    requires Valid(g) && 0 <= v < g.vCnt
    ensures (u, w) in FanAt(g)(v) <==> Mutual(g, v, u, w)
  {
    AdjFacts(g, v);
    assert FanAt(g)(v) == Tagged(Adj(g, v), CommonWith(g, v));
    TaggedMember(Adj(g, v), CommonWith(g, v), u, w);
    assert w in CommonWith(g, v)(u) <==> w in Adj(g, v) && w in AdjOf(g, u);
  }

  lemma TcFanAtMember(g: CsrGraph, a: int, b: int, c: int)
    requires Valid(g) && 0 <= a < g.vCnt
    ensures (b, c) in TcFanAt(g)(a) <==> c < b < a && Mutual(g, a, b, c)
  {
    AdjFacts(g, a);
    assert TcFanAt(g)(a) == Tagged(Below(Adj(g, a), a), CommonBelowWith(g, a));
    TaggedMember(Below(Adj(g, a), a), CommonBelowWith(g, a), b, c);
    assert b in Below(Adj(g, a), a) <==> b in Adj(g, a) && b < a;
    assert c in CommonBelowWith(g, a)(b) <==> c in Adj(g, a) && c in AdjOf(g, b) && c < b;
  }

  lemma FanAtIsOrderedTriples(g: CsrGraph)
    requires Valid(g)
    ensures Tagged(Range(g.vCnt), FanAt(g)) == OrderedTriples(g)
  {
    var lhs, rhs := Tagged(Range(g.vCnt), FanAt(g)), OrderedTriples(g);
    forall t | t in lhs ensures t in rhs {
      var v, p :| v in Range(g.vCnt) && p in FanAt(g)(v) && t == (v, p);
      FanAtMember(g, v, p.0, p.1);
    }
    forall t | t in rhs ensures t in lhs {
      var v, u, w :| 0 <= v < g.vCnt && 0 <= u < g.vCnt && 0 <= w < g.vCnt && Mutual(g, v, u, w) && t == (v, (u, w));
      FanAtMember(g, v, u, w);
    }
  }

  lemma TcFanAtIsTriangles(g: CsrGraph)
    requires Valid(g)
    ensures Tagged(Range(g.vCnt), TcFanAt(g)) == Triangles(g)
  {
    var lhs, rhs := Tagged(Range(g.vCnt), TcFanAt(g)), Triangles(g);
    forall t | t in lhs ensures t in rhs {
      var v, p :| v in Range(g.vCnt) && p in TcFanAt(g)(v) && t == (v, p);
      TcFanAtMember(g, v, p.0, p.1);
    }
    forall t | t in rhs ensures t in lhs {
      var a, b, c :| 0 <= c < b < a < g.vCnt && Mutual(g, a, b, c) && t == (a, (b, c));
      TcFanAtMember(g, a, b, c);
    }
  }

  /** `triangle_counting`'s sum counts every ordered walk around a triangle. */
  lemma TriangleSumCountsOrderedTriples(g: CsrGraph)
    requires Valid(g)
    ensures TriangleSum(g) == |OrderedTriples(g)|
  {
    RangeSumIsSumCard(g);
    FanAtIsOrderedTriples(g);
  }

  /** `tc_mt`'s sum counts every triangle once. */
  lemma TcSumCountsTriangles(g: CsrGraph)
    requires Valid(g)
    ensures TcSum(g) == |Triangles(g)|
  {
    TcRangeSumIsSumCard(g);
    TcFanAtIsTriangles(g);
  }

  // ---------------------------------------------------------------------------
  // Each triangle is walked in six orders

  /** In a simple graph, a mutually joined triple is joined in every order
      and its vertices are distinct. */
  lemma MutualPermutes(g: CsrGraph, x: int, y: int, z: int)
    requires Simple(g) && Mutual(g, x, y, z)
    ensures Mutual(g, x, z, y) && Mutual(g, y, x, z) && Mutual(g, y, z, x)
    ensures Mutual(g, z, x, y) && Mutual(g, z, y, x)
    ensures x != y && x != z && y != z
  {
    assert Adjacent(g, y, x) && Adjacent(g, z, x) && Adjacent(g, z, y);
  }

  /** The i-th rearrangement of (a, (b, c)). */
  function Perm(i: int, t: Triple): Triple {
    var a, b, c := t.0, t.1.0, t.1.1;
    if i == 0 then (a, (b, c))
    else if i == 1 then (a, (c, b))
    else if i == 2 then (b, (a, c))
    else if i == 3 then (b, (c, a))
    else if i == 4 then (c, (a, b))
    else (c, (b, a))
  }

  /** The order in which a walk (v, (u, w)) visits its vertices: Perm(i, ·)
      of a triangle (a, (b, c)) with c < b < a is in order i. */
  predicate InOrder(i: int, t: Triple) {
    var v, u, w := t.0, t.1.0, t.1.1;
    if i == 0 then w < u < v
    else if i == 1 then u < w < v
    else if i == 2 then w < v < u
    else if i == 3 then u < v < w
    else if i == 4 then v < w < u
    else v < u < w
  }

  /** The triangle a walk in order i goes around. */
  function Unperm(i: int, t: Triple): Triple {
    var v, u, w := t.0, t.1.0, t.1.1;
    if i == 0 then (v, (u, w))
    else if i == 1 then (v, (w, u))
    else if i == 2 then (u, (v, w))
    else if i == 3 then (w, (v, u))
    else if i == 4 then (u, (w, v))
    else (w, (u, v))
  }

  ghost function WalksInOrder(g: CsrGraph, i: int): set<Triple>
    requires Offsets(g)
  {
    set t | t in OrderedTriples(g) && InOrder(i, t)
  }

  lemma WalkToTriangle(g: CsrGraph, i: int, t: Triple)
    requires Simple(g) && 0 <= i < 6 && t in OrderedTriples(g) && InOrder(i, t)
    ensures Unperm(i, t) in Triangles(g) && Perm(i, Unperm(i, t)) == t
  {
    var v, u, w :| 0 <= v < g.vCnt && 0 <= u < g.vCnt && 0 <= w < g.vCnt && Mutual(g, v, u, w) && t == (v, (u, w));
    MutualPermutes(g, v, u, w);
    var s := Unperm(i, t);
    assert Mutual(g, s.0, s.1.0, s.1.1);
  }

  lemma TriangleToWalk(g: CsrGraph, i: int, s: Triple)
    requires Simple(g) && 0 <= i < 6 && s in Triangles(g)
    ensures Perm(i, s) in OrderedTriples(g) && InOrder(i, Perm(i, s))
  {
    var a, b, c :| 0 <= c < b < a < g.vCnt && Mutual(g, a, b, c) && s == (a, (b, c));
    MutualPermutes(g, a, b, c);
    var t := Perm(i, s);
    assert Mutual(g, t.0, t.1.0, t.1.1);
  }

  /** The walks in order i are the triangles rearranged by Perm(i, ·). */
  lemma WalksInOrderAreTriangles(g: CsrGraph, i: int)
    requires Simple(g) && 0 <= i < 6
    ensures WalksInOrder(g, i) == set t | t in Triangles(g) :: Perm(i, t)
  {
    var image := set t | t in Triangles(g) :: Perm(i, t);
    forall t | t in WalksInOrder(g, i) ensures t in image {
      WalkToTriangle(g, i, t);
    }
    forall t | t in image ensures t in WalksInOrder(g, i) {
      var s :| s in Triangles(g) && t == Perm(i, s);
      TriangleToWalk(g, i, s);
    }
  }

  /** Rearranging coordinates the same way keeps distinct triples distinct. */
  lemma {:induction false} PermImageCard(s: set<Triple>, i: int)
    ensures |set t | t in s :: Perm(i, t)| == |s|
    decreases |s|
  {
    if s != {} {
      var y :| y in s;
      PermImageCard(s - {y}, i);
      var rest := set t | t in s - {y} :: Perm(i, t);
      assert (set t | t in s :: Perm(i, t)) == rest + {Perm(i, y)};
      forall z | z in s - {y} ensures Perm(i, z) != Perm(i, y) {
        assert z != y;
      }
    }
  }

  /** In a simple graph every walk around a triangle has exactly one of the
      six orders, so there are six walks per triangle. */
  lemma OrderedTriplesSixfold(g: CsrGraph)
    requires Simple(g)
    ensures |OrderedTriples(g)| == 6 * |Triangles(g)|
  {
    var w0, w1, w2 := WalksInOrder(g, 0), WalksInOrder(g, 1), WalksInOrder(g, 2);
    var w3, w4, w5 := WalksInOrder(g, 3), WalksInOrder(g, 4), WalksInOrder(g, 5);
    forall t | t in OrderedTriples(g) ensures t in w0 + w1 + w2 + w3 + w4 + w5 {
      MutualPermutes(g, t.0, t.1.0, t.1.1);
    }
    assert OrderedTriples(g) == w0 + w1 + w2 + w3 + w4 + w5;
    assert w0 * w1 == {} && w0 * w2 == {} && w0 * w3 == {} && w0 * w4 == {} && w0 * w5 == {};
    assert (w0 + w1) * w2 == {} && (w0 + w1) * w3 == {} && (w0 + w1) * w4 == {} && (w0 + w1) * w5 == {};
    assert (w0 + w1 + w2) * w3 == {} && (w0 + w1 + w2) * w4 == {} && (w0 + w1 + w2) * w5 == {};
    assert (w0 + w1 + w2 + w3) * w4 == {} && (w0 + w1 + w2 + w3) * w5 == {};
    assert (w0 + w1 + w2 + w3 + w4) * w5 == {};
    forall i | 0 <= i < 6 ensures |WalksInOrder(g, i)| == |Triangles(g)| {
      WalksInOrderAreTriangles(g, i);
      PermImageCard(Triangles(g), i);
    }
  }

  /** On a simple graph the two serial counters agree and count triangles:
      `triangle_counting`'s sum is six times `tc_mt`'s, which is the number
      of triangles. */
  lemma CountersAgree(g: CsrGraph)
    requires Simple(g)
    ensures TcSum(g) == |Triangles(g)|
    ensures TriangleSum(g) == 6 * TcSum(g)
    ensures TriangleSum(g) / 6 == |Triangles(g)|
  {
    TriangleSumCountsOrderedTriples(g);
    TcSumCountsTriangles(g);
    OrderedTriplesSixfold(g);
  }
}
