/** The `Graph` object: the CSR offsets and adjacency lists, held as
    immutable sequences since the counters never change them; the neighbour
    lookup, the adjacency slice the enumerator builds candidate sets from,
    the two merge intersections and the two serial triangle counters. */
module GraphImpl {
  import opened SortedSeq
  import opened Csr

  class Graph {
    /** Number of vertices. */
    const vCnt: nat
    /** vertex[v] .. vertex[v + 1] delimits v's neighbours in `edge`. */
    const vertex: seq<int>
    /** The concatenated sorted adjacency lists. */
    const edge: seq<int>

    /** A graph built from the vertex count, the offsets and the adjacency
        lists the loader produced; the counters only read it afterwards. */
    constructor (n: nat, vs: seq<int>, es: seq<int>)
      requires Csr.Valid(CsrGraph(n, vs, es))
      ensures View() == CsrGraph(n, vs, es) && Valid()
    {
      vCnt, vertex, edge := n, vs, es;
    }

    /** The graph as a value, for specifications. */
    ghost function View(): CsrGraph
    {
      CsrGraph(vCnt, vertex, edge)
    }

    ghost predicate Valid()
    {
      Csr.Valid(View())
    }

    /** There is one readable slot after the last adjacency slice: the clique
        intersection reads one entry past the slice it is scanning. */
    ghost predicate Padded()
      requires Valid()
    {
      vertex[vCnt] < |edge|
    }

    /** `get_edge_index`: the bounds of v's adjacency slice. */
    method GetEdgeIndex(v: int) returns (l: int, r: int)
      requires Valid() && 0 <= v < vCnt
      ensures l == vertex[v] && r == vertex[v + 1]
      ensures 0 <= l <= r <= vertex[vCnt] <= |edge|
      ensures |Adj(View(), v)| == r - l
    {
      AdjFacts(View(), v);
      l := vertex[v];
      r := vertex[v + 1];
    }

    /** `intersection_size`: merges the two sorted adjacency lists and counts
        their common neighbours. */
    method IntersectionSize(v1: int, v2: int) returns (ans: int)
      requires Valid() && 0 <= v1 < vCnt && 0 <= v2 < vCnt
      ensures ans == |Common(Adj(View(), v1), Adj(View(), v2))|
      ensures ans <= |Adj(View(), v1)| && ans <= |Adj(View(), v2)|
    {
      var l1, r1 := GetEdgeIndex(v1);
      var l2, r2 := GetEdgeIndex(v2);
      ans := MergeSlices(l1, r1, l2, r2);
      MergeOfAdj(View(), v1, v2);
      AdjFacts(View(), v1);
      AdjFacts(View(), v2);
      CommonSize(Adj(View(), v1), Adj(View(), v2));
    }

    /** The merge loop of `intersection_size` over edge[l1..r1] and
        edge[l2..r2]: advance the cursor at the smaller entry, count an equal
        pair and advance both. */
    method MergeSlices(lo1: int, r1: int, lo2: int, r2: int) returns (ans: int)
      requires 0 <= lo1 <= r1 <= |edge| && 0 <= lo2 <= r2 <= |edge|
      ensures ans == MergeCount(edge, lo1, r1, edge, lo2, r2)
    {
      var l1, l2 := lo1, lo2;
      ans := 0;
      while l1 < r1 && l2 < r2
        invariant lo1 <= l1 <= r1 && lo2 <= l2 <= r2
        invariant ans + MergeCount(edge, l1, r1, edge, l2, r2) == MergeCount(edge, lo1, r1, edge, lo2, r2)
        decreases r1 - l1 + r2 - l2
      {
        if edge[l1] < edge[l2] {
          l1 := l1 + 1;
        } else if edge[l2] < edge[l1] {
          l2 := l2 + 1;
        } else {
          l1 := l1 + 1;
          l2 := l2 + 1;
          ans := ans + 1;
        }
      }
    }

    /** `intersection_size_clique`: the same merge, counting only common
        neighbours below v2. The first entry of each list is read before
        either list is known to be non-empty, and a cursor is read right
        after it advances, so one entry past a slice can be read; `Padded`
        keeps those reads inside `edge`, and the count never depends on
        them. */
    method IntersectionSizeClique(v1: int, v2: int) returns (ans: int)
      requires Valid() && Padded() && 0 <= v1 < vCnt && 0 <= v2 < vCnt
      ensures ans == |CommonBelow(Adj(View(), v1), Adj(View(), v2), v2)| == TcShare(View(), v1, v2)
      ensures ((|Adj(View(), v1)| > 0 && Adj(View(), v1)[0] >= v2) ||
               (|Adj(View(), v2)| > 0 && Adj(View(), v2)[0] >= v2)) ==> ans == 0
    {
      var l1, r1 := GetEdgeIndex(v1);
      var l2, r2 := GetEdgeIndex(v2);
      ans := MergeSlicesBelow(l1, r1, l2, r2, v2);
      MergeOfAdj(View(), v1, v2);
    }

    /** The body of `intersection_size_clique` after the two lookups: give up
        at once when either first entry reaches `minVertex`, otherwise merge,
        stopping as soon as an advanced cursor reads an entry that reaches
        `minVertex`. */
    method MergeSlicesBelow(lo1: int, r1: int, lo2: int, r2: int, minVertex: int) returns (ans: int)
      requires 0 <= lo1 <= r1 < |edge| && 0 <= lo2 <= r2 < |edge|
      ensures ans == MergeBelow(edge, lo1, r1, lo2, r2, minVertex)
    {
      var l1, l2 := lo1, lo2;
      ans := 0;
      if edge[l1] >= minVertex || edge[l2] >= minVertex {
        return;
      }
      while l1 < r1 && l2 < r2
        invariant lo1 <= l1 <= r1 && lo2 <= l2 <= r2
        invariant l1 < r1 ==> edge[l1] < minVertex
        invariant l2 < r2 ==> edge[l2] < minVertex
        invariant ans + MergeBelow(edge, l1, r1, l2, r2, minVertex) == MergeBelow(edge, lo1, r1, lo2, r2, minVertex)
        decreases r1 - l1 + r2 - l2
      {
        if edge[l1] < edge[l2] {
          l1 := l1 + 1;
          if edge[l1] >= minVertex {
            break;
          }
        } else if edge[l2] < edge[l1] {
          l2 := l2 + 1;
          if edge[l2] >= minVertex {
            break;
          }
        } else {
          ans := ans + 1;
          l1 := l1 + 1;
          if edge[l1] >= minVertex {
            break;
          }
          l2 := l2 + 1;
          if edge[l2] >= minVertex {
            break;
          }
        }
      }
    }

    /** `triangle_counting`: for every vertex v and every neighbour u, add
        |N(v) ∩ N(u)|, then divide the total by six. */
    method TriangleCounting() returns (ans: int)
      requires Valid()
      ensures ans == TriangleSum(View()) / 6
      ensures Simple(View()) ==> ans == |Triangles(View())|
    {
      ans := 0;
      for v := 0 to vCnt
        invariant ans == RangeSum(View(), 0, v)
      {
        var c := NeighbourSum(v);
        ans := ans + c;
      }
      ans := ans / 6;
      if Simple(View()) {
        CountersAgree(View());
      }
    }

    /** The inner loop of `triangle_counting` for one vertex v: the common
        neighbours of v and each of its neighbours, summed. */
    method NeighbourSum(v: int) returns (c: int)
      requires Valid() && 0 <= v < vCnt
      ensures c == VertexSum(View(), v)
    {
      var l, r := GetEdgeIndex(v);
      c := 0;
      for k := 0 to r - l
        invariant c == PrefixSum(View(), v, k)
      {
        c := NeighbourStep(v, k, c);
      }
    }

    /** One neighbour's term of `triangle_counting`'s inner loop: the common
        neighbours of v and its k-th neighbour, added to the running sum. */
    method NeighbourStep(v: int, k: nat, c: int) returns (c': int)
      requires Valid() && 0 <= v < vCnt && k < |Adj(View(), v)|
      requires c == PrefixSum(View(), v, k)
      ensures c' == PrefixSum(View(), v, k + 1)
    {
      var u := Neighbour(v, k);
      var d := IntersectionSize(v, u);
      c' := c + d;
    }

    /** The loop of `tc_mt`, run by one thread over every vertex. */
    method TcMt() returns (ans: int)
      requires Valid() && Padded()
      ensures ans == TcSum(View())
      ensures Simple(View()) ==> ans == |Triangles(View())| && ans == TriangleSum(View()) / 6
    {
      ans := 0;
      for v := 0 to vCnt
        invariant ans == TcRangeSum(View(), 0, v)
      {
        var c := LowerNeighbourSum(v);
        ans := ans + c;
      }
      if Simple(View()) {
        CountersAgree(View());
      }
    }

    /** The body of `tc_mt`'s loop for one vertex v: for each neighbour u of
        v below v (the scan stops at the first neighbour that is not), add
        the clique intersection of v and u. */
    method LowerNeighbourSum(v: int) returns (c: int)
      requires Valid() && Padded() && 0 <= v < vCnt
      ensures c == TcVertexSum(View(), v)
    {
      var l, r := GetEdgeIndex(v);
      c := 0;
      var k := 0;
      while k < r - l
        invariant 0 <= k <= r - l
        invariant k == 0 || Adj(View(), v)[k - 1] < v
        invariant c == TcPrefixSum(View(), v, k)
      {
        var u := Neighbour(v, k);
        if v <= u {
          break;
        }
        c := LowerStep(v, k, u, c);
        k := k + 1;
      }
      TcVertexSumIsPrefix(View(), v, k);
    }

    /** One neighbour's term of `tc_mt`'s loop: the clique intersection of
        v and its k-th neighbour u, added to the running sum. */
    method LowerStep(v: int, k: nat, u: int, c: int) returns (c': int)
      requires Valid() && Padded() && 0 <= v < vCnt && k < |Adj(View(), v)|
      requires u == Adj(View(), v)[k] && 0 <= u < vCnt
      requires c == TcPrefixSum(View(), v, k)
      ensures c' == TcPrefixSum(View(), v, k + 1)
    {
      var d := IntersectionSizeClique(v, u);
      c' := c + d;
    }

    /** The k-th entry of v's adjacency slice, `edge[vertex[v] + k]`. */
    method Neighbour(v: int, k: nat) returns (u: int)
      requires Valid() && 0 <= v < vCnt && k < |Adj(View(), v)|
      ensures u == Adj(View(), v)[k] && 0 <= u < vCnt
    {
      NeighbourAt(View(), v, k);
      u := edge[vertex[v] + k];
    }

    /** v's adjacency slice, `edge[l .. r)` for the bounds `get_edge_index`
        returns: what the enumerator hands to `build_vertex_set`. */
    method AdjacencyOf(v: int) returns (n: seq<int>)
      requires Valid() && 0 <= v < vCnt
      ensures n == Adj(View(), v)
    {
      AdjFacts(View(), v);
      var l, r := GetEdgeIndex(v);
      n := edge[l..r];
    }
  }

  /** The two merges, run over whole adjacency lists, count the common
      neighbours (all of them, and those below the second vertex). */
  lemma MergeOfAdj(g: CsrGraph, v1: int, v2: int)
    requires Csr.Valid(g) && 0 <= v1 < g.vCnt && 0 <= v2 < g.vCnt
    ensures SliceOk(g, v1) && SliceOk(g, v2)
    ensures MergeCount(g.edge, g.vertex[v1], g.vertex[v1 + 1], g.edge, g.vertex[v2], g.vertex[v2 + 1])
            == |Common(Adj(g, v1), Adj(g, v2))|
    ensures MergeBelow(g.edge, g.vertex[v1], g.vertex[v1 + 1], g.vertex[v2], g.vertex[v2 + 1], v2)
            == |CommonBelow(Adj(g, v1), Adj(g, v2), v2)|
  {
    AdjFacts(g, v1);
    AdjFacts(g, v2);
    MergeCountIsCard(g.edge, g.vertex[v1], g.vertex[v1 + 1], g.edge, g.vertex[v2], g.vertex[v2 + 1]);
    MergeBelowIsCard(g.edge, g.vertex[v1], g.vertex[v1 + 1], g.vertex[v2], g.vertex[v2 + 1], v2);
  }
}
