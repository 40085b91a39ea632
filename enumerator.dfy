/** The plan-driven subgraph enumerator: `pattern_matching` and its two
    recursive workers. The specification functions below compute what a run
    adds to the answer and the candidate sets it leaves behind; the methods
    mutate one array of candidate sets and one stack of chosen vertices, as
    the source does, and are proved to agree with them. */
module Enumerator {
  import opened SortedSeq
  import opened Csr
  import opened GraphImpl
  import opened Plan
  import opened VertexSets

  /** How a depth's loop is bounded and which candidates it skips:
      - Clique: stop at the first candidate not below the last chosen vertex;
      - Plain: skip candidates already chosen;
      - Aggressive: stop at the first candidate not below the restriction
        bound, and skip candidates already chosen. */
  datatype Mode = Clique | Plain | Aggressive

  /** What a run adds to the answer, and the candidate sets afterwards. */
  datatype Run = Run(count: nat, sets: seq<seq<int>>)

  /** The mode `pattern_matching` starts depth 1 in. */
  function TopMode(s: Schedule, clique: bool): Mode {
    if s.totalRestrictNum > 0 && !clique then Aggressive
    else if clique then Clique
    else Plain
  }

  /** A candidate set the enumerator can work with: sorted, of vertex ids,
      stated one entry at a time (`IdSetIsSorted` and `SortedIsIdSet` give the
      quantified form). */
  ghost predicate IdSet(g: CsrGraph, xs: seq<int>)
    decreases |xs|
  {
    |xs| == 0 || (0 <= xs[0] < g.vCnt && (|xs| == 1 || xs[0] < xs[1]) && IdSet(g, xs[1..]))
  }

  lemma {:induction false} IdSetIsSorted(g: CsrGraph, xs: seq<int>)
    requires IdSet(g, xs)
    ensures StrictlySorted(xs) && forall x :: x in xs ==> 0 <= x < g.vCnt
    decreases |xs|
  {
    if |xs| > 0 {
      var t := xs[1..];
      IdSetIsSorted(g, t);
      assert xs == [xs[0]] + t;
      forall i, j | 0 <= i < j < |xs| ensures xs[i] < xs[j] {
        if i == 0 {
          assert t[0] <= t[j - 1];
        } else {
          assert t[i - 1] < t[j - 1];
        }
      }
    }
  }

  lemma {:induction false} SortedIsIdSet(g: CsrGraph, xs: seq<int>)
    requires StrictlySorted(xs) && forall x :: x in xs ==> 0 <= x < g.vCnt
    ensures IdSet(g, xs)
    decreases |xs|
  {
    if |xs| > 0 {
      SortedSuffix(xs, 1);
      assert forall x :: x in xs[1..] ==> x in xs;
      SortedIsIdSet(g, xs[1..]);
      assert xs[0] in xs;
    }
  }

  ghost predicate SetsOk(g: CsrGraph, sets: seq<seq<int>>) {
    forall p :: 0 <= p < |sets| ==> IdSet(g, sets[p])
  }

  /** Rebuilding the prefix chain from p for a newly chosen vertex v: each
      prefix becomes its father set intersected with v's neighbours (v's
      neighbours themselves when it has no father). Nothing off the chain
      changes. */
  ghost function Rebuild(g: CsrGraph, s: Schedule, sets: seq<seq<int>>, p: int, v: int, clique: bool): (r: seq<seq<int>>)
    requires Offsets(g) && Shaped(s) && |sets| == s.totalPrefixNum && -1 <= p < s.totalPrefixNum
    ensures |r| == |sets|
    ensures forall q :: 0 <= q < |sets| && q !in ChainSet(s, p) ==> r[q] == sets[q]
    decreases p + 1
  {
    if p == -1 then sets
    else
      var f := s.father[p];
      var built := BuildVertexSet(f != -1, if f != -1 then sets[f] else [], AdjOf(g, v), v, clique);
      Rebuild(g, s, sets[p := built], s.next[p], v, clique)
  }

  /** The bound a depth's loop stops at: the last chosen vertex in clique
      mode, the restriction chain's minimum (from `v_cnt`) in aggressive
      mode. The plain worker reads the last chosen vertex in both of its
      modes but only stops at it in clique mode. */
  ghost function LoopBound(g: CsrGraph, s: Schedule, stack: seq<int>, depth: int, mode: Mode): int
    requires WellFormed(s) && 0 < depth < s.size && |stack| == depth
  {
    match mode
    case Clique => stack[|stack| - 1]
    case Plain => stack[|stack| - 1]
    case Aggressive => ChainMin(s, stack, s.restrictLast[depth], g.vCnt)
  }

  /** What the last depth adds for its non-empty loop set. */
  ghost function Leaf(g: CsrGraph, s: Schedule, loop: seq<int>, stack: seq<int>, depth: int, mode: Mode): nat
    requires WellFormed(s) && 0 < depth < s.size && |stack| == depth
  {
    match mode
    case Clique => |loop|
    case Plain => SubtractionSize(loop, stack, |loop|)
    case Aggressive =>
      if s.totalRestrictNum > 0 then
        var k := FirstReach(loop, LoopBound(g, s, stack, depth, mode));
        if k > 0 then SubtractionSize(loop, stack, k) else 0
      else SubtractionSize(loop, stack, |loop|)
  }

  /** A worker at `depth` with `stack` chosen so far. It changes only the
      candidate sets rebuilt at this depth or deeper. */
  ghost function Enum(g: CsrGraph, s: Schedule, sets: seq<seq<int>>, stack: seq<int>, depth: nat, mode: Mode): (r: Run)
    requires Offsets(g) && WellFormed(s) && |sets| == s.totalPrefixNum
    requires 0 < depth < s.size && |stack| == depth
    ensures |r.sets| == |sets|
    ensures forall q :: 0 <= q < |sets| && q !in Touched(s, depth) ==> r.sets[q] == sets[q]
    decreases s.size - depth, 1, 0
  {
    var loop := sets[s.loopSetPrefixId[depth]];
    if |loop| == 0 then Run(0, sets)
    else if depth == s.size - 1 then Run(Leaf(g, s, loop, stack, depth, mode), sets)
    else EnumLoop(g, s, sets, stack, depth, mode, loop, LoopBound(g, s, stack, depth, mode), 0)
  }

  /** The loop of a non-last depth over `loop` from its i-th entry on: stop
      at the bound, skip chosen vertices, otherwise rebuild this depth's
      chain for the candidate, descend, and go on with the sets the descent
      left. */
  ghost function EnumLoop(g: CsrGraph, s: Schedule, sets: seq<seq<int>>, stack: seq<int>, depth: nat, mode: Mode,
                          loop: seq<int>, bound: int, i: nat): (r: Run)
    requires Offsets(g) && WellFormed(s) && |sets| == s.totalPrefixNum
    requires 0 < depth < s.size - 1 && |stack| == depth && i <= |loop|
    ensures |r.sets| == |sets|
    ensures forall q :: 0 <= q < |sets| && q !in Touched(s, depth) ==> r.sets[q] == sets[q]
    decreases s.size - depth, 0, |loop| - i
  {
    if i == |loop| then Run(0, sets)
    else if mode != Plain && bound <= loop[i] then Run(0, sets)
    else if mode != Clique && loop[i] in stack then EnumLoop(g, s, sets, stack, depth, mode, loop, bound, i + 1)
    else
      var v := loop[i];
      var inner := Enum(g, s, Rebuild(g, s, sets, s.last[depth], v, mode == Clique), stack + [v], depth + 1, mode);
      var rest := EnumLoop(g, s, inner.sets, stack, depth, mode, loop, bound, i + 1);
      Run(inner.count + rest.count, rest.sets)
  }

  /** The same loop with each candidate checked against the bound on its
      own: a candidate at or above the bound is skipped like a chosen one,
      and the loop goes on. */
  ghost function SkipLoop(g: CsrGraph, s: Schedule, sets: seq<seq<int>>, stack: seq<int>, depth: nat, mode: Mode,
                          loop: seq<int>, bound: int, i: nat): Run
    requires Offsets(g) && WellFormed(s) && |sets| == s.totalPrefixNum
    requires 0 < depth < s.size - 1 && |stack| == depth && i <= |loop|
    decreases |loop| - i
  {
    if i == |loop| then Run(0, sets)
    else if (mode != Plain && bound <= loop[i]) || (mode != Clique && loop[i] in stack) then
      SkipLoop(g, s, sets, stack, depth, mode, loop, bound, i + 1)
    else
      var v := loop[i];
      var inner := Enum(g, s, Rebuild(g, s, sets, s.last[depth], v, mode == Clique), stack + [v], depth + 1, mode);
      var rest := SkipLoop(g, s, inner.sets, stack, depth, mode, loop, bound, i + 1);
      Run(inner.count + rest.count, rest.sets)
  }

  /** Stopping at the first candidate that reaches the bound loses nothing:
      over a sorted loop set it gives the same count and the same candidate
      sets as checking every candidate against the bound. */
  lemma {:induction false} BreakIsSkip(g: CsrGraph, s: Schedule, sets: seq<seq<int>>, stack: seq<int>, depth: nat,
                                       mode: Mode, loop: seq<int>, bound: int, i: nat)
    requires Offsets(g) && WellFormed(s) && |sets| == s.totalPrefixNum
    requires 0 < depth < s.size - 1 && |stack| == depth && i <= |loop| && StrictlySorted(loop)
    ensures EnumLoop(g, s, sets, stack, depth, mode, loop, bound, i)
            == SkipLoop(g, s, sets, stack, depth, mode, loop, bound, i)
    decreases |loop| - i
  {
    if i < |loop| {
      if mode != Plain && bound <= loop[i] {
        SortedSuffix(loop, i);
        SkipPastBound(g, s, sets, stack, depth, mode, loop, bound, i);
      } else if mode != Clique && loop[i] in stack {
        BreakIsSkip(g, s, sets, stack, depth, mode, loop, bound, i + 1);
      } else {
        var v := loop[i];
        var inner := Enum(g, s, Rebuild(g, s, sets, s.last[depth], v, mode == Clique), stack + [v], depth + 1, mode);
        BreakIsSkip(g, s, inner.sets, stack, depth, mode, loop, bound, i + 1);
      }
    }
  }

  /** Once every remaining candidate reaches the bound, the checking loop
      adds nothing and changes nothing. */
  lemma {:induction false} SkipPastBound(g: CsrGraph, s: Schedule, sets: seq<seq<int>>, stack: seq<int>, depth: nat,
                                         mode: Mode, loop: seq<int>, bound: int, i: nat)
    requires Offsets(g) && WellFormed(s) && |sets| == s.totalPrefixNum
    requires 0 < depth < s.size - 1 && |stack| == depth && i <= |loop| && mode != Plain
    requires forall j :: i <= j < |loop| ==> bound <= loop[j]
    ensures SkipLoop(g, s, sets, stack, depth, mode, loop, bound, i) == Run(0, sets)
    decreases |loop| - i
  {
    if i < |loop| {
      SkipPastBound(g, s, sets, stack, depth, mode, loop, bound, i + 1);
    }
  }

  /** Whether the last depth counts candidate x: clique mode counts every
      candidate; otherwise only vertices not chosen yet, and with
      restrictions only those below `v_cnt` and below every vertex the
      depth's restrictions point to. */
  ghost predicate Admissible(g: CsrGraph, s: Schedule, stack: seq<int>, depth: int, mode: Mode, x: int)
    requires WellFormed(s) && 0 < depth < s.size && |stack| == depth
  {
    match mode
    case Clique => true
    case Plain => x !in stack
    case Aggressive =>
      && x !in stack
      && (s.totalRestrictNum > 0 ==>
            x < g.vCnt && forall b :: b in Bounds(s, stack, s.restrictLast[depth]) ==> x < b)
  }

  /** The last depth's count, for a sorted loop set, is the number of its
      admissible candidates; with restrictions, an empty prefix below the
      bound adds nothing because no candidate is admissible. */
  lemma LeafCount(g: CsrGraph, s: Schedule, loop: seq<int>, stack: seq<int>, depth: int, mode: Mode)
    requires WellFormed(s) && 0 < depth < s.size && |stack| == depth && StrictlySorted(loop)
    ensures Leaf(g, s, loop, stack, depth, mode) == |set x | x in loop && Admissible(g, s, stack, depth, mode, x)|
  {
    assert loop[..|loop|] == loop;
    if mode == Clique {
      DistinctCount(loop);
      assert (set x | x in loop && Admissible(g, s, stack, depth, mode, x)) == set x | x in loop;
    } else if mode == Aggressive && s.totalRestrictNum > 0 {
      RestrictedLeafCount(g, s, loop, stack, depth);
    } else {
      assert (set x | x in loop && Admissible(g, s, stack, depth, mode, x)) == Unchosen(loop, stack, |loop|);
    }
  }

  /** The restricted leaf: the entries before the lower bound of the chain's
      minimum are exactly the candidates below every restriction. */
  lemma RestrictedLeafCount(g: CsrGraph, s: Schedule, loop: seq<int>, stack: seq<int>, depth: int)
    requires WellFormed(s) && 0 < depth < s.size && |stack| == depth && StrictlySorted(loop)
    requires s.totalRestrictNum > 0
    ensures Leaf(g, s, loop, stack, depth, Aggressive)
            == |set x | x in loop && Admissible(g, s, stack, depth, Aggressive, x)|
  {
    var r := s.restrictLast[depth];
    var b := ChainMin(s, stack, r, g.vCnt);
    ChainMinIsMin(s, stack, r, g.vCnt);
    var k := FirstReach(loop, b);
    FirstReachIsBelow(loop, b);
    forall x | x in loop
      ensures Admissible(g, s, stack, depth, Aggressive, x) <==> x in loop[..k] && x !in stack
    {
      assert x in loop[..k] <==> x in Below(loop, b);
    }
    assert (set x | x in loop && Admissible(g, s, stack, depth, Aggressive, x)) == Unchosen(loop, stack, k);
    if k == 0 {
      assert Unchosen(loop, stack, 0) == {};
    }
  }

  /** `pattern_matching`'s outer loop from `vertex` on, one thread's worth:
      rebuild the depth-0 chain from the vertex's neighbours, descend. */
  ghost function Outer(g: CsrGraph, s: Schedule, sets: seq<seq<int>>, clique: bool, vertex: nat): Run
    requires Offsets(g) && WellFormed(s) && |sets| == s.totalPrefixNum && vertex <= g.vCnt
    decreases g.vCnt - vertex
  {
    if vertex == g.vCnt then Run(0, sets)
    else
      var inner := Enum(g, s, Rebuild(g, s, sets, s.last[0], vertex, false), [vertex], 1, TopMode(s, clique));
      var rest := Outer(g, s, inner.sets, clique, vertex + 1);
      Run(inner.count + rest.count, rest.sets)
  }

  /** The total `pattern_matching` returns, run from empty candidate sets. */
  ghost function Count(g: CsrGraph, s: Schedule, clique: bool): nat
    requires Offsets(g) && WellFormed(s)
  {
    Outer(g, s, seq(s.totalPrefixNum, _ => []), clique, 0).count
  }

  /** The loop `for (prefix_id = get_last(depth); prefix_id != -1; ...)`
      rebuilding a chain of candidate sets in place for a chosen vertex. */
  method RebuildChain(graph: Graph, s: Schedule, vertexSet: array<seq<int>>, head: int,
                      vertex: int, adj: seq<int>, clique: bool)
    requires graph.Valid() && Shaped(s) && vertexSet.Length == s.totalPrefixNum
    requires -1 <= head < s.totalPrefixNum && 0 <= vertex < graph.vCnt
    requires adj == Adj(graph.View(), vertex)
    requires SetsOk(graph.View(), vertexSet[..])
    modifies vertexSet
    ensures vertexSet[..] == Rebuild(graph.View(), s, old(vertexSet[..]), head, vertex, clique)
    ensures SetsOk(graph.View(), vertexSet[..])
  {
    AdjFacts(graph.View(), vertex);
    var p := head;
    while p != -1
      invariant -1 <= p < s.totalPrefixNum
      invariant SetsOk(graph.View(), vertexSet[..])
      invariant Rebuild(graph.View(), s, vertexSet[..], p, vertex, clique)
                == Rebuild(graph.View(), s, old(vertexSet[..]), head, vertex, clique)
      decreases p + 1
    {
      var f := s.father[p];
      var built := BuildVertexSet(f != -1, if f != -1 then vertexSet[f] else [], adj, vertex, clique);
      assert IdSet(graph.View(), built) by {
        if f != -1 {
          assert IdSet(graph.View(), vertexSet[f]);
          IdSetIsSorted(graph.View(), vertexSet[f]);
        }
        SortedIsIdSet(graph.View(), built);
      }
      vertexSet[p] := built;
      p := s.next[p];
    }
  }

  /** The restriction loop: the least stack value the depth's restriction
      chain points to, or `v_cnt` when the chain is empty. */
  method MinBound(graph: Graph, s: Schedule, sub: SubtractionSet, depth: int) returns (m: int)
    requires WellFormed(s) && 0 < depth < s.size && |sub.data| == depth
    ensures m == ChainMin(s, sub.data, s.restrictLast[depth], graph.vCnt)
  {
    m := graph.vCnt;
    var r := s.restrictLast[depth];
    while r != -1
      invariant -1 <= r < s.totalRestrictNum && RestrictsBelow(s, r, |sub.data|)
      invariant ChainMin(s, sub.data, r, m) == ChainMin(s, sub.data, s.restrictLast[depth], graph.vCnt)
      decreases r + 1
    {
      var x := sub.GetData(s.restrictIndex[r]);
      if m > x {
        m := x;
      }
      r := s.restrictNext[r];
    }
  }

  /** `pattern_matching_func`: the plain worker at `depth` (clique mode or
      not). It leaves the stack as it found it and changes only the candidate
      sets rebuilt at this depth or deeper. */
  method PatternMatchingFunc(graph: Graph, s: Schedule, vertexSet: array<seq<int>>, sub: SubtractionSet,
                             localAns: int, depth: nat, clique: bool) returns (ans: int)
    requires graph.Valid() && WellFormed(s) && vertexSet.Length == s.totalPrefixNum
    requires 0 < depth < s.size && |sub.data| == depth
    requires SetsOk(graph.View(), vertexSet[..])
    modifies vertexSet, sub
    ensures sub.data == old(sub.data) && SetsOk(graph.View(), vertexSet[..])
    ensures forall q :: 0 <= q < vertexSet.Length && q !in Touched(s, depth) ==> vertexSet[q] == old(vertexSet[q])
    ensures var run := Enum(graph.View(), s, old(vertexSet[..]), old(sub.data), depth, if clique then Clique else Plain);
            ans == localAns + run.count && vertexSet[..] == run.sets
    decreases s.size - depth, 3
  {
    var loopSetPrefixId := s.loopSetPrefixId[depth];
    var loopSize := |vertexSet[loopSetPrefixId]|;
    if loopSize <= 0 {
      return localAns;
    }
    if depth == s.size - 1 {
      if clique {
        ans := localAns + loopSize;
      } else {
        ans := localAns + SubtractionSize(vertexSet[loopSetPrefixId], sub.data, loopSize);
      }
      return;
    }
    var lastVertex := sub.GetLast();
    ans := Iterate(graph, s, vertexSet, sub, localAns, depth, if clique then Clique else Plain, lastVertex);
  }

  /** `pattern_matching_aggressive_func`: the worker that bounds each depth
      by its restriction chain. */
  method PatternMatchingAggressiveFunc(graph: Graph, s: Schedule, vertexSet: array<seq<int>>, sub: SubtractionSet,
                                       localAns: int, depth: nat) returns (ans: int)
    requires graph.Valid() && WellFormed(s) && vertexSet.Length == s.totalPrefixNum
    requires 0 < depth < s.size && |sub.data| == depth
    requires SetsOk(graph.View(), vertexSet[..])
    modifies vertexSet, sub
    ensures sub.data == old(sub.data) && SetsOk(graph.View(), vertexSet[..])
    ensures forall q :: 0 <= q < vertexSet.Length && q !in Touched(s, depth) ==> vertexSet[q] == old(vertexSet[q])
    ensures var run := Enum(graph.View(), s, old(vertexSet[..]), old(sub.data), depth, Aggressive);
            ans == localAns + run.count && vertexSet[..] == run.sets
    decreases s.size - depth, 3
  {
    var loopSetPrefixId := s.loopSetPrefixId[depth];
    var loopSize := |vertexSet[loopSetPrefixId]|;
    if loopSize <= 0 {
      return localAns;
    }
    if depth == s.size - 1 {
      assert IdSet(graph.View(), vertexSet[loopSetPrefixId]);
      IdSetIsSorted(graph.View(), vertexSet[loopSetPrefixId]);
      if s.totalRestrictNum > 0 {
        var minVertex := MinBound(graph, s, sub, depth);
        var sizeAfterRestrict := LowerBound(vertexSet[loopSetPrefixId], minVertex);
        ans := localAns;
        if sizeAfterRestrict > 0 {
          ans := ans + SubtractionSize(vertexSet[loopSetPrefixId], sub.data, sizeAfterRestrict);
        }
      } else {
        ans := localAns + SubtractionSize(vertexSet[loopSetPrefixId], sub.data, loopSize);
      }
      return;
    }
    var minVertex := MinBound(graph, s, sub, depth);
    ans := Iterate(graph, s, vertexSet, sub, localAns, depth, Aggressive, minVertex);
  }

  /** The loop both workers run at a non-last depth: over the loop set, up to
      the bound, past chosen vertices, descending for each candidate. */
  method Iterate(graph: Graph, s: Schedule, vertexSet: array<seq<int>>, sub: SubtractionSet,
                 localAns: int, depth: nat, mode: Mode, bound: int) returns (ans: int)
    requires graph.Valid() && WellFormed(s) && vertexSet.Length == s.totalPrefixNum
    requires 0 < depth < s.size - 1 && |sub.data| == depth
    requires SetsOk(graph.View(), vertexSet[..])
    modifies vertexSet, sub
    ensures sub.data == old(sub.data) && SetsOk(graph.View(), vertexSet[..])
    ensures forall q :: 0 <= q < vertexSet.Length && q !in Touched(s, depth) ==> vertexSet[q] == old(vertexSet[q])
    ensures var run := EnumLoop(graph.View(), s, old(vertexSet[..]), old(sub.data), depth, mode,
                                old(vertexSet[s.loopSetPrefixId[depth]]), bound, 0);
            ans == localAns + run.count && vertexSet[..] == run.sets
    decreases s.size - depth, 2
  {
    var loopSetPrefixId := s.loopSetPrefixId[depth];
    var loopSize := |vertexSet[loopSetPrefixId]|;
    ghost var loop := vertexSet[loopSetPrefixId];
    ghost var stack := sub.data;
    ghost var sets0 := vertexSet[..];
    ghost var total := EnumLoop(graph.View(), s, sets0, stack, depth, mode, loop, bound, 0);
    assert loopSetPrefixId !in Touched(s, depth);
    ans := localAns;
    var i := 0;
    while i < loopSize
      invariant 0 <= i <= loopSize
      invariant sub.data == stack && vertexSet[loopSetPrefixId] == loop
      invariant SetsOk(graph.View(), vertexSet[..])
      invariant forall q :: 0 <= q < vertexSet.Length && q !in Touched(s, depth) ==> vertexSet[q] == sets0[q]
      invariant ans - localAns + EnumLoop(graph.View(), s, vertexSet[..], stack, depth, mode, loop, bound, i).count == total.count
      invariant EnumLoop(graph.View(), s, vertexSet[..], stack, depth, mode, loop, bound, i).sets == total.sets
      decreases loopSize - i
    {
      var vertex := vertexSet[loopSetPrefixId][i];
      if mode != Plain && bound <= vertex {
        break;
      }
      ans := Candidate(graph, s, vertexSet, sub, ans, depth, mode, bound, loop, i, vertex);
      i := i + 1;
    }
  }

  /** The loop body for the i-th candidate once it is below the bound: skip
      it if already chosen (outside clique mode), otherwise descend. */
  method Candidate(graph: Graph, s: Schedule, vertexSet: array<seq<int>>, sub: SubtractionSet, ans: int,
                   depth: nat, mode: Mode, bound: int, ghost loop: seq<int>, i: nat, vertex: int) returns (ans': int)
    requires graph.Valid() && WellFormed(s) && vertexSet.Length == s.totalPrefixNum
    requires 0 < depth < s.size - 1 && |sub.data| == depth
    requires SetsOk(graph.View(), vertexSet[..]) && vertexSet[s.loopSetPrefixId[depth]] == loop
    requires i < |loop| && vertex == loop[i] && !(mode != Plain && bound <= vertex)
    modifies vertexSet, sub
    ensures sub.data == old(sub.data) && SetsOk(graph.View(), vertexSet[..])
    ensures forall q :: 0 <= q < vertexSet.Length && q !in Touched(s, depth) ==> vertexSet[q] == old(vertexSet[q])
    ensures var now := EnumLoop(graph.View(), s, old(vertexSet[..]), old(sub.data), depth, mode, loop, bound, i);
            var next := EnumLoop(graph.View(), s, vertexSet[..], old(sub.data), depth, mode, loop, bound, i + 1);
            ans' - ans + next.count == now.count && next.sets == now.sets
    decreases s.size - depth, 1
  {
    var chosen := false;
    if mode != Clique {
      chosen := sub.HasData(vertex);
    }
    if chosen {
      ans' := ans;
    } else {
      assert IdSet(graph.View(), loop) && vertex in loop;
      IdSetIsSorted(graph.View(), loop);
      ans' := Descend(graph, s, vertexSet, sub, ans, depth, mode, vertex);
    }
  }

  /** One candidate of a non-last depth: rebuild the depth's chain from its
      neighbours, push it, run the next depth, pop it. */
  method Descend(graph: Graph, s: Schedule, vertexSet: array<seq<int>>, sub: SubtractionSet,
                 ans: int, depth: nat, mode: Mode, vertex: int) returns (ans': int)
    requires graph.Valid() && WellFormed(s) && vertexSet.Length == s.totalPrefixNum
    requires 0 < depth < s.size - 1 && |sub.data| == depth && 0 <= vertex < graph.vCnt
    requires SetsOk(graph.View(), vertexSet[..])
    modifies vertexSet, sub
    ensures sub.data == old(sub.data) && SetsOk(graph.View(), vertexSet[..])
    ensures forall q :: 0 <= q < vertexSet.Length && q !in Touched(s, depth) ==> vertexSet[q] == old(vertexSet[q])
    ensures var built := Rebuild(graph.View(), s, old(vertexSet[..]), s.last[depth], vertex, mode == Clique);
            var run := Enum(graph.View(), s, built, old(sub.data) + [vertex], depth + 1, mode);
            ans' == ans + run.count && vertexSet[..] == run.sets
    decreases s.size - depth, 0
  {
    var adj := graph.AdjacencyOf(vertex);
    RebuildChain(graph, s, vertexSet, s.last[depth], vertex, adj, mode == Clique);
    sub.PushBack(vertex);
    if mode == Aggressive {
      ans' := PatternMatchingAggressiveFunc(graph, s, vertexSet, sub, ans, depth + 1);
    } else {
      ans' := PatternMatchingFunc(graph, s, vertexSet, sub, ans, depth + 1, mode == Clique);
    }
    sub.PopBack();
  }

  /** `pattern_matching`, run by one thread over every vertex: the candidate
      sets start empty, each vertex rebuilds the depth-0 chain and runs the
      worker its mode calls for from depth 1. */
  method PatternMatching(graph: Graph, s: Schedule, clique: bool) returns (globalAns: int)
    requires graph.Valid() && WellFormed(s)
    ensures globalAns == Count(graph.View(), s, clique)
  {
    var vertexSet := new seq<int>[s.totalPrefixNum](_ => []);
    assert vertexSet[..] == seq(s.totalPrefixNum, _ => []);
    var sub := new SubtractionSet();
    var localAns := 0;
    ghost var total := Outer(graph.View(), s, vertexSet[..], clique, 0);
    for vertex := 0 to graph.vCnt
      invariant sub.data == [] && SetsOk(graph.View(), vertexSet[..])
      invariant localAns + Outer(graph.View(), s, vertexSet[..], clique, vertex).count == total.count
    {
      localAns := OuterStep(graph, s, vertexSet, sub, localAns, vertex, clique);
    }
    globalAns := localAns;
  }

  /** One vertex of the outer loop. */
  method OuterStep(graph: Graph, s: Schedule, vertexSet: array<seq<int>>, sub: SubtractionSet,
                   ans: int, vertex: int, clique: bool) returns (ans': int)
    requires graph.Valid() && WellFormed(s) && vertexSet.Length == s.totalPrefixNum
    requires 0 <= vertex < graph.vCnt && sub.data == [] && SetsOk(graph.View(), vertexSet[..])
    modifies vertexSet, sub
    ensures sub.data == [] && SetsOk(graph.View(), vertexSet[..])
    ensures var built := Rebuild(graph.View(), s, old(vertexSet[..]), s.last[0], vertex, false);
            var run := Enum(graph.View(), s, built, [vertex], 1, TopMode(s, clique));
            ans' == ans + run.count && vertexSet[..] == run.sets
  {
    var adj := graph.AdjacencyOf(vertex);
    RebuildChain(graph, s, vertexSet, s.last[0], vertex, adj, false);
    sub.PushBack(vertex);
    if s.totalRestrictNum > 0 && !clique {
      ans' := PatternMatchingAggressiveFunc(graph, s, vertexSet, sub, ans, 1);
    } else {
      ans' := PatternMatchingFunc(graph, s, vertexSet, sub, ans, 1, clique);
    }
    sub.PopBack();
  }
}
