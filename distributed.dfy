/** The data path of `triangle_counting_mpi`, run sequentially: the owner of
    a vertex answers a REQUEST with the vertex's adjacency slice, the
    requesting rank copies the payload into a worker's buffer behind a -1
    sentinel, and the worker merges its own adjacency list against that
    buffer. Each rank sums over its own vertices, the partial sums travel in
    two-word IDLE messages to rank 0, and the grand total goes back out in
    END messages. */
module Distributed {
  import opened SortedSeq
  import opened Csr
  import opened GraphImpl
  import opened Partition
  import opened Wire

  /** Message kinds, in word 0 of every message. */
  const Req := 0
  const Ans := 1
  const Idle := 2
  const End := 3

  /** The REQUEST handler: `recv` is a REQUEST for the vertex in word 1;
      the answer is ANSWER followed by that vertex's adjacency slice, and
      the handler returns the answer's length. */
  method AnswerRequest(graph: Graph, recv: seq<int>, send: array<int>) returns (len: int)
    requires graph.Valid() && |recv| == 2 && recv[0] == Req && 0 <= recv[1] < graph.vCnt
    requires |Adj(graph.View(), recv[1])| < send.Length
    modifies send
    ensures len == |Adj(graph.View(), recv[1])| + 1
    ensures send[..len] == [Ans] + Adj(graph.View(), recv[1])
  {
    var x := recv[1];
    var l, r := graph.GetEdgeIndex(x);
    AdjIsSlice(graph.View(), x);
    send[0] := Ans;
    forall i | 0 <= i < r - l {
      send[i + 1] := graph.edge[l + i];
    }
    len := r - l + 1;
    assert send[..len] == [Ans] + graph.edge[l..r];
  }

  /** The ANSWER handler: copy the m - 1 payload words into the waiting
      worker's buffer and close them with a -1 sentinel. */
  method DeliverAnswer(recv: array<int>, m: int, buf: array<int>)
    requires 1 <= m <= recv.Length && m <= buf.Length && recv != buf
    modifies buf
    ensures buf[..m] == recv[1..m] + [-1]
    ensures buf[m..] == old(buf[m..])
  {
    forall i | 0 <= i < m - 1 {
      buf[i] := recv[i + 1];
    }
    buf[m - 1] := -1;
  }

  /** The worker's merge against a delivered buffer: N(v) is merged with the
      buffer's entries up to the -1 sentinel. With non-negative vertex ids
      the sentinel is the first -1, so the count is the number of common
      neighbours of v and the payload. */
  method SentinelMerge(graph: Graph, v: int, buf: array<int>, ghost payload: seq<int>) returns (ans: int)
    requires graph.Valid() && 0 <= v < graph.vCnt
    requires |payload| < buf.Length && buf[..|payload| + 1] == payload + [-1]
    requires StrictlySorted(payload) && forall i :: 0 <= i < |payload| ==> payload[i] >= 0
    ensures ans == |Common(Adj(graph.View(), v), payload)|
  {
    var l1, r1 := graph.GetEdgeIndex(v);
    ghost var lo := l1;
    var l2 := 0;
    ans := 0;
    while l1 < r1 && buf[l2] != -1
      invariant lo <= l1 <= r1 && 0 <= l2 <= |payload|
      invariant ans + MergeCount(graph.edge, l1, r1, payload, l2, |payload|) == MergeCount(graph.edge, lo, r1, payload, 0, |payload|)
      decreases r1 - l1 + |payload| - l2
    {
      assert buf[l2] == (payload + [-1])[l2];
      if graph.edge[l1] < buf[l2] {
        l1 := l1 + 1;
      } else if graph.edge[l1] > buf[l2] {
        l2 := l2 + 1;
      } else {
        l1 := l1 + 1;
        l2 := l2 + 1;
        ans := ans + 1;
      }
    }
    assert buf[l2] == (payload + [-1])[l2];
    AdjFacts(graph.View(), v);
    assert payload[0..|payload|] == payload;
    MergeCountIsCard(graph.edge, lo, r1, payload, 0, |payload|);
  }

  /** The remote branch of a worker, end to end: the worker's REQUEST for
      x goes to its owner, the owner answers it, the answer is delivered behind the sentinel, and the
      merge counts what `intersection_size(v, x)` counts. The message and
      the worker's buffer are allocated to the answer's size. */
  method RemoteIntersection(graph: Graph, v: int, x: int) returns (ans: int)
    requires graph.Valid() && 0 <= v < graph.vCnt && 0 <= x < graph.vCnt
    ensures ans == |Common(Adj(graph.View(), v), Adj(graph.View(), x))|
  {
    ghost var n := Adj(graph.View(), x);
    var lx, rx := graph.GetEdgeIndex(x);
    var msg := new int[rx - lx + 1];
    var buf := new int[rx - lx + 1];
    var req := [Req, x];
    var len := AnswerRequest(graph, req, msg);
    DeliverAnswer(msg, len, buf);
    assert msg[1..len] == n by {
      assert msg[..len][1..] == n;
    }
    AdjFacts(graph.View(), x);
    assert forall i :: 0 <= i < |n| ==> n[i] in n;
    ans := SentinelMerge(graph, v, buf, n);
  }

  /** A worker's step for the edge (v, v2): a neighbour inside the rank's
      range [lo, hi) is intersected locally, any other one through the
      remote round trip, and both count the same common neighbours. */
  method LocalOrRemote(graph: Graph, v: int, v2: int, lo: int, hi: int) returns (d: int)
    requires graph.Valid() && 0 <= v < graph.vCnt && 0 <= v2 < graph.vCnt
    ensures d == |Common(Adj(graph.View(), v), Adj(graph.View(), v2))|
  {
    if lo <= v2 < hi {
      d := graph.IntersectionSize(v, v2);
    } else {
      d := RemoteIntersection(graph, v, v2);
    }
  }

  /** One worker's iteration for vertex v in a rank that owns [lo, hi):
      the total is v's share of the triangle sum whichever neighbours are
      remote. */
  method VertexShare(graph: Graph, v: int, lo: int, hi: int) returns (c: int)
    requires graph.Valid() && 0 <= v < graph.vCnt
    ensures c == VertexSum(graph.View(), v)
  {
    var l, r := graph.GetEdgeIndex(v);
    c := 0;
    for k := 0 to r - l
      invariant c == PrefixSum(graph.View(), v, k)
    {
      c := EdgeStep(graph, v, k, c, lo, hi);
    }
  }

  /** The worker's step for v's k-th neighbour, local or remote, added to
      the running sum. */
  method EdgeStep(graph: Graph, v: int, k: nat, c: int, lo: int, hi: int) returns (c': int)
    requires graph.Valid() && 0 <= v < graph.vCnt && k < |Adj(graph.View(), v)|
    requires c == PrefixSum(graph.View(), v, k)
    ensures c' == PrefixSum(graph.View(), v, k + 1)
  {
    var u := graph.Neighbour(v, k);
    var d := LocalOrRemote(graph, v, u, lo, hi);
    c' := c + d;
  }

  /** The workers of a rank owning [lo, hi), one after another: the rank's
      `node_ans` is the triangle sum over its vertices. */
  method RankSum(graph: Graph, lo: int, hi: int) returns (nodeAns: int)
    requires graph.Valid() && 0 <= lo <= hi <= graph.vCnt
    ensures nodeAns == RangeSum(graph.View(), lo, hi)
  {
    nodeAns := 0;
    for v := lo to hi
      invariant nodeAns == RangeSum(graph.View(), lo, v)
    {
      var c := VertexShare(graph, v, lo, hi);
      nodeAns := nodeAns + c;
    }
  }

  /** An IDLE or END message carrying a sum: the sender puts the kind and
      the sum's high and low words in a three-word message, the receiver
      rebuilds the sum with the 64-bit shift. Every sum below 2^61 arrives
      intact. */
  method ShipSum(kind: int, x: int) returns (y: int)
    requires kind == Idle || kind == End
    requires 0 <= x < Two61
    ensures y == x
  {
    var send := [kind, EncodeHi(x), EncodeLo(x)];
    RoundTripIff(x);
    y := Decode(send[1], send[2]);
  }

  /** The same message rebuilt as written, with the shift on a 32-bit
      `int`: the receiver gets the sum wrapped to 32 bits, which is the sum
      itself exactly when it is below 2^31. */
  method ShipSumAsWritten(kind: int, x: int) returns (y: int)
    requires kind == Idle || kind == End
    ensures y == Wrap32(x)
    ensures 0 <= x ==> (y == x <==> x < Two31)
  {
    var send := [kind, EncodeHi(x), EncodeLo(x)];
    AsWrittenDecodeWraps(x);
    if 0 <= x {
      AsWrittenRoundTripIff(x);
    }
    y := DecodeAsWritten(send[1], send[2]);
  }

  /** A rank's share of the triangle sum extends the sum over the ranks
      before it, and is no larger than the whole sum. */
  lemma {:induction false} RankShare(g: CsrGraph, commSz: nat, rank: nat)
    requires Offsets(g) && commSz > 0
    ensures RangeSum(g, 0, RankHi(g.vCnt, commSz, rank))
            == RangeSum(g, 0, RankLo(g.vCnt, commSz, rank))
               + RangeSum(g, RankLo(g.vCnt, commSz, rank), RankHi(g.vCnt, commSz, rank))
    ensures RangeSum(g, RankLo(g.vCnt, commSz, rank), RankHi(g.vCnt, commSz, rank)) <= TriangleSum(g)
  {
    var lo, hi := RankLo(g.vCnt, commSz, rank), RankHi(g.vCnt, commSz, rank);
    MulMono(BlockSize(g.vCnt, commSz), rank, rank + 1);
    RangeSumSplit(g, 0, lo, hi);
    RangeSumSplit(g, 0, hi, g.vCnt);
  }

  /** Rank 0's side of `triangle_counting_mpi`, with the ranks run one
      after another over the clamped ranges: it adds its own sum and every
      other rank's sum received in an IDLE message, which makes the whole
      triangle sum. */
  method GatherSums(graph: Graph, commSz: nat) returns (totAns: int)
    requires graph.Valid() && commSz > 0
    requires TriangleSum(graph.View()) < Two61
    ensures totAns == TriangleSum(graph.View())
  {
    ghost var g := graph.View();
    var vCnt := graph.vCnt;
    totAns := 0;
    for rank := 0 to commSz
      invariant totAns == RangeSum(g, 0, RankLo(vCnt, commSz, rank))
    {
      var lo, hi := RankLo(vCnt, commSz, rank), RankHi(vCnt, commSz, rank);
      var nodeAns := RankSum(graph, lo, hi);
      RankShare(g, commSz, rank);
      var received := Collect(rank, nodeAns);
      totAns := totAns + received;
    }
    BlockSizeIsCeiling(vCnt, commSz);
  }

  /** How rank 0 obtains a rank's sum: its own directly, any other one
      through an IDLE message. */
  method Collect(rank: nat, nodeAns: int) returns (x: int)
    requires 0 <= nodeAns < Two61
    ensures x == nodeAns
  {
    if rank == 0 {
      x := nodeAns;
    } else {
      x := ShipSum(Idle, nodeAns);
    }
  }

  /** `triangle_counting_mpi`: rank 0 gathers the sums and sends the total
      to the other ranks in END messages. Both rank 0 and every other rank
      return the total over six; for a simple graph that is the number of
      triangles. */
  method TriangleCountingMpi(graph: Graph, commSz: nat) returns (rootAns: int, otherAns: int)
    requires graph.Valid() && commSz > 0
    requires TriangleSum(graph.View()) < Two61
    ensures rootAns == TriangleSum(graph.View()) / 6 && otherAns == rootAns
    ensures Simple(graph.View()) ==> rootAns == |Triangles(graph.View())|
  {
    var totAns := GatherSums(graph, commSz);
    var total := ShipSum(End, totAns);
    rootAns := totAns / 6;
    otherAns := total / 6;
    if Simple(graph.View()) {
      CountersAgree(graph.View());
    }
  }

  /** Rank 0's side of `triangle_counting_mpi` as written: the ranks own
      [mynodel, mynoder) with only the last one clamped, and the IDLE sums
      are rebuilt with the 32-bit shift. Where those ranges are well formed
      and the triangle sum is below 2^31, the total is still exact. */
  method GatherSumsAsWritten(graph: Graph, commSz: nat) returns (totAns: int)
    requires graph.Valid() && commSz > 0
    requires BlockSize(graph.vCnt, commSz) * (commSz - 1) <= graph.vCnt
    ensures TriangleSum(graph.View()) < Two31 ==> totAns == TriangleSum(graph.View())
  {
    ghost var g := graph.View();
    var vCnt := graph.vCnt;
    AsWrittenAgreesWhenInRange(vCnt, commSz);
    totAns := 0;
    for rank := 0 to commSz
      invariant TriangleSum(g) < Two31 ==> totAns == RangeSum(g, 0, RankLo(vCnt, commSz, rank))
    {
      var lo, hi := MyNodeL(vCnt, commSz, rank), MyNodeRAsWritten(vCnt, commSz, rank);
      var nodeAns := RankSum(graph, lo, hi);
      RankShare(g, commSz, rank);
      var received := nodeAns;
      if rank != 0 {
        received := ShipSumAsWritten(Idle, nodeAns);
      }
      totAns := totAns + received;
    }
    BlockSizeIsCeiling(vCnt, commSz);
  }

  /** `triangle_counting_mpi` as written: the END message is rebuilt with
      the 32-bit shift too, and the other ranks divide what they received
      by six, truncating toward zero. For a triangle sum below 2^31 every
      rank returns the sum over six. */
  method TriangleCountingMpiAsWritten(graph: Graph, commSz: nat) returns (rootAns: int, otherAns: int)
    requires graph.Valid() && commSz > 0
    requires BlockSize(graph.vCnt, commSz) * (commSz - 1) <= graph.vCnt
    ensures TriangleSum(graph.View()) < Two31 ==>
              rootAns == TriangleSum(graph.View()) / 6 && otherAns == rootAns
    ensures TriangleSum(graph.View()) < Two31 && Simple(graph.View()) ==>
              rootAns == |Triangles(graph.View())|
  {
    var totAns := GatherSumsAsWritten(graph, commSz);
    rootAns := if totAns >= 0 then totAns / 6 else -((-totAns) / 6);
    var total := ShipSumAsWritten(End, totAns);
    otherAns := if total >= 0 then total / 6 else -((-total) / 6);
    if Simple(graph.View()) {
      CountersAgree(graph.View());
    }
  }
}
