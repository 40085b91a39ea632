/** How `triangle_counting_mpi` splits the vertices 0 .. v_cnt - 1 among
    `comm_sz` ranks: contiguous blocks of ceil(v_cnt / comm_sz) vertices,
    rank r starting at blocksize * r, and the owner of a vertex found by
    dividing by the block size. */
module Partition {

  /** `blocksize`: v_cnt / comm_sz rounded up. */
  function BlockSize(vCnt: nat, commSz: nat): nat
    requires commSz > 0
  {
    (vCnt + commSz - 1) / commSz
  }

  /** `mynodel` of a rank. */
  function MyNodeL(vCnt: nat, commSz: nat, rank: nat): nat
    requires commSz > 0
  {
    BlockSize(vCnt, commSz) * rank
  }

  /** `mynoder` of a rank as written: only the last rank is clamped to
      v_cnt. */
  function MyNodeRAsWritten(vCnt: nat, commSz: nat, rank: nat): nat
    requires commSz > 0
  {
    if rank < commSz - 1 then BlockSize(vCnt, commSz) * (rank + 1) else vCnt
  }

  /** Start of a rank's range, clamped to v_cnt. */
  function RankLo(vCnt: nat, commSz: nat, rank: nat): nat
    requires commSz > 0
  {
    Min(BlockSize(vCnt, commSz) * rank, vCnt)
  }

  /** End of a rank's range, clamped to v_cnt: every rank owns
      [min(b * r, v_cnt), min(b * (r + 1), v_cnt)). */
  function RankHi(vCnt: nat, commSz: nat, rank: nat): nat
    requires commSz > 0
  {
    Min(BlockSize(vCnt, commSz) * (rank + 1), vCnt)
  }

  /** The rank a worker sends a request for vertex v to: `v2 / blocksize`. */
  function Owner(vCnt: nat, commSz: nat, v: nat): nat
    requires commSz > 0 && v < vCnt
  {
    BlockSizeIsCeiling(vCnt, commSz);
    v / BlockSize(vCnt, commSz)
  }

  function Min(a: int, b: int): int
  {
    if a <= b then a else b
  }

  /** The block size is the least b with b * comm_sz >= v_cnt. */
  lemma BlockSizeIsCeiling(vCnt: nat, commSz: nat)
    requires commSz > 0
    ensures BlockSize(vCnt, commSz) * commSz >= vCnt
    ensures (BlockSize(vCnt, commSz) - 1) * commSz < vCnt
    ensures vCnt > 0 ==> BlockSize(vCnt, commSz) > 0
  {
    var b := BlockSize(vCnt, commSz);
    var rem := (vCnt + commSz - 1) % commSz;
    assert vCnt + commSz - 1 == b * commSz + rem;
    assert (b - 1) * commSz == b * commSz - commSz;
  }

  lemma MulMono(b: nat, r: nat, s: nat)
    requires r <= s
    ensures b * r <= b * s
  {
    assert b * s == b * r + b * (s - r);
  }

  /** The ranges as written are well formed (each rank's start at most its
      end, and no end past v_cnt) exactly when the last rank's start does
      not pass v_cnt. */
  lemma {:induction false} AsWrittenRangesIff(vCnt: nat, commSz: nat)
    requires commSz > 0
    ensures (forall r :: 0 <= r < commSz ==>
               MyNodeL(vCnt, commSz, r) <= MyNodeRAsWritten(vCnt, commSz, r) <= vCnt)
            <==> BlockSize(vCnt, commSz) * (commSz - 1) <= vCnt
  {
    var b := BlockSize(vCnt, commSz);
    if b * (commSz - 1) <= vCnt {
      forall r | 0 <= r < commSz
        ensures MyNodeL(vCnt, commSz, r) <= MyNodeRAsWritten(vCnt, commSz, r) <= vCnt
      {
        if r < commSz - 1 {
          MulMono(b, r, r + 1);
          MulMono(b, r + 1, commSz - 1);
        } else {
          assert MyNodeL(vCnt, commSz, r) == b * (commSz - 1);
        }
      }
    } else {
      assert MyNodeL(vCnt, commSz, commSz - 1) > MyNodeRAsWritten(vCnt, commSz, commSz - 1);
    }
  }

  /** With 5 vertices and 4 ranks the block size is 2: rank 2 is handed
      [4, 6), past the last vertex, and rank 3 is handed [6, 5). */
  lemma {:induction false} AsWrittenOvershoots()
    ensures BlockSize(5, 4) == 2
    ensures MyNodeL(5, 4, 2) == 4 && MyNodeRAsWritten(5, 4, 2) == 6
    ensures MyNodeL(5, 4, 3) == 6 && MyNodeRAsWritten(5, 4, 3) == 5
  {
    assert BlockSize(5, 4) == 8 / 4 == 2;
  }

  /** The clamped ranges tile 0 .. v_cnt: the first starts at 0, each ends
      where the next starts, the last ends at v_cnt, and none is inverted. */
  lemma {:induction false} RankRangesTile(vCnt: nat, commSz: nat)
    requires commSz > 0
    ensures RankLo(vCnt, commSz, 0) == 0
    ensures RankHi(vCnt, commSz, commSz - 1) == vCnt
    ensures forall r :: 0 <= r < commSz - 1 ==> RankHi(vCnt, commSz, r) == RankLo(vCnt, commSz, r + 1)
    ensures forall r :: 0 <= r < commSz ==> RankLo(vCnt, commSz, r) <= RankHi(vCnt, commSz, r)
  {
    var b := BlockSize(vCnt, commSz);
    BlockSizeIsCeiling(vCnt, commSz);
    assert b * (commSz - 1 + 1) == b * commSz;
    forall r | 0 <= r < commSz
      ensures RankLo(vCnt, commSz, r) <= RankHi(vCnt, commSz, r)
    {
      MulMono(b, r, r + 1);
    }
  }

  /** Every vertex has exactly one owning rank: `v / blocksize` is a rank
      whose clamped range holds v, and no other rank's range does. */
  lemma {:induction false} OwnerIsUnique(vCnt: nat, commSz: nat, v: nat)
    requires commSz > 0 && v < vCnt
    ensures Owner(vCnt, commSz, v) < commSz
    ensures forall r :: 0 <= r < commSz ==>
              (RankLo(vCnt, commSz, r) <= v < RankHi(vCnt, commSz, r) <==> r == Owner(vCnt, commSz, v))
  {
    var b := BlockSize(vCnt, commSz);
    BlockSizeIsCeiling(vCnt, commSz);
    var o := v / b;
    OwnerBlock(v, b);
    if o >= commSz {
      MulMono(b, commSz, o);
      assert false;
    }
    forall r | 0 <= r < commSz
      ensures RankLo(vCnt, commSz, r) <= v < RankHi(vCnt, commSz, r) <==> r == o
    {
      if r < o {
        MulMono(b, r + 1, o);
      } else if r > o {
        MulMono(b, o + 1, r);
      }
    }
  }

  /** v lies in block v / b. */
  lemma OwnerBlock(v: nat, b: nat)
    requires b > 0
    ensures b * (v / b) <= v < b * (v / b + 1)
  {
    var o, m := v / b, v % b;
    assert v == b * o + m && 0 <= m < b;
    assert b * (o + 1) == b * o + b;
  }

  /** Where the ranges as written are well formed they are the clamped
      ranges. */
  lemma {:induction false} AsWrittenAgreesWhenInRange(vCnt: nat, commSz: nat)
    requires commSz > 0 && BlockSize(vCnt, commSz) * (commSz - 1) <= vCnt
    ensures forall r :: 0 <= r < commSz ==>
              RankLo(vCnt, commSz, r) == MyNodeL(vCnt, commSz, r) &&
              RankHi(vCnt, commSz, r) == MyNodeRAsWritten(vCnt, commSz, r)
  {
    var b := BlockSize(vCnt, commSz);
    BlockSizeIsCeiling(vCnt, commSz);
    forall r | 0 <= r < commSz
      ensures RankLo(vCnt, commSz, r) == MyNodeL(vCnt, commSz, r)
      ensures RankHi(vCnt, commSz, r) == MyNodeRAsWritten(vCnt, commSz, r)
    {
      MulMono(b, r, commSz - 1);
      if r < commSz - 1 {
        MulMono(b, r + 1, commSz - 1);
      } else {
        assert b * (r + 1) == b * commSz;
      }
    }
  }
}
