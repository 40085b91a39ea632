/** The enumeration plan (`Schedule`) as the enumerator reads it: read-only
    tables, the chains they encode, and the bound a restriction chain puts on
    the next vertex. How a plan is computed is not part of this model. */
module Plan {

  /** The plan's queries, as tables indexed by depth, prefix id or
      restriction id:
      - loopSetPrefixId[d]: the candidate set depth d iterates over;
      - last[d], next[p]: the chain of prefixes rebuilt once depth d's vertex
        is chosen (last[d], next[last[d]], ... up to -1);
      - father[p]: the candidate set prefix p is intersected with, -1 for none;
      - restrictLast[d], restrictNext[r]: the chain of restrictions active at
        depth d;
      - restrictIndex[r]: the stack slot (earlier depth) restriction r bounds
        the new vertex by. */
  datatype Schedule = Schedule(
    size: nat,
    totalPrefixNum: nat,
    totalRestrictNum: nat,
    loopSetPrefixId: seq<int>,
    last: seq<int>,
    next: seq<int>,
    father: seq<int>,
    restrictLast: seq<int>,
    restrictNext: seq<int>,
    restrictIndex: seq<int>)

  /** The tables have their sizes, ids are in range, and every chain link
      points to a smaller id, so every chain ends at -1. */
  ghost predicate Shaped(s: Schedule) {
    && |s.loopSetPrefixId| == s.size && |s.last| == s.size && |s.restrictLast| == s.size
    && |s.next| == s.totalPrefixNum && |s.father| == s.totalPrefixNum
    && |s.restrictNext| == s.totalRestrictNum && |s.restrictIndex| == s.totalRestrictNum
    && (forall d :: 0 <= d < s.size ==> 0 <= s.loopSetPrefixId[d] < s.totalPrefixNum)
    && (forall d :: 0 <= d < s.size ==> -1 <= s.last[d] < s.totalPrefixNum)
    && (forall d :: 0 <= d < s.size ==> -1 <= s.restrictLast[d] < s.totalRestrictNum)
    && (forall p :: 0 <= p < s.totalPrefixNum ==> -1 <= s.next[p] < p)
    && (forall p :: 0 <= p < s.totalPrefixNum ==> -1 <= s.father[p] < s.totalPrefixNum)
    && (forall r :: 0 <= r < s.totalRestrictNum ==> -1 <= s.restrictNext[r] < r)
    && (forall r :: 0 <= r < s.totalRestrictNum ==> 0 <= s.restrictIndex[r])
  }

  /** The prefix ids on the chain starting at p. */
  ghost function ChainSet(s: Schedule, p: int): set<int>
    requires Shaped(s) && -1 <= p < s.totalPrefixNum
    decreases p + 1
  {
    if p == -1 then {} else {p} + ChainSet(s, s.next[p])
  }

  /** The candidate sets rebuilt at depths d .. size - 2, that is, while
      depth d's loop is running. */
  ghost function Touched(s: Schedule, d: nat): set<int>
    requires Shaped(s)
    decreases s.size - d
  {
    if d + 1 >= s.size then {} else ChainSet(s, s.last[d]) + Touched(s, d + 1)
  }

  /** The restriction chain starting at r only bounds by stack slots below
      `depth`. */
  ghost predicate RestrictsBelow(s: Schedule, r: int, depth: int)
    requires Shaped(s) && -1 <= r < s.totalRestrictNum
    decreases r + 1
  {
    r == -1 || (s.restrictIndex[r] < depth && RestrictsBelow(s, s.restrictNext[r], depth))
  }

  /** A consistent plan: at least two depths; no depth's loop set is rebuilt
      while that depth iterates over it; a depth's restrictions refer to
      earlier depths only. */
  ghost predicate WellFormed(s: Schedule) {
    && Shaped(s)
    && s.size >= 2
    && (forall d :: 1 <= d < s.size ==> s.loopSetPrefixId[d] !in Touched(s, d))
    && (forall d :: 0 <= d < s.size ==> RestrictsBelow(s, s.restrictLast[d], d))
  }

  /** The stack values the restriction chain from r points to. */
  ghost function Bounds(s: Schedule, stack: seq<int>, r: int): set<int>
    requires Shaped(s) && -1 <= r < s.totalRestrictNum && RestrictsBelow(s, r, |stack|)
    decreases r + 1
  {
    if r == -1 then {} else {stack[s.restrictIndex[r]]} + Bounds(s, stack, s.restrictNext[r])
  }

  /** The restriction loop's running minimum: starting from m, lowered to each
      stack value the chain from r points to. */
  ghost function ChainMin(s: Schedule, stack: seq<int>, r: int, m: int): int
    requires Shaped(s) && -1 <= r < s.totalRestrictNum && RestrictsBelow(s, r, |stack|)
    decreases r + 1
  {
    if r == -1 then m
    else
      var x := stack[s.restrictIndex[r]];
      ChainMin(s, stack, s.restrictNext[r], if m > x then x else m)
  }

  /** The bound is the least of the start value and the stack values the
      chain points to. */
  lemma {:induction false} ChainMinIsMin(s: Schedule, stack: seq<int>, r: int, m: int)
    requires Shaped(s) && -1 <= r < s.totalRestrictNum && RestrictsBelow(s, r, |stack|)
    ensures ChainMin(s, stack, r, m) in {m} + Bounds(s, stack, r)
    ensures forall b :: b in {m} + Bounds(s, stack, r) ==> ChainMin(s, stack, r, m) <= b
    decreases r + 1
  {
    if r != -1 {
      var x := stack[s.restrictIndex[r]];
      ChainMinIsMin(s, stack, s.restrictNext[r], if m > x then x else m);
    }
  }
}
