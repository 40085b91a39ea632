/** Strictly increasing integer sequences (adjacency lists, candidate vertex
    sets) and the counting facts the intersection and triangle proofs share. */
module SortedSeq {

  /** Sorted ascending with no duplicates: the invariant of every adjacency
      list and of every candidate vertex set. */
  ghost predicate StrictlySorted(s: seq<int>) {
    forall i, j :: 0 <= i < j < |s| ==> s[i] < s[j]
  }

  /** Every suffix of a sorted list is sorted. */
  lemma SortedSuffix(s: seq<int>, i: int)
    requires StrictlySorted(s) && 0 <= i <= |s|
    ensures StrictlySorted(s[i..])
    ensures i < |s| ==> forall j :: i <= j < |s| ==> s[i] <= s[j]
  {
  }

  /** The values shared by two lists: what a sorted merge counts. */
  ghost function Common(a: seq<int>, b: seq<int>): set<int> {
    set x | x in a && x in b
  }

  /** The shared values strictly below `bound`. */
  ghost function CommonBelow(a: seq<int>, b: seq<int>, bound: int): set<int> {
    set x | x in a && x in b && x < bound
  }

  /** The values of `s` strictly below `bound`, in their original order. */
  ghost function Below(s: seq<int>, bound: int): (r: seq<int>)
    ensures forall x :: x in r <==> x in s && x < bound
    ensures StrictlySorted(s) ==> StrictlySorted(r)
    ensures |r| <= |s|
  {
    if |s| == 0 then []
    else
      var rest := Below(s[1..], bound);
      if s[0] < bound then
        assert StrictlySorted(s) ==> StrictlySorted([s[0]] + rest) by {
          if StrictlySorted(s) {
            var r := [s[0]] + rest;
            forall i, j | 0 <= i < j < |r| ensures r[i] < r[j] {
              assert r[j] == rest[j - 1] && rest[j - 1] in s[1..];
            }
          }
        }
        [s[0]] + rest
      else rest
  }

  /** The list 0, 1, ..., n-1. */
  ghost function Range(n: nat): (r: seq<int>)
    ensures |r| == n && StrictlySorted(r)
    ensures forall i :: 0 <= i < n ==> r[i] == i
    ensures forall x :: x in r <==> 0 <= x < n
  {
    var r := seq(n, i => i);
    assert forall x :: 0 <= x < n ==> x in r by {
      forall x | 0 <= x < n ensures x in r { assert r[x] == x; }
    }
    r
  }

  /** A sorted list holds as many distinct values as it has entries. */
  lemma {:induction false} DistinctCount(s: seq<int>)
    requires StrictlySorted(s)
    ensures |set x | x in s| == |s|
  {
    if |s| > 0 {
      DistinctCount(s[1..]);
      assert (set x | x in s) == (set x | x in s[1..]) + {s[0]};
      assert s[0] !in (set x | x in s[1..]);
    }
  }

  /** A sorted list and its "below bound" prefix: once every entry before `k`
      is below the bound and every later one is not, `Below` is that prefix. */
  lemma {:induction false} BelowIsPrefix(s: seq<int>, bound: int, k: nat)
    requires StrictlySorted(s) && k <= |s|
    requires forall i :: 0 <= i < k ==> s[i] < bound
    requires forall i :: k <= i < |s| ==> s[i] >= bound
    ensures Below(s, bound) == s[..k]
  {
    if |s| > 0 {
      if k > 0 {
        BelowIsPrefix(s[1..], bound, k - 1);
        assert s[..k] == [s[0]] + s[1..][..k - 1];
      } else {
        BelowIsPrefix(s[1..], bound, 0);
      }
    }
  }

  /** Of a sorted list, `Below` keeps a prefix. */
  lemma {:induction false} BelowIsTake(s: seq<int>, bound: int)
    requires StrictlySorted(s)
    ensures Below(s, bound) == s[..|Below(s, bound)|]
  {
    if |s| > 0 {
      SortedSuffix(s, 1);
      BelowIsTake(s[1..], bound);
      var rest := Below(s[1..], bound);
      if s[0] < bound {
        assert s[..|rest| + 1] == [s[0]] + s[1..][..|rest|];
      } else {
        BelowIsPrefix(s[1..], bound, 0);
      }
    }
  }

  /** Merge step: the smaller head of two sorted lists is in no intersection. */
  lemma CommonDropFirst(a: seq<int>, b: seq<int>)
    requires StrictlySorted(a) && StrictlySorted(b) && |a| > 0 && |b| > 0 && a[0] < b[0]
    ensures Common(a, b) == Common(a[1..], b) && Common(b, a) == Common(b, a[1..])
    ensures forall bound :: CommonBelow(a, b, bound) == CommonBelow(a[1..], b, bound)
    ensures forall bound :: CommonBelow(b, a, bound) == CommonBelow(b, a[1..], bound)
  {
    assert forall x :: x in a <==> x == a[0] || x in a[1..];
    assert a[0] !in b;
  }

  /** Merge step: equal heads contribute exactly one shared value. */
  lemma CommonDropBoth(a: seq<int>, b: seq<int>)
    requires StrictlySorted(a) && StrictlySorted(b) && |a| > 0 && |b| > 0 && a[0] == b[0]
    ensures |Common(a, b)| == |Common(a[1..], b[1..])| + 1
  {
    assert forall x :: x in a <==> x == a[0] || x in a[1..];
    assert forall x :: x in b <==> x == b[0] || x in b[1..];
    assert a[0] !in a[1..];
    assert Common(a, b) == Common(a[1..], b[1..]) + {a[0]};
  }

  /** The same step for the shared values below a bound the heads are
      below. */
  lemma CommonBelowDropBoth(a: seq<int>, b: seq<int>, bound: int)
    requires StrictlySorted(a) && StrictlySorted(b) && |a| > 0 && |b| > 0 && a[0] == b[0] < bound
    ensures |CommonBelow(a, b, bound)| == |CommonBelow(a[1..], b[1..], bound)| + 1
  {
    assert forall x :: x in a <==> x == a[0] || x in a[1..];
    assert forall x :: x in b <==> x == b[0] || x in b[1..];
    assert a[0] !in a[1..];
    assert CommonBelow(a, b, bound) == CommonBelow(a[1..], b[1..], bound) + {a[0]};
  }

  /** The count a two-cursor merge of the windows a[i..hi1] and b[j..hi2]
      arrives at: advance past the smaller head, count equal heads once and
      advance both. */
  ghost function MergeCount(a: seq<int>, i: nat, hi1: nat, b: seq<int>, j: nat, hi2: nat): nat
    requires i <= hi1 <= |a| && j <= hi2 <= |b|
    decreases hi1 - i + hi2 - j
  {
    if i == hi1 || j == hi2 then 0
    else if a[i] < b[j] then MergeCount(a, i + 1, hi1, b, j, hi2)
    else if b[j] < a[i] then MergeCount(a, i, hi1, b, j + 1, hi2)
    else MergeCount(a, i + 1, hi1, b, j + 1, hi2) + 1
  }

  /** The same merge, stopped as soon as either head reaches `bound`. */
  ghost function MergeBelow(e: seq<int>, i: nat, hi1: nat, j: nat, hi2: nat, bound: int): nat
    requires i <= hi1 <= |e| && j <= hi2 <= |e|
    decreases hi1 - i + hi2 - j
  {
    if i == hi1 || j == hi2 || e[i] >= bound || e[j] >= bound then 0
    else if e[i] < e[j] then MergeBelow(e, i + 1, hi1, j, hi2, bound)
    else if e[j] < e[i] then MergeBelow(e, i, hi1, j + 1, hi2, bound)
    else MergeBelow(e, i + 1, hi1, j + 1, hi2, bound) + 1
  }

  /** On sorted windows the merge counts exactly the shared values. */
  lemma {:induction false} MergeCountIsCard(a: seq<int>, i: nat, hi1: nat, b: seq<int>, j: nat, hi2: nat)
    requires i <= hi1 <= |a| && j <= hi2 <= |b|
    requires StrictlySorted(a[i..hi1]) && StrictlySorted(b[j..hi2])
    ensures MergeCount(a, i, hi1, b, j, hi2) == |Common(a[i..hi1], b[j..hi2])|
    decreases hi1 - i + hi2 - j
  {
    var x, y := a[i..hi1], b[j..hi2];
    if i == hi1 || j == hi2 {
      assert Common(x, y) == {};
    } else {
      assert x[0] == a[i] && y[0] == b[j];
      assert x[1..] == a[i + 1..hi1] && y[1..] == b[j + 1..hi2];
      if a[i] < b[j] {
        MergeCountIsCard(a, i + 1, hi1, b, j, hi2);
        CommonDropFirst(x, y);
      } else if b[j] < a[i] {
        MergeCountIsCard(a, i, hi1, b, j + 1, hi2);
        CommonDropFirst(y, x);
      } else {
        MergeCountIsCard(a, i + 1, hi1, b, j + 1, hi2);
        CommonDropBoth(x, y);
      }
    }
  }

  /** On sorted windows the stopped merge counts exactly the shared values
      below the bound. */
  lemma {:induction false} MergeBelowIsCard(e: seq<int>, i: nat, hi1: nat, j: nat, hi2: nat, bound: int)
    requires i <= hi1 <= |e| && j <= hi2 <= |e|
    requires StrictlySorted(e[i..hi1]) && StrictlySorted(e[j..hi2])
    ensures MergeBelow(e, i, hi1, j, hi2, bound) == |CommonBelow(e[i..hi1], e[j..hi2], bound)|
    decreases hi1 - i + hi2 - j
  {
    var x, y := e[i..hi1], e[j..hi2];
    if i == hi1 || j == hi2 {
      assert CommonBelow(x, y, bound) == {};
    } else if e[i] >= bound {
      assert x[0] == e[i];
      AllReach(x, bound);
      CommonBelowNone(x, y, bound);
    } else if e[j] >= bound {
      assert y[0] == e[j];
      AllReach(y, bound);
      CommonBelowNone(y, x, bound);
    } else {
      assert x[0] == e[i] && y[0] == e[j];
      assert x[1..] == e[i + 1..hi1] && y[1..] == e[j + 1..hi2];
      if e[i] < e[j] {
        MergeBelowIsCard(e, i + 1, hi1, j, hi2, bound);
        CommonDropFirst(x, y);
      } else if e[j] < e[i] {
        MergeBelowIsCard(e, i, hi1, j + 1, hi2, bound);
        CommonDropFirst(y, x);
      } else {
        MergeBelowIsCard(e, i + 1, hi1, j + 1, hi2, bound);
        CommonBelowDropBoth(x, y, bound);
      }
    }
  }

  /** Every entry of a sorted list reaches the bound once its first does. */
  lemma AllReach(s: seq<int>, bound: int)
    requires StrictlySorted(s) && |s| > 0 && s[0] >= bound
    ensures forall i :: 0 <= i < |s| ==> s[i] >= bound
  {
  }

  /** A list whose values all reach the bound shares nothing below it. */
  lemma CommonBelowNone(a: seq<int>, b: seq<int>, bound: int)
    requires forall i :: 0 <= i < |a| ==> a[i] >= bound
    ensures CommonBelow(a, b, bound) == {} && CommonBelow(b, a, bound) == {}
  {
    if x :| x in CommonBelow(a, b, bound) {
      assert false;
    }
    if x :| x in CommonBelow(b, a, bound) {
      assert false;
    }
  }

  /** The intersection of two sorted lists is symmetric and no larger than
      either list. */
  lemma CommonSize(a: seq<int>, b: seq<int>)
    requires StrictlySorted(a) && StrictlySorted(b)
    ensures |Common(a, b)| == |Common(b, a)|
    ensures |Common(a, b)| <= |a| && |Common(a, b)| <= |b|
  {
    assert Common(a, b) == Common(b, a);
    DistinctCount(a);
    DistinctCount(b);
    SubsetCard(Common(a, b), set x | x in a);
    SubsetCard(Common(a, b), set x | x in b);
  }

  lemma SubsetCard<T>(s: set<T>, t: set<T>)
    requires s <= t
    ensures |s| <= |t|
  {
    assert t == s + (t - s);
  }

  /** Σ_{i < k} |f(ks[i])|: the sizes of the sets `f` assigns to the first
      k keys, added up. */
  ghost function SumCard<T>(ks: seq<int>, k: nat, f: int -> set<T>): nat
    requires k <= |ks|
  {
    if k == 0 then 0 else SumCard(ks, k - 1, f) + |f(ks[k - 1])|
  }

  /** The sum over the first k keys sees only those keys. */
  lemma {:induction false} SumCardPrefix<T>(ks: seq<int>, k: nat, j: nat, f: int -> set<T>)
    requires k <= j <= |ks|
    ensures SumCard(ks[..j], k, f) == SumCard(ks, k, f)
  {
    if k > 0 {
      SumCardPrefix(ks, k - 1, j, f);
    }
  }

  /** Every member of every `f(k)`, tagged with its key. */
  ghost function Tagged<T>(ks: seq<int>, f: int -> set<T>): set<(int, T)> {
    set k, x | k in ks && x in f(k) :: (k, x)
  }

  lemma TaggedMember<T>(ks: seq<int>, f: int -> set<T>, k: int, x: T)
    ensures (k, x) in Tagged(ks, f) <==> k in ks && x in f(k)
  {
    if k in ks && x in f(k) {
      assert (k, x) in Tagged(ks, f);
    }
  }

  /** Tagging with a fixed key loses no member. */
  lemma {:induction false} TagCard<T>(k: int, s: set<T>)
    ensures |set x | x in s :: (k, x)| == |s|
    decreases |s|
  {
    if s != {} {
      var y :| y in s;
      TagCard(k, s - {y});
      assert (set x | x in s :: (k, x)) == (set x | x in s - {y} :: (k, x)) + {(k, y)};
    }
  }

  /** The tagged union over one more key is the old union plus that key's
      tagged set, which is disjoint from it when the key is new. */
  lemma TaggedSnoc<T>(init: seq<int>, key: int, f: int -> set<T>)
    ensures Tagged(init + [key], f) == Tagged(init, f) + set x | x in f(key) :: (key, x)
    ensures key !in init ==> Tagged(init, f) !! set x | x in f(key) :: (key, x)
  {
    var slice := set x | x in f(key) :: (key, x);
    forall p | p in Tagged(init + [key], f) ensures p in Tagged(init, f) + slice {
      TaggedMember(init + [key], f, p.0, p.1);
      TaggedMember(init, f, p.0, p.1);
    }
    forall p | p in Tagged(init, f) + slice ensures p in Tagged(init + [key], f) {
      TaggedMember(init + [key], f, p.0, p.1);
      TaggedMember(init, f, p.0, p.1);
    }
    if key !in init {
      forall p | p in Tagged(init, f) ensures p !in slice {
        TaggedMember(init, f, p.0, p.1);
      }
    }
  }

  /** In a sorted list no entry repeats an earlier one. */
  lemma LastIsNew(ks: seq<int>, k: nat)
    requires StrictlySorted(ks) && 0 < k <= |ks|
    ensures ks[k - 1] !in ks[..k - 1]
  {
  }

  lemma DisjointUnionCard<T>(a: set<T>, b: set<T>)
    requires a !! b
    ensures |a + b| == |a| + |b|
  {
    assert a * b == {};
  }

  lemma TaggedEmpty<T>(ks: seq<int>, f: int -> set<T>)
    requires |ks| == 0
    ensures Tagged(ks, f) == {}
  {
  }

  /** A key not seen before adds exactly the size of its set to the
      tagged union. */
  lemma TaggedSnocCard<T>(init: seq<int>, key: int, f: int -> set<T>)
    requires key !in init
    ensures |Tagged(init + [key], f)| == |Tagged(init, f)| + |f(key)|
  {
    var slice := set x | x in f(key) :: (key, x);
    TaggedSnoc(init, key, f);
    TagCard(key, f(key));
    DisjointUnionCard(Tagged(init, f), slice);
  }

  /** Summing set sizes over distinct keys counts the tagged union. */
  lemma {:induction false} SumCardIsTaggedCard<T>(ks: seq<int>, k: nat, f: int -> set<T>)
    requires StrictlySorted(ks) && k <= |ks|
    ensures SumCard(ks, k, f) == |Tagged(ks[..k], f)|
  {
    if k > 0 {
      SumCardIsTaggedCard(ks, k - 1, f);
      assert ks[..k] == ks[..k - 1] + [ks[k - 1]];
      LastIsNew(ks, k);
      TaggedSnocCard(ks[..k - 1], ks[k - 1], f);
    } else {
      TaggedEmpty(ks[..0], f);
    }
  }

  /** Σ_{lo <= k < hi} f(k). */
  ghost function SumRange(f: int -> nat, lo: int, hi: int): nat
    decreases hi - lo
  {
    if hi <= lo then 0 else SumRange(f, lo, hi - 1) + f(hi - 1)
  }

  /** A sum over two adjacent ranges is the sum over their union. */
  lemma {:induction false} SumRangeSplit(f: int -> nat, lo: int, mid: int, hi: int)
    requires lo <= mid <= hi
    ensures SumRange(f, lo, mid) + SumRange(f, mid, hi) == SumRange(f, lo, hi)
    decreases hi - mid
  {
    if mid < hi {
      SumRangeSplit(f, lo, mid, hi - 1);
    }
  }

  /** Summing the sizes f(k) = |F(k)| over 0 .. m-1 is summing the sets over
      the first m keys of 0, 1, ..., n-1. */
  lemma {:induction false} SumRangeIsSumCard<T>(f: int -> nat, F: int -> set<T>, m: nat, n: nat)
    requires m <= n
    requires forall k :: 0 <= k < m ==> f(k) == |F(k)|
    ensures SumRange(f, 0, m) == SumCard(Range(n), m, F)
  {
    if m > 0 {
      SumRangeIsSumCard(f, F, m - 1, n);
    }
  }
}
