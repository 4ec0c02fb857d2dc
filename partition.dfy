/** The pivot partitions of the octree sort (examples/nsort/basic/partition.h).

    Elements are of any type `T`; `position` gives an element's position, so
    that `Key(position, dir, x)` is the source's `position(*x)[dir]`. A range
    `[Ai, Af)` of the source is the index range `[lo, hi)` of the array `a`. */
module Partition {

  datatype Vec3 = Vec3(x: real, y: real, z: real)

  /** A direction index, 0, 1 or 2. */
  type Dir = d: nat | d < 3

  function Component(v: Vec3, dir: Dir): real {
    if dir == 0 then v.x else if dir == 1 then v.y else v.z
  }

  function Key<T>(position: T -> Vec3, dir: Dir, x: T): real {
    Component(position(x), dir)
  }

  /** Everything before `r` has key at most `pivot`, everything after `r` has
      key above it; the element at `r` itself may be on either side. */
  predicate SplitAround<T>(s: seq<T>, lo: int, r: int, hi: int, position: T -> Vec3, dir: Dir, pivot: real)
    requires 0 <= lo <= r < hi <= |s|
  {
    && (forall k :: lo <= k < r ==> Key(position, dir, s[k]) <= pivot)
    && (forall k :: r < k < hi ==> Key(position, dir, s[k]) > pivot)
  }

  /** `r` is the partition point of `[lo, hi)`: the keys before it are at
      most `pivot` and the keys from `r` on are above it. */
  predicate SplitAt<T>(s: seq<T>, lo: int, r: int, hi: int, position: T -> Vec3, dir: Dir, pivot: real)
    requires 0 <= lo <= r <= hi <= |s|
  {
    && (forall k :: lo <= k < r ==> Key(position, dir, s[k]) <= pivot)
    && (forall k :: r <= k < hi ==> Key(position, dir, s[k]) > pivot)
  }

  /** Every key of `[lo, hi)` is at most `pivot`. */
  predicate AllAtMost<T>(s: seq<T>, lo: int, hi: int, position: T -> Vec3, dir: Dir, pivot: real)
    requires 0 <= lo <= hi <= |s|
  {
    forall k :: lo <= k < hi ==> Key(position, dir, s[k]) <= pivot
  }

  /** A range has one partition point only. */
  lemma SplitAtUnique<T>(s: seq<T>, lo: int, r0: int, r1: int, hi: int, position: T -> Vec3, dir: Dir, pivot: real)
    requires 0 <= lo <= r0 <= hi <= |s| && lo <= r1 <= hi
    requires SplitAt(s, lo, r0, hi, position, dir, pivot)
    requires SplitAt(s, lo, r1, hi, position, dir, pivot)
    ensures r0 == r1
  {
    var m := if r0 < r1 then r0 else r1;
    if m < hi {
      assert (Key(position, dir, s[m]) <= pivot) == (m < r0) == (m < r1);
    }
  }

  /** Every key of `[lo, hi)` is on the same side of `pivot`. */
  predicate OneSided<T>(s: seq<T>, lo: int, hi: int, position: T -> Vec3, dir: Dir, pivot: real)
    requires 0 <= lo <= hi <= |s|
  {
    || (forall k :: lo <= k < hi ==> Key(position, dir, s[k]) <= pivot)
    || (forall k :: lo <= k < hi ==> Key(position, dir, s[k]) > pivot)
  }

  /** `t` is `s` with `[lo, hi)` rearranged and nothing else touched. */
  ghost predicate PermutedWithin<T>(s: seq<T>, t: seq<T>, lo: int, hi: int)
    requires 0 <= lo <= hi <= |s|
  {
    && |t| == |s|
    && multiset(t[lo..hi]) == multiset(s[lo..hi])
    && (forall k :: 0 <= k < |s| && !(lo <= k < hi) ==> t[k] == s[k])
  }

  /** A rearrangement of the whole array that leaves everything outside
      `[lo, hi)` in place rearranges `[lo, hi)` alone. */
  lemma RangePermutation<T>(s: seq<T>, t: seq<T>, lo: int, hi: int)
    requires 0 <= lo <= hi <= |s| == |t|
    requires multiset(t) == multiset(s)
    requires forall k :: 0 <= k < |s| && !(lo <= k < hi) ==> t[k] == s[k]
    ensures PermutedWithin(s, t, lo, hi)
  {
    assert s == s[..lo] + s[lo..hi] + s[hi..];
    assert t == s[..lo] + t[lo..hi] + s[hi..];
    MultisetCancel(s[..lo], s[lo..hi], t[lo..hi], s[hi..]);
  }

  /** What two sequences with the same surroundings add to the same
      multiset are permutations of each other. */
  lemma MultisetCancel<T>(p: seq<T>, u: seq<T>, v: seq<T>, q: seq<T>)
    requires multiset(p + u + q) == multiset(p + v + q)
    ensures multiset(u) == multiset(v)
  {
    assert multiset(p + u + q) == multiset(p) + multiset(u) + multiset(q);
    assert multiset(p + v + q) == multiset(p) + multiset(v) + multiset(q);
    forall x ensures multiset(u)[x] == multiset(v)[x] {
      assert (multiset(p) + multiset(u) + multiset(q))[x] == (multiset(p) + multiset(v) + multiset(q))[x];
    }
  }

  /** A property of every element of a range survives rearranging the range. */
  lemma PermutedKeeps<T>(s: seq<T>, t: seq<T>, lo: int, hi: int, p: T -> bool)
    requires 0 <= lo <= hi <= |s| && PermutedWithin(s, t, lo, hi)
    requires forall k :: lo <= k < hi ==> p(s[k])
    ensures forall k :: lo <= k < hi ==> p(t[k])
  {
    forall k | lo <= k < hi ensures p(t[k]) {
      assert t[k] in multiset(t[lo..hi]) by {
        assert t[k] == t[lo..hi][k - lo];
      }
      var j :| 0 <= j < hi - lo && s[lo..hi][j] == t[k];
      assert s[lo + j] == t[k];
    }
  }

  /** Rearrangements within a range compose. */
  lemma PermutedTrans<T>(s: seq<T>, t: seq<T>, u: seq<T>, lo: int, hi: int)
    requires 0 <= lo <= hi <= |s|
    requires PermutedWithin(s, t, lo, hi) && PermutedWithin(t, u, lo, hi)
    ensures PermutedWithin(s, u, lo, hi)
  {
  }

  /** Rearranging a sub-range rearranges every range that contains it. */
  lemma PermutedWiden<T>(s: seq<T>, t: seq<T>, lo: int, mid0: int, mid1: int, hi: int)
    requires 0 <= lo <= mid0 <= mid1 <= hi <= |s|
    requires PermutedWithin(s, t, mid0, mid1)
    ensures PermutedWithin(s, t, lo, hi)
  {
    assert s[lo..hi] == s[lo..mid0] + s[mid0..mid1] + s[mid1..hi];
    assert t[lo..hi] == t[lo..mid0] + t[mid0..mid1] + t[mid1..hi];
    assert t[lo..mid0] == s[lo..mid0] && t[mid1..hi] == s[mid1..hi];
  }

  /** `partition<dir>(Ai, Af, pivot)` as written: two cursors close in from both
      ends, swapping a left element with key above `pivot` for a right one with
      key at most `pivot`. The source returns the meeting point `right`,
      except when no swap happened and not both the first key is at most
      `pivot` and the last key is above it: then it returns `Ai`. No swap
      happened exactly when the range is unchanged, since every swap exchanges
      elements on opposite sides of `pivot`. The result is the partition point
      of the rearranged range, except when every key is at most `pivot`. */
  method Partition<T>(a: array<T>, lo: int, hi: int, position: T -> Vec3, dir: Dir, pivot: real)
    returns (r: int)
    requires 0 <= lo < hi <= a.Length
    modifies a
    ensures lo <= r < hi
    ensures PermutedWithin(old(a[..]), a[..], lo, hi)
    ensures if a[..] == old(a[..]) && !(Key(position, dir, a[lo]) <= pivot && Key(position, dir, a[hi - 1]) > pivot)
            then r == lo && OneSided(a[..], lo, hi, position, dir, pivot)
            else SplitAt(a[..], lo, r, hi, position, dir, pivot)
    ensures AllAtMost(a[..], lo, hi, position, dir, pivot) ==> r == lo
    ensures !AllAtMost(a[..], lo, hi, position, dir, pivot) ==> SplitAt(a[..], lo, r, hi, position, dir, pivot)
  {
    var right, swaps := PartitionScan(a, lo, hi, position, dir, pivot);
    if swaps > 0 || (Key(position, dir, a[lo]) <= pivot && Key(position, dir, a[hi - 1]) > pivot) {
      r := right;
    } else {
      r := lo;
      if Key(position, dir, a[lo]) > pivot {
        assert right == lo;
      } else {
        assert right == hi - 1;
      }
    }
  }

  /** `std::iter_swap` on two positions of the array. */
  method Swap<T>(a: array<T>, i: int, j: int)
    requires 0 <= i < a.Length && 0 <= j < a.Length
    modifies a
    ensures a[..] == old(a[..])[i := old(a[j])][j := old(a[i])]
    ensures multiset(a[..]) == old(multiset(a[..]))
  {
    a[i], a[j] := a[j], a[i];
  }

  /** The left cursor's inner loop (line 18): moves `left` towards `right`
      past every element whose key is at most `pivot`. */
  method SkipAtMost<T>(a: array<T>, left: int, right: int, position: T -> Vec3, dir: Dir, pivot: real)
    returns (l: int)
    requires 0 <= left <= right < a.Length
    ensures left <= l <= right
    ensures forall k :: left <= k < l ==> Key(position, dir, a[k]) <= pivot
    ensures l < right ==> Key(position, dir, a[l]) > pivot
  {
    l := left;
    while l < right && Key(position, dir, a[l]) <= pivot
      invariant left <= l <= right
      invariant forall k :: left <= k < l ==> Key(position, dir, a[k]) <= pivot
    {
      l := l + 1;
    }
  }

  /** The right cursor's inner loop (line 21): moves `right` towards `left`
      past every element whose key is above `pivot`. */
  method SkipAbove<T>(a: array<T>, left: int, right: int, position: T -> Vec3, dir: Dir, pivot: real)
    returns (r: int)
    requires 0 <= left <= right < a.Length
    ensures left <= r <= right
    ensures forall k :: r < k <= right ==> Key(position, dir, a[k]) > pivot
    ensures left < r ==> Key(position, dir, a[r]) <= pivot
  {
    r := right;
    while left < r && Key(position, dir, a[r]) > pivot
      invariant left <= r <= right
      invariant forall k :: r < k <= right ==> Key(position, dir, a[k]) > pivot
    {
      r := r - 1;
    }
  }

  /** The scan of `partition` (lines 14-27): returns `right` where the cursors
      met, and the number of swaps made. After a swap, or when the last key
      was above `pivot`, the key at the meeting point is above `pivot` too. */
  method PartitionScan<T>(a: array<T>, lo: int, hi: int, position: T -> Vec3, dir: Dir, pivot: real)
    returns (right: int, swaps: nat)
    requires 0 <= lo < hi <= a.Length
    modifies a
    ensures lo <= right < hi
    ensures (swaps == 0) == (a[..] == old(a[..]))
    ensures PermutedWithin(old(a[..]), a[..], lo, hi)
    ensures SplitAround(a[..], lo, right, hi, position, dir, pivot)
    ensures (swaps > 0 || Key(position, dir, old(a[hi - 1])) > pivot) ==> Key(position, dir, a[right]) > pivot
  {
    swaps := 0;
    var left := lo;
    right := hi - 1;
    ghost var firstSwap := lo;
    while left < right
      invariant lo <= left <= right < hi
      invariant forall k :: lo <= k < left ==> Key(position, dir, a[k]) <= pivot
      invariant forall k :: right < k < hi ==> Key(position, dir, a[k]) > pivot
      invariant multiset(a[..]) == old(multiset(a[..]))
      invariant forall k :: 0 <= k < a.Length && !(lo <= k < hi) ==> a[k] == old(a[k])
      invariant swaps == 0 ==> a[..] == old(a[..])
      invariant swaps > 0 ==> lo <= firstSwap <= left && Key(position, dir, a[firstSwap]) <= pivot
                              && Key(position, dir, old(a[firstSwap])) > pivot
      invariant swaps > 0 ==> Key(position, dir, a[right]) > pivot
      invariant swaps == 0 ==> right == hi - 1 || (right == left && Key(position, dir, a[left]) > pivot)
      decreases right - left, if Key(position, dir, a[left]) <= pivot then 0 else 1
    {
      var swapped;
      left, right, swapped := ScanStep(a, lo, hi, left, right, position, dir, pivot);
      if swapped {
        if swaps == 0 {
          firstSwap := left;
        }
        swaps := swaps + 1;
      }
    }
    RangePermutation(old(a[..]), a[..], lo, hi);
  }

  /** One round of the scan's outer loop (lines 18-26): both cursors skip the
      elements already on their side, then the two out-of-place elements they
      stop at, if they have not met, are swapped. Only the positions between
      the new cursors can change. */
  method ScanStep<T>(a: array<T>, lo: int, hi: int, left0: int, right0: int,
                     position: T -> Vec3, dir: Dir, pivot: real)
    returns (left: int, right: int, swapped: bool)
    requires 0 <= lo <= left0 < right0 < hi <= a.Length
    requires forall k :: lo <= k < left0 ==> Key(position, dir, a[k]) <= pivot
    requires forall k :: right0 < k < hi ==> Key(position, dir, a[k]) > pivot
    modifies a
    ensures left0 <= left <= right <= right0
    ensures forall k :: lo <= k < left ==> Key(position, dir, a[k]) <= pivot
    ensures forall k :: right < k < hi ==> Key(position, dir, a[k]) > pivot
    ensures multiset(a[..]) == old(multiset(a[..]))
    ensures forall k :: 0 <= k < a.Length && !(left <= k <= right) ==> a[k] == old(a[k])
    ensures swapped == (left < right)
    ensures !swapped ==> a[..] == old(a[..])
    ensures swapped ==> Key(position, dir, a[left]) <= pivot && Key(position, dir, old(a[left])) > pivot
    ensures swapped ==> Key(position, dir, a[right]) > pivot
    ensures !swapped ==> right == right0 || Key(position, dir, a[right]) > pivot
  {
    left := SkipAtMost(a, left0, right0, position, dir, pivot);
    right := SkipAbove(a, left, right0, position, dir, pivot);
    swapped := left < right;
    if swapped {
      Swap(a, left, right);
    }
  }

  /** `partition` with line 36 returning the partition point: `Ai` when every
      key is above `pivot`, as the comment at lines 34-35 intends, but `Af`
      when every key is at most `pivot`. */
  method PartitionCorrected<T>(a: array<T>, lo: int, hi: int, position: T -> Vec3, dir: Dir, pivot: real)
    returns (r: int)
    requires 0 <= lo < hi <= a.Length
    modifies a
    ensures lo <= r <= hi
    ensures PermutedWithin(old(a[..]), a[..], lo, hi)
    ensures SplitAt(a[..], lo, r, hi, position, dir, pivot)
  {
    var right, swaps := PartitionScan(a, lo, hi, position, dir, pivot);
    if swaps > 0 || (Key(position, dir, a[lo]) <= pivot && Key(position, dir, a[hi - 1]) > pivot) {
      r := right;
    } else if Key(position, dir, a[lo]) > pivot {
      r := lo;
    } else {
      r := hi;
    }
  }

  /** Two elements with key 0 against pivot 1 both belong before the
      partition point, which is the end of the range; `partition` as written
      returns `Ai` instead, and the corrected one returns the end. */
  method AllAtMostPivotExample() returns (r: int, split: bool, corrected: int)
    ensures r == 0 && !split && corrected == 2
  {
    var position := (x: real) => Vec3(x, 0.0, 0.0);
    var a := new real[2];
    a[0], a[1] := 0.0, 0.0;
    assert a[..] == [0.0, 0.0];
    r := Partition(a, 0, 2, position, 0, 1.0);
    ConstantRangeUnchanged([0.0, 0.0], a[..], 0, 2, 0.0);
    split := SplitAt(a[..], 0, r, 2, position, 0, 1.0);
    corrected := PartitionCorrected(a, 0, 2, position, 0, 1.0);
    ConstantRangeUnchanged([0.0, 0.0], a[..], 0, 2, 0.0);
    SplitAtUnique(a[..], 0, corrected, 2, 2, position, 0, 1.0);
  }

  /** Rearranging a range of equal elements changes nothing. */
  lemma ConstantRangeUnchanged<T>(s: seq<T>, t: seq<T>, lo: int, hi: int, v: T)
    requires 0 <= lo <= hi <= |s| && PermutedWithin(s, t, lo, hi)
    requires forall k :: lo <= k < hi ==> s[k] == v
    ensures t == s
  {
    PermutedKeeps(s, t, lo, hi, x => x == v);
  }

  /** `partition_position_pred<T, dir>(pivot)`: the key lies strictly below the
      pivot's component in direction `dir`. */
  function Below<T>(position: T -> Vec3, dir: Dir, pivot: Vec3, x: T): bool {
    Key(position, dir, x) < Component(pivot, dir)
  }

  /** The scan of `partition` keeps an element whose key equals the pivot on
      the left; `partition_position_pred` sends it to the right. They differ on
      no other element. */
  lemma ScanAndPredicateDifferAtPivot<T>(position: T -> Vec3, dir: Dir, pivot: Vec3, x: T)
    ensures (Key(position, dir, x) <= Component(pivot, dir)) != Below(position, dir, pivot, x)
            <==> Key(position, dir, x) == Component(pivot, dir)
  {
  }

  /** `std::partition(first, last, pred)` with the contract of ISO/IEC 14882
      [alg.partitions]: the range is rearranged so that the elements satisfying
      `pred` come first, and the returned split point separates them from the
      rest. The order within each part is not specified. */
  method StdPartition<T>(a: array<T>, lo: int, hi: int, pred: T -> bool) returns (m: int)
    requires 0 <= lo <= hi <= a.Length
    modifies a
    ensures lo <= m <= hi
    ensures PermutedWithin(old(a[..]), a[..], lo, hi)
    ensures forall k :: lo <= k < m ==> pred(a[k])
    ensures forall k :: m <= k < hi ==> !pred(a[k])
  {
    m := lo;
    var i := lo;
    while i < hi
      invariant lo <= m <= i <= hi
      invariant forall k :: lo <= k < m ==> pred(a[k])
      invariant forall k :: m <= k < i ==> !pred(a[k])
      invariant multiset(a[..]) == old(multiset(a[..]))
      invariant forall k :: 0 <= k < a.Length && !(lo <= k < hi) ==> a[k] == old(a[k])
    {
      m := StdPartitionStep(a, lo, m, i, pred);
      i := i + 1;
    }
    RangePermutation(old(a[..]), a[..], lo, hi);
  }

  /** One step of `StdPartition`: the element at `i` joins the satisfying
      part when it satisfies `pred`, by a swap with the first element that
      does not. */
  method StdPartitionStep<T>(a: array<T>, lo: int, m0: int, i: int, pred: T -> bool) returns (m: int)
    requires 0 <= lo <= m0 <= i < a.Length
    requires forall k :: lo <= k < m0 ==> pred(a[k])
    requires forall k :: m0 <= k < i ==> !pred(a[k])
    modifies a
    ensures m == if pred(old(a[i])) then m0 + 1 else m0
    ensures forall k :: lo <= k < m ==> pred(a[k])
    ensures forall k :: m <= k <= i ==> !pred(a[k])
    ensures multiset(a[..]) == old(multiset(a[..]))
    ensures forall k :: 0 <= k < a.Length && !(m0 <= k <= i) ==> a[k] == old(a[k])
  {
    m := m0;
    if pred(a[i]) {
      Swap(a, m, i);
      m := m + 1;
    }
  }

  /** The quadrant of `v` around `p` in the order `quadpartition` lays the
      quadrants out: below in `diry` first, and within each half below in
      `dirx` first. */
  function QuadRank(v: Vec3, dirx: Dir, diry: Dir, p: Vec3): nat {
    (if Component(v, diry) < Component(p, diry) then 0 else 2) +
    (if Component(v, dirx) < Component(p, dirx) then 0 else 1)
  }

  /** The octant of `v` around `p` in the order `octpartition` lays them out. */
  function OctRank(v: Vec3, dirx: Dir, diry: Dir, dirz: Dir, p: Vec3): nat {
    (if Component(v, dirz) < Component(p, dirz) then 0 else 4) + QuadRank(v, dirx, diry, p)
  }

  /** `quadpartition<dirx, diry>(Ai, Af, p)`: one `std::partition` on `diry`,
      then one on `dirx` in each of the two parts. (The comment at line 66 of
      the source names `dirx` for the first step; the code uses `diry`.) The
      range ends up a rearrangement of itself ordered by quadrant. */
  method QuadPartition<T>(a: array<T>, lo: int, hi: int, position: T -> Vec3, dirx: Dir, diry: Dir, p: Vec3)
    requires 0 <= lo <= hi <= a.Length
    modifies a
    ensures PermutedWithin(old(a[..]), a[..], lo, hi)
    ensures forall i, j :: lo <= i < j < hi ==>
              QuadRank(position(a[i]), dirx, diry, p) <= QuadRank(position(a[j]), dirx, diry, p)
  {
    ghost var s0 := a[..];
    var m := StdPartition(a, lo, hi, x => Below(position, diry, p, x));
    ghost var s1 := a[..];
    var m1 := StdPartition(a, lo, m, x => Below(position, dirx, p, x));
    ghost var s2 := a[..];
    PermutedKeeps(s1, s2, lo, m, x => Below(position, diry, p, x));
    var m2 := StdPartition(a, m, hi, x => Below(position, dirx, p, x));
    ghost var s3 := a[..];
    PermutedKeeps(s2, s3, m, hi, x => !Below(position, diry, p, x));
    PermutedWiden(s1, s2, lo, lo, m, hi);
    PermutedWiden(s2, s3, lo, m, hi, hi);
    PermutedTrans(s0, s1, s2, lo, hi);
    PermutedTrans(s0, s2, s3, lo, hi);
    assert forall k :: lo <= k < m1 ==> QuadRank(position(a[k]), dirx, diry, p) == 0;
    assert forall k :: m1 <= k < m ==> QuadRank(position(a[k]), dirx, diry, p) == 1;
    assert forall k :: m <= k < m2 ==> QuadRank(position(a[k]), dirx, diry, p) == 2;
    assert forall k :: m2 <= k < hi ==> QuadRank(position(a[k]), dirx, diry, p) == 3;
  }

  /** `octpartition<dirx, diry, dirz>(Ai, Af, p)`: one `std::partition` on
      `dirz`, then `quadpartition<dirx, diry>` on each part. The range ends up
      a rearrangement of itself ordered by octant. */
  method OctPartition<T>(a: array<T>, lo: int, hi: int, position: T -> Vec3, dirx: Dir, diry: Dir, dirz: Dir, p: Vec3)
    requires 0 <= lo <= hi <= a.Length
    modifies a
    ensures PermutedWithin(old(a[..]), a[..], lo, hi)
    ensures forall i, j :: lo <= i < j < hi ==>
              OctRank(position(a[i]), dirx, diry, dirz, p) <= OctRank(position(a[j]), dirx, diry, dirz, p)
  {
    ghost var s0 := a[..];
    var m := StdPartition(a, lo, hi, x => Below(position, dirz, p, x));
    ghost var s1 := a[..];
    QuadPartition(a, lo, m, position, dirx, diry, p);
    ghost var s2 := a[..];
    PermutedKeeps(s1, s2, lo, m, x => Below(position, dirz, p, x));
    QuadPartition(a, m, hi, position, dirx, diry, p);
    ghost var s3 := a[..];
    PermutedKeeps(s2, s3, m, hi, x => !Below(position, dirz, p, x));
    PermutedWiden(s1, s2, lo, lo, m, hi);
    PermutedWiden(s2, s3, lo, m, hi, hi);
    PermutedTrans(s0, s1, s2, lo, hi);
    PermutedTrans(s0, s2, s3, lo, hi);
    assert forall k :: lo <= k < m ==> OctRank(position(a[k]), dirx, diry, dirz, p) < 4;
    assert forall k :: m <= k < hi ==> OctRank(position(a[k]), dirx, diry, dirz, p) >= 4;
  }
}
