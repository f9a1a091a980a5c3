/** The point bounding-volume hierarchy of crates/core/src/shape/bvh.rs: a
    binary tree over already-scaled integer points, built by recursively
    sorting a range of an index array along the axis with the larger extent
    (as `build_recursive` computes it, in wrapping `i32` arithmetic) and halving it,
    flattened into an array of nodes for the GPU.

    A leaf covers at most eight consecutive points of the reordered point
    list; an internal node has count 0 and names its two children. */
module Bvh {
  import opened Common

  /** A scaled point, the tuple `(lon, lat)`. */
  datatype ScaledPoint = ScaledPoint(lon: i32, lat: i32)

  /** `BvhNode`: seven 32-bit fields, in this order on the GPU. */
  datatype BvhNode = BvhNode(minLat: i32, maxLat: i32, minLon: i32, maxLon: i32,
                             leftFirst: u32, rightChild: u32, count: u32)

  /** `PointBvh`. */
  datatype PointBvh = PointBvh(nodes: seq<BvhNode>, points: seq<ScaledPoint>)

  /** `BvhNode::SIZE_U32`. */
  const SIZE_U32: nat := 7
  /** `PointBvh::MAX_LEAF_SIZE`. */
  const MAX_LEAF_SIZE: nat := 8

  /** The single node of the hierarchy built from no points. */
  const EMPTY_NODE := BvhNode(0, 0, 0, 0, 0, 0, 0)

  // ---------------------------------------------------------------- bounds

  /** `(min_lat, max_lat, min_lon, max_lon)`. */
  datatype Bounds = Bounds(minLat: i32, maxLat: i32, minLon: i32, maxLon: i32)

  /** The accumulators before any point: `i32::MAX` for minima, `i32::MIN` for maxima. */
  const NO_BOUNDS := Bounds(I32_MAX, I32_MIN, I32_MAX, I32_MIN)

  function Min(a: i32, b: i32): i32 { if a <= b then a else b }
  function Max(a: i32, b: i32): i32 { if a >= b then a else b }

  /** The bounds widened to take in `p`. */
  function Include(b: Bounds, p: ScaledPoint): Bounds
  {
    Bounds(Min(b.minLat, p.lat), Max(b.maxLat, p.lat), Min(b.minLon, p.lon), Max(b.maxLon, p.lon))
  }

  /** The bounds accumulated over `ps` from left to right. */
  function BoundsOf(ps: seq<ScaledPoint>): Bounds
  {
    if ps == [] then NO_BOUNDS else Include(BoundsOf(ps[..|ps| - 1]), ps[|ps| - 1])
  }

  /** `b` is exactly the extent of `ps`: every point lies inside and each of
      the four limits is attained by some point. */
  ghost predicate Exact(b: Bounds, ps: seq<ScaledPoint>)
  {
    (forall p <- ps :: b.minLat <= p.lat <= b.maxLat && b.minLon <= p.lon <= b.maxLon)
    && (exists p <- ps :: p.lat == b.minLat) && (exists p <- ps :: p.lat == b.maxLat)
    && (exists p <- ps :: p.lon == b.minLon) && (exists p <- ps :: p.lon == b.maxLon)
  }

  /** The accumulated bounds of a non-empty list are its exact extent. */
  lemma {:induction false} BoundsOfExact(ps: seq<ScaledPoint>)
    requires ps != []
    ensures Exact(BoundsOf(ps), ps)
    decreases |ps|
  {
    var init, last := ps[..|ps| - 1], ps[|ps| - 1];
    assert ps == init + [last];
    if init == [] {
      ExactSingle(last);
    } else {
      BoundsOfExact(init);
      ExactInclude(BoundsOf(init), init, last);
    }
  }

  /** The bounds of a single point are its exact extent. */
  lemma ExactSingle(p: ScaledPoint)
    ensures Exact(Include(NO_BOUNDS, p), [p])
  {
    assert p in [p];
  }

  /** Widening the exact extent of a list by a point gives the exact extent
      of the list with that point appended. */
  lemma ExactInclude(b: Bounds, init: seq<ScaledPoint>, last: ScaledPoint)
    requires Exact(b, init)
    ensures Exact(Include(b, last), init + [last])
  {
    var ps, c := init + [last], Include(b, last);
    assert last in ps;
    forall p <- ps ensures c.minLat <= p.lat <= c.maxLat && c.minLon <= p.lon <= c.maxLon {
      if p != last {
        assert p in init;
      }
    }
    var w1 :| w1 in init && w1.lat == b.minLat;
    var w2 :| w2 in init && w2.lat == b.maxLat;
    var w3 :| w3 in init && w3.lon == b.minLon;
    var w4 :| w4 in init && w4.lon == b.maxLon;
    assert w1 in ps && w2 in ps && w3 in ps && w4 in ps;
  }

  /** There is only one exact extent of a list. */
  lemma ExactUnique(b: Bounds, c: Bounds, ps: seq<ScaledPoint>)
    requires Exact(b, ps) && Exact(c, ps)
    ensures b == c
  {
  }

  /** The accumulated bounds do not depend on the order of the points. */
  lemma BoundsOfPermutation(ps: seq<ScaledPoint>, qs: seq<ScaledPoint>)
    requires multiset(ps) == multiset(qs)
    ensures BoundsOf(ps) == BoundsOf(qs)
  {
    if ps == [] {
      assert |qs| == |multiset(qs)| == 0;
    } else {
      assert |qs| == |multiset(qs)| == |ps|;
      BoundsOfExact(ps);
      BoundsOfExact(qs);
      forall p ensures p in ps <==> p in qs {
        assert p in ps <==> p in multiset(ps);
        assert p in qs <==> p in multiset(qs);
      }
      ExactUnique(BoundsOf(ps), BoundsOf(qs), ps);
    }
  }

  // ---------------------------------------------------------------- indices

  /** Every index names one of `n` points. */
  predicate ValidIndices(idx: seq<nat>, n: nat)
  {
    forall k | 0 <= k < |idx| :: idx[k] < n
  }

  /** The points the indices name, in index order (`indices.iter().map(|&i| points[i])`). */
  function Gather(idx: seq<nat>, points: seq<ScaledPoint>): (r: seq<ScaledPoint>)
    requires ValidIndices(idx, |points|)
    ensures |r| == |idx| && forall k | 0 <= k < |idx| :: r[k] == points[idx[k]]
  {
    seq(|idx|, k requires 0 <= k < |idx| => points[idx[k]])
  }

  /** `0..n` collected into a list. */
  function Iota(n: nat): (r: seq<nat>)
    ensures |r| == n && forall k | 0 <= k < n :: r[k] == k
  {
    seq(n, k => k)
  }

  lemma ValidIndicesAppend(u: seq<nat>, v: seq<nat>, n: nat)
    requires ValidIndices(u, n) && ValidIndices(v, n)
    ensures ValidIndices(u + v, n)
  {
    forall k | 0 <= k < |u + v| ensures (u + v)[k] < n {
      if k >= |u| { assert (u + v)[k] == v[k - |u|]; }
    }
  }

  lemma GatherAppend(u: seq<nat>, v: seq<nat>, points: seq<ScaledPoint>)
    requires ValidIndices(u, |points|) && ValidIndices(v, |points|)
    ensures ValidIndices(u + v, |points|)
    ensures Gather(u + v, points) == Gather(u, points) + Gather(v, points)
  {
    ValidIndicesAppend(u, v, |points|);
  }

  /** Taking one index out of a list takes its point out of the gathered points. */
  lemma GatherRemove(b: seq<nat>, j: nat, points: seq<ScaledPoint>)
    requires ValidIndices(b, |points|) && j < |b|
    ensures ValidIndices(b[..j] + b[j + 1..], |points|)
    ensures multiset(Gather(b, points)) == multiset{points[b[j]]} + multiset(Gather(b[..j] + b[j + 1..], points))
  {
    var x, left, right := b[j], b[..j], b[j + 1..];
    AroundValid(b, j, |points|);
    GatherAround(left, x, right, points);
    GatherAppend(left, right, points);
    MultisetAround(Gather(left, points), points[x], Gather(right, points));
  }

  /** The two sides of index `j` of a valid list are valid, and the list is
      the left side, the index, then the right side. */
  lemma AroundValid(b: seq<nat>, j: nat, n: nat)
    requires ValidIndices(b, n) && j < |b|
    ensures ValidIndices(b[..j], n) && b[j] < n && ValidIndices(b[j + 1..], n)
    ensures b == b[..j] + ([b[j]] + b[j + 1..])
  {
    var right := b[j + 1..];
    forall k | 0 <= k < |right|
      ensures right[k] < n
    {
      assert right[k] == b[j + 1 + k];
    }
  }

  /** One element between two parts of a sequence, counted apart from them. */
  lemma MultisetAround<T>(left: seq<T>, x: T, right: seq<T>)
    ensures multiset(left + ([x] + right)) == multiset{x} + multiset(left + right)
  {
    assert multiset(left + ([x] + right)) == multiset(left) + (multiset{x} + multiset(right));
  }

  /** Gathering a list with one index between two parts. */
  lemma GatherAround(left: seq<nat>, x: nat, right: seq<nat>, points: seq<ScaledPoint>)
    requires ValidIndices(left, |points|) && x < |points| && ValidIndices(right, |points|)
    ensures ValidIndices(left + ([x] + right), |points|)
    ensures Gather(left + ([x] + right), points) == Gather(left, points) + ([points[x]] + Gather(right, points))
  {
    GatherAppend([x], right, points);
    assert Gather([x] + right, points) == [points[x]] + Gather(right, points);
    GatherAppend(left, [x] + right, points);
  }

  /** Taking one index out of a list takes one copy of it out of the list's multiset. */
  lemma MultisetRemove(b: seq<nat>, j: nat)
    requires j < |b|
    ensures multiset(b[..j] + b[j + 1..]) == multiset(b) - multiset{b[j]}
  {
    assert b == b[..j] + [b[j]] + b[j + 1..];
    assert multiset(b) == multiset(b[..j]) + multiset{b[j]} + multiset(b[j + 1..]);
  }

  /** Taking the first index of `a` and the same index at `j` out of `b`. */
  lemma GatherPermutationStep(a: seq<nat>, b: seq<nat>, j: nat, points: seq<ScaledPoint>)
    requires ValidIndices(a, |points|) && ValidIndices(b, |points|) && multiset(a) == multiset(b)
    requires 0 < |a| && j < |b| && b[j] == a[0]
    ensures ValidIndices(a[1..], |points|) && ValidIndices(b[..j] + b[j + 1..], |points|)
    ensures multiset(a[1..]) == multiset(b[..j] + b[j + 1..])
    ensures multiset(Gather(a, points)) == multiset{points[a[0]]} + multiset(Gather(a[1..], points))
    ensures multiset(Gather(b, points)) == multiset{points[a[0]]} + multiset(Gather(b[..j] + b[j + 1..], points))
  {
    assert multiset(a[1..]) == multiset(b[..j] + b[j + 1..]) by {
      assert a[..0] + a[1..] == a[1..];
      MultisetRemove(a, 0);
      MultisetRemove(b, j);
    }
    assert ValidIndices(a[1..], |points|);
    assert Gather(a, points) == [points[a[0]]] + Gather(a[1..], points);
    GatherRemove(b, j, points);
  }

  /** Index lists that hold the same indices gather the same points. */
  lemma {:induction false} GatherPermutation(a: seq<nat>, b: seq<nat>, points: seq<ScaledPoint>)
    requires ValidIndices(a, |points|) && ValidIndices(b, |points|)
    requires multiset(a) == multiset(b)
    ensures multiset(Gather(a, points)) == multiset(Gather(b, points))
    decreases |a|
  {
    if a == [] {
      assert |b| == |multiset(b)| == 0;
    } else {
      assert a[0] in multiset(b);
      var j :| 0 <= j < |b| && b[j] == a[0];
      GatherPermutationStep(a, b, j, points);
      GatherPermutation(a[1..], b[..j] + b[j + 1..], points);
    }
  }

  /** Index lists that hold the same indices are valid together. */
  lemma ValidIndicesPermutation(a: seq<nat>, b: seq<nat>, n: nat)
    requires ValidIndices(a, n) && multiset(a) == multiset(b)
    ensures ValidIndices(b, n)
  {
    forall k | 0 <= k < |b| ensures b[k] < n {
      assert b[k] in multiset(a);
    }
  }

  // ---------------------------------------------------------------- sorting

  /** The point index `i` names. The specification functions below read
      points only through indices that are in range (`ValidIndices`, kept by
      every step of the build); reading the origin for any other index lets
      them go without that precondition. */
  function PointAt(points: seq<ScaledPoint>, i: nat): (p: ScaledPoint)
    ensures i < |points| ==> p == points[i]
  {
    if i < |points| then points[i] else ScaledPoint(0, 0)
  }

  /** The sort key of index `i`: latitude (`.1`) or longitude (`.0`). */
  function Key(points: seq<ScaledPoint>, byLat: bool, i: nat): i32
  {
    if byLat then PointAt(points, i).lat else PointAt(points, i).lon
  }

  ghost predicate SortedByKey(s: seq<nat>, points: seq<ScaledPoint>, byLat: bool)
  {
    forall j, k | 0 <= j < k < |s| :: Key(points, byLat, s[j]) <= Key(points, byLat, s[k])
  }

  /** `x` placed after every element of `s` whose key is not greater than its own. */
  function InsertByKey(x: nat, s: seq<nat>, points: seq<ScaledPoint>, byLat: bool): (r: seq<nat>)
    ensures |r| == |s| + 1
  {
    if s == [] then [x]
    else if Key(points, byLat, s[0]) > Key(points, byLat, x) then [x] + s
    else
      assert s == [s[0]] + s[1..];
      [s[0]] + InsertByKey(x, s[1..], points, byLat)
  }

  /** `slice::sort_by_key`, a stable sort, written as an insertion sort. */
  function SortByKey(s: seq<nat>, points: seq<ScaledPoint>, byLat: bool): (r: seq<nat>)
    ensures |r| == |s|
  {
    if s == [] then []
    else
      assert s == s[..|s| - 1] + [s[|s| - 1]];
      InsertByKey(s[|s| - 1], SortByKey(s[..|s| - 1], points, byLat), points, byLat)
  }

  /** Insertion adds `x` and keeps every element of `s`. */
  lemma {:induction false} InsertByKeyElements(x: nat, s: seq<nat>, points: seq<ScaledPoint>, byLat: bool)
    ensures var r := InsertByKey(x, s, points, byLat);
      multiset(r) == multiset(s) + multiset{x} && forall y <- r :: y == x || y in s
    decreases |s|
  {
    if s != [] && Key(points, byLat, s[0]) <= Key(points, byLat, x) {
      InsertByKeyElements(x, s[1..], points, byLat);
      assert s == [s[0]] + s[1..];
    }
  }

  lemma {:induction false} InsertByKeySorted(x: nat, s: seq<nat>, points: seq<ScaledPoint>, byLat: bool)
    requires SortedByKey(s, points, byLat)
    ensures SortedByKey(InsertByKey(x, s, points, byLat), points, byLat)
    decreases |s|
  {
    if s != [] && Key(points, byLat, s[0]) <= Key(points, byLat, x) {
      InsertByKeySorted(x, s[1..], points, byLat);
      InsertByKeyElements(x, s[1..], points, byLat);
      var r := InsertByKey(x, s, points, byLat);
      var tail := InsertByKey(x, s[1..], points, byLat);
      assert r == [s[0]] + tail;
      forall k | 0 <= k < |tail| ensures Key(points, byLat, s[0]) <= Key(points, byLat, tail[k]) {
        assert tail[k] in tail;
        if tail[k] != x {
          var m :| 0 <= m < |s[1..]| && s[1..][m] == tail[k];
          assert s[m + 1] == tail[k];
        }
      }
    }
  }

  /** The sort orders the indices by key and keeps exactly the same indices. */
  lemma {:induction false} SortByKeySorted(s: seq<nat>, points: seq<ScaledPoint>, byLat: bool)
    ensures SortedByKey(SortByKey(s, points, byLat), points, byLat)
    ensures multiset(SortByKey(s, points, byLat)) == multiset(s)
    decreases |s|
  {
    if s != [] {
      var init, last := s[..|s| - 1], s[|s| - 1];
      var sortedInit := SortByKey(init, points, byLat);
      assert SortByKey(s, points, byLat) == InsertByKey(last, sortedInit, points, byLat);
      SortByKeySorted(init, points, byLat);
      InsertByKeySorted(last, sortedInit, points, byLat);
      InsertByKeyElements(last, sortedInit, points, byLat);
      assert s == init + [last];
      assert multiset(s) == multiset(init) + multiset{last};
    }
  }

  /** `indices[start..end].sort_by_key(...)`: the range replaced by its sorted self. */
  function SortRange(order: seq<nat>, start: nat, end: nat, points: seq<ScaledPoint>, byLat: bool): (r: seq<nat>)
    requires start <= end <= |order|
    ensures |r| == |order|
  {
    var sorted := SortByKey(order[start..end], points, byLat);
    seq(|order|, k requires 0 <= k < |order| => if start <= k < end then sorted[k - start] else order[k])
  }

  /** `SortRange` as the concatenation of the untouched prefix, the sorted
      range and the untouched suffix. */
  lemma SortRangeSplice(order: seq<nat>, start: nat, end: nat, points: seq<ScaledPoint>, byLat: bool)
    requires start <= end <= |order|
    ensures SortRange(order, start, end, points, byLat)
      == order[..start] + SortByKey(order[start..end], points, byLat) + order[end..]
  {
  }

  /** Sorting a range permutes the indices. */
  lemma SortRangePermutes(order: seq<nat>, start: nat, end: nat, points: seq<ScaledPoint>, byLat: bool)
    requires start <= end <= |order|
    ensures multiset(SortRange(order, start, end, points, byLat)) == multiset(order)
  {
    SortRangeSplice(order, start, end, points, byLat);
    SortByKeySorted(order[start..end], points, byLat);
    assert order == order[..start] + order[start..end] + order[end..];
  }

  /** Sorting a range orders it by key. */
  lemma SortRangeSorted(order: seq<nat>, start: nat, end: nat, points: seq<ScaledPoint>, byLat: bool)
    requires start <= end <= |order|
    ensures SortedByKey(SortRange(order, start, end, points, byLat)[start..end], points, byLat)
  {
    SortByKeySorted(order[start..end], points, byLat);
    SortRangeSlice(order, start, end, points, byLat);
  }

  /** The sorted range of `SortRange` is the sorted slice. */
  lemma SortRangeSlice(order: seq<nat>, start: nat, end: nat, points: seq<ScaledPoint>, byLat: bool)
    requires start <= end <= |order|
    ensures SortRange(order, start, end, points, byLat)[start..end] == SortByKey(order[start..end], points, byLat)
  {
  }

  // ---------------------------------------------------------------- building

  /** The split axis as `build_recursive` chooses it: the extents are `i32`
      subtractions, which wrap in a release build. */
  function SplitOnLatAsWritten(b: Bounds): bool
  {
    WrapI32(b.maxLat - b.minLat) > WrapI32(b.maxLon - b.minLon)
  }

  /** The split axis with the extents computed without overflow: latitude
      exactly when its extent is the larger one. */
  function SplitOnLat(b: Bounds): bool
  {
    b.maxLat - b.minLat > b.maxLon - b.minLon
  }

  /** Whenever neither extent overflows, the two choices agree. */
  lemma SplitOnLatAgrees(b: Bounds)
    requires I32_MIN <= b.maxLat - b.minLat <= I32_MAX && I32_MIN <= b.maxLon - b.minLon <= I32_MAX
    ensures SplitOnLatAsWritten(b) == SplitOnLat(b)
  {
  }

  /** Nine points, coordinates scaled by 10^7: one at longitude -180 degrees
      and latitude 10^-7 degrees, one at longitude 180 degrees and latitude
      0, and seven at the origin. Nine is more than `MAX_LEAF_SIZE`, so
      `build_recursive` splits the range. */
  function OverflowPoints(): (ps: seq<ScaledPoint>)
    ensures |ps| == 9 && MAX_LEAF_SIZE < |ps|
  {
    [ScaledPoint(-1_800_000_000, 1), ScaledPoint(1_800_000_000, 0)] + seq(7, _ => ScaledPoint(0, 0))
  }

  /** Over `OverflowPoints` the longitude extent 3.6 * 10^9 wraps to a
      negative `i32`, so the axis choice as written splits on latitude
      although the longitude extent is by far the longer; the intended
      choice splits on longitude. */
  lemma SplitOnLatOverflow()
    ensures var b := BoundsOver(Iota(9), OverflowPoints(), 0, 9);
      b == Bounds(0, 1, -1_800_000_000, 1_800_000_000) && SplitsOnLat(AsWritten, b) && !SplitsOnLat(Intended, b)
  {
    assert Iota(9) == [0, 1, 2, 3, 4, 5, 6, 7, 8];
  }

  /** Which comparison picks the split axis: `build_recursive`'s, on wrapping `i32`
      extents, or the intended one, on the true extents. `Build` follows
      `build_recursive`; the intended build is the same whenever no extent
      overflows (`BuildRulesAgree`). */
  datatype AxisRule = AsWritten | Intended

  /** Whether a range with bounds `b` is sorted by latitude under `rule`. */
  function SplitsOnLat(rule: AxisRule, b: Bounds): bool
  {
    match rule
    case AsWritten => SplitOnLatAsWritten(b)
    case Intended => SplitOnLat(b)
  }

  /** The bounds of `points[order[i]]` for `i` in `start..end`, accumulated
      in that order. */
  function BoundsOver(order: seq<nat>, points: seq<ScaledPoint>, start: nat, end: nat): Bounds
    requires start <= end <= |order|
    decreases end
  {
    if end == start then NO_BOUNDS else Include(BoundsOver(order, points, start, end - 1), PointAt(points, order[end - 1]))
  }

  /** `BoundsOver` is `BoundsOf` the gathered range. */
  lemma {:induction false} BoundsOverGather(order: seq<nat>, points: seq<ScaledPoint>, start: nat, end: nat)
    requires start <= end <= |order| && ValidIndices(order, |points|)
    ensures BoundsOver(order, points, start, end) == BoundsOf(Gather(order[start..end], points))
    decreases end
  {
    if end > start {
      BoundsOverGather(order, points, start, end - 1);
      var g := Gather(order[start..end], points);
      assert g[..|g| - 1] == Gather(order[start..end - 1], points);
    }
  }

  /** A leaf over `count` points starting at `start`. */
  function LeafNode(b: Bounds, start: nat, count: nat): BvhNode
  {
    BvhNode(b.minLat, b.maxLat, b.minLon, b.maxLon, WrapU32(start), 0, WrapU32(count))
  }

  /** An internal node after its child indices have been patched in. */
  function InternalNode(b: Bounds, left: nat, right: nat): BvhNode
  {
    BvhNode(b.minLat, b.maxLat, b.minLon, b.maxLon, WrapU32(left), WrapU32(right), 0)
  }

  // ---------------------------------------------------------------- the recursion of `build_recursive`

  /** The hierarchy before it is flattened: a leaf over `count` points of
      the reordered list from position `start`, or an internal node over
      its two subtrees. */
  datatype Tree = Leaf(bounds: Bounds, start: nat, count: nat) | Internal(bounds: Bounds, left: Tree, right: Tree)

  /** The number of nodes of a tree. */
  function Size(t: Tree): (n: nat)
    ensures 1 <= n
  {
    match t
    case Leaf(_, _, _) => 1
    case Internal(_, l, r) => 1 + Size(l) + Size(r)
  }

  /** The tree in the order `build_recursive` pushes its nodes, the root at
      index `base`: a node, then its left subtree, then its right subtree,
      every internal node naming the indices of its two children. */
  function Flatten(t: Tree, base: nat): (r: seq<BvhNode>)
    ensures |r| == Size(t)
  {
    match t
    case Leaf(b, start, count) => [LeafNode(b, start, count)]
    case Internal(b, l, r) =>
      [InternalNode(b, base + 1, base + 1 + Size(l))] + Flatten(l, base + 1) + Flatten(r, base + 1 + Size(l))
  }

  /** The midpoint at which a range is halved. */
  function Mid(start: nat, end: nat): (mid: nat)
    requires start <= end
    ensures start <= mid <= end
  {
    start + (end - start) / 2
  }

  /** The range `start..end` of `order` sorted along the axis `rule` picks
      from the bounds of its points. */
  function AxisSorted(rule: AxisRule, order: seq<nat>, points: seq<ScaledPoint>, start: nat, end: nat): (r: seq<nat>)
    requires start <= end <= |order|
    ensures |r| == |order|
  {
    SortRange(order, start, end, points, SplitsOnLat(rule, BoundsOver(order, points, start, end)))
  }

  /** The index order `build_recursive(_, indices, points, start, end)`
      leaves behind when `indices` holds `order`: a range of at most
      `MAX_LEAF_SIZE` is left alone; a larger one is sorted along the axis
      `rule` picks, then its left and right halves are processed in turn. */
  function BuildOrder(rule: AxisRule, order: seq<nat>, points: seq<ScaledPoint>, start: nat, end: nat): (r: seq<nat>)
    requires start <= end <= |order|
    ensures |r| == |order|
    decreases end - start
  {
    if end - start <= MAX_LEAF_SIZE then order
    else
      var sorted := AxisSorted(rule, order, points, start, end);
      BuildOrder(rule, BuildOrder(rule, sorted, points, start, Mid(start, end)), points, Mid(start, end), end)
  }

  /** The tree `build_recursive(_, indices, points, start, end)` builds when
      `indices` holds `order`: a leaf for at most `MAX_LEAF_SIZE` points;
      otherwise an internal node over the tree of the left half of the
      sorted range and the tree of the right half, built over the order the
      left half leaves behind. Every node carries the exact bounds of its
      range (`BuildTreeExact`). */
  function BuildTree(rule: AxisRule, order: seq<nat>, points: seq<ScaledPoint>, start: nat, end: nat): Tree
    requires start <= end <= |order|
    decreases end - start
  {
    var b := BoundsOver(order, points, start, end);
    if end - start <= MAX_LEAF_SIZE then Leaf(b, start, end - start)
    else
      var sorted := AxisSorted(rule, order, points, start, end);
      Internal(b, BuildTree(rule, sorted, points, start, Mid(start, end)),
               BuildTree(rule, BuildOrder(rule, sorted, points, start, Mid(start, end)), points, Mid(start, end), end))
  }

  /** Writing the children's indices into the placeholder pushed before
      two flattened subtrees gives the flattened internal node. */
  lemma {:induction false} PatchInternal(nodes: seq<BvhNode>, b: Bounds, left: Tree, right: Tree,
                                         leftNodes: seq<BvhNode>, rightNodes: seq<BvhNode>)
    requires leftNodes == nodes + [Placeholder(b)] + Flatten(left, |nodes + [Placeholder(b)]|)
    requires rightNodes == leftNodes + Flatten(right, |leftNodes|)
    ensures rightNodes[|nodes| := rightNodes[|nodes|].(leftFirst := WrapU32(|nodes| + 1), rightChild := WrapU32(|leftNodes|))]
      == nodes + Flatten(Internal(b, left, right), |nodes|)
  {
    var q := InternalNode(b, |nodes| + 1, |leftNodes|);
    FlattenInternal(b, left, right, |nodes|);
    UpdateMiddle(nodes, Placeholder(b), q, Flatten(left, |nodes| + 1), Flatten(right, |leftNodes|));
  }

  /** An internal node flattens to itself, then its left subtree, then its right subtree. */
  lemma FlattenInternal(b: Bounds, l: Tree, r: Tree, base: nat)
    ensures Flatten(Internal(b, l, r), base)
      == [InternalNode(b, base + 1, base + 1 + Size(l))] + Flatten(l, base + 1) + Flatten(r, base + 1 + Size(l))
  {
  }

  /** The internal node pushed before its children are built: its child
      indices are zero until they are patched in. */
  function Placeholder(b: Bounds): BvhNode
  {
    BvhNode(b.minLat, b.maxLat, b.minLon, b.maxLon, 0, 0, 0)
  }

  /** Patching the node after `a` in `a + [p] + b + c`. */
  lemma UpdateMiddle(a: seq<BvhNode>, p: BvhNode, q: BvhNode, b: seq<BvhNode>, c: seq<BvhNode>)
    ensures (a + [p] + b + c)[|a|] == p
    ensures (a + [p] + b + c)[|a| := q] == a + ([q] + b + c)
  {
    assert (a + [p] + b + c)[|a| := q] == a + [q] + b + c;
  }

  /** `PointBvh::build` over already-scaled points. */
  function BuildSpec(rule: AxisRule, points: seq<ScaledPoint>): PointBvh
  {
    if points == [] then PointBvh([EMPTY_NODE], [])
    else
      var n := |points|;
      GatherIota(points);
      BuildOrderValid(rule, Iota(n), points, 0, n);
      PointBvh(Flatten(BuildTree(rule, Iota(n), points, 0, n), 0), Gather(BuildOrder(rule, Iota(n), points, 0, n), points))
  }

  /** The overflow changes the built `PointBvh`: over `OverflowPoints` the
      intended build puts the westmost point first (its root range is
      sorted by longitude), while the build as written puts a point of
      latitude 0 first (its root range is sorted by latitude). */
  lemma BuildOverflowDiffers()
    ensures var ps := OverflowPoints();
      var asWritten := BuildSpec(AsWritten, ps).points;
      var intended := BuildSpec(Intended, ps).points;
      |asWritten| == |intended| == 9 && intended[0] == ps[0] && asWritten[0].lat == 0 && asWritten != intended
  {
    var ps := OverflowPoints();
    SplitOnLatOverflow();
    var byLat := OverflowSorted(AsWritten, true);
    var byLon := OverflowSorted(Intended, false);
    FirstOfSorted(Iota(9), ps, true, 1);
    FirstOfSorted(Iota(9), ps, false, 0);
    OverflowKeys(byLat[0]);
    OverflowKeys(byLon[0]);
  }

  /** The coordinates of `OverflowPoints` by index. */
  lemma OverflowKeys(i: nat)
    requires i < 9
    ensures var p := OverflowPoints()[i];
      (i == 0 ==> p == ScaledPoint(-1_800_000_000, 1)) &&
      (i == 1 ==> p == ScaledPoint(1_800_000_000, 0)) &&
      (2 <= i ==> p == ScaledPoint(0, 0))
  {
  }

  /** Over `OverflowPoints` the whole build is one sort of the root range
      (both halves are leaves): the points come out in the sorted order. */
  lemma OverflowSorted(rule: AxisRule, byLat: bool) returns (s: seq<nat>)
    requires byLat == SplitsOnLat(rule, BoundsOver(Iota(9), OverflowPoints(), 0, 9))
    ensures s == SortRange(Iota(9), 0, 9, OverflowPoints(), byLat) && ValidIndices(s, 9)
    ensures BuildSpec(rule, OverflowPoints()).points == Gather(s, OverflowPoints())
  {
    var ps := OverflowPoints();
    s := SortRange(Iota(9), 0, 9, ps, byLat);
    RootSortOnly(rule, Iota(9), ps);
    BuildOrderValid(rule, Iota(9), ps, 0, 9);
    GatherIota(ps);
  }

  /** Nine points are split once into two leaves, so the build order is the
      root range sorted along the chosen axis. */
  lemma RootSortOnly(rule: AxisRule, order: seq<nat>, points: seq<ScaledPoint>)
    requires |order| == 9
    ensures BuildOrder(rule, order, points, 0, 9) == AxisSorted(rule, order, points, 0, 9)
  {
    assert Mid(0, 9) == 4;
  }

  /** The first index of `Iota(9)` sorted by key over `OverflowPoints` is in
      range, and its key is at most that of any index `i` of the range. */
  lemma FirstOfSorted(order: seq<nat>, ps: seq<ScaledPoint>, byLat: bool, i: nat)
    requires order == Iota(9) && ps == OverflowPoints() && i < 9
    ensures var s := SortRange(order, 0, 9, ps, byLat);
      s[0] < 9 && Key(ps, byLat, s[0]) <= Key(ps, byLat, i)
  {
    var s := SortRange(order, 0, 9, ps, byLat);
    SortRangePermutes(order, 0, 9, ps, byLat);
    SortRangeSorted(order, 0, 9, ps, byLat);
    assert s[0..9] == s;
    assert order[i] == i && order[i] in multiset(order);
    assert i in multiset(s);
    var j :| 0 <= j < 9 && s[j] == i;
    assert s[0] in multiset(order);
    var k :| 0 <= k < 9 && order[k] == s[0];
  }

  /** `compute_bounds`: one pass over `points[indices[i]]` for `i` in `start..end`. */
  method ComputeBounds(indices: array<nat>, points: seq<ScaledPoint>, start: nat, end: nat) returns (b: Bounds)
    requires start <= end <= indices.Length
    ensures b == BoundsOver(indices[..], points, start, end)
  {
    var minLat: i32, maxLat: i32, minLon: i32, maxLon: i32 := I32_MAX, I32_MIN, I32_MAX, I32_MIN;
    for i := start to end
      invariant Bounds(minLat, maxLat, minLon, maxLon) == BoundsOver(indices[..], points, start, i)
    {
      var p := PointAt(points, indices[i]);
      minLat := Min(minLat, p.lat);
      maxLat := Max(maxLat, p.lat);
      minLon := Min(minLon, p.lon);
      maxLon := Max(maxLon, p.lon);
    }
    b := Bounds(minLat, maxLat, minLon, maxLon);
  }

  /** Sorts `indices[start..end]` by key in place: the sorted range is
      computed, then written back element by element. */
  method SortRangeByKey(indices: array<nat>, points: seq<ScaledPoint>, start: nat, end: nat, byLat: bool)
    requires start <= end <= indices.Length
    modifies indices
    ensures indices[..] == SortRange(old(indices[..]), start, end, points, byLat)
  {
    var sorted := SortByKey(indices[start..end], points, byLat);
    ghost var target := SortRange(indices[..], start, end, points, byLat);
    for k := 0 to |sorted|
      invariant indices[..start + k] == target[..start + k]
      invariant indices[start + k..] == old(indices[..])[start + k..]
    {
      indices[start + k] := sorted[k];
    }
  }

  /** `build_recursive`: appends the nodes of the subtree over
      `indices[start..end]`, reordering that range, and returns the index of
      the subtree's root. */
  method BuildRecursive(nodes: seq<BvhNode>, indices: array<nat>, points: seq<ScaledPoint>, start: nat, end: nat)
    returns (nodesOut: seq<BvhNode>, nodeIndex: nat)
    requires start <= end <= indices.Length
    modifies indices
    ensures nodesOut == nodes + Flatten(BuildTree(AsWritten, old(indices[..]), points, start, end), |nodes|)
    ensures indices[..] == BuildOrder(AsWritten, old(indices[..]), points, start, end)
    ensures nodeIndex == |nodes|
    decreases end - start, 2
  {
    var bounds := ComputeBounds(indices, points, start, end);
    var count := end - start;
    nodeIndex := |nodes|;
    if count <= MAX_LEAF_SIZE {
      nodesOut := nodes + [LeafNode(bounds, start, count)];
      return;
    }
    nodesOut := BuildChildren(nodes, indices, points, start, end, bounds);
  }

  /** The part of `build_recursive` for a range too large for a leaf: the
      range is sorted along the axis the wrapping extents of its bounds
      pick, then both halves are built. */
  method BuildChildren(nodes: seq<BvhNode>, indices: array<nat>, points: seq<ScaledPoint>, start: nat, end: nat,
                       bounds: Bounds)
    returns (nodesOut: seq<BvhNode>)
    requires start + MAX_LEAF_SIZE < end <= indices.Length
    requires bounds == BoundsOver(indices[..], points, start, end)
    modifies indices
    ensures nodesOut == nodes + Flatten(BuildTree(AsWritten, old(indices[..]), points, start, end), |nodes|)
    ensures indices[..] == BuildOrder(AsWritten, old(indices[..]), points, start, end)
    decreases end - start, 1
  {
    SortRangeByKey(indices, points, start, end, SplitOnLatAsWritten(bounds));
    nodesOut := BuildHalves(nodes, indices, points, start, end, bounds);
  }

  /** Pushes an internal node as a placeholder, builds the left and then the
      right half of the sorted range, and writes the children's indices into
      the placeholder. */
  method BuildHalves(nodes: seq<BvhNode>, indices: array<nat>, points: seq<ScaledPoint>, start: nat, end: nat,
                     bounds: Bounds)
    returns (nodesOut: seq<BvhNode>)
    requires start + MAX_LEAF_SIZE < end <= indices.Length
    modifies indices
    ensures var mid := Mid(start, end);
      nodesOut == nodes + Flatten(Internal(bounds, BuildTree(AsWritten, old(indices[..]), points, start, mid),
                                           BuildTree(AsWritten, BuildOrder(AsWritten, old(indices[..]), points, start, mid), points, mid, end)), |nodes|)
    ensures indices[..] == BuildOrder(AsWritten, BuildOrder(AsWritten, old(indices[..]), points, start, Mid(start, end)), points, Mid(start, end), end)
    decreases end - start, 0
  {
    var nodeIndex := |nodes|;
    var mid := Mid(start, end);
    var leftNodes, leftChild := BuildRecursive(nodes + [Placeholder(bounds)], indices, points, start, mid);
    var rightNodes, rightChild := BuildRecursive(leftNodes, indices, points, mid, end);
    var patched := rightNodes[nodeIndex].(leftFirst := WrapU32(leftChild), rightChild := WrapU32(rightChild));
    nodesOut := rightNodes[nodeIndex := patched];
    PatchInternal(nodes, bounds, BuildTree(AsWritten, old(indices[..]), points, start, mid),
                  BuildTree(AsWritten, BuildOrder(AsWritten, old(indices[..]), points, start, mid), points, mid, end), leftNodes, rightNodes);
  }

  /** `PointBvh::build` over already-scaled points: no points give a single
      zero node; otherwise the indices `0..n` are built into a tree and the
      points are stored in the order the build leaves the indices in. */
  method Build(points: seq<ScaledPoint>) returns (bvh: PointBvh)
    ensures bvh == BuildSpec(AsWritten, points)
  {
    if |points| == 0 {
      return PointBvh([EMPTY_NODE], []);
    }
    var indices := new nat[|points|](i => i);
    assert indices[..] == Iota(|points|);
    var nodes, _ := BuildRecursive([], indices, points, 0, |points|);
    BuildOrderValid(AsWritten, Iota(|points|), points, 0, |points|);
    bvh := PointBvh(nodes, Gather(indices[..], points));
  }

  // ---------------------------------------------------------------- properties of the built tree

  /** `after` holds the same index as `before` at every position outside `start..end`. */
  predicate SameOutside(before: seq<nat>, after: seq<nat>, start: nat, end: nat)
  {
    |after| == |before| && forall k | 0 <= k < |before| && (k < start || end <= k) :: after[k] == before[k]
  }

  /** `SortRange` moves no index outside the range. */
  lemma SortRangeOutside(order: seq<nat>, start: nat, end: nat, points: seq<ScaledPoint>, byLat: bool)
    requires start <= end <= |order|
    ensures SameOutside(order, SortRange(order, start, end, points, byLat), start, end)
  {
  }

  /** Sorting a range keeps every index in range. */
  lemma SortRangeValid(order: seq<nat>, start: nat, end: nat, points: seq<ScaledPoint>, byLat: bool)
    requires start <= end <= |order| && ValidIndices(order, |points|)
    ensures ValidIndices(SortRange(order, start, end, points, byLat), |points|)
  {
    SortRangePermutes(order, start, end, points, byLat);
    ValidIndicesPermutation(order, SortRange(order, start, end, points, byLat), |points|);
  }

  /** Building permutes the index list and moves no index outside `start..end`. */
  lemma {:induction false} BuildOrderPermutes(rule: AxisRule, order: seq<nat>, points: seq<ScaledPoint>, start: nat, end: nat)
    requires start <= end <= |order|
    ensures multiset(BuildOrder(rule, order, points, start, end)) == multiset(order)
    ensures SameOutside(order, BuildOrder(rule, order, points, start, end), start, end)
    decreases end - start
  {
    if end - start > MAX_LEAF_SIZE {
      var byLat := SplitsOnLat(rule, BoundsOver(order, points, start, end));
      var sorted := AxisSorted(rule, order, points, start, end);
      var mid := Mid(start, end);
      SortRangePermutes(order, start, end, points, byLat);
      SortRangeOutside(order, start, end, points, byLat);
      BuildOrderPermutes(rule, sorted, points, start, mid);
      BuildOrderPermutes(rule, BuildOrder(rule, sorted, points, start, mid), points, mid, end);
    }
  }

  /** Building keeps every index in range. */
  lemma BuildOrderValid(rule: AxisRule, order: seq<nat>, points: seq<ScaledPoint>, start: nat, end: nat)
    requires start <= end <= |order| && ValidIndices(order, |points|)
    ensures ValidIndices(BuildOrder(rule, order, points, start, end), |points|)
  {
    BuildOrderPermutes(rule, order, points, start, end);
    ValidIndicesPermutation(order, BuildOrder(rule, order, points, start, end), |points|);
  }

  /** The positions `start..end` in increasing order. */
  function Range(start: nat, end: nat): (r: seq<nat>)
    requires start <= end
    ensures |r| == end - start && forall k | 0 <= k < |r| :: r[k] == start + k
  {
    seq(end - start, k => start + k)
  }

  /** The positions of the reordered points that the leaves among `nodes`
      cover, leaf after leaf; a node with count 0 covers none. */
  function Covered(nodes: seq<BvhNode>): seq<nat>
  {
    if nodes == [] then []
    else
      var n := nodes[|nodes| - 1];
      Covered(nodes[..|nodes| - 1]) + Range(n.leftFirst, n.leftFirst + n.count)
  }

  /** Coverage distributes over concatenation. */
  lemma {:induction false} CoveredAppend(a: seq<BvhNode>, b: seq<BvhNode>)
    ensures Covered(a + b) == Covered(a) + Covered(b)
    decreases |b|
  {
    if b == [] {
      assert a + b == a;
    } else {
      var init, last := b[..|b| - 1], b[|b| - 1];
      assert b == init + [last];
      CoveredAppend(a, init);
      CoveredSnoc(a + init, last);
      CoveredSnoc(init, last);
      assert a + b == (a + init) + [last];
    }
  }

  /** The coverage of a list with a node appended. */
  lemma CoveredSnoc(a: seq<BvhNode>, n: BvhNode)
    ensures Covered(a + [n]) == Covered(a) + Range(n.leftFirst, n.leftFirst + n.count)
  {
    assert (a + [n])[..|a|] == a;
  }

  /** The positions the leaves of a tree cover, leaf after leaf. */
  function TreeCovered(t: Tree): seq<nat>
  {
    match t
    case Leaf(_, start, count) => Range(start, start + count)
    case Internal(_, l, r) => TreeCovered(l) + TreeCovered(r)
  }

  /** Every leaf's positions have u32 indices. */
  predicate LeavesFit(t: Tree)
  {
    match t
    case Leaf(_, start, count) => start + count <= U32_MAX
    case Internal(_, l, r) => LeavesFit(l) && LeavesFit(r)
  }

  /** Every position of a range lies in exactly one leaf of the tree, and
      the leaves come in position order. */
  lemma {:induction false} BuildTreeCovers(rule: AxisRule, order: seq<nat>, points: seq<ScaledPoint>, start: nat, end: nat)
    requires start <= end <= |order| && end <= U32_MAX
    ensures TreeCovered(BuildTree(rule, order, points, start, end)) == Range(start, end)
    ensures LeavesFit(BuildTree(rule, order, points, start, end))
    decreases end - start
  {
    if end - start > MAX_LEAF_SIZE {
      var sorted := AxisSorted(rule, order, points, start, end);
      var mid := Mid(start, end);
      BuildTreeCovers(rule, sorted, points, start, mid);
      BuildTreeCovers(rule, BuildOrder(rule, sorted, points, start, mid), points, mid, end);
      RangeAppend(start, mid, end);
    }
  }

  /** Flattening keeps the leaves' coverage: the leaf nodes of the list cover
      what the leaves of the tree cover. */
  lemma {:induction false} FlattenCovers(t: Tree, base: nat)
    requires LeavesFit(t)
    ensures Covered(Flatten(t, base)) == TreeCovered(t)
  {
    match t
    case Leaf(b, start, count) =>
      LeafCovers(b, start, count);
    case Internal(b, l, r) =>
      FlattenCovers(l, base + 1);
      FlattenCovers(r, base + 1 + Size(l));
      InternalCovers(b, l, r, base);
  }

  /** A leaf covers the positions it names. */
  lemma LeafCovers(b: Bounds, start: nat, count: nat)
    requires start + count <= U32_MAX
    ensures Covered([LeafNode(b, start, count)]) == Range(start, start + count)
  {
    assert [LeafNode(b, start, count)][..0] == [];
  }

  /** An internal node followed by its flattened subtrees covers what the
      subtrees cover. */
  lemma InternalCovers(b: Bounds, l: Tree, r: Tree, base: nat)
    ensures Covered(Flatten(l, base + 1)) == TreeCovered(l) && Covered(Flatten(r, base + 1 + Size(l))) == TreeCovered(r)
      ==> Covered(Flatten(Internal(b, l, r), base)) == TreeCovered(Internal(b, l, r))
  {
    FlattenInternal(b, l, r, base);
    CoversCompose(InternalNode(b, base + 1, base + 1 + Size(l)), Flatten(l, base + 1), Flatten(r, base + 1 + Size(l)));
  }

  /** An internal node's coverage is empty, so it adds nothing to what the
      lists after it cover. */
  lemma CoversCompose(root: BvhNode, left: seq<BvhNode>, right: seq<BvhNode>)
    requires root.count == 0
    ensures Covered([root] + left + right) == Covered(left) + Covered(right)
  {
    assert Covered([root]) == [] by {
      assert [root][..0] == [];
    }
    CoveredAppend([root], left);
    CoveredAppend([root] + left, right);
  }

  lemma RangeAppend(start: nat, mid: nat, end: nat)
    requires start <= mid <= end
    ensures Range(start, mid) + Range(mid, end) == Range(start, end)
  {
    var joined := Range(start, mid) + Range(mid, end);
    forall k | 0 <= k < end - start
      ensures joined[k] == Range(start, end)[k]
    {
      if k < mid - start {
        assert joined[k] == Range(start, mid)[k];
      } else {
        assert joined[k] == Range(mid, end)[k - (mid - start)];
      }
    }
  }

  /** Every leaf of the tree holds between one and `MAX_LEAF_SIZE` points. */
  predicate LeavesSized(t: Tree)
  {
    match t
    case Leaf(_, _, count) => 1 <= count <= MAX_LEAF_SIZE
    case Internal(_, l, r) => LeavesSized(l) && LeavesSized(r)
  }

  /** The tree over a non-empty range has sized leaves and fewer than two
      nodes per point. */
  lemma {:induction false} BuildTreeShape(rule: AxisRule, order: seq<nat>, points: seq<ScaledPoint>, start: nat, end: nat)
    requires start < end <= |order|
    ensures LeavesSized(BuildTree(rule, order, points, start, end))
    ensures Size(BuildTree(rule, order, points, start, end)) < 2 * (end - start)
    decreases end - start
  {
    if end - start > MAX_LEAF_SIZE {
      var sorted := AxisSorted(rule, order, points, start, end);
      var mid := Mid(start, end);
      BuildTreeShape(rule, sorted, points, start, mid);
      BuildTreeShape(rule, BuildOrder(rule, sorted, points, start, mid), points, mid, end);
    }
  }

  /** The flattened layout the GPU traversal relies on, for the list that
      starts at index `base`: every internal node (count 0) has its left
      child immediately after itself and its right child further on, inside
      the list; every leaf has a right child of 0. */
  ghost predicate ChildrenAfter(nodes: seq<BvhNode>, base: nat)
  {
    forall k | 0 <= k < |nodes| ::
      if nodes[k].count == 0 then base + k + 1 == nodes[k].leftFirst as int < nodes[k].rightChild as int < base + |nodes|
      else nodes[k].rightChild == 0
  }

  /** Leaves hold at most `MAX_LEAF_SIZE` points. */
  ghost predicate SmallLeaves(nodes: seq<BvhNode>)
  {
    forall k | 0 <= k < |nodes| :: nodes[k].count as int <= MAX_LEAF_SIZE
  }

  /** Flattening a tree with sized leaves whose node indices fit in a u32
      puts each left child right after its parent, each right child further
      on, and gives small leaves. */
  lemma {:induction false} FlattenLayout(t: Tree, base: nat)
    requires LeavesSized(t) && base + Size(t) <= TWO_32
    ensures ChildrenAfter(Flatten(t, base), base) && SmallLeaves(Flatten(t, base))
  {
    match t
    case Leaf(_, _, _) =>
    case Internal(b, l, r) =>
      FlattenLayout(l, base + 1);
      FlattenLayout(r, base + 1 + Size(l));
      LayoutCompose(InternalNode(b, base + 1, base + 1 + Size(l)), Flatten(l, base + 1), Flatten(r, base + 1 + Size(l)), base);
  }

  /** An internal node whose children are the roots of the two lists that
      follow it keeps the layout of those lists. */
  lemma LayoutCompose(root: BvhNode, left: seq<BvhNode>, right: seq<BvhNode>, base: nat)
    requires left != [] && right != [] && root.count == 0
    requires root.leftFirst as int == base + 1 && root.rightChild as int == base + 1 + |left|
    requires ChildrenAfter(left, base + 1) && SmallLeaves(left)
    requires ChildrenAfter(right, base + 1 + |left|) && SmallLeaves(right)
    ensures ChildrenAfter([root] + left + right, base) && SmallLeaves([root] + left + right)
  {
    var nodes := [root] + left + right;
    forall k | 0 <= k < |nodes|
      ensures nodes[k].count as int <= MAX_LEAF_SIZE
      ensures if nodes[k].count == 0 then base + k + 1 == nodes[k].leftFirst as int < nodes[k].rightChild as int < base + |nodes|
              else nodes[k].rightChild == 0
    {
      if k == 0 {
      } else if k < 1 + |left| {
        assert nodes[k] == left[k - 1];
      } else {
        assert nodes[k] == right[k - 1 - |left|];
      }
    }
  }

  /** The root's bounds are the exact extent of the points of the range. */
  lemma RootBounds(rule: AxisRule, order: seq<nat>, points: seq<ScaledPoint>, start: nat, end: nat, base: nat)
    requires start < end <= |order| && ValidIndices(order, |points|)
    ensures var root := Flatten(BuildTree(rule, order, points, start, end), base)[0];
      Exact(Bounds(root.minLat, root.maxLat, root.minLon, root.maxLon), Gather(order[start..end], points))
  {
    assert BuildTree(rule, order, points, start, end).bounds == BoundsOver(order, points, start, end);
    BoundsOverGather(order, points, start, end);
    BoundsOfExact(Gather(order[start..end], points));
  }

  /** Gathering `0..n` gives the points themselves. */
  lemma GatherIota(points: seq<ScaledPoint>)
    ensures ValidIndices(Iota(|points|), |points|) && Gather(Iota(|points|), points) == points
  {
  }

  /** What `PointBvh::build` promises, under either axis rule: no points
      give the single zero node; otherwise the stored points are the input
      points reordered, every stored point lies in exactly one leaf, leaves
      are small, each left child follows its parent directly, and every
      node of the flattened tree carries the exact bounds of its range of
      stored points, the root those of all the points. */
  lemma BuildSpecProperties(rule: AxisRule, points: seq<ScaledPoint>)
    requires 2 * |points| <= TWO_32
    ensures var bvh := BuildSpec(rule, points);
      && (points == [] ==> bvh == PointBvh([EMPTY_NODE], []))
      && (points != [] ==>
            && multiset(bvh.points) == multiset(points)
            && Exact(Bounds(bvh.nodes[0].minLat, bvh.nodes[0].maxLat, bvh.nodes[0].minLon, bvh.nodes[0].maxLon), points)
            && Covered(bvh.nodes) == Range(0, |bvh.points|)
            && ChildrenAfter(bvh.nodes, 0) && SmallLeaves(bvh.nodes)
            && var tree := BuildTree(rule, Iota(|points|), points, 0, |points|);
               bvh.nodes == Flatten(tree, 0) && NodesExact(tree, bvh.points, 0, |points|))
  {
    if points != [] {
      var n := |points|;
      GatherIota(points);
      var order := BuildOrder(rule, Iota(n), points, 0, n);
      BuildOrderPermutes(rule, Iota(n), points, 0, n);
      ValidIndicesPermutation(Iota(n), order, n);
      GatherPermutation(Iota(n), order, points);
      assert Iota(n)[0..n] == Iota(n);
      RootBounds(rule, Iota(n), points, 0, n, 0);
      var tree := BuildTree(rule, Iota(n), points, 0, n);
      BuildTreeCovers(rule, Iota(n), points, 0, n);
      FlattenCovers(tree, 0);
      BuildTreeShape(rule, Iota(n), points, 0, n);
      FlattenLayout(tree, 0);
      BuildTreeExact(rule, Iota(n), points, 0, n);
    }
  }

  // ---------------------------------------------------------------- bounds at every node

  /** Gathering a slice of the indices is slicing the gathered points. */
  lemma GatherSlice(order: seq<nat>, points: seq<ScaledPoint>, start: nat, end: nat)
    requires start <= end <= |order| && ValidIndices(order, |points|)
    ensures ValidIndices(order[start..end], |points|)
    ensures Gather(order, points)[start..end] == Gather(order[start..end], points)
  {
  }

  /** Two permutations that agree outside `start..end` hold the same indices inside it. */
  lemma RangeMultiset(a: seq<nat>, b: seq<nat>, start: nat, end: nat)
    requires start <= end <= |a| && SameOutside(a, b, start, end) && multiset(a) == multiset(b)
    ensures multiset(a[start..end]) == multiset(b[start..end])
  {
    SplitMultiset(a, start, end);
    SplitMultiset(b, start, end);
    assert a[..start] == b[..start] && a[end..] == b[end..];
    var x, y, y', z := multiset(a[..start]), multiset(a[start..end]), multiset(b[start..end]), multiset(a[end..]);
    forall e ensures y[e] == y'[e] {
      assert (x + y + z)[e] == (x + y' + z)[e];
    }
  }

  /** A list's multiset is the sum of those of its three parts. */
  lemma SplitMultiset(a: seq<nat>, start: nat, end: nat)
    requires start <= end <= |a|
    ensures multiset(a) == multiset(a[..start]) + multiset(a[start..end]) + multiset(a[end..])
  {
    assert a == a[..start] + a[start..end] + a[end..];
  }

  /** Every node of `t` is exact over the stored points `ps`: the node over
      positions `lo..hi` carries exactly the bounds of `ps[lo..hi]`, a leaf
      names that range itself, and the children of an internal node are over
      the two halves of its range, split at `Mid(lo, hi)`. */
  ghost predicate NodesExact(t: Tree, ps: seq<ScaledPoint>, lo: nat, hi: nat)
  {
    lo <= hi <= |ps| && Exact(t.bounds, ps[lo..hi]) &&
    match t
    case Leaf(_, start, count) => start == lo && start + count == hi
    case Internal(_, l, r) => NodesExact(l, ps, lo, Mid(lo, hi)) && NodesExact(r, ps, Mid(lo, hi), hi)
  }

  /** Exactness over `lo..hi` depends only on the points at those positions. */
  lemma {:induction false} NodesExactFrame(t: Tree, ps: seq<ScaledPoint>, qs: seq<ScaledPoint>, lo: nat, hi: nat)
    requires NodesExact(t, ps, lo, hi) && hi <= |qs| && ps[lo..hi] == qs[lo..hi]
    ensures NodesExact(t, qs, lo, hi)
  {
    match t
    case Leaf(_, _, _) =>
    case Internal(_, l, r) =>
      var mid := Mid(lo, hi);
      SubSlicesAgree(ps, qs, lo, mid, hi);
      NodesExactFrame(l, ps, qs, lo, mid);
      NodesExactFrame(r, ps, qs, mid, hi);
  }

  /** Lists that agree on `lo..hi` agree on both parts of it. */
  lemma SubSlicesAgree(ps: seq<ScaledPoint>, qs: seq<ScaledPoint>, lo: nat, mid: nat, hi: nat)
    requires lo <= mid <= hi <= |ps| && hi <= |qs| && ps[lo..hi] == qs[lo..hi]
    ensures ps[lo..mid] == qs[lo..mid] && ps[mid..hi] == qs[mid..hi]
  {
    forall k | lo <= k < hi ensures ps[k] == qs[k] {
      assert ps[k] == ps[lo..hi][k - lo] && qs[k] == qs[lo..hi][k - lo];
    }
  }

  /** The bounds computed for a range before it is built are the exact
      extent of the points the build leaves in that range. */
  lemma RangeBoundsExact(rule: AxisRule, order: seq<nat>, points: seq<ScaledPoint>, start: nat, end: nat)
    requires start < end <= |order| && ValidIndices(order, |points|)
    ensures ValidIndices(BuildOrder(rule, order, points, start, end), |points|)
    ensures Exact(BoundsOver(order, points, start, end),
                  Gather(BuildOrder(rule, order, points, start, end), points)[start..end])
  {
    var final := BuildOrder(rule, order, points, start, end);
    BuildOrderPermutes(rule, order, points, start, end);
    BuildOrderValid(rule, order, points, start, end);
    RangeMultiset(order, final, start, end);
    GatherSlice(order, points, start, end);
    GatherSlice(final, points, start, end);
    GatherPermutation(order[start..end], final[start..end], points);
    BoundsOverGather(order, points, start, end);
    BoundsOfPermutation(Gather(order[start..end], points), Gather(final[start..end], points));
    BoundsOfExact(Gather(final[start..end], points));
  }

  /** Every node of the tree over a non-empty range carries the exact bounds
      of the points the build leaves in the node's range. */
  lemma {:induction false} BuildTreeExact(rule: AxisRule, order: seq<nat>, points: seq<ScaledPoint>, start: nat, end: nat)
    requires start < end <= |order| && ValidIndices(order, |points|)
    ensures ValidIndices(BuildOrder(rule, order, points, start, end), |points|)
    ensures NodesExact(BuildTree(rule, order, points, start, end),
                       Gather(BuildOrder(rule, order, points, start, end), points), start, end)
    decreases end - start
  {
    RangeBoundsExact(rule, order, points, start, end);
    if end - start > MAX_LEAF_SIZE {
      var sorted := AxisSorted(rule, order, points, start, end);
      var mid := Mid(start, end);
      SortRangeValid(order, start, end, points, SplitsOnLat(rule, BoundsOver(order, points, start, end)));
      var left := BuildOrder(rule, sorted, points, start, mid);
      BuildTreeExact(rule, sorted, points, start, mid);
      BuildTreeExact(rule, left, points, mid, end);
      BuildOrderPermutes(rule, left, points, mid, end);
      InternalExact(BoundsOver(order, points, start, end), BuildTree(rule, sorted, points, start, mid),
                    BuildTree(rule, left, points, mid, end), left, BuildOrder(rule, left, points, mid, end),
                    points, start, end);
    }
  }

  /** An internal node is exact when its bounds are, its right subtree is
      over the final order, and its left subtree is over an order that the
      right half's build changes only after `Mid(start, end)`. */
  lemma InternalExact(b: Bounds, lt: Tree, rt: Tree, left: seq<nat>, final: seq<nat>,
                      points: seq<ScaledPoint>, start: nat, end: nat)
    requires start <= end <= |left| && ValidIndices(left, |points|) && ValidIndices(final, |points|)
    requires SameOutside(left, final, Mid(start, end), end)
    requires NodesExact(lt, Gather(left, points), start, Mid(start, end))
    requires NodesExact(rt, Gather(final, points), Mid(start, end), end)
    requires Exact(b, Gather(final, points)[start..end])
    ensures NodesExact(Internal(b, lt, rt), Gather(final, points), start, end)
  {
    var mid := Mid(start, end);
    GatherSame(left, final, points, start, mid);
    NodesExactFrame(lt, Gather(left, points), Gather(final, points), start, mid);
  }

  /** Index lists that agree on `start..end` gather the same points there. */
  lemma GatherSame(a: seq<nat>, b: seq<nat>, points: seq<ScaledPoint>, start: nat, end: nat)
    requires start <= end <= |a| == |b| && ValidIndices(a, |points|) && ValidIndices(b, |points|)
    requires forall k | start <= k < end :: a[k] == b[k]
    ensures Gather(a, points)[start..end] == Gather(b, points)[start..end]
  {
  }

  // ---------------------------------------------------------------- the two axis rules

  /** No two points are further apart, along either axis, than an `i32` extent can hold. */
  predicate ExtentsFit(points: seq<ScaledPoint>)
  {
    forall p <- points, q <- points :: p.lat - q.lat <= I32_MAX && p.lon - q.lon <= I32_MAX
  }

  /** Over such points no range's extent overflows. */
  lemma RangeExtentsFit(order: seq<nat>, points: seq<ScaledPoint>, start: nat, end: nat)
    requires start < end <= |order| && ValidIndices(order, |points|) && ExtentsFit(points)
    ensures var b := BoundsOver(order, points, start, end);
      I32_MIN <= b.maxLat - b.minLat <= I32_MAX && I32_MIN <= b.maxLon - b.minLon <= I32_MAX
  {
    GatherSlice(order, points, start, end);
    var g := Gather(order[start..end], points);
    BoundsOverGather(order, points, start, end);
    BoundsOfExact(g);
    forall p | p in g ensures p in points {
      var k :| 0 <= k < |g| && g[k] == p;
      assert points[order[start..end][k]] == p;
    }
  }

  /** The build as written and the intended one agree on a range whose
      points are close enough for every extent to fit. */
  lemma {:induction false} BuildRulesAgreeOn(order: seq<nat>, points: seq<ScaledPoint>, start: nat, end: nat)
    requires start <= end <= |order| && ValidIndices(order, |points|) && ExtentsFit(points)
    ensures BuildOrder(AsWritten, order, points, start, end) == BuildOrder(Intended, order, points, start, end)
    ensures BuildTree(AsWritten, order, points, start, end) == BuildTree(Intended, order, points, start, end)
    decreases end - start
  {
    if end - start > MAX_LEAF_SIZE {
      var b := BoundsOver(order, points, start, end);
      RangeExtentsFit(order, points, start, end);
      SplitOnLatAgrees(b);
      var sorted := AxisSorted(AsWritten, order, points, start, end);
      assert sorted == AxisSorted(Intended, order, points, start, end);
      SortRangeValid(order, start, end, points, SplitsOnLat(AsWritten, b));
      var mid := Mid(start, end);
      BuildRulesAgreeOn(sorted, points, start, mid);
      BuildOrderValid(AsWritten, sorted, points, start, mid);
      BuildRulesAgreeOn(BuildOrder(AsWritten, sorted, points, start, mid), points, mid, end);
    }
  }

  /** `PointBvh::build` as written and with the intended axis choice build
      the same hierarchy whenever no extent overflows. */
  lemma BuildRulesAgree(points: seq<ScaledPoint>)
    requires ExtentsFit(points)
    ensures BuildSpec(AsWritten, points) == BuildSpec(Intended, points)
  {
    if points != [] {
      GatherIota(points);
      BuildRulesAgreeOn(Iota(|points|), points, 0, |points|);
    }
  }
}
