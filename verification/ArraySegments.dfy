/** The segments that the ordered indices of an array border (src/domains/array_domain.cpp). */
module ArraySegments {
  import opened ArrayOrder

  datatype Border = Zero | Index(i: nat) | AfterIndex(i: nat) | Size
  datatype Segment = Segment(lower: Border, upper: Border)

  function BorderValue(v: Valuation, b: Border): int
    requires b.Index? || b.AfterIndex? ==> b.i < |v.value|
  {
    match b
    case Zero => 0
    case Index(i) => v.value[i]
    case AfterIndex(i) => v.value[i] + 1
    case Size => v.size
  }

  /** Each segment starts where the one before it ends, the first at `start`, the last upper
      border is `end`. */
  predicate IsChain(segments: seq<Segment>, start: Border, end: Border) {
    (segments == [] ==> start == end) &&
    (segments != [] ==> segments[0].lower == start && segments[|segments| - 1].upper == end) &&
    forall k :: 0 < k < |segments| ==> segments[k].lower == segments[k - 1].upper
  }

  predicate BordersFit(segments: seq<Segment>, n: nat) {
    forall k :: 0 <= k < |segments| ==> BorderFits(segments[k].lower, n) && BorderFits(segments[k].upper, n)
  }

  predicate BorderFits(b: Border, n: nat) {
    b.Index? || b.AfterIndex? ==> b.i < n
  }

  predicate InSegment(v: Valuation, s: Segment, x: int)
    requires BorderFits(s.lower, |v.value|) && BorderFits(s.upper, |v.value|)
  {
    BorderValue(v, s.lower) <= x < BorderValue(v, s.upper)
  }

  /** No border lies before the one it follows. */
  predicate BordersAscend(v: Valuation, segments: seq<Segment>)
    requires BordersFit(segments, |v.value|)
  {
    forall i :: 0 <= i < |segments| ==> BorderValue(v, segments[i].lower) <= BorderValue(v, segments[i].upper)
  }

  predicate BordersInside(v: Valuation, segments: seq<Segment>)
    requires BordersFit(segments, |v.value|)
  {
    forall i :: 0 <= i < |segments| ==>
      0 <= BorderValue(v, segments[i].lower) <= v.size && 0 <= BorderValue(v, segments[i].upper) <= v.size
  }

  predicate Covered(v: Valuation, segments: seq<Segment>, x: int)
    requires BordersFit(segments, |v.value|)
  {
    exists k :: 0 <= k < |segments| && InSegment(v, segments[k], x)
  }

  /** Every position of the array lies in exactly one segment, and the segments hold no others. */
  ghost predicate Partitions(v: Valuation, segments: seq<Segment>)
    requires BordersFit(segments, |v.value|)
  {
    (forall x :: 0 <= x < v.size ==> Covered(v, segments, x)) &&
    (forall k, x :: 0 <= k < |segments| && InSegment(v, segments[k], x) ==> 0 <= x < v.size) &&
    forall j, k, x :: 0 <= j < k < |segments| && InSegment(v, segments[j], x) ==> !InSegment(v, segments[k], x)
  }

  /** Whatever the values of the borders, every position between the ends of a chain lies in one
      of its segments. */
  lemma {:induction false} ChainCovers(v: Valuation, segments: seq<Segment>, start: Border, end: Border, x: int)
    returns (k: nat)
    requires IsChain(segments, start, end) && BordersFit(segments, |v.value|)
    requires BorderFits(start, |v.value|) && BorderFits(end, |v.value|)
    requires BorderValue(v, start) <= x < BorderValue(v, end)
    ensures k < |segments| && InSegment(v, segments[k], x)
  {
    k := |segments| - 1;
    if x < BorderValue(v, segments[k].lower) {
      k := ChainCovers(v, segments[..k], start, segments[k].lower, x);
    }
  }

  lemma {:induction false} ChainAscends(
    v: Valuation, segments: seq<Segment>, start: Border, end: Border, j: nat, k: nat)
    requires IsChain(segments, start, end) && BordersFit(segments, |v.value|) && BordersAscend(v, segments)
    requires j < k < |segments|
    ensures BorderValue(v, segments[j].upper) <= BorderValue(v, segments[k].lower)
  {
    if j + 1 < k {
      ChainAscends(v, segments, start, end, j, k - 1);
    }
  }

  /** A border that lies before the one it follows makes segments overlap. */
  lemma DescentOverlaps(v: Valuation, segments: seq<Segment>, i: nat)
    requires IsChain(segments, Zero, Size) && BordersFit(segments, |v.value|) && BordersInside(v, segments)
    requires i < |segments| && BorderValue(v, segments[i].lower) > BorderValue(v, segments[i].upper)
    ensures !Partitions(v, segments)
  {
    var x := BorderValue(v, segments[i].upper);
    var j := ChainCovers(v, segments[..i], Zero, segments[i].lower, x);
    var k := ChainCovers(v, segments[i + 1..], segments[i].upper, Size, x);
    assert InSegment(v, segments[j], x) && InSegment(v, segments[i + 1 + k], x);
  }

  /** A chain from 0 to the size partitions the array exactly where its borders ascend. */
  lemma ChainPartitionsIff(v: Valuation, segments: seq<Segment>)
    requires IsChain(segments, Zero, Size) && BordersFit(segments, |v.value|) && BordersInside(v, segments)
    ensures Partitions(v, segments) <==> BordersAscend(v, segments)
  {
    if BordersAscend(v, segments) {
      forall x | 0 <= x < v.size ensures Covered(v, segments, x) {
        var k := ChainCovers(v, segments, Zero, Size, x);
      }
      forall j, k, x | 0 <= j < k < |segments| && InSegment(v, segments[j], x) ensures !InSegment(v, segments[k], x) {
        ChainAscends(v, segments, Zero, Size, j, k);
      }
    } else {
      var i :| 0 <= i < |segments| && BorderValue(v, segments[i].lower) > BorderValue(v, segments[i].upper);
      DescentOverlaps(v, segments, i);
    }
  }

  predicate HasValue(v: Valuation, b: Border, x: int) {
    BorderFits(b, |v.value|) && BorderValue(v, b) == x
  }

  /** Simplification of border expressions keeps their values in a solution. */
  ghost predicate Simplifies(v: Valuation, simplify: Border -> Border) {
    (forall i: nat {:trigger simplify(Index(i))} :: i < |v.value| ==> HasValue(v, simplify(Index(i)), v.value[i])) &&
    forall i: nat {:trigger simplify(AfterIndex(i))} :: i < |v.value| ==>
      HasValue(v, simplify(AfterIndex(i)), v.value[i] + 1)
  }

  /** The segments that the first `p` indices give, and the border they end with. A written index
      is a segment of its own; the initial value of a loop index only borders segments. Between
      borders that are the same expression there is no segment. */
  function Bordered(indices: seq<nat>, initial: set<nat>, simplify: Border -> Border, p: nat): (seq<Segment>, Border)
    requires p <= |indices|
  {
    if p == 0 then ([], Zero)
    else
      var (segments, last) := Bordered(indices, initial, simplify, p - 1);
      var i := indices[p - 1];
      NextBorders(segments, last, simplify(Index(i)), simplify(AfterIndex(i)), i in initial)
  }

  function NextBorders(segments: seq<Segment>, last: Border, index: Border, after: Border, isInit: bool)
    : (seq<Segment>, Border)
  {
    var upTo := if last != index then segments + [Segment(last, index)] else segments;
    if isInit then (upTo, index) else (upTo + [Segment(index, after)], after)
  }

  function Segmentation(indices: seq<nat>, initial: set<nat>, simplify: Border -> Border): seq<Segment> {
    var (segments, last) := Bordered(indices, initial, simplify, |indices|);
    segments + [Segment(last, Size)]
  }

  /** The segment of a written index. */
  function OwnSegment(simplify: Border -> Border, i: nat): Segment {
    Segment(simplify(Index(i)), simplify(AfterIndex(i)))
  }

  method MakeSegments(indices: seq<nat>, initial: set<nat>, simplify: Border -> Border) returns (segments: seq<Segment>)
    ensures segments == Segmentation(indices, initial, simplify)
  {
    segments := [];
    var lastBorder := Zero;
    for p := 0 to |indices|
      invariant (segments, lastBorder) == Bordered(indices, initial, simplify, p)
    {
      var index := simplify(Index(indices[p]));
      if lastBorder != index {
        segments := segments + [Segment(lastBorder, index)];
        lastBorder := index;
      }
      if indices[p] !in initial {
        var after := simplify(AfterIndex(indices[p]));
        segments := segments + [Segment(index, after)];
        lastBorder := after;
      }
    }
    segments := segments + [Segment(lastBorder, Size)];
  }

  lemma NextIsChain(segments: seq<Segment>, last: Border, index: Border, after: Border, isInit: bool, n: nat)
    requires IsChain(segments, Zero, last) && BordersFit(segments, n)
    requires BorderFits(last, n) && BorderFits(index, n) && BorderFits(after, n)
    ensures var (next, end) := NextBorders(segments, last, index, after, isInit);
      IsChain(next, Zero, end) && BordersFit(next, n) && BorderFits(end, n)
  {
  }

  lemma {:induction false} BorderedOwn(indices: seq<nat>, initial: set<nat>, simplify: Border -> Border, p: nat, q: nat)
    requires q < p <= |indices| && indices[q] !in initial
    ensures OwnSegment(simplify, indices[q]) in Bordered(indices, initial, simplify, p).0
  {
    if q < p - 1 {
      BorderedOwn(indices, initial, simplify, p - 1, q);
    }
  }

  lemma {:induction false} BorderedChain(
    v: Valuation, indices: seq<nat>, initial: set<nat>, simplify: Border -> Border, p: nat)
    requires p <= |indices| && (forall q :: 0 <= q < |indices| ==> indices[q] < |v.value|) && Simplifies(v, simplify)
    ensures var (segments, last) := Bordered(indices, initial, simplify, p);
      IsChain(segments, Zero, last) && BordersFit(segments, |v.value|) && BorderFits(last, |v.value|)
  {
    if p > 0 {
      var (segments, last) := Bordered(indices, initial, simplify, p - 1);
      BorderedChain(v, indices, initial, simplify, p - 1);
      NextIsChain(segments, last, simplify(Index(indices[p - 1])), simplify(AfterIndex(indices[p - 1])),
        indices[p - 1] in initial, |v.value|);
    }
  }

  /** The segments form a chain from 0 to the size, with one of its own for every written index. */
  lemma SegmentationIsChain(v: Valuation, indices: seq<nat>, initial: set<nat>, simplify: Border -> Border)
    requires (forall q :: 0 <= q < |indices| ==> indices[q] < |v.value|) && Simplifies(v, simplify)
    ensures var segments := Segmentation(indices, initial, simplify);
      IsChain(segments, Zero, Size) && BordersFit(segments, |v.value|) &&
      forall q :: 0 <= q < |indices| && indices[q] !in initial ==>
        OwnSegment(simplify, indices[q]) in segments
  {
    BorderedChain(v, indices, initial, simplify, |indices|);
    forall q | 0 <= q < |indices| && indices[q] !in initial
      ensures OwnSegment(simplify, indices[q]) in Segmentation(indices, initial, simplify)
    {
      BorderedOwn(indices, initial, simplify, |indices|, q);
    }
  }

  /** Among the first `end` indices, a written one never coincides with the one after it. */
  predicate NeighboursApart(v: Valuation, indices: seq<nat>, initial: set<nat>, end: nat)
    requires end <= |indices| && forall p :: 0 <= p < |indices| ==> indices[p] < |v.value|
  {
    forall p :: 0 <= p && p + 1 < end && indices[p] !in initial ==> v.value[indices[p]] != v.value[indices[p + 1]]
  }

  lemma OneMoreSegment(v: Valuation, segments: seq<Segment>, next: Segment)
    requires BordersFit(segments, |v.value|) && BorderFits(next.lower, |v.value|) && BorderFits(next.upper, |v.value|)
    requires BordersInside(v, segments)
    requires 0 <= BorderValue(v, next.lower) <= v.size && 0 <= BorderValue(v, next.upper) <= v.size
    ensures BordersInside(v, segments + [next])
    ensures BordersAscend(v, segments + [next]) <==>
      BordersAscend(v, segments) && BorderValue(v, next.lower) <= BorderValue(v, next.upper)
  {
    var all := segments + [next];
    assert all[|segments|] == next;
    assert forall i :: 0 <= i < |segments| ==> all[i] == segments[i];
  }

  predicate ApartAt(v: Valuation, indices: seq<nat>, initial: set<nat>, p: nat)
    requires p < |indices| && forall q :: 0 <= q < |indices| ==> indices[q] < |v.value|
  {
    p > 0 && indices[p - 1] !in initial ==> v.value[indices[p - 1]] != v.value[indices[p]]
  }

  lemma OneMoreNeighbour(v: Valuation, indices: seq<nat>, initial: set<nat>, p: nat)
    requires p < |indices| && forall q :: 0 <= q < |indices| ==> indices[q] < |v.value|
    ensures NeighboursApart(v, indices, initial, p + 1) <==>
      NeighboursApart(v, indices, initial, p) && ApartAt(v, indices, initial, p)
  {
  }

  /** The value of the border that the first `p` indices end with. */
  function LastValue(v: Valuation, indices: seq<nat>, initial: set<nat>, p: nat): int
    requires p <= |indices| && forall q :: 0 <= q < |indices| ==> indices[q] < |v.value|
  {
    if p == 0 then 0 else v.value[indices[p - 1]] + if indices[p - 1] in initial then 0 else 1
  }

  /** In a solution where the indices are in bounds and ascending, the borders lie inside the
      array, and ascend exactly when neighbours are apart. */
  lemma {:induction false} BordersAscendIff(
    v: Valuation, indices: seq<nat>, initial: set<nat>, simplify: Border -> Border, p: nat)
    requires p <= |indices| && (forall q :: 0 <= q < |indices| ==> indices[q] < |v.value|) && Simplifies(v, simplify)
    requires AllInBounds(v, indices) && SortedFrom(v, indices, 0)
    ensures var (segments, last) := Bordered(indices, initial, simplify, p);
      BordersFit(segments, |v.value|) && BordersInside(v, segments) &&
      (BordersAscend(v, segments) <==> NeighboursApart(v, indices, initial, p)) &&
      BorderFits(last, |v.value|) && BorderValue(v, last) == LastValue(v, indices, initial, p)
  {
    if p > 0 {
      var (segments, last) := Bordered(indices, initial, simplify, p - 1);
      BordersAscendIff(v, indices, initial, simplify, p - 1);
      OneMoreIndex(v, indices, initial, p - 1, segments, last,
        simplify(Index(indices[p - 1])), simplify(AfterIndex(indices[p - 1])));
      OneMoreNeighbour(v, indices, initial, p - 1);
    }
  }

  lemma OneMoreIndex(v: Valuation, indices: seq<nat>, initial: set<nat>, p: nat, segments: seq<Segment>,
                     last: Border, index: Border, after: Border)
    requires (forall q :: 0 <= q < |indices| ==> indices[q] < |v.value|) && p < |indices|
    requires BordersFit(segments, |v.value|) && BordersInside(v, segments)
    requires BorderFits(last, |v.value|) && BorderFits(index, |v.value|) && BorderFits(after, |v.value|)
    requires AllInBounds(v, indices) && SortedFrom(v, indices, 0)
    requires BorderValue(v, index) == v.value[indices[p]] && BorderValue(v, after) == v.value[indices[p]] + 1
    requires BorderValue(v, last) == LastValue(v, indices, initial, p)
    ensures var (next, _) := NextBorders(segments, last, index, after, indices[p] in initial);
      BordersFit(next, |v.value|) && BordersInside(v, next) &&
      (BordersAscend(v, next) <==> BordersAscend(v, segments) && ApartAt(v, indices, initial, p))
  {
    assert InBounds(v, indices[p]) && (p > 0 ==> InBounds(v, indices[p - 1]));
    assert p > 0 ==> v.value[indices[p - 1]] <= v.value[indices[p]];
    OneMoreSegment(v, segments, Segment(last, index));
    var upTo := if last != index then segments + [Segment(last, index)] else segments;
    OneMoreSegment(v, upTo, Segment(index, after));
  }

  /** In a solution where the indices are in bounds and ascending, the segments partition the
      array exactly when no written index coincides with the one after it. */
  lemma SegmentationPartitionsIff(v: Valuation, indices: seq<nat>, initial: set<nat>, simplify: Border -> Border)
    requires (forall q :: 0 <= q < |indices| ==> indices[q] < |v.value|) && Simplifies(v, simplify)
    requires AllInBounds(v, indices) && SortedFrom(v, indices, 0) && v.size >= 0
    ensures BordersFit(Segmentation(indices, initial, simplify), |v.value|)
    ensures Partitions(v, Segmentation(indices, initial, simplify)) <==> NeighboursApart(v, indices, initial, |indices|)
  {
    var (segments, last) := Bordered(indices, initial, simplify, |indices|);
    BordersAscendIff(v, indices, initial, simplify, |indices|);
    SegmentationIsChain(v, indices, initial, simplify);
    assert indices != [] ==> InBounds(v, indices[|indices| - 1]);
    OneMoreSegment(v, segments, Segment(last, Size));
    ChainPartitionsIff(v, Segmentation(indices, initial, simplify));
  }

  function Unsimplified(b: Border): Border {
    b
  }

  lemma TwoIndices(v: Valuation)
    requires |v.value| == 2 && 0 <= v.value[0] <= v.value[1] < v.size
    ensures AllInBounds(v, [0, 1]) && SortedFrom(v, [0, 1], 0)
    ensures BordersFit(Segmentation([0, 1], {}, Unsimplified), 2)
    ensures Partitions(v, Segmentation([0, 1], {}, Unsimplified)) <==> v.value[0] != v.value[1]
  {
    var s := [0, 1];
    assert InBounds(v, s[0]) && InBounds(v, s[1]);
    assert Simplifies(v, Unsimplified);
    SegmentationPartitionsIff(v, s, {}, Unsimplified);
    assert NeighboursApart(v, s, {}, 2) <==> v.value[s[0]] != v.value[s[0 + 1]];
  }

  /** Where written indices coincide segments do overlap: two indices that are ordered, but equal in
      one solution only, are both kept, and the segments of that solution are no partition. */
  lemma CoincidingIndicesOverlap(vals: seq<Valuation>)
    requires vals == [Valuation([1, 1], 3), Valuation([1, 2], 3)]
    ensures Ordered(vals, 0, 1) && !Equal(vals, 0, 1) && !EqualsZero(vals, 0)
    ensures BordersFit(Segmentation([0, 1], {}, Unsimplified), 2)
    ensures !Partitions(vals[0], Segmentation([0, 1], {}, Unsimplified))
    ensures Partitions(vals[1], Segmentation([0, 1], {}, Unsimplified))
  {
    assert InBounds(vals[1], 0) && InBounds(vals[1], 1);
    TwoIndices(vals[0]);
    TwoIndices(vals[1]);
  }

  /** From the written indices to the segments, when the indices can be ordered: wherever all are
      in bounds, the segments partition the array exactly when no written index among those kept
      coincides with the next one kept. Neighbours kept differ in some solution exactly when the sorted
      list separates them, as it does when nothing is out of bounds. */
  method SegmentOrdered(indices: array<nat>, constants: set<nat>, initial: set<nat>, vals: seq<Valuation>,
                        simplify: Border -> Border)
    returns (ok: bool, segments: seq<Segment>, ghost kept: seq<nat>)
    requires indices.Length > 0 && IndicesFit(vals, indices[..])
    modifies indices
    ensures multiset(indices[..]) == multiset(old(indices[..])) && IndicesFit(vals, indices[..])
    ensures ok ==> Ascending(vals, indices[..], 0) && kept == Thinned(vals, constants, indices[..])
    ensures ok ==> (NoEqualNeighbours(vals, kept) <==> Separates(vals, constants, indices[..]))
    ensures ok && (forall k :: 0 <= k < |vals| ==> AllInBounds(vals[k], old(indices[..]))) ==>
      NoEqualNeighbours(vals, kept)
    ensures Comparable(vals, old(indices[..])) ==> ok
    ensures ok ==> segments == Segmentation(kept, initial, simplify)
    ensures ok ==> IndicesFit(vals, kept) && Represented(vals, old(indices[..]), kept)
    ensures ok ==> AscendingWithin(vals, old(indices[..]), kept)
    ensures ok ==>
      forall k :: 0 <= k < |vals| && AllInBounds(vals[k], old(indices[..])) && Simplifies(vals[k], simplify) ==>
      PartitionsUnlessCoinciding(vals[k], kept, initial, segments)
  {
    ghost var was := indices[..];
    kept, segments := [], [];
    ok := OrderIndices(indices, vals);
    if ok {
      var unique;
      ghost var positions;
      unique, positions := UniqueIndices(indices[..], constants, vals);
      segments := MakeSegments(unique, initial, simplify);
      kept := unique;
      ThinnedDiffersIff(vals, constants, indices[..]);
      if forall k :: 0 <= k < |vals| ==> AllInBounds(vals[k], was) {
        InBoundsEverywhere(vals, was, indices[..]);
        AscendingSeparates(vals, constants, indices[..]);
      }
      KeptAscendingWithin(vals, was, indices[..], unique, positions);
      RepresentedReordered(vals, was, indices[..], unique);
      forall k | 0 <= k < |vals| && AllInBounds(vals[k], was) && Simplifies(vals[k], simplify)
        ensures PartitionsUnlessCoinciding(vals[k], kept, initial, segments)
      {
        assert InBounds(vals[k], was[0]);
        SegmentationPartitionsIff(vals[k], unique, initial, simplify);
      }
    }
  }

  lemma InBoundsEverywhere(vals: seq<Valuation>, s: seq<nat>, t: seq<nat>)
    requires IndicesFit(vals, s) && IndicesFit(vals, t) && multiset(s) == multiset(t) && Ascending(vals, t, 0)
    requires forall k :: 0 <= k < |vals| ==> AllInBounds(vals[k], s)
    ensures AlwaysAscending(vals, t)
  {
    forall k | 0 <= k < |vals| ensures AllInBounds(vals[k], t) && SortedFrom(vals[k], t, 0) {
      InBoundsReordered(vals[k], s, t);
    }
  }

  /** The segments partition the array exactly when no written index kept coincides with the next. */
  ghost predicate PartitionsUnlessCoinciding(v: Valuation, kept: seq<nat>, initial: set<nat>, segments: seq<Segment>)
    requires forall q :: 0 <= q < |kept| ==> kept[q] < |v.value|
  {
    BordersFit(segments, |v.value|) && (Partitions(v, segments) <==> NeighboursApart(v, kept, initial, |kept|))
  }

  /** Wherever all indices of `s` are in bounds, those of `r` are so too, and ascending. */
  ghost predicate AscendingWithin(vals: seq<Valuation>, s: seq<nat>, r: seq<nat>)
    requires IndicesFit(vals, s) && IndicesFit(vals, r)
  {
    forall k :: 0 <= k < |vals| && AllInBounds(vals[k], s) ==> AllInBounds(vals[k], r) && SortedFrom(vals[k], r, 0)
  }

  lemma KeptAscendingWithin(vals: seq<Valuation>, s: seq<nat>, t: seq<nat>, r: seq<nat>, kept: seq<nat>)
    requires IndicesFit(vals, s) && IndicesFit(vals, t) && IndicesFit(vals, r) && multiset(s) == multiset(t)
    requires Ascending(vals, t, 0) && KeepsPositions(t, r, kept)
    ensures AscendingWithin(vals, s, r)
  {
    forall k | 0 <= k < |vals| && AllInBounds(vals[k], s)
      ensures AllInBounds(vals[k], r) && SortedFrom(vals[k], r, 0)
    {
      InBoundsReordered(vals[k], s, t);
      KeptAscending(vals[k], t, r, kept);
    }
  }

  lemma RepresentedReordered(vals: seq<Valuation>, s: seq<nat>, t: seq<nat>, r: seq<nat>)
    requires IndicesFit(vals, s) && IndicesFit(vals, t) && IndicesFit(vals, r) && multiset(s) == multiset(t)
    requires Represented(vals, t, r)
    ensures Represented(vals, s, r)
  {
    forall k, p | 0 <= k < |vals| && 0 <= p < |s| && AllInBounds(vals[k], s)
      ensures IsRepresented(vals[k], vals[k].value[s[p]], r)
    {
      InBoundsReordered(vals[k], s, t);
      assert s[p] in multiset(s) && s[p] in multiset(t);
      var q :| 0 <= q < |t| && t[q] == s[p];
    }
  }
}
