/** The binary search for the largest feasible bound of a row
    (src/domains/strategy_solver_binsearch.cpp): where it can end, given which bounds are feasible,
    and when it ends on the largest one. */
module BinarySearch {
  import opened Bitvectors
  import opened TemplateBounds

  /** The bound asked about: the value `between` returns, or the upper end if that does not lie
      above the lower one. */
  function Probe(t: BvType, lower: int, upper: int): (middle: int)
    requires InRange(t, lower) && InRange(t, upper) && lower < upper
    ensures lower < middle && InRange(t, middle)
    ensures lower + 2 <= upper && !Misses(t, lower, upper) ==> middle < upper
    ensures lower + 2 > upper ==> middle == upper
  {
    if lower + 2 <= upper then
      BetweenStrictIff(t, lower, upper);
      BetweenInRange(t, lower, upper);
      var middle := Between(t, lower, upper);
      if middle <= lower then upper else middle
    else
      upper
  }

  lemma BetweenInRange(t: BvType, lower: int, upper: int)
    requires InRange(t, lower) && InRange(t, upper) && lower + 2 <= upper
    ensures InRange(t, Between(t, lower, upper))
  {
  }

  ghost predicate NothingFrom(feasible: iset<int>, bound: int) {
    forall s :: s >= bound ==> s !in feasible
  }

  ghost predicate NothingAbove(feasible: iset<int>, bound: int) {
    forall s :: s > bound ==> s !in feasible
  }

  /** No feasible bound exceeds the maximum of a row. */
  ghost predicate Fits(t: BvType, max: int, feasible: iset<int>) {
    InRange(t, max) && NothingAbove(feasible, max)
  }

  /** A search between `lower` and `upper` can end on `result`: at each step the solver gives any
      feasible bound from the probe on, or shows that there is none. */
  ghost predicate SearchEnds(t: BvType, feasible: iset<int>, lower: int, upper: int, result: int)
    requires InRange(t, lower) && InRange(t, upper)
    decreases if lower < upper then upper - lower else 0
  {
    if lower >= upper then result == lower
    else
      var middle := Probe(t, lower, upper);
      (NothingFrom(feasible, middle) &&
       SearchEnds(t, feasible, lower, if middle >= upper then lower else middle, result)) ||
      exists s :: s in feasible && middle <= s && InRange(t, s) && SearchEnds(t, feasible, s, upper, result)
  }

  /** The bounds at which a wide signed search is lost: `between` falls back to one it has passed. */
  predicate Trapped(lower: int) {
    -255 <= lower <= -129
  }

  /** From `lower` a search may come to a bound at which it is lost, with nothing feasible from
      255 on but something feasible above. */
  ghost predicate MayLose(feasible: iset<int>, lower: int) {
    NothingFrom(feasible, 255) &&
    exists r, s :: lower <= r && Trapped(r) && (r == lower || r in feasible) && r < s && s in feasible
  }

  predicate Wide(t: BvType) {
    if t.Signed? then t.width >= 10 else t.width >= 9
  }

  /** Known before the search: it cannot come to a bound at which it is lost. */
  ghost predicate CannotLose(t: BvType, max: int, feasible: iset<int>, start: int) {
    Wide(t) && max > 255 && (t.Unsigned? || !MayLose(feasible, start))
  }

  /** A search that cannot lose ends on the largest feasible bound; neither can one whose upper end
      has come below 255, nor any search over an unsigned type. */
  lemma {:induction false} SearchIsExact(
    t: BvType, max: int, feasible: iset<int>, lower: int, upper: int, result: int)
    requires Wide(t) && max > 255 && Fits(t, max, feasible) && InRange(t, lower) && InRange(t, upper)
    requires upper == max || NothingFrom(feasible, upper) || lower >= upper
    requires lower >= upper ==> NothingAbove(feasible, lower)
    requires t.Unsigned? || upper < 255 || !MayLose(feasible, lower)
    requires SearchEnds(t, feasible, lower, upper, result)
    ensures NothingAbove(feasible, result)
    decreases if lower < upper then upper - lower else 0
  {
    if lower < upper {
      var middle := Probe(t, lower, upper);
      var next := if middle >= upper then lower else middle;
      if NothingFrom(feasible, middle) && SearchEnds(t, feasible, lower, next, result) {
        forall s | s > lower && middle >= upper ensures s !in feasible {
          if s in feasible && lower + 2 <= upper {
            assert Trapped(lower) && upper == 255;
            assert MayLose(feasible, lower);
          }
        }
        SearchIsExact(t, max, feasible, lower, next, result);
      } else {
        var s :| s in feasible && middle <= s && InRange(t, s) && SearchEnds(t, feasible, s, upper, result);
        SearchIsExact(t, max, feasible, s, upper, result);
      }
    }
  }

  /** The starts at which the first value asked about is picked for them. */
  predicate Special(t: BvType, start: int) {
    start == -Largest(t) || start == -Half(Largest(t))
  }

  /** Down to the gap below 255 nothing is feasible: what the first three steps do over a full
      signed range. */
  lemma ComesTo255(t: BvType, feasible: iset<int>, start: int, result: int)
    requires t.Signed? && t.width >= 10 && InRange(t, start) && start < -128 && !Special(t, start)
    requires NothingFrom(feasible, 255)
    ensures InRange(t, 255) && InRange(t, Largest(t))
    ensures SearchEnds(t, feasible, start, Largest(t), result) <==> SearchEnds(t, feasible, start, 255, result)
  {
    SmallWidths(t);
    var top := Largest(t);
    assert Probe(t, start, top) == top - 1;
    assert Probe(t, start, top - 1) == 255;
  }

  /** From a trapped bound, with nothing feasible from 255 on, the search ends where it started. */
  lemma SearchIsStuck(t: BvType, feasible: iset<int>, start: int, result: int)
    requires t.Signed? && t.width >= 10 && InRange(t, start) && Trapped(start)
    requires NothingFrom(feasible, 255) && InRange(t, 255)
    ensures SearchEnds(t, feasible, start, 255, result) <==> result == start
  {
    SmallWidths(t);
    assert Probe(t, start, 255) == 255;
  }

  /** Over a full signed range too: such a search never leaves its start, whatever is feasible
      between it and 255. */
  lemma FullSearchIsStuck(t: BvType, feasible: iset<int>, start: int, result: int)
    requires t.Signed? && t.width >= 10 && InRange(t, start) && Trapped(start) && !Special(t, start)
    requires NothingFrom(feasible, 255)
    ensures SearchEnds(t, feasible, start, Largest(t), result) <==> result == start
  {
    ComesTo255(t, feasible, start, result);
    SearchIsStuck(t, feasible, start, result);
  }

  /** Exactly when every search over a full signed range ends on the largest feasible bound,
      whatever the solver picks. */
  lemma SearchExactIff(t: BvType, feasible: iset<int>, start: int)
    requires t.Signed? && t.width >= 10 && InRange(t, start) && Fits(t, Largest(t), feasible)
    ensures
      (forall result :: SearchEnds(t, feasible, start, Largest(t), result) ==> NothingAbove(feasible, result)) <==>
      Special(t, start) || !MayLose(feasible, start)
  {
    SmallWidths(t);
    forall result |
      (Special(t, start) || !MayLose(feasible, start)) && SearchEnds(t, feasible, start, Largest(t), result)
      ensures NothingAbove(feasible, result)
    {
      if Special(t, start) {
        SpecialIsExact(t, feasible, start, result);
      } else {
        SearchIsExact(t, Largest(t), feasible, start, Largest(t), result);
      }
    }
    if MayLose(feasible, start) && !Special(t, start) {
      var r := LosingEnd(t, feasible, start);
    }
  }

  lemma LosingEnd(t: BvType, feasible: iset<int>, start: int) returns (r: int)
    requires t.Signed? && t.width >= 10 && InRange(t, start) && !Special(t, start) && MayLose(feasible, start)
    ensures SearchEnds(t, feasible, start, Largest(t), r) && !NothingAbove(feasible, r)
  {
    SmallWidths(t);
    var s;
    r, s :| start <= r && Trapped(r) && (r == start || r in feasible) && r < s && s in feasible;
    if Trapped(start) {
      r := start;
    } else {
      assert Probe(t, start, 255) == -255;
      SearchIsStuck(t, feasible, r, r);
      assert SearchEnds(t, feasible, start, 255, r);
    }
    SearchIsStuck(t, feasible, r, r);
    ComesTo255(t, feasible, start, r);
  }

  lemma SpecialIsExact(t: BvType, feasible: iset<int>, start: int, result: int)
    requires t.Signed? && t.width >= 10 && InRange(t, start) && Fits(t, Largest(t), feasible) && Special(t, start)
    requires SearchEnds(t, feasible, start, Largest(t), result)
    ensures NothingAbove(feasible, result)
  {
    SmallWidths(t);
    var top := Largest(t);
    var middle := Probe(t, start, top);
    if s :| s in feasible && middle <= s && InRange(t, s) && SearchEnds(t, feasible, s, top, result) {
      SearchIsExact(t, top, feasible, s, top, result);
    } else if start == -top {
      SearchIsExact(t, top, feasible, start, middle, result);
    } else {
      assert Probe(t, start, middle) == 0;
      SpecialHalf(t, feasible, start, middle, result);
    }
  }

  lemma SpecialHalf(t: BvType, feasible: iset<int>, start: int, upper: int, result: int)
    requires t.Signed? && t.width >= 10 && InRange(t, start) && InRange(t, upper) && start < upper
    requires Fits(t, Largest(t), feasible) && Probe(t, start, upper) == 0 && 0 < upper && NothingFrom(feasible, upper)
    requires SearchEnds(t, feasible, start, upper, result)
    ensures NothingAbove(feasible, result)
  {
    SmallWidths(t);
    var top := Largest(t);
    if s :| s in feasible && 0 <= s && InRange(t, s) && SearchEnds(t, feasible, s, upper, result) {
      SearchIsExact(t, top, feasible, s, upper, result);
    } else {
      SearchIsExact(t, top, feasible, start, 0, result);
    }
  }

  // ----- The gaps a search splits -----

  /** A gap between two bounds, of two or more, that the binary search has `between` split. */
  datatype Gap = Gap(lower: int, upper: int)

  predicate Missed(t: BvType, g: Gap) {
    Misses(t, g.lower, g.upper)
  }

  /** The gaps one search splits, in order: each next one lies on one side of the value `between`
      picked in the one before, and nothing follows a value outside the gap. */
  predicate IsSearchPath(t: BvType, start: int, max: int, gaps: seq<Gap>)
    requires InRange(t, start) && InRange(t, max)
  {
    (forall k :: 0 <= k < |gaps| ==> start <= gaps[k].lower && gaps[k].lower + 2 <= gaps[k].upper <= max) &&
    forall k :: 0 <= k < |gaps| ==> Follows(t, start, max, gaps[..k], gaps[k])
  }

  predicate Follows(t: BvType, start: int, max: int, gaps: seq<Gap>, g: Gap)
    requires forall k :: 0 <= k < |gaps| ==>
      InRange(t, gaps[k].lower) && InRange(t, gaps[k].upper) && gaps[k].lower <= gaps[k].upper
  {
    if gaps == [] then g == Gap(start, max)
    else var last := gaps[|gaps| - 1]; !Missed(t, last) && Splits(t, last, g)
  }

  lemma PathGrows(t: BvType, start: int, max: int, gaps: seq<Gap>, g: Gap)
    requires InRange(t, start) && InRange(t, max) && IsSearchPath(t, start, max, gaps)
    requires start <= g.lower && g.lower + 2 <= g.upper <= max && Follows(t, start, max, gaps, g)
    ensures IsSearchPath(t, start, max, gaps + [g])
  {
    var all := gaps + [g];
    forall k | 0 <= k < |all| ensures Follows(t, start, max, all[..k], all[k]) {
      assert all[..k] == gaps[..k];
      assert k == |gaps| ==> gaps[..k] == gaps;
    }
  }

  // ----- How many gaps a search splits -----

  /** How often a gap can be halved until its ends are neighbours. */
  function Halvings(n: nat): nat {
    if n <= 1 then 0 else 1 + Halvings((n + 1) / 2)
  }

  lemma {:induction false} HalvingsMono(m: nat, n: nat)
    requires m <= n
    ensures Halvings(m) <= Halvings(n)
  {
    if m > 1 {
      HalvingsMono((m + 1) / 2, (n + 1) / 2);
    }
  }

  lemma HalvingUsed(m: nat, n: nat)
    requires n >= 2 && m <= (n + 1) / 2
    ensures Halvings(m) < Halvings(n)
  {
    HalvingsMono(m, (n + 1) / 2);
  }

  lemma {:induction false} HalvingsBounded(n: nat, w: nat)
    requires n <= Pow2(w)
    ensures Halvings(n) <= w
  {
    if n > 1 {
      HalvingsBounded((n + 1) / 2, w - 1);
    }
  }

  /** How many values picked by hand a search that has come to this gap can still meet. */
  function Picks(t: BvType, g: Gap): (p: nat)
    ensures p <= 5
  {
    var top := Largest(t);
    if g.upper == top then
      if g.lower < 0 then 5
      else if g.lower == 0 then 4
      else if g.lower == 1 then if t.Signed? then 4 else 3
      else (if g.lower < 128 then 2 else 0) + if g.lower <= Half(top) + 1 then 1 else 0
    else if g.upper == top - 1 then
      if g.lower < -1 then 3
      else if g.lower <= 0 || (t.Unsigned? && g.lower == 1) then 2
      else if g.lower < 128 then 1
      else 0
    else if g.lower < -255 && g.upper >= 255 then 1
    else 0
  }

  lemma PickUsed(t: BvType, g: Gap, h: Gap)
    requires InRange(t, g.lower) && InRange(t, g.upper) && g.lower + 2 <= g.upper
    requires !Missed(t, g) && Splits(t, g, h) && h.lower + 2 <= h.upper
    requires HandPicked(t, g.lower, g.upper)
    ensures g.lower <= h.lower && h.upper <= g.upper && Picks(t, h) < Picks(t, g)
  {
    BetweenStrictIff(t, g.lower, g.upper);
    SmallWidths(t);
    if t.width <= 8 {
      Wrap255(t);
    }
  }

  lemma PicksKept(t: BvType, g: Gap, h: Gap)
    requires InRange(t, g.lower) && InRange(t, g.upper) && g.lower + 2 <= g.upper
    requires !Missed(t, g) && Splits(t, g, h) && h.lower + 2 <= h.upper
    requires !HandPicked(t, g.lower, g.upper)
    ensures Picks(t, h) <= Picks(t, g) && h.upper - h.lower <= (g.upper - g.lower + 1) / 2
  {
    BetweenStrictIff(t, g.lower, g.upper);
    BetweenHalves(t, g.lower, g.upper);
  }

  /** Values still to be picked by hand, and halvings. */
  function SplitsLeft(t: BvType, g: Gap): nat
    requires g.lower <= g.upper
  {
    Picks(t, g) + Halvings(g.upper - g.lower)
  }

  /** Every split uses up a halving or a pick. */
  lemma SplitUsesUp(t: BvType, g: Gap, h: Gap)
    requires InRange(t, g.lower) && InRange(t, g.upper) && g.lower + 2 <= g.upper
    requires !Missed(t, g) && Splits(t, g, h) && h.lower + 2 <= h.upper
    ensures SplitsLeft(t, h) < SplitsLeft(t, g)
  {
    if HandPicked(t, g.lower, g.upper) {
      PickUsed(t, g, h);
      HalvingsMono(h.upper - h.lower, g.upper - g.lower);
    } else {
      PicksKept(t, g, h);
      HalvingUsed(h.upper - h.lower, g.upper - g.lower);
    }
  }

  lemma NextSplit(t: BvType, start: int, max: int, gaps: seq<Gap>, k: nat)
    requires InRange(t, start) && InRange(t, max) && IsSearchPath(t, start, max, gaps) && 0 < k < |gaps|
    ensures var g, h := gaps[k - 1], gaps[k];
      InRange(t, g.lower) && InRange(t, g.upper) && g.lower + 2 <= g.upper && h.lower + 2 <= h.upper &&
      !Missed(t, g) && Splits(t, g, h)
  {
    assert Follows(t, start, max, gaps[..k], gaps[k]);
    assert gaps[..k][k - 1] == gaps[k - 1];
  }

  lemma SplitsAtStart(t: BvType, start: int, max: int)
    requires InRange(t, start) && InRange(t, max) && start <= max
    ensures SplitsLeft(t, Gap(start, max)) <= t.width + 5
  {
    HalvingsBounded(max - start, t.width);
  }

  lemma {:induction false} SplitsUsedUp(t: BvType, start: int, max: int, gaps: seq<Gap>, k: nat)
    requires InRange(t, start) && InRange(t, max) && IsSearchPath(t, start, max, gaps) && k < |gaps|
    ensures k + SplitsLeft(t, gaps[k]) <= SplitsLeft(t, gaps[0])
  {
    if k > 0 {
      SplitsUsedUp(t, start, max, gaps, k - 1);
      NextSplit(t, start, max, gaps, k);
      SplitUsesUp(t, gaps[k - 1], gaps[k]);
    }
  }

  /** A search splits at most five gaps more than the type has bits. */
  lemma PathIsShort(t: BvType, start: int, max: int, gaps: seq<Gap>)
    requires InRange(t, start) && InRange(t, max) && IsSearchPath(t, start, max, gaps)
    ensures |gaps| <= t.width + 5
  {
    if gaps != [] {
      var k := |gaps| - 1;
      SplitsUsedUp(t, start, max, gaps, k);
      assert Follows(t, start, max, gaps[..0], gaps[0]);
      SplitsAtStart(t, start, max);
      HalvingsMono(2, gaps[k].upper - gaps[k].lower);
    }
  }

  predicate Splits(t: BvType, g: Gap, h: Gap)
    requires InRange(t, g.lower) && InRange(t, g.upper) && g.lower <= g.upper
  {
    var middle := Between(t, g.lower, g.upper);
    (h.lower == g.lower && h.upper == middle) || (middle <= h.lower && h.upper == g.upper)
  }

  /** What a search from `start` comes to: the start or a feasible bound, not above the maximum;
      a feasible bound is passed over only in the last gap, when `between` missed it. */
  ghost predicate SearchOutcome(t: BvType, max: int, feasible: iset<int>, start: int, lower: int, gaps: seq<Gap>)
    requires InRange(t, start) && InRange(t, max)
  {
    SearchEnds(t, feasible, start, max, lower) && IsSearchPath(t, start, max, gaps) && start <= lower <= max &&
    (start + 2 <= max ==> gaps != []) && (lower == start || lower in feasible) &&
    forall s :: s > lower && s in feasible ==> PassedOver(t, lower, gaps, s)
  }

  predicate PassedOver(t: BvType, lower: int, gaps: seq<Gap>, s: int) {
    gaps != [] && Missed(t, gaps[|gaps| - 1]) && gaps[|gaps| - 1].lower == lower && s <= gaps[|gaps| - 1].upper
  }

  /** What holds between two steps: every end of the rest of the search is one of the whole search,
      and nothing feasible was left above the upper end. */
  ghost predicate OnTheWay(
    t: BvType, max: int, feasible: iset<int>, start: int, lower: int, upper: int, gaps: seq<Gap>)
    requires InRange(t, start) && InRange(t, max) && InRange(t, lower) && InRange(t, upper)
  {
    EndsWithin(t, max, feasible, start, lower, upper) && PathSoFar(t, max, start, lower, upper, gaps) &&
    forall s :: s > lower && s > upper && s in feasible ==> lower == upper && PassedOver(t, lower, gaps, s)
  }

  ghost predicate EndsWithin(t: BvType, max: int, feasible: iset<int>, start: int, lower: int, upper: int)
    requires InRange(t, start) && InRange(t, max) && InRange(t, lower) && InRange(t, upper)
  {
    forall r :: SearchEnds(t, feasible, lower, upper, r) ==> SearchEnds(t, feasible, start, max, r)
  }

  predicate PathSoFar(t: BvType, max: int, start: int, lower: int, upper: int, gaps: seq<Gap>)
    requires InRange(t, start) && InRange(t, max)
  {
    IsSearchPath(t, start, max, gaps) && (start + 2 <= max ==> gaps != [] || lower + 2 <= upper) &&
    (lower + 2 <= upper ==> Follows(t, start, max, gaps, Gap(lower, upper)))
  }

  /** One step of a search: the solver gave a bound from the probe on, or showed that there is
      none. */
  ghost predicate Steps(t: BvType, max: int, feasible: iset<int>, g: Gap, lower: int, upper: int)
    requires InRange(t, g.lower) && InRange(t, g.upper) && g.lower < g.upper
  {
    var middle := Probe(t, g.lower, g.upper);
    (upper == g.upper && middle <= lower <= max && lower in feasible) ||
    (lower == g.lower && NothingFrom(feasible, middle) && upper == if middle >= g.upper then lower else middle)
  }

  lemma EndsStayWithin(t: BvType, max: int, feasible: iset<int>, start: int, g: Gap, lower: int, upper: int)
    requires InRange(t, max) && InRange(t, start) && start <= g.lower < g.upper <= max
    requires EndsWithin(t, max, feasible, start, g.lower, g.upper) && Steps(t, max, feasible, g, lower, upper)
    ensures InRange(t, lower) && InRange(t, upper) && EndsWithin(t, max, feasible, start, lower, upper)
  {
    forall r | SearchEnds(t, feasible, lower, upper, r) ensures SearchEnds(t, feasible, start, max, r) {
      assert SearchEnds(t, feasible, g.lower, g.upper, r);
    }
  }

  lemma PathGoesOn(t: BvType, max: int, feasible: iset<int>, start: int, g: Gap, lower: int, upper: int, gaps: seq<Gap>)
    requires InRange(t, max) && InRange(t, start) && start <= g.lower < g.upper <= max
    requires PathSoFar(t, max, start, g.lower, g.upper, gaps) && Steps(t, max, feasible, g, lower, upper)
    ensures PathSoFar(t, max, start, lower, upper, if g.lower + 2 <= g.upper then gaps + [g] else gaps)
  {
    if g.lower + 2 <= g.upper {
      BetweenStrictIff(t, g.lower, g.upper);
      PathGrows(t, start, max, gaps, g);
    }
  }

  /** One step keeps all that. */
  lemma NextStep(
    t: BvType, max: int, feasible: iset<int>, start: int, g: Gap, lower: int, upper: int, gaps: seq<Gap>)
    requires Fits(t, max, feasible) && InRange(t, start) && start <= g.lower < g.upper <= max
    requires OnTheWay(t, max, feasible, start, g.lower, g.upper, gaps) && Steps(t, max, feasible, g, lower, upper)
    ensures InRange(t, lower) && InRange(t, upper)
    ensures OnTheWay(t, max, feasible, start, lower, upper, if g.lower + 2 <= g.upper then gaps + [g] else gaps)
  {
    EndsStayWithin(t, max, feasible, start, g, lower, upper);
    PathGoesOn(t, max, feasible, start, g, lower, upper, gaps);
    if g.lower + 2 <= g.upper {
      BetweenStrictIff(t, g.lower, g.upper);
      assert (gaps + [g])[|gaps|] == g;
    }
  }
}
