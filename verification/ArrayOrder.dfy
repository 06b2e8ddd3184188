/** Ordering of the indices at which a loop writes an array, and erasing those that border nothing
    new (src/domains/array_domain.cpp). */
module ArrayOrder {

  /** Values of the index expressions, and the array's size, in one solution of the SSA. */
  datatype Valuation = Valuation(value: seq<int>, size: int)

  predicate IndicesFit(vals: seq<Valuation>, s: seq<nat>) {
    forall k, p :: 0 <= k < |vals| && 0 <= p < |s| ==> s[p] < |vals[k].value|
  }

  predicate InBounds(v: Valuation, i: nat)
    requires i < |v.value|
  {
    0 <= v.value[i] < v.size
  }

  /** The solver finds no solution in which both indices are in bounds and out of order. The
      relation is partial, and not transitive: the index in the middle may be out of bounds. */
  predicate Ordered(vals: seq<Valuation>, i: nat, j: nat)
    requires forall k :: 0 <= k < |vals| ==> i < |vals[k].value| && j < |vals[k].value|
  {
    forall k :: 0 <= k < |vals| && InBounds(vals[k], i) && InBounds(vals[k], j) ==>
      vals[k].value[i] <= vals[k].value[j]
  }

  lemma OrderedIsNotTransitive(vals: seq<Valuation>)
    requires vals == [Valuation([2, 9, 1], 3)]
    ensures Ordered(vals, 0, 1) && Ordered(vals, 1, 2) && !Ordered(vals, 0, 2)
  {
    var v := vals[0];
    assert InBounds(v, 0) && !InBounds(v, 1) && InBounds(v, 2);
  }

  /** Two queried orders compose exactly when the outer indices are in order in the solutions that
      have the middle one out of bounds. */
  lemma OrderedComposesIff(vals: seq<Valuation>, i: nat, j: nat, k: nat)
    requires forall q :: 0 <= q < |vals| ==> i < |vals[q].value| && j < |vals[q].value| && k < |vals[q].value|
    requires Ordered(vals, i, j) && Ordered(vals, j, k)
    ensures Ordered(vals, i, k) <==>
      forall q :: 0 <= q < |vals| && InBounds(vals[q], i) && InBounds(vals[q], k) && !InBounds(vals[q], j) ==>
        vals[q].value[i] <= vals[q].value[k]
  {
    forall q | 0 <= q < |vals| && InBounds(vals[q], i) && InBounds(vals[q], j) && InBounds(vals[q], k)
      ensures vals[q].value[i] <= vals[q].value[k]
    {
      assert vals[q].value[i] <= vals[q].value[j] <= vals[q].value[k];
    }
  }

  predicate AllInBounds(v: Valuation, s: seq<nat>)
    requires forall p :: 0 <= p < |s| ==> s[p] < |v.value|
  {
    forall p :: 0 <= p < |s| ==> InBounds(v, s[p])
  }

  /** From position `end` on, every entry is at least all entries before it. */
  predicate SortedFrom(v: Valuation, s: seq<nat>, end: int)
    requires forall p :: 0 <= p < |s| ==> s[p] < |v.value|
  {
    forall p, q :: 0 <= p < q < |s| && end <= q ==> v.value[s[p]] <= v.value[s[q]]
  }

  /** Entry `i` is at least all entries before it. */
  predicate LargestAt(v: Valuation, s: seq<nat>, i: nat)
    requires forall p :: 0 <= p < |s| ==> s[p] < |v.value|
    requires i < |s|
  {
    forall p :: 0 <= p < i ==> v.value[s[p]] <= v.value[s[i]]
  }

  /** Ascending wherever all indices are in bounds. */
  ghost predicate Ascending(vals: seq<Valuation>, s: seq<nat>, end: int)
    requires IndicesFit(vals, s)
  {
    forall k :: 0 <= k < |vals| && AllInBounds(vals[k], s) ==> SortedFrom(vals[k], s, end)
  }

  ghost predicate Bubbled(vals: seq<Valuation>, s: seq<nat>, i: nat)
    requires IndicesFit(vals, s) && i < |s|
  {
    forall k :: 0 <= k < |vals| && AllInBounds(vals[k], s) ==> LargestAt(vals[k], s, i)
  }

  function Swapped(s: seq<nat>, i: nat): (t: seq<nat>)
    requires i + 1 < |s|
    ensures multiset(t) == multiset(s)
  {
    s[i := s[i + 1]][i + 1 := s[i]]
  }

  /** One comparison of the bubble sort: with the entries in order, the larger one moves up. */
  lemma BubbleUp(vals: seq<Valuation>, s: seq<nat>, t: seq<nat>, end: nat, i: nat)
    requires IndicesFit(vals, s) && i + 1 < end <= |s|
    requires Ascending(vals, s, end) && Bubbled(vals, s, i)
    requires t == if Ordered(vals, s[i + 1], s[i]) then Swapped(s, i) else s
    requires t == s ==> Ordered(vals, s[i], s[i + 1])
    ensures IndicesFit(vals, t) && Ascending(vals, t, end) && Bubbled(vals, t, i + 1)
  {
    forall k | 0 <= k < |vals| && AllInBounds(vals[k], t)
      ensures SortedFrom(vals[k], t, end) && LargestAt(vals[k], t, i + 1)
    {
      BubbleUpAt(vals, s, t, end, i, k);
    }
  }

  lemma BubbleUpAt(vals: seq<Valuation>, s: seq<nat>, t: seq<nat>, end: nat, i: nat, k: nat)
    requires IndicesFit(vals, s) && i + 1 < end <= |s| && k < |vals|
    requires Ascending(vals, s, end) && Bubbled(vals, s, i)
    requires t == if Ordered(vals, s[i + 1], s[i]) then Swapped(s, i) else s
    requires t == s ==> Ordered(vals, s[i], s[i + 1])
    requires IndicesFit(vals, t) && AllInBounds(vals[k], t)
    ensures SortedFrom(vals[k], t, end) && LargestAt(vals[k], t, i + 1)
  {
    var v := vals[k];
    assert InBounds(v, t[i]) && InBounds(v, t[i + 1]);
    forall p | 0 <= p < |s| ensures InBounds(v, s[p]) {
      assert s[p] == t[if t == s || (p != i && p != i + 1) then p else if p == i then i + 1 else i];
    }
    assert AllInBounds(v, s) && SortedFrom(v, s, end) && LargestAt(v, s, i);
  }

  /** Any two indices of the list are ordered one way or the other. */
  ghost predicate Comparable(vals: seq<Valuation>, s: seq<nat>)
    requires IndicesFit(vals, s)
  {
    forall p, q :: 0 <= p < |s| && 0 <= q < |s| ==> Ordered(vals, s[p], s[q]) || Ordered(vals, s[q], s[p])
  }

  lemma ComparableReordered(vals: seq<Valuation>, s: seq<nat>, t: seq<nat>)
    requires IndicesFit(vals, s) && IndicesFit(vals, t) && multiset(s) == multiset(t) && Comparable(vals, s)
    ensures Comparable(vals, t)
  {
    forall p, q | 0 <= p < |t| && 0 <= q < |t|
      ensures Ordered(vals, t[p], t[q]) || Ordered(vals, t[q], t[p])
    {
      assert t[p] in multiset(t) && t[q] in multiset(t);
      assert t[p] in multiset(s) && t[q] in multiset(s);
      var i :| 0 <= i < |s| && s[i] == t[p];
      var j :| 0 <= j < |s| && s[j] == t[q];
    }
  }

  /** Neither of two neighbours can be ordered before the other. */
  predicate Incomparable(vals: seq<Valuation>, s: seq<nat>, i: nat)
    requires IndicesFit(vals, s) && i + 1 < |s|
  {
    !Ordered(vals, s[i], s[i + 1]) && !Ordered(vals, s[i + 1], s[i])
  }

  /** Puts two neighbours in order if they can be ordered. */
  method CompareNeighbours(indices: array<nat>, vals: seq<Valuation>, i: nat, ghost end: nat) returns (ordered: bool)
    requires IndicesFit(vals, indices[..]) && i + 1 < end <= indices.Length
    requires Ascending(vals, indices[..], end) && Bubbled(vals, indices[..], i)
    modifies indices
    ensures multiset(indices[..]) == multiset(old(indices[..])) && IndicesFit(vals, indices[..])
    ensures ordered ==> Ascending(vals, indices[..], end) && Bubbled(vals, indices[..], i + 1)
    ensures !ordered ==> Incomparable(vals, indices[..], i) && !Comparable(vals, indices[..])
  {
    ghost var s := indices[..];
    assert s[i] == indices[i] && s[i + 1] == indices[i + 1];
    if Ordered(vals, indices[i + 1], indices[i]) {
      indices[i], indices[i + 1] := indices[i + 1], indices[i];
      assert indices[..] == Swapped(s, i);
    } else if !Ordered(vals, indices[i], indices[i + 1]) {
      assert Incomparable(vals, indices[..], i);
      return false;
    }
    BubbleUp(vals, s, indices[..], end, i);
    return true;
  }

  /** Bubble sort by solver queries, in place. It keeps the entries, and succeeds when any two can
      be ordered; whenever it succeeds the list is ascending wherever all indices are in bounds. */
  method OrderIndices(indices: array<nat>, vals: seq<Valuation>) returns (ok: bool)
    requires IndicesFit(vals, indices[..])
    modifies indices
    ensures multiset(indices[..]) == multiset(old(indices[..])) && IndicesFit(vals, indices[..])
    ensures ok ==> Ascending(vals, indices[..], 0)
    ensures Comparable(vals, old(indices[..])) ==> ok
    ensures !ok ==> exists i: nat :: i + 1 < indices.Length && Incomparable(vals, indices[..], i)
  {
    ghost var was := indices[..];
    var end := indices.Length;
    while end > 0
      invariant 0 <= end <= indices.Length
      invariant multiset(indices[..]) == multiset(was) && IndicesFit(vals, indices[..])
      invariant Ascending(vals, indices[..], end)
    {
      var i := 0;
      while i < end - 1
        invariant 0 <= i <= end - 1
        invariant multiset(indices[..]) == multiset(was) && IndicesFit(vals, indices[..])
        invariant Ascending(vals, indices[..], end) && Bubbled(vals, indices[..], i)
      {
        var ordered := CompareNeighbours(indices, vals, i, end);
        if !ordered {
          if Comparable(vals, was) {
            ComparableReordered(vals, was, indices[..]);
          }
          return false;
        }
        i := i + 1;
      }
      PassDone(vals, indices[..], end);
      end := end - 1;
    }
    return true;
  }

  lemma PassDone(vals: seq<Valuation>, s: seq<nat>, end: nat)
    requires IndicesFit(vals, s) && 0 < end <= |s|
    requires Ascending(vals, s, end) && Bubbled(vals, s, end - 1)
    ensures Ascending(vals, s, end - 1)
  {
    forall k | 0 <= k < |vals| && AllInBounds(vals[k], s) ensures SortedFrom(vals[k], s, end - 1) {
      assert SortedFrom(vals[k], s, end) && LargestAt(vals[k], s, end - 1);
    }
  }

  function Values(v: Valuation, s: seq<nat>): (r: seq<int>)
    requires forall p :: 0 <= p < |s| ==> s[p] < |v.value|
    ensures |r| == |s| && forall p :: 0 <= p < |s| ==> r[p] == v.value[s[p]]
  {
    seq(|s|, p requires 0 <= p < |s| => v.value[s[p]])
  }

  function Erased<T>(r: seq<T>, d: nat): (t: seq<T>)
    requires d < |r|
    ensures |t| == |r| - 1 && forall q :: 0 <= q < |t| ==> t[q] == r[if q < d then q else q + 1]
  {
    r[..d] + r[d + 1..]
  }

  lemma ErasedMultiset<T>(r: seq<T>, d: nat)
    requires d < |r|
    ensures multiset(Erased(r, d)) == multiset(r) - multiset{r[d]}
    ensures multiset(r) == multiset(Erased(r, d)) + multiset{r[d]}
  {
    assert r == r[..d] + [r[d]] + r[d + 1..];
  }

  lemma SameLength<T>(s: seq<T>, t: seq<T>)
    requires multiset(s) == multiset(t)
    ensures |s| == |t|
  {
    assert |s| == |multiset(s)| == |multiset(t)| == |t|;
  }

  lemma ErasedValues(v: Valuation, s: seq<nat>, d: nat)
    requires d < |s| && forall p :: 0 <= p < |s| ==> s[p] < |v.value|
    ensures multiset(Values(v, s)) == multiset(Values(v, Erased(s, d))) + multiset{v.value[s[d]]}
  {
    assert Values(v, Erased(s, d)) == Erased(Values(v, s), d);
    ErasedMultiset(Values(v, s), d);
  }

  lemma {:induction false} ValuesPermuted(v: Valuation, s: seq<nat>, t: seq<nat>)
    requires multiset(s) == multiset(t)
    requires forall p :: 0 <= p < |s| ==> s[p] < |v.value|
    requires forall p :: 0 <= p < |t| ==> t[p] < |v.value|
    ensures multiset(Values(v, s)) == multiset(Values(v, t))
  {
    SameLength(s, t);
    if s != [] {
      assert s[0] in multiset(s) && s[0] in multiset(t);
      var d :| 0 <= d < |t| && t[d] == s[0];
      ErasedMultiset(s, 0);
      ErasedMultiset(t, d);
      ValuesPermuted(v, Erased(s, 0), Erased(t, d));
      ErasedValues(v, s, 0);
      ErasedValues(v, t, d);
    }
  }

  predicate Sorted(a: seq<int>) {
    forall p, q :: 0 <= p < q < |a| ==> a[p] <= a[q]
  }

  lemma SortedHead(a: seq<int>, b: seq<int>)
    requires multiset(a) == multiset(b) && a != [] && b != [] && Sorted(a) && Sorted(b)
    ensures a[0] <= b[0]
  {
    assert b[0] in multiset(b) && b[0] in multiset(a);
    var p :| 0 <= p < |a| && a[p] == b[0];
  }

  lemma TailMultiset(a: seq<int>)
    requires a != []
    ensures multiset(a[1..]) == multiset(a) - multiset{a[0]}
  {
    assert a == [a[0]] + a[1..];
  }

  lemma {:induction false} SortedUnique(a: seq<int>, b: seq<int>)
    requires multiset(a) == multiset(b) && Sorted(a) && Sorted(b)
    ensures a == b
  {
    SameLength(a, b);
    if a != [] {
      SortedHead(a, b);
      SortedHead(b, a);
      TailMultiset(a);
      TailMultiset(b);
      SortedUnique(a[1..], b[1..]);
      assert a == [a[0]] + a[1..] && b == [b[0]] + b[1..];
    }
  }

  /** How unique the ordering is: any two ascending orders of the same indices agree on the value
      at every position, wherever all indices are in bounds. */
  lemma AscendingUnique(vals: seq<Valuation>, s: seq<nat>, t: seq<nat>, k: nat)
    requires IndicesFit(vals, s) && IndicesFit(vals, t) && multiset(s) == multiset(t)
    requires Ascending(vals, s, 0) && Ascending(vals, t, 0) && k < |vals| && AllInBounds(vals[k], s)
    ensures Values(vals[k], s) == Values(vals[k], t)
  {
    InBoundsReordered(vals[k], s, t);
    assert SortedFrom(vals[k], s, 0) && SortedFrom(vals[k], t, 0);
    ValuesPermuted(vals[k], s, t);
    SortedUnique(Values(vals[k], s), Values(vals[k], t));
  }

  lemma InBoundsReordered(v: Valuation, s: seq<nat>, t: seq<nat>)
    requires multiset(s) == multiset(t)
    requires forall p :: 0 <= p < |s| ==> s[p] < |v.value|
    requires forall p :: 0 <= p < |t| ==> t[p] < |v.value|
    requires AllInBounds(v, s)
    ensures AllInBounds(v, t)
  {
    forall p | 0 <= p < |t| ensures InBounds(v, t[p]) {
      assert t[p] in multiset(t) && t[p] in multiset(s);
      var q :| 0 <= q < |s| && s[q] == t[p];
    }
  }

  /** The solver finds no solution in which the index is in bounds and not zero. */
  predicate EqualsZero(vals: seq<Valuation>, i: nat)
    requires forall k :: 0 <= k < |vals| ==> i < |vals[k].value|
  {
    forall k :: 0 <= k < |vals| && InBounds(vals[k], i) ==> vals[k].value[i] == 0
  }

  predicate Equal(vals: seq<Valuation>, i: nat, j: nat)
    requires forall k :: 0 <= k < |vals| ==> i < |vals[k].value| && j < |vals[k].value|
  {
    forall k :: 0 <= k < |vals| && InBounds(vals[k], i) && InBounds(vals[k], j) ==>
      vals[k].value[i] == vals[k].value[j]
  }

  /** Wherever all indices of `s` are in bounds, each is zero or has the value of one in `r`. */
  ghost predicate Represented(vals: seq<Valuation>, s: seq<nat>, r: seq<nat>)
    requires IndicesFit(vals, s) && IndicesFit(vals, r)
  {
    forall k, p :: 0 <= k < |vals| && 0 <= p < |s| && AllInBounds(vals[k], s) ==>
      IsRepresented(vals[k], vals[k].value[s[p]], r)
  }

  ghost predicate IsRepresented(v: Valuation, x: int, r: seq<nat>)
    requires forall p :: 0 <= p < |r| ==> r[p] < |v.value|
  {
    x == 0 || exists q :: 0 <= q < |r| && v.value[r[q]] == x
  }

  /** Erasing an index that is zero, or equal to another one kept, loses no border. */
  lemma ErasedStaysRepresented(vals: seq<Valuation>, s: seq<nat>, r: seq<nat>, d: nat, other: nat)
    requires IndicesFit(vals, s) && IndicesFit(vals, r) && Represented(vals, s, r)
    requires d < |r| && other < |r| && (forall p :: 0 <= p < |r| ==> r[p] in s)
    requires EqualsZero(vals, r[d]) || (other != d && (Equal(vals, r[d], r[other]) || Equal(vals, r[other], r[d])))
    ensures IndicesFit(vals, Erased(r, d)) && Represented(vals, s, Erased(r, d))
  {
    var t := Erased(r, d);
    forall k, p | 0 <= k < |vals| && 0 <= p < |s| && AllInBounds(vals[k], s)
      ensures IsRepresented(vals[k], vals[k].value[s[p]], t)
    {
      var v, x := vals[k], vals[k].value[s[p]];
      assert IsRepresented(v, x, r);
      assert InBounds(v, r[d]) && InBounds(v, r[other]);
      if x != 0 {
        var q :| 0 <= q < |r| && v.value[r[q]] == x;
        var kept := if q == d then other else q;
        assert t[if kept < d then kept else kept - 1] == r[kept];
      }
    }
  }

  /** `kept` lists the positions of `s` that `r` keeps, in order. */
  predicate KeepsPositions(s: seq<nat>, r: seq<nat>, kept: seq<nat>) {
    |kept| == |r| &&
    (forall p :: 0 <= p < |r| ==> kept[p] < |s| && r[p] == s[kept[p]]) &&
    forall p, q :: 0 <= p < q < |kept| ==> kept[p] < kept[q]
  }

  /** What is left of an ordered list. Each front index goes when it is zero, or a constant equal to
      the next one; an index equal to the front one goes when that is no constant. The last one left
      is never compared with zero. */
  function Thinned(vals: seq<Valuation>, constants: set<nat>, s: seq<nat>): (r: seq<nat>)
    requires s != [] && IndicesFit(vals, s)
    ensures r != [] && IndicesFit(vals, r)
    decreases |s|
  {
    if |s| == 1 then s
    else if FrontGoes(vals, constants, s) then Thinned(vals, constants, s[1..])
    else if Equal(vals, s[0], s[1]) then Thinned(vals, constants, [s[0]] + s[2..])
    else [s[0]] + Thinned(vals, constants, s[1..])
  }

  predicate FrontGoes(vals: seq<Valuation>, constants: set<nat>, s: seq<nat>)
    requires |s| > 1 && IndicesFit(vals, s)
  {
    EqualsZero(vals, s[0]) || (Equal(vals, s[0], s[1]) && s[0] in constants)
  }

  /** Every position of the list that is not kept holds a zero, a constant equal to a later index, or
      an index equal to an earlier one that is no constant. */
  ghost predicate Accounted(vals: seq<Valuation>, constants: set<nat>, s: seq<nat>, kept: seq<nat>)
    requires IndicesFit(vals, s)
  {
    forall x: nat :: x < |s| && x !in kept ==> MayGo(vals, constants, s, x)
  }

  predicate MayGo(vals: seq<Valuation>, constants: set<nat>, s: seq<nat>, x: nat)
    requires IndicesFit(vals, s) && x < |s|
  {
    EqualsZero(vals, s[x]) || exists y: nat :: y < |s| && Supersedes(vals, constants, s, x, y)
  }

  predicate Supersedes(vals: seq<Valuation>, constants: set<nat>, s: seq<nat>, x: nat, y: nat)
    requires IndicesFit(vals, s) && x < |s| && y < |s|
  {
    (x < y && Equal(vals, s[x], s[y]) && s[x] in constants) ||
    (y < x && Equal(vals, s[y], s[x]) && s[y] !in constants)
  }

  lemma ErasedAccounted(vals: seq<Valuation>, constants: set<nat>, s: seq<nat>, kept: seq<nat>, d: nat)
    requires IndicesFit(vals, s) && Accounted(vals, constants, s, kept) && d < |kept| && kept[d] < |s|
    requires MayGo(vals, constants, s, kept[d])
    ensures Accounted(vals, constants, s, Erased(kept, d))
  {
    var now := Erased(kept, d);
    forall x: nat | x in kept ensures x in now || x == kept[d] {
      var i :| 0 <= i < |kept| && kept[i] == x;
      if i != d {
        assert now[if i < d then i else i - 1] == x;
      }
    }
  }

  lemma EraseOne(
    vals: seq<Valuation>, constants: set<nat>, s: seq<nat>, r: seq<nat>, kept: seq<nat>, d: nat, other: nat)
    requires IndicesFit(vals, s) && IndicesFit(vals, r) && Represented(vals, s, r)
    requires KeepsPositions(s, r, kept) && Accounted(vals, constants, s, kept) && d < |r| && other < |r|
    requires EqualsZero(vals, r[d]) || (d < other && Equal(vals, r[d], r[other]) && r[d] in constants) ||
      (other < d && Equal(vals, r[other], r[d]) && r[other] !in constants)
    ensures IndicesFit(vals, Erased(r, d)) && Represented(vals, s, Erased(r, d))
    ensures KeepsPositions(s, Erased(r, d), Erased(kept, d)) && Accounted(vals, constants, s, Erased(kept, d))
  {
    ErasedStaysRepresented(vals, s, r, d, other);
    assert EqualsZero(vals, r[d]) || Supersedes(vals, constants, s, kept[d], kept[other]);
    ErasedAccounted(vals, constants, s, kept, d);
  }

  /** What one step of the loop leaves behind and still has to thin. */
  function InProgress(vals: seq<Valuation>, constants: set<nat>, r: seq<nat>, it: nat): seq<nat>
    requires it < |r| && IndicesFit(vals, r)
  {
    r[..it] + Thinned(vals, constants, r[it..])
  }

  lemma FrontErased(vals: seq<Valuation>, constants: set<nat>, r: seq<nat>, it: nat)
    requires it + 1 < |r| && IndicesFit(vals, r) && FrontGoes(vals, constants, r[it..])
    ensures IndicesFit(vals, Erased(r, it))
    ensures InProgress(vals, constants, Erased(r, it), it) == InProgress(vals, constants, r, it)
  {
    assert Erased(r, it)[..it] == r[..it] && Erased(r, it)[it..] == r[it..][1..];
  }

  lemma NextErased(vals: seq<Valuation>, constants: set<nat>, r: seq<nat>, it: nat)
    requires it + 1 < |r| && IndicesFit(vals, r) && !FrontGoes(vals, constants, r[it..])
    requires Equal(vals, r[it], r[it + 1])
    ensures IndicesFit(vals, Erased(r, it + 1))
    ensures InProgress(vals, constants, Erased(r, it + 1), it) == InProgress(vals, constants, r, it)
  {
    var t := Erased(r, it + 1);
    assert t[..it] == r[..it] && t[it..] == [r[it..][0]] + r[it..][2..];
  }

  lemma FrontStays(vals: seq<Valuation>, constants: set<nat>, r: seq<nat>, it: nat)
    requires it + 1 < |r| && IndicesFit(vals, r) && !FrontGoes(vals, constants, r[it..])
    requires !Equal(vals, r[it], r[it + 1])
    ensures InProgress(vals, constants, r, it + 1) == InProgress(vals, constants, r, it)
  {
    assert r[..it + 1] == r[..it] + [r[it]] && r[it..][1..] == r[it + 1..];
  }

  /** Erases indices equal to zero or to their neighbour; of two equal ones a constant goes
      first. What is left keeps its order. */
  method UniqueIndices(indices: seq<nat>, constants: set<nat>, vals: seq<Valuation>)
    returns (r: seq<nat>, ghost kept: seq<nat>)
    requires indices != [] && IndicesFit(vals, indices)
    ensures r == Thinned(vals, constants, indices)
    ensures r != [] && IndicesFit(vals, r) && KeepsPositions(indices, r, kept)
    ensures Represented(vals, indices, r) && Accounted(vals, constants, indices, kept)
  {
    r, kept := indices, seq(|indices|, p => p);
    var it := 0;
    assert r[..0] + Thinned(vals, constants, r[0..]) == Thinned(vals, constants, indices);
    assert forall x: nat :: x < |indices| ==> kept[x] == x;
    while it + 1 < |r|
      invariant 0 <= it < |r| && IndicesFit(vals, r) && KeepsPositions(indices, r, kept)
      invariant InProgress(vals, constants, r, it) == Thinned(vals, constants, indices)
      invariant Represented(vals, indices, r) && Accounted(vals, constants, indices, kept)
      decreases |r| - it
    {
      if EqualsZero(vals, r[it]) {
        FrontErased(vals, constants, r, it);
        EraseOne(vals, constants, indices, r, kept, it, it + 1);
        r, kept := Erased(r, it), Erased(kept, it);
      } else if Equal(vals, r[it], r[it + 1]) {
        if r[it] in constants {
          FrontErased(vals, constants, r, it);
          EraseOne(vals, constants, indices, r, kept, it, it + 1);
          r, kept := Erased(r, it), Erased(kept, it);
        } else {
          NextErased(vals, constants, r, it);
          EraseOne(vals, constants, indices, r, kept, it + 1, it);
          r, kept := Erased(r, it + 1), Erased(kept, it + 1);
        }
      } else {
        FrontStays(vals, constants, r, it);
        it := it + 1;
      }
    }
    assert r[..it] + r[it..] == r;
  }

  /** Erasing entries keeps the rest ascending. */
  lemma KeptAscending(v: Valuation, s: seq<nat>, r: seq<nat>, kept: seq<nat>)
    requires KeepsPositions(s, r, kept)
    requires forall p :: 0 <= p < |s| ==> s[p] < |v.value|
    requires AllInBounds(v, s) && SortedFrom(v, s, 0)
    ensures AllInBounds(v, r) && SortedFrom(v, r, 0)
  {
    forall p | 0 <= p < |r| ensures InBounds(v, r[p]) {
      assert InBounds(v, s[kept[p]]);
    }
  }

  // ----- Which indices still coincide -----

  /** The first index that is left. */
  function Survivor(vals: seq<Valuation>, constants: set<nat>, s: seq<nat>): (i: nat)
    requires s != [] && IndicesFit(vals, s)
    ensures forall k :: 0 <= k < |vals| ==> i < |vals[k].value|
    decreases |s|
  {
    if |s| > 1 && FrontGoes(vals, constants, s) then Survivor(vals, constants, s[1..]) else s[0]
  }

  lemma {:induction false} SurvivorIsFirst(vals: seq<Valuation>, constants: set<nat>, s: seq<nat>)
    requires s != [] && IndicesFit(vals, s)
    ensures Thinned(vals, constants, s)[0] == Survivor(vals, constants, s)
    decreases |s|
  {
    if |s| > 1 {
      if FrontGoes(vals, constants, s) {
        SurvivorIsFirst(vals, constants, s[1..]);
      } else if Equal(vals, s[0], s[1]) {
        SurvivorIsFirst(vals, constants, [s[0]] + s[2..]);
      }
    }
  }

  /** Each index that is kept is told apart from the next one kept, and not only from the one it was
      compared with, which may go later. */
  predicate Separates(vals: seq<Valuation>, constants: set<nat>, s: seq<nat>)
    requires s != [] && IndicesFit(vals, s)
    decreases |s|
  {
    if |s| == 1 then true
    else if FrontGoes(vals, constants, s) then Separates(vals, constants, s[1..])
    else if Equal(vals, s[0], s[1]) then Separates(vals, constants, [s[0]] + s[2..])
    else !Equal(vals, s[0], Survivor(vals, constants, s[1..])) && Separates(vals, constants, s[1..])
  }

  predicate NoEqualNeighbours(vals: seq<Valuation>, r: seq<nat>)
    requires IndicesFit(vals, r)
  {
    forall p: nat :: p + 1 < |r| ==> NeighboursDiffer(vals, r, p)
  }

  predicate NeighboursDiffer(vals: seq<Valuation>, r: seq<nat>, p: nat)
    requires IndicesFit(vals, r) && p + 1 < |r|
  {
    !Equal(vals, r[p], r[p + 1])
  }

  lemma OneMoreInFront(vals: seq<Valuation>, i: nat, r: seq<nat>)
    requires r != [] && IndicesFit(vals, r) && forall k :: 0 <= k < |vals| ==> i < |vals[k].value|
    ensures IndicesFit(vals, [i] + r)
    ensures NoEqualNeighbours(vals, [i] + r) <==> !Equal(vals, i, r[0]) && NoEqualNeighbours(vals, r)
  {
    var all := [i] + r;
    assert NeighboursDiffer(vals, all, 0) <==> !Equal(vals, i, r[0]);
    forall p: nat | p + 1 < |r| ensures NeighboursDiffer(vals, r, p) <==> NeighboursDiffer(vals, all, p + 1) {
    }
    if NoEqualNeighbours(vals, r) && !Equal(vals, i, r[0]) {
      forall p: nat | p + 1 < |all| ensures NeighboursDiffer(vals, all, p) {
        assert p > 0 ==> NeighboursDiffer(vals, r, p - 1);
      }
    }
  }

  /** Exactly when no two neighbours are left that are equal in every solution. */
  lemma {:induction false} ThinnedDiffersIff(vals: seq<Valuation>, constants: set<nat>, s: seq<nat>)
    requires s != [] && IndicesFit(vals, s)
    ensures NoEqualNeighbours(vals, Thinned(vals, constants, s)) <==> Separates(vals, constants, s)
    decreases |s|
  {
    if |s| > 1 {
      if FrontGoes(vals, constants, s) {
        ThinnedDiffersIff(vals, constants, s[1..]);
      } else if Equal(vals, s[0], s[1]) {
        ThinnedDiffersIff(vals, constants, [s[0]] + s[2..]);
      } else {
        ThinnedDiffersIff(vals, constants, s[1..]);
        SurvivorIsFirst(vals, constants, s[1..]);
        OneMoreInFront(vals, s[0], Thinned(vals, constants, s[1..]));
      }
    }
  }

  /** No index is left, but possibly the last, that is zero in every solution. */
  lemma {:induction false} OnlyLastIsZero(vals: seq<Valuation>, constants: set<nat>, s: seq<nat>, p: nat)
    requires s != [] && IndicesFit(vals, s) && p + 1 < |Thinned(vals, constants, s)|
    ensures !EqualsZero(vals, Thinned(vals, constants, s)[p])
    decreases |s|
  {
    if FrontGoes(vals, constants, s) {
      OnlyLastIsZero(vals, constants, s[1..], p);
    } else if Equal(vals, s[0], s[1]) {
      OnlyLastIsZero(vals, constants, [s[0]] + s[2..], p);
    } else if p > 0 {
      OnlyLastIsZero(vals, constants, s[1..], p - 1);
    }
  }

  /** The indices are in bounds and ascending in all solutions. */
  predicate AlwaysAscending(vals: seq<Valuation>, s: seq<nat>)
    requires IndicesFit(vals, s)
  {
    forall k :: 0 <= k < |vals| ==> AllInBounds(vals[k], s) && SortedFrom(vals[k], s, 0)
  }

  lemma TailAscends(vals: seq<Valuation>, s: seq<nat>, t: seq<nat>)
    requires IndicesFit(vals, s) && AlwaysAscending(vals, s) && |s| > 1
    requires t == s[1..] || t == [s[0]] + s[2..]
    ensures IndicesFit(vals, t) && AlwaysAscending(vals, t)
  {
    forall k | 0 <= k < |vals| ensures AllInBounds(vals[k], t) && SortedFrom(vals[k], t, 0) {
      assert AllInBounds(vals[k], s) && SortedFrom(vals[k], s, 0);
    }
  }

  lemma EqualAlways(vals: seq<Valuation>, s: seq<nat>, p: nat, q: nat)
    requires IndicesFit(vals, s) && AlwaysAscending(vals, s) && p < |s| && q < |s|
    ensures Equal(vals, s[p], s[q]) <==> forall k :: 0 <= k < |vals| ==> vals[k].value[s[p]] == vals[k].value[s[q]]
    ensures EqualsZero(vals, s[p]) <==> forall k :: 0 <= k < |vals| ==> vals[k].value[s[p]] == 0
  {
    forall k | 0 <= k < |vals| ensures InBounds(vals[k], s[p]) && InBounds(vals[k], s[q]) {
      assert AllInBounds(vals[k], s);
    }
  }

  /** Where nothing is out of bounds, the index left in front has the value of the first one. */
  lemma {:induction false} SurvivorKeepsValue(vals: seq<Valuation>, constants: set<nat>, s: seq<nat>)
    requires s != [] && IndicesFit(vals, s) && AlwaysAscending(vals, s) && !EqualsZero(vals, s[0])
    ensures forall k :: 0 <= k < |vals| ==> vals[k].value[Survivor(vals, constants, s)] == vals[k].value[s[0]]
    decreases |s|
  {
    if |s| > 1 && FrontGoes(vals, constants, s) {
      TailAscends(vals, s, s[1..]);
      EqualAlways(vals, s, 0, 1);
      EqualAlways(vals, s, 1, 1);
      SurvivorKeepsValue(vals, constants, s[1..]);
    }
  }

  /** Indices that are in bounds and ascending in all solutions leave no equal neighbours. */
  lemma {:induction false} AscendingSeparates(vals: seq<Valuation>, constants: set<nat>, s: seq<nat>)
    requires s != [] && IndicesFit(vals, s) && AlwaysAscending(vals, s)
    ensures Separates(vals, constants, s)
    decreases |s|
  {
    if |s| > 1 {
      TailAscends(vals, s, s[1..]);
      TailAscends(vals, s, [s[0]] + s[2..]);
      if FrontGoes(vals, constants, s) {
        AscendingSeparates(vals, constants, s[1..]);
      } else if Equal(vals, s[0], s[1]) {
        AscendingSeparates(vals, constants, [s[0]] + s[2..]);
      } else {
        AscendingSeparates(vals, constants, s[1..]);
        SecondIsNotZero(vals, s);
        SurvivorKeepsValue(vals, constants, s[1..]);
        EqualAlways(vals, s, 0, 1);
        SurvivorDiffers(vals, s, Survivor(vals, constants, s[1..]));
      }
    }
  }

  lemma SecondIsNotZero(vals: seq<Valuation>, s: seq<nat>)
    requires |s| > 1 && IndicesFit(vals, s) && AlwaysAscending(vals, s) && !Equal(vals, s[0], s[1])
    ensures !EqualsZero(vals, s[1])
  {
    EqualAlways(vals, s, 0, 1);
    var k :| 0 <= k < |vals| && vals[k].value[s[0]] != vals[k].value[s[1]];
    assert AllInBounds(vals[k], s) && SortedFrom(vals[k], s, 0);
    assert InBounds(vals[k], s[0]) && InBounds(vals[k], s[1]);
  }

  lemma SurvivorDiffers(vals: seq<Valuation>, s: seq<nat>, x: nat)
    requires |s| > 1 && IndicesFit(vals, s) && AlwaysAscending(vals, s) && !Equal(vals, s[0], s[1])
    requires forall k :: 0 <= k < |vals| ==> x < |vals[k].value| && vals[k].value[x] == vals[k].value[s[1]]
    ensures !Equal(vals, s[0], x)
  {
    EqualAlways(vals, s, 0, 1);
    var k :| 0 <= k < |vals| && vals[k].value[s[0]] != vals[k].value[s[1]];
    assert AllInBounds(vals[k], s);
    assert InBounds(vals[k], s[0]) && InBounds(vals[k], s[1]);
    assert InBounds(vals[k], x);
  }

  /** In general equal neighbours can be left: the first index is told apart from the constant 1 only
      where the third is out of bounds, and then the constant goes. */
  lemma EqualNeighboursLeft(vals: seq<Valuation>)
    requires vals == [Valuation([0, 1, 9], 3), Valuation([1, 1, 1], 3)]
    ensures Ordered(vals, 0, 1) && Ordered(vals, 1, 2) && Ordered(vals, 0, 2)
    ensures Thinned(vals, {1}, [0, 1, 2]) == [0, 2] && Equal(vals, 0, 2)
  {
    assert InBounds(vals[0], 0) && InBounds(vals[0], 1) && !InBounds(vals[0], 2);
    assert InBounds(vals[1], 0) && InBounds(vals[1], 1) && InBounds(vals[1], 2);
    assert [0, 1, 2][1..] == [1, 2] && [1, 2][1..] == [2];
  }
}
