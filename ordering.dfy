/**
 * Ordering restaurants by availability at one date: what "sorted, most free
 * tables first" and "restaurants with equal availability keep their order"
 * mean, the inversion count that an adjacent swap of an out-of-order pair
 * lowers by one, and a reference stable insertion sort. A list that is
 * sorted and keeps every tie group in its old order is that reference
 * sort's result, whatever algorithm produced it.
 */
module AvailabilityOrder {
  import opened ReservationValues

  /** The number of free tables of restaurant `v` at `d`. */
  function Availability(v: RestaurantView, d: DateTime): nat {
    FreeCount(v.tables, d)
  }

  /** Most available first: no restaurant has fewer free tables than one after it. */
  ghost predicate NonIncreasing(vs: seq<RestaurantView>, d: DateTime) {
    forall k, l :: 0 <= k < l < |vs| ==> Availability(vs[k], d) >= Availability(vs[l], d)
  }

  /** The same, checked on neighbours only. */
  ghost predicate AdjacentNonIncreasing(vs: seq<RestaurantView>, d: DateTime) {
    forall k :: 0 <= k < |vs| - 1 ==> Availability(vs[k], d) >= Availability(vs[k + 1], d)
  }

  lemma {:induction false} ChainDown(vs: seq<RestaurantView>, d: DateTime, k: nat, l: nat)
    requires AdjacentNonIncreasing(vs, d)
    requires k <= l < |vs|
    ensures Availability(vs[k], d) >= Availability(vs[l], d)
    decreases l - k
  {
    if k < l {
      ChainDown(vs, d, k + 1, l);
    }
  }

  /** Ordered neighbours mean an ordered list, and conversely. */
  lemma AdjacentOrderIsOrder(vs: seq<RestaurantView>, d: DateTime)
    ensures AdjacentNonIncreasing(vs, d) <==> NonIncreasing(vs, d)
  {
    if AdjacentNonIncreasing(vs, d) {
      forall k, l | 0 <= k < l < |vs|
        ensures Availability(vs[k], d) >= Availability(vs[l], d)
      {
        ChainDown(vs, d, k, l);
      }
    }
  }

  /** The restaurants with exactly `c` free tables at `d`, in list order. */
  function WithAvailability(vs: seq<RestaurantView>, d: DateTime, c: nat): (r: seq<RestaurantView>)
    ensures |r| <= |vs|
    ensures forall w :: w in r ==> w in vs && Availability(w, d) == c
    decreases |vs|
  {
    if vs == [] then []
    else (if Availability(vs[0], d) == c then [vs[0]] else []) + WithAvailability(vs[1..], d, c)
  }

  /** `ws` is `vs` reordered so that every tie group keeps its relative order. */
  ghost predicate KeepsTies(ws: seq<RestaurantView>, vs: seq<RestaurantView>, d: DateTime) {
    forall c :: WithAvailability(ws, d, c) == WithAvailability(vs, d, c)
  }

  lemma KeepsTiesTransitive(us: seq<RestaurantView>, ws: seq<RestaurantView>, vs: seq<RestaurantView>, d: DateTime)
    requires KeepsTies(us, ws, d) && KeepsTies(ws, vs, d)
    ensures KeepsTies(us, vs, d)
  {
  }

  /** `s` with its neighbours at `i` and `i + 1` exchanged. */
  function Swap<T>(s: seq<T>, i: nat): (r: seq<T>)
    requires i + 1 < |s|
  {
    s[i := s[i + 1]][i + 1 := s[i]]
  }

  /** Exchanging neighbours only rearranges. */
  lemma SwapIsPermutation<T>(s: seq<T>, i: nat)
    requires i + 1 < |s|
    ensures multiset(Swap(s, i)) == multiset(s)
  {
    assert s == s[..i] + [s[i], s[i + 1]] + s[i + 2..];
    assert Swap(s, i) == s[..i] + [s[i + 1], s[i]] + s[i + 2..];
  }

  /** How many restaurants in `ws` have more free tables than `v`. */
  function Above(v: RestaurantView, ws: seq<RestaurantView>, d: DateTime): nat
    decreases |ws|
  {
    if ws == [] then 0
    else (if Availability(v, d) < Availability(ws[0], d) then 1 else 0) + Above(v, ws[1..], d)
  }

  /** The number of pairs standing in the wrong order. */
  function Inversions(vs: seq<RestaurantView>, d: DateTime): nat
    decreases |vs|
  {
    if vs == [] then 0 else Above(vs[0], vs[1..], d) + Inversions(vs[1..], d)
  }

  lemma {:induction false} AboveSwap(v: RestaurantView, ws: seq<RestaurantView>, d: DateTime, i: nat)
    requires i + 1 < |ws|
    ensures Above(v, Swap(ws, i), d) == Above(v, ws, d)
    decreases |ws|
  {
    var s := Swap(ws, i);
    if i == 0 {
      assert s[1..][1..] == ws[1..][1..];
      assert s[0] == ws[1] && s[1..][0] == ws[0];
    } else {
      assert s[0] == ws[0];
      assert s[1..] == Swap(ws[1..], i - 1);
      AboveSwap(v, ws[1..], d, i - 1);
    }
  }

  /** Exchanging a neighbour pair that is in the wrong order removes exactly
      one inversion: the measure that makes the bubble sort terminate. */
  lemma {:induction false} SwapRemovesInversion(vs: seq<RestaurantView>, d: DateTime, i: nat)
    requires i + 1 < |vs|
    requires Availability(vs[i], d) < Availability(vs[i + 1], d)
    ensures Inversions(Swap(vs, i), d) + 1 == Inversions(vs, d)
    decreases |vs|
  {
    var s := Swap(vs, i);
    if i == 0 {
      var a, b, t := vs[0], vs[1], vs[2..];
      assert vs[1..] == [b] + t && s[1..] == [a] + t;
      assert ([b] + t)[1..] == t && ([a] + t)[1..] == t;
    } else {
      assert s[0] == vs[0];
      assert s[1..] == Swap(vs[1..], i - 1);
      AboveSwap(vs[0], vs[1..], d, i - 1);
      SwapRemovesInversion(vs[1..], d, i - 1);
    }
  }

  /** Exchanging neighbours with different availability keeps every tie group. */
  lemma {:induction false} SwapKeepsTies(vs: seq<RestaurantView>, d: DateTime, i: nat)
    requires i + 1 < |vs|
    requires Availability(vs[i], d) != Availability(vs[i + 1], d)
    ensures KeepsTies(Swap(vs, i), vs, d)
    decreases |vs|
  {
    var s := Swap(vs, i);
    forall c ensures WithAvailability(s, d, c) == WithAvailability(vs, d, c) {
      if i == 0 {
        var a, b, t := vs[0], vs[1], vs[2..];
        assert vs[1..] == [b] + t && s[1..] == [a] + t;
        assert ([b] + t)[1..] == t && ([a] + t)[1..] == t;
      } else {
        assert s[0] == vs[0];
        assert s[1..] == Swap(vs[1..], i - 1);
        SwapKeepsTies(vs[1..], d, i - 1);
      }
    }
  }

  // ---------------------------------------------------------------------
  // A reference stable sort

  /** Where a left-to-right pass of adjacent swaps over `start` stands at
      position `i`: tie groups are kept, and either some swap has lowered the
      inversion count or nothing has moved and the first `i` neighbours are
      in order. */
  ghost predicate PassProgress(cs: seq<RestaurantView>, start: seq<RestaurantView>, d: DateTime, i: nat, swapped: bool) {
    && KeepsTies(cs, start, d)
    && if swapped then Inversions(cs, d) < Inversions(start, d)
       else cs == start && forall m :: 0 <= m < i && m + 1 < |cs| ==>
              Availability(cs[m], d) >= Availability(cs[m + 1], d)
  }

  /** One step of the pass at position `i`, with or without a swap. */
  lemma PassStep(cs: seq<RestaurantView>, next: seq<RestaurantView>, start: seq<RestaurantView>, d: DateTime,
                 i: nat, swapped: bool, swappedHere: bool)
    requires i + 1 < |cs|
    requires PassProgress(cs, start, d, i, swapped)
    requires KeepsTies(next, cs, d)
    requires swappedHere ==> Inversions(next, d) < Inversions(cs, d)
    requires !swappedHere ==> next == cs && Availability(cs[i], d) >= Availability(cs[i + 1], d)
    ensures PassProgress(next, start, d, i + 1, swapped || swappedHere)
  {
    KeepsTiesTransitive(next, cs, start, d);
  }

  /** A pass that reached the end without a swap leaves its list ordered. */
  lemma PassEnd(cs: seq<RestaurantView>, start: seq<RestaurantView>, d: DateTime, i: nat)
    requires PassProgress(cs, start, d, i, false) && i + 1 >= |cs|
    ensures cs == start && AdjacentNonIncreasing(cs, d)
  {
  }

  /** The list one left-to-right pass produces from position `i` on: each
      neighbour pair with strictly fewer free tables in front is swapped. */
  function PassFrom(cs: seq<RestaurantView>, d: DateTime, i: nat): (r: seq<RestaurantView>)
    ensures |r| == |cs|
    ensures multiset(r) == multiset(cs)
    decreases |cs| - i
  {
    if i + 1 >= |cs| then cs
    else if Availability(cs[i], d) < Availability(cs[i + 1], d) then
      SwapIsPermutation(cs, i);
      PassFrom(Swap(cs, i), d, i + 1)
    else PassFrom(cs, d, i + 1)
  }

  /** Doing the step at `i` and then the rest of the pass is the pass from `i`. */
  lemma PassFromStep(cs: seq<RestaurantView>, next: seq<RestaurantView>, d: DateTime, i: nat, swapped: bool)
    requires i + 1 < |cs|
    requires swapped <==> Availability(cs[i], d) < Availability(cs[i + 1], d)
    requires next == if swapped then Swap(cs, i) else cs
    ensures PassFrom(next, d, i + 1) == PassFrom(cs, d, i)
  {
  }

  /** Puts `v` before the first restaurant of `s` that is not more available. */
  function Insert(v: RestaurantView, s: seq<RestaurantView>, d: DateTime): (r: seq<RestaurantView>)
    ensures |r| == |s| + 1
    ensures r[0] == v || (s != [] && r[0] == s[0])
    decreases |s|
  {
    if s == [] || Availability(s[0], d) <= Availability(v, d) then [v] + s
    else [s[0]] + Insert(v, s[1..], d)
  }

  /** Insertion sort, most available first, ties in their original order. */
  function StableSortByAvailability(vs: seq<RestaurantView>, d: DateTime): (r: seq<RestaurantView>)
    ensures |r| == |vs|
    decreases |vs|
  {
    if vs == [] then [] else Insert(vs[0], StableSortByAvailability(vs[1..], d), d)
  }

  lemma {:induction false} InsertKeepsOrder(v: RestaurantView, s: seq<RestaurantView>, d: DateTime)
    requires AdjacentNonIncreasing(s, d)
    ensures AdjacentNonIncreasing(Insert(v, s, d), d)
    decreases |s|
  {
    var r := Insert(v, s, d);
    if s == [] || Availability(s[0], d) <= Availability(v, d) {
      assert r[1..] == s;
    } else {
      var t := Insert(v, s[1..], d);
      assert r == [s[0]] + t;
      InsertKeepsOrder(v, s[1..], d);
      assert forall k :: 0 < k < |r| - 1 ==> r[k] == t[k - 1] && r[k + 1] == t[k];
    }
  }

  lemma {:induction false} InsertIsPermutation(v: RestaurantView, s: seq<RestaurantView>, d: DateTime)
    ensures multiset(Insert(v, s, d)) == multiset{v} + multiset(s)
    decreases |s|
  {
    if s != [] && Availability(s[0], d) > Availability(v, d) {
      InsertIsPermutation(v, s[1..], d);
      assert s == [s[0]] + s[1..];
    }
  }

  lemma {:induction false} InsertTies(v: RestaurantView, s: seq<RestaurantView>, d: DateTime, c: nat)
    ensures WithAvailability(Insert(v, s, d), d, c)
         == (if Availability(v, d) == c then [v] else []) + WithAvailability(s, d, c)
    decreases |s|
  {
    var r := Insert(v, s, d);
    if s == [] || Availability(s[0], d) <= Availability(v, d) {
      assert r[1..] == s;
    } else {
      var t := Insert(v, s[1..], d);
      assert r[0] == s[0] && r[1..] == t;
      InsertTies(v, s[1..], d, c);
      if Availability(v, d) == c {
        assert WithAvailability(r, d, c) == WithAvailability(t, d, c);
        assert WithAvailability(s, d, c) == WithAvailability(s[1..], d, c);
      } else {
        assert WithAvailability(t, d, c) == WithAvailability(s[1..], d, c);
      }
    }
  }

  /** The reference sort orders by availability, is a permutation and keeps ties. */
  lemma {:induction false} StableSortProperties(vs: seq<RestaurantView>, d: DateTime)
    ensures NonIncreasing(StableSortByAvailability(vs, d), d)
    ensures multiset(StableSortByAvailability(vs, d)) == multiset(vs)
    ensures KeepsTies(StableSortByAvailability(vs, d), vs, d)
    decreases |vs|
  {
    var r := StableSortByAvailability(vs, d);
    if vs != [] {
      var t := StableSortByAvailability(vs[1..], d);
      StableSortProperties(vs[1..], d);
      AdjacentOrderIsOrder(t, d);
      InsertKeepsOrder(vs[0], t, d);
      AdjacentOrderIsOrder(r, d);
      InsertIsPermutation(vs[0], t, d);
      assert vs == [vs[0]] + vs[1..];
      forall c ensures WithAvailability(r, d, c) == WithAvailability(vs, d, c) {
        InsertTies(vs[0], t, d, c);
      }
    }
  }

  lemma HeadInItsGroup(vs: seq<RestaurantView>, d: DateTime)
    requires vs != []
    ensures WithAvailability(vs, d, Availability(vs[0], d)) != []
  {
  }

  /** Two ordered lists with the same tie groups start with the same restaurant. */
  lemma HeadsAgree(xs: seq<RestaurantView>, ys: seq<RestaurantView>, d: DateTime)
    requires xs != [] && ys != []
    requires NonIncreasing(xs, d) && NonIncreasing(ys, d)
    requires KeepsTies(xs, ys, d)
    ensures xs[0] == ys[0]
  {
    var a, b := Availability(xs[0], d), Availability(ys[0], d);
    assert WithAvailability(xs, d, a)[0] == xs[0];
    assert WithAvailability(ys, d, b)[0] == ys[0];
    var wx := WithAvailability(ys, d, a)[0];
    assert wx in ys;
    var wy := WithAvailability(xs, d, b)[0];
    assert wy in xs;
    assert a == b;
  }

  /** Dropping a common first restaurant keeps the tie groups equal. */
  lemma TailsKeepTies(xs: seq<RestaurantView>, ys: seq<RestaurantView>, d: DateTime)
    requires xs != [] && ys != [] && xs[0] == ys[0]
    requires KeepsTies(xs, ys, d)
    ensures KeepsTies(xs[1..], ys[1..], d)
  {
    var a := Availability(xs[0], d);
    forall c ensures WithAvailability(xs[1..], d, c) == WithAvailability(ys[1..], d, c) {
      var fx, fy := WithAvailability(xs, d, c), WithAvailability(ys, d, c);
      assert fx == fy;
      if c == a {
        assert fx == [xs[0]] + WithAvailability(xs[1..], d, c);
        assert fy == [ys[0]] + WithAvailability(ys[1..], d, c);
        assert fx[1..] == WithAvailability(xs[1..], d, c);
        assert fy[1..] == WithAvailability(ys[1..], d, c);
      } else {
        assert fx == WithAvailability(xs[1..], d, c);
        assert fy == WithAvailability(ys[1..], d, c);
      }
    }
  }

  /** An ordered list is determined by its tie groups: two ordered lists with
      the same restaurants at each availability are equal. */
  lemma {:induction false} OrderedByTiesIsUnique(xs: seq<RestaurantView>, ys: seq<RestaurantView>, d: DateTime)
    requires NonIncreasing(xs, d) && NonIncreasing(ys, d)
    requires KeepsTies(xs, ys, d)
    ensures xs == ys
    decreases |xs| + |ys|
  {
    if xs != [] && ys != [] {
      HeadsAgree(xs, ys, d);
      TailsKeepTies(xs, ys, d);
      OrderedByTiesIsUnique(xs[1..], ys[1..], d);
      assert xs == [xs[0]] + xs[1..] && ys == [ys[0]] + ys[1..];
    } else if xs != [] {
      HeadInItsGroup(xs, d);
      assert false;
    } else if ys != [] {
      HeadInItsGroup(ys, d);
      assert false;
    }
  }

  /** Any ordered, tie-keeping rearrangement is the reference sort's result. */
  lemma SortedAndStableIsStableSort(ws: seq<RestaurantView>, vs: seq<RestaurantView>, d: DateTime)
    requires NonIncreasing(ws, d)
    requires KeepsTies(ws, vs, d)
    ensures ws == StableSortByAvailability(vs, d)
  {
    var r := StableSortByAvailability(vs, d);
    StableSortProperties(vs, d);
    assert KeepsTies(ws, r, d);
    OrderedByTiesIsUnique(ws, r, d);
  }

  /** A (2 free), B (2 free), C (5 free) in that order end up as C, A, B. */
  lemma SortExample(a: RestaurantView, b: RestaurantView, c: RestaurantView, d: DateTime)
    requires Availability(a, d) == 2 && Availability(b, d) == 2 && Availability(c, d) == 5
    ensures StableSortByAvailability([a, b, c], d) == [c, a, b]
  {
    assert [a, b, c][1..] == [b, c] && [b, c][1..] == [c] && [c][1..] == [];
    assert StableSortByAvailability([c], d) == Insert(c, [], d) == [c];
    assert Insert(b, [c], d) == [c] + Insert(b, [], d) == [c, b];
    assert StableSortByAvailability([b, c], d) == [c, b];
    assert [c, b][1..] == [b];
    assert Insert(a, [b], d) == [a, b];
    assert Insert(a, [c, b], d) == [c] + Insert(a, [b], d) == [c, a, b];
  }
}
