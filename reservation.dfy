/**
 * The table-reservation objects: a table keeps the list of dates booked on
 * it, a restaurant is a name and a fixed array of tables, and the manager
 * keeps an ordered list of restaurants. Each mutating method states its new
 * state through the manager's abstract value `Contents`, a sequence of
 * RestaurantView values, in terms of the step functions of module
 * ReservationValues and the reference sort of module AvailabilityOrder.
 */
module Reservation {
  import opened ReservationValues
  import opened AvailabilityOrder

  /** A table and the dates booked on it. */
  class Table {
    var bookedDates: seq<DateTime>

    /** No date is booked twice. */
    ghost predicate Valid()
      reads this
    {
      NoDuplicates(bookedDates)
    }

    constructor ()
      ensures Valid() && bookedDates == []
    {
      bookedDates := [];
    }

    /** Whether `d` is one of the booked dates. */
    function IsBooked(d: DateTime): (booked: bool)
      reads this
      ensures booked <==> exists i :: 0 <= i < |bookedDates| && bookedDates[i] == d
    {
      d in bookedDates
    }

    /** Books `d` unless it is booked already; says whether it booked. */
    method Book(d: DateTime) returns (booked: bool)
      requires Valid()
      modifies this
      ensures Valid()
      ensures booked <==> !old(IsBooked(d))
      ensures bookedDates == if booked then old(bookedDates) + [d] else old(bookedDates)
      ensures IsBooked(d)
      ensures forall e :: e != d ==> IsBooked(e) == old(IsBooked(e))
    {
      if d in bookedDates {
        return false;
      }
      bookedDates := bookedDates + [d];
      return true;
    }
  }

  /** A restaurant: a name and its tables, indexed from 0. */
  class Restaurant {
    var name: string
    var tables: array<Table?>
    /** The objects this restaurant is made of: itself, the array and the tables. */
    ghost var Repr: set<object>

    /** Every slot holds its own table, and every table is valid. */
    ghost predicate Valid()
      reads this, Repr
    {
      && this in Repr
      && tables in Repr
      && (forall i :: 0 <= i < tables.Length ==> tables[i] != null && tables[i] in Repr && tables[i].Valid())
      && (forall i, j :: 0 <= i < j < tables.Length ==> tables[i] != tables[j])
    }

    /** A restaurant named `name` with `n` new tables, none booked. */
    constructor (name: string, n: nat)
      ensures Valid() && fresh(Repr)
      ensures this.name == name && tables.Length == n
      ensures Bookings() == EmptyTables(n)
    {
      this.name := name;
      var ts := NewTables(n);
      tables := ts;
      Repr := {this, ts} + set i | 0 <= i < n :: ts[i] as object;
      new;
      assert Bookings() == EmptyTables(n);
    }

    /** The booked dates of each table, in table order. */
    ghost function Bookings(): (bs: seq<Bookings>)
      requires Valid()
      reads this, Repr
      ensures |bs| == tables.Length
      ensures forall i :: 0 <= i < tables.Length ==> bs[i] == tables[i].bookedDates
    {
      seq(tables.Length, i reads this, tables, if 0 <= i < tables.Length then {tables[i]} else {} =>
        if 0 <= i < tables.Length && tables[i] != null then tables[i].bookedDates else [])
    }

    ghost function View(): RestaurantView
      requires Valid()
      reads this, Repr
    {
      RestaurantView(name, Bookings())
    }

    /** Books table `k` at `d`; only that table's dates change. */
    method BookTableAt(k: nat, d: DateTime) returns (booked: bool)
      requires Valid() && k < tables.Length
      modifies tables[k]
      ensures Valid()
      ensures booked == (d !in old(Bookings())[k])
      ensures Bookings() == old(Bookings())[k := AddBooking(old(Bookings())[k], d)]
    {
      ghost var before := Bookings();
      var table := tables[k];
      booked := table.Book(d);
      forall i | 0 <= i < tables.Length && i != k
        ensures tables[i].Valid() && tables[i].bookedDates == before[i]
      {
        assert tables[i] != table;
      }
      assert Valid();
      assert Bookings() == before[k := AddBooking(before[k], d)];
    }
  }

  /** An array of `n` distinct new tables with nothing booked. */
  method NewTables(n: nat) returns (tables: array<Table?>)
    ensures fresh(tables) && tables.Length == n
    ensures forall j :: 0 <= j < n ==> tables[j] != null && fresh(tables[j]) && tables[j].Valid()
    ensures forall j :: 0 <= j < n ==> tables[j].bookedDates == []
    ensures forall j, j' :: 0 <= j < j' < n ==> tables[j] != tables[j']
  {
    tables := new Table?[n];
    for i := 0 to n
      invariant forall j :: 0 <= j < i ==> tables[j] != null && fresh(tables[j]) && tables[j].Valid()
      invariant forall j :: 0 <= j < i ==> tables[j].bookedDates == []
      invariant forall j, j' :: 0 <= j < j' < i ==> tables[j] != tables[j']
    {
      tables[i] := new Table();
    }
  }

  /** The reservation manager: an ordered list of restaurants. */
  class ReservationManager {
    var restaurants: seq<Restaurant>
    /** The restaurants as values, in list order. */
    ghost var Contents: seq<RestaurantView>
    ghost var Repr: set<object>

    /** Every restaurant is valid and owns objects no other restaurant owns;
        Contents is their value. */
    ghost predicate Valid()
      reads this, Repr
    {
      && this in Repr
      && |Contents| == |restaurants|
      && (forall k :: 0 <= k < |restaurants| ==>
            && restaurants[k] in Repr
            && restaurants[k].Repr <= Repr
            && this !in restaurants[k].Repr
            && restaurants[k].Valid()
            && Contents[k] == restaurants[k].View())
      && (forall k, l :: 0 <= k < |restaurants| && 0 <= l < |restaurants| && k != l ==>
            restaurants[k].Repr !! restaurants[l].Repr)
    }

    constructor ()
      ensures Valid() && fresh(Repr)
      ensures Contents == []
    {
      restaurants := [];
      Contents := [];
      Repr := {this};
    }

    /** Adds `restaurant` at the end of the list. */
    method Append(restaurant: Restaurant)
      requires Valid() && restaurant.Valid() && restaurant.Repr !! Repr
      modifies this
      ensures Valid() && Repr == old(Repr) + restaurant.Repr
      ensures restaurants == old(restaurants) + [restaurant]
      ensures Contents == old(Contents) + [restaurant.View()]
    {
      forall k | 0 <= k < |restaurants|
        ensures restaurants[k].Repr !! restaurant.Repr
      {
        assert restaurants[k].Repr <= Repr;
      }
      ghost var previous := restaurants;
      restaurants := restaurants + [restaurant];
      Contents := Contents + [restaurant.View()];
      Repr := Repr + restaurant.Repr;
      forall k | 0 <= k < |restaurants|
        ensures restaurants[k] in Repr && restaurants[k].Repr <= Repr && this !in restaurants[k].Repr
        ensures restaurants[k].Valid() && Contents[k] == restaurants[k].View()
      {
        if k < |previous| {
          assert restaurants[k] == previous[k];
        }
      }
      forall k, l | 0 <= k < |restaurants| && 0 <= l < |restaurants| && k != l
        ensures restaurants[k].Repr !! restaurants[l].Repr
      {
        if k < |previous| && l < |previous| {
          assert restaurants[k] == previous[k] && restaurants[l] == previous[l];
        }
      }
    }

    /** Appends a restaurant with `n` new, unbooked tables; a negative `n`
        changes nothing. Names are not checked for duplicates. */
    method AddRestaurant(name: string, n: int)
      requires Valid()
      modifies this
      ensures Valid() && fresh(Repr - old(Repr))
      ensures Contents == AddRestaurantStep(old(Contents), name, n)
      ensures n < 0 ==> restaurants == old(restaurants)
      ensures n >= 0 ==>
        && |restaurants| == |old(restaurants)| + 1
        && restaurants[..|old(restaurants)|] == old(restaurants)
        && fresh(restaurants[|old(restaurants)|])
    {
      if n < 0 {
        // Allocating an array of negative length throws; the exception is caught.
        return;
      }
      var restaurant := new Restaurant(name, n);
      Append(restaurant);
    }

    /** The position of the first restaurant named exactly `name`, or the
        number of restaurants when there is none. */
    method IndexOf(name: string) returns (j: nat)
      requires Valid()
      ensures j <= |restaurants|
      ensures j == |restaurants| ==> FindRestaurant(Contents, name) == None
      ensures j < |restaurants| ==> FindRestaurant(Contents, name) == Some(j)
    {
      j := 0;
      while j < |restaurants| && restaurants[j].name != name
        invariant 0 <= j <= |restaurants|
        invariant forall m :: 0 <= m < j ==> Contents[m].name != name
      {
        j := j + 1;
      }
    }

    /** Books table `k` of the restaurant at position `j`; nothing else changes. */
    method BookAt(j: nat, k: nat, d: DateTime) returns (booked: bool)
      requires Valid() && j < |restaurants| && k < restaurants[j].tables.Length
      modifies this, restaurants[j].tables[k]
      ensures Valid() && Repr == old(Repr) && restaurants == old(restaurants)
      ensures booked == (d !in old(Contents)[j].tables[k])
      ensures var ts := old(Contents)[j].tables;
              Contents == old(Contents)[j := old(Contents)[j].(tables := ts[k := AddBooking(ts[k], d)])]
    {
      var restaurant := restaurants[j];
      ghost var previous := Contents;
      booked := restaurant.BookTableAt(k, d);
      Contents := Contents[j := restaurant.View()];
      forall m | 0 <= m < |restaurants|
        ensures restaurants[m].Valid() && Contents[m] == restaurants[m].View()
      {
        if m != j {
          assert restaurant.tables[k] !in restaurants[m].Repr;
        }
      }
    }

    /** Books table `k` of the first restaurant named `name` at `d`. */
    method BookTable(name: string, d: DateTime, k: int) returns (result: Result<bool>)
      requires Valid()
      modifies Repr
      ensures Valid() && Repr == old(Repr) && restaurants == old(restaurants)
      ensures result == BookTableStep(old(Contents), name, d, k).outcome
      ensures Contents == BookTableStep(old(Contents), name, d, k).after
    {
      var j := IndexOf(name);
      if j == |restaurants| {
        return Err(RestaurantNotFound);
      }
      if k < 0 || k >= restaurants[j].tables.Length {
        return Err(InvalidTableNumber);
      }
      var booked := BookAt(j, k, d);
      return Ok(booked);
    }

    /** The labels of all free tables at `d`, by restaurant and then by table. */
    method FindAllFreeTables(d: DateTime) returns (free: seq<string>)
      requires Valid()
      ensures free == FreeLabels(Contents, d)
    {
      free := [];
      for k := 0 to |restaurants|
        invariant free == FreeLabels(Contents[..k], d)
      {
        var labels := FreeTableLabels(restaurants[k], d);
        free := free + labels;
        assert Contents[..k + 1][..k] == Contents[..k];
      }
      assert Contents[..|restaurants|] == Contents;
    }

    /** The inner loop of FindAllFreeTables: the labels of the free tables
        of one restaurant, in table order. */
    method FreeTableLabels(restaurant: Restaurant, d: DateTime) returns (labels: seq<string>)
      requires restaurant.Valid()
      ensures labels == TableLabels(restaurant.name, restaurant.Bookings(), d)
    {
      ghost var tables := restaurant.Bookings();
      labels := [];
      for i := 0 to restaurant.tables.Length
        invariant labels == TableLabels(restaurant.name, tables[..i], d)
      {
        if !restaurant.tables[i].IsBooked(d) {
          labels := labels + [Label(restaurant.name, i + 1)];
        }
        assert tables[..i + 1][..i] == tables[..i];
      }
      assert tables[..restaurant.tables.Length] == tables;
    }

    /** The number of tables of `restaurant` that are free at `d`. */
    method CountAvailableTables(restaurant: Restaurant, d: DateTime) returns (count: nat)
      requires restaurant.Valid()
      ensures count == FreeCount(restaurant.Bookings(), d) == Availability(restaurant.View(), d)
      ensures count <= restaurant.tables.Length
    {
      ghost var tables := restaurant.Bookings();
      count := 0;
      for i := 0 to restaurant.tables.Length
        invariant count == FreeCount(tables[..i], d)
      {
        if !restaurant.tables[i].IsBooked(d) {
          count := count + 1;
        }
        assert tables[..i + 1][..i] == tables[..i];
      }
      assert tables[..restaurant.tables.Length] == tables;
    }

    /** The free tables at `d` of the restaurant at position `i`. */
    method AvailabilityAt(i: nat, d: DateTime) returns (count: nat)
      requires Valid() && i < |restaurants|
      ensures count == Availability(Contents[i], d)
    {
      count := CountAvailableTables(restaurants[i], d);
    }

    /** Exchanges the restaurants at `i` and `i + 1`. */
    method SwapNeighbours(i: nat)
      requires Valid() && i + 1 < |restaurants|
      modifies this
      ensures Valid() && Repr == old(Repr)
      ensures restaurants == Swap(old(restaurants), i)
      ensures multiset(restaurants) == multiset(old(restaurants))
      ensures Contents == Swap(old(Contents), i)
    {
      SwapIsPermutation(restaurants, i);
      var temp := restaurants[i];
      restaurants := restaurants[i := restaurants[i + 1]][i + 1 := temp];
      Contents := Swap(Contents, i);
    }

    /** One step of a pass: swaps the neighbours at `i` and `i + 1` when the
        first has strictly fewer free tables at `d`. */
    method OrderNeighbours(i: nat, d: DateTime) returns (swapped: bool)
      requires Valid() && i + 1 < |restaurants|
      modifies this
      ensures Valid() && Repr == old(Repr)
      ensures |Contents| == |restaurants| == |old(restaurants)|
      ensures multiset(restaurants) == multiset(old(restaurants))
      ensures swapped <==> Availability(old(Contents)[i], d) < Availability(old(Contents)[i + 1], d)
      ensures swapped ==> Contents == Swap(old(Contents), i) && restaurants == Swap(old(restaurants), i)
      ensures !swapped ==> Contents == old(Contents) && restaurants == old(restaurants)
      ensures KeepsTies(Contents, old(Contents), d)
      ensures swapped ==> Inversions(Contents, d) < Inversions(old(Contents), d)
    {
      var current := AvailabilityAt(i, d);
      var next := AvailabilityAt(i + 1, d);
      swapped := current < next;
      if swapped {
        SwapRemovesInversion(Contents, d, i);
        SwapKeepsTies(Contents, d, i);
        SwapNeighbours(i);
      }
    }

    /** One pass of the bubble sort: walks the neighbours left to right and
        swaps each pair with strictly fewer free tables in front. */
    method BubblePass(d: DateTime) returns (swapped: bool)
      requires Valid()
      modifies this
      ensures Valid() && Repr == old(Repr)
      ensures multiset(restaurants) == multiset(old(restaurants))
      ensures KeepsTies(Contents, old(Contents), d)
      ensures swapped ==> Inversions(Contents, d) < Inversions(old(Contents), d)
      ensures !swapped ==> Contents == old(Contents) && AdjacentNonIncreasing(Contents, d)
      ensures Contents == PassFrom(old(Contents), d, 0)
    {
      swapped := false;
      ghost var start := Contents;
      ghost var restaurantsAtStart := restaurants;
      var i := 0;
      while i + 1 < |restaurants|
        invariant Valid() && Repr == old(Repr)
        invariant |Contents| == |restaurants| == |restaurantsAtStart|
        invariant multiset(restaurants) == multiset(restaurantsAtStart)
        invariant PassProgress(Contents, start, d, i, swapped)
        invariant PassFrom(Contents, d, i) == PassFrom(start, d, 0)
        decreases |restaurantsAtStart| - i
      {
        ghost var previous := Contents;
        var swappedHere := OrderNeighbours(i, d);
        PassStep(previous, Contents, start, d, i, swapped, swappedHere);
        PassFromStep(previous, Contents, d, i, swappedHere);
        swapped := swapped || swappedHere;
        i := i + 1;
      }
      if !swapped {
        PassEnd(Contents, start, d, i);
      }
    }

    /** Bubble sort of the restaurants, most free tables at `d` first,
        swapping only neighbours in strictly the wrong order. */
    method SortByAvailability(d: DateTime)
      requires Valid()
      modifies this
      ensures Valid() && Repr == old(Repr)
      ensures multiset(restaurants) == multiset(old(restaurants))
      ensures NonIncreasing(Contents, d)
      ensures KeepsTies(Contents, old(Contents), d)
      ensures multiset(Contents) == multiset(old(Contents))
      ensures Contents == StableSortByAvailability(old(Contents), d)
    {
      var swapped := true;
      while swapped
        invariant Valid() && Repr == old(Repr)
        invariant multiset(restaurants) == multiset(old(restaurants))
        invariant KeepsTies(Contents, old(Contents), d)
        invariant !swapped ==> NonIncreasing(Contents, d)
        decreases Inversions(Contents, d), swapped
      {
        ghost var previous := Contents;
        swapped := BubblePass(d);
        KeepsTiesTransitive(Contents, previous, old(Contents), d);
        if !swapped {
          AdjacentOrderIsOrder(Contents, d);
        }
      }
      SortedAndStableIsStableSort(Contents, old(Contents), d);
      StableSortProperties(old(Contents), d);
    }
  }

  /** The demonstration: two restaurants, then the same booking twice. */
  method Scenario() returns (first: Result<bool>, second: Result<bool>)
    ensures first == Ok(true) && second == Ok(false)
  {
    var manager := new ReservationManager();
    manager.AddRestaurant("A", 10);
    manager.AddRestaurant("B", 5);
    // new DateTime(2023, 12, 25): 738878 days after 0001-01-01, 864000000000 ticks a day.
    var christmas := DateTime(638390592000000000);
    first := manager.BookTable("A", christmas, 3);
    second := manager.BookTable("A", christmas, 3);
  }
}
