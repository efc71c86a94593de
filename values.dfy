/**
 * The values behind the table-reservation domain: booking instants, the
 * booked-date list of one table, the view of a restaurant (its name and the
 * booked dates of each of its tables), and the functions that say what
 * adding a restaurant, booking a table, counting free tables and listing
 * free tables compute. The classes in module Reservation are proved
 * against these functions.
 */
module ReservationValues {

  /** A booking instant. Only equality is ever used on it; .NET compares
      DateTime values by their tick count. */
  datatype DateTime = DateTime(ticks: int)

  datatype Option<T> = None | Some(value: T)

  /** Why BookTable fails. The source throws the same `Exception(null)` in
      both cases; the two are told apart here by the source's comments. */
  datatype BookError = InvalidTableNumber | RestaurantNotFound

  datatype Result<T> = Ok(value: T) | Err(error: BookError)

  /** The dates booked for one table, oldest first. */
  type Bookings = seq<DateTime>

  ghost predicate NoDuplicates(bs: Bookings) {
    forall i, j :: 0 <= i < j < |bs| ==> bs[i] != bs[j]
  }

  /** The booked dates of a table after it is asked to book `d`. */
  function AddBooking(bs: Bookings, d: DateTime): (r: Bookings)
    ensures d in r
    ensures forall e :: e in r <==> e == d || e in bs
    ensures |r| == if d in bs then |bs| else |bs| + 1
    ensures r[..|bs|] == bs
    ensures NoDuplicates(bs) ==> NoDuplicates(r)
  {
    if d in bs then bs else bs + [d]
  }

  /** A restaurant as seen from outside: its name and, per table in index
      order, the dates booked for that table. */
  datatype RestaurantView = RestaurantView(name: string, tables: seq<Bookings>)

  /** The booked-date lists of `n` newly made tables. */
  function EmptyTables(n: nat): (ts: seq<Bookings>)
    ensures |ts| == n
    ensures forall i :: 0 <= i < n ==> ts[i] == []
  {
    seq(n, _ => [])
  }

  // ---------------------------------------------------------------------
  // Counting free tables

  /** The number of tables that are not booked at `d`. */
  function FreeCount(ts: seq<Bookings>, d: DateTime): (n: nat)
    ensures n <= |ts|
    decreases |ts|
  {
    if ts == [] then 0
    else FreeCount(ts[..|ts| - 1], d) + (if d in ts[|ts| - 1] then 0 else 1)
  }

  /** The indices of the tables that are not booked at `d`. */
  ghost function FreeIndices(ts: seq<Bookings>, d: DateTime): set<nat> {
    set i: nat | i < |ts| && d !in ts[i]
  }

  /** FreeCount counts exactly the free tables. */
  lemma {:induction false} FreeCountIsNumberOfFreeTables(ts: seq<Bookings>, d: DateTime)
    ensures FreeCount(ts, d) == |FreeIndices(ts, d)|
    decreases |ts|
  {
    if ts != [] {
      var n := |ts| - 1;
      var p := ts[..n];
      FreeCountIsNumberOfFreeTables(p, d);
      var extra: set<nat> := if d in ts[n] then {} else {n};
      assert FreeIndices(ts, d) == FreeIndices(p, d) + extra;
      assert n !in FreeIndices(p, d);
    }
  }

  /** All `n` tables of a newly added restaurant are free, whatever the date. */
  lemma {:induction false} EmptyTablesAreFree(n: nat, d: DateTime)
    ensures FreeCount(EmptyTables(n), d) == n
    decreases n
  {
    if n > 0 {
      assert EmptyTables(n)[..n - 1] == EmptyTables(n - 1);
      EmptyTablesAreFree(n - 1, d);
    }
  }

  /** Booking `d` on table `k` takes that table out of the count for `d` if
      it was free, and leaves the count for every other date alone. */
  lemma {:induction false} BookingChangesFreeCount(ts: seq<Bookings>, k: nat, d: DateTime, e: DateTime)
    requires k < |ts|
    ensures FreeCount(ts[k := AddBooking(ts[k], d)], e)
         == if e == d && d !in ts[k] then FreeCount(ts, e) - 1 else FreeCount(ts, e)
    decreases |ts|
  {
    var ts' := ts[k := AddBooking(ts[k], d)];
    var n := |ts| - 1;
    if k == n {
      assert ts'[..n] == ts[..n];
    } else {
      assert ts'[..n] == ts[..n][k := AddBooking(ts[k], d)];
      BookingChangesFreeCount(ts[..n], k, d, e);
    }
  }

  // ---------------------------------------------------------------------
  // Labels of free tables

  function DigitChar(k: nat): (c: char)
    requires k < 10
  {
    ('0' as int + k) as char
  }

  function DigitValue(c: char): nat {
    if '0' <= c <= '9' then c as int - '0' as int else 0
  }

  /** The decimal rendering of `n`, as C# string interpolation renders a
      non-negative int. */
  function NatToString(n: nat): (s: string)
    ensures |s| >= 1
    ensures forall i :: 0 <= i < |s| ==> '0' <= s[i] <= '9'
    decreases n
  {
    if n < 10 then [DigitChar(n)] else NatToString(n / 10) + [DigitChar(n % 10)]
  }

  /** The number a string of decimal digits stands for. */
  function DecimalValue(s: string): nat
    decreases |s|
  {
    if s == [] then 0 else 10 * DecimalValue(s[..|s| - 1]) + DigitValue(s[|s| - 1])
  }

  /** Reading back the rendering of `n` gives `n`. */
  lemma {:induction false} DecimalValueOfNatToString(n: nat)
    ensures DecimalValue(NatToString(n)) == n
    decreases n
  {
    var s := NatToString(n);
    if n >= 10 {
      assert s[..|s| - 1] == NatToString(n / 10);
      DecimalValueOfNatToString(n / 10);
    }
  }

  /** The label of the table numbered `number` (1-based) of restaurant `name`. */
  function Label(name: string, number: nat): (l: string)
    ensures |l| == |name| + 9 + |NatToString(number)|
    ensures l[..|name|] == name && l[|name|..|name| + 9] == " - Table "
    ensures l[|name| + 9..] == NatToString(number)
  {
    name + " - Table " + NatToString(number)
  }

  /** Two tables of one restaurant never share a label. */
  lemma LabelInjective(name: string, i: nat, j: nat)
    requires Label(name, i) == Label(name, j)
    ensures i == j
  {
    var p := name + " - Table ";
    assert Label(name, i)[|p|..] == NatToString(i);
    assert Label(name, j)[|p|..] == NatToString(j);
    DecimalValueOfNatToString(i);
    DecimalValueOfNatToString(j);
  }

  /** The labels of the free tables of one restaurant, in table order. */
  function TableLabels(name: string, ts: seq<Bookings>, d: DateTime): (ls: seq<string>)
    ensures |ls| == FreeCount(ts, d)
    decreases |ts|
  {
    if ts == [] then []
    else TableLabels(name, ts[..|ts| - 1], d) + (if d in ts[|ts| - 1] then [] else [Label(name, |ts|)])
  }

  /** A table's label is listed exactly when that table is free. */
  lemma {:induction false} TableLabelsMembership(name: string, ts: seq<Bookings>, d: DateTime, number: nat)
    ensures Label(name, number) in TableLabels(name, ts, d)
        <==> 1 <= number <= |ts| && d !in ts[number - 1]
    decreases |ts|
  {
    if ts != [] {
      var n := |ts|;
      var p := ts[..n - 1];
      TableLabelsMembership(name, p, d, number);
      if Label(name, number) == Label(name, n) {
        LabelInjective(name, number, n);
      }
      if 1 <= number < n {
        assert p[number - 1] == ts[number - 1];
      }
    }
  }

  /** The sum of the free-table counts of the restaurants. */
  function TotalFree(vs: seq<RestaurantView>, d: DateTime): nat
    decreases |vs|
  {
    if vs == [] then 0 else TotalFree(vs[..|vs| - 1], d) + FreeCount(vs[|vs| - 1].tables, d)
  }

  /** The labels of all free tables: restaurant order first, then table order. */
  function FreeLabels(vs: seq<RestaurantView>, d: DateTime): (ls: seq<string>)
    ensures |ls| == TotalFree(vs, d)
    decreases |vs|
  {
    if vs == [] then []
    else FreeLabels(vs[..|vs| - 1], d) + TableLabels(vs[|vs| - 1].name, vs[|vs| - 1].tables, d)
  }

  /** The free tables of earlier restaurants come before those of later ones. */
  lemma {:induction false} FreeLabelsAppend(vs: seq<RestaurantView>, ws: seq<RestaurantView>, d: DateTime)
    ensures FreeLabels(vs + ws, d) == FreeLabels(vs, d) + FreeLabels(ws, d)
    decreases |ws|
  {
    if ws == [] {
      assert vs + ws == vs;
    } else {
      var n := |ws| - 1;
      assert (vs + ws)[..|vs + ws| - 1] == vs + ws[..n];
      assert (vs + ws)[|vs + ws| - 1] == ws[n];
      FreeLabelsAppend(vs, ws[..n], d);
    }
  }

  /** One restaurant "A" with three tables, table index 1 booked at `d`. */
  lemma FreeLabelsExample(d: DateTime, e: DateTime)
    requires e != d
    ensures FreeLabels([RestaurantView("A", [[], [d], []])], d) == ["A - Table 1", "A - Table 3"]
    ensures |FreeLabels([RestaurantView("A", [[], [d], []])], e)| == 3
  {
    var ts: seq<Bookings> := [[], [d], []];
    var v := RestaurantView("A", ts);
    assert [v][..0] == [];
    assert ts[..2] == [[], [d]];
    assert ts[..2][..1] == [[]];
    assert ts[..2][..1][..0] == [];
    assert NatToString(1) == "1";
    assert NatToString(2) == "2";
    assert NatToString(3) == "3";
    assert Label("A", 1) == "A - Table 1";
    assert Label("A", 2) == "A - Table 2";
    assert Label("A", 3) == "A - Table 3";
    assert TableLabels("A", ts[..2][..1], d) == ["A - Table 1"];
    assert TableLabels("A", ts[..2], d) == ["A - Table 1"];
    assert TableLabels("A", ts, d) == ["A - Table 1", "A - Table 3"];
    assert TableLabels("A", ts[..2][..1], e) == ["A - Table 1"];
    assert TableLabels("A", ts[..2], e) == ["A - Table 1", "A - Table 2"];
    assert |TableLabels("A", ts, e)| == 3;
  }

  // ---------------------------------------------------------------------
  // Adding a restaurant and booking a table

  /** The restaurants after AddRestaurantMethod(name, n): a negative `n`
      makes the array allocation throw, which is caught, so nothing changes. */
  function AddRestaurantStep(vs: seq<RestaurantView>, name: string, n: int): (r: seq<RestaurantView>)
    ensures n < 0 ==> r == vs
    ensures n >= 0 ==> |r| == |vs| + 1 && r[..|vs|] == vs
    ensures n >= 0 ==> r[|vs|].name == name && |r[|vs|].tables| == n
                       && forall i :: 0 <= i < n ==> r[|vs|].tables[i] == []
  {
    if n < 0 then vs else vs + [RestaurantView(name, EmptyTables(n))]
  }

  /** The index of the first restaurant whose name equals `name` exactly. */
  function FindRestaurant(vs: seq<RestaurantView>, name: string): (r: Option<nat>)
    ensures r.Some? ==> r.value < |vs| && vs[r.value].name == name
    ensures r.Some? ==> forall m :: 0 <= m < r.value ==> vs[m].name != name
    ensures r.None? <==> forall m :: 0 <= m < |vs| ==> vs[m].name != name
    decreases |vs|
  {
    if vs == [] then None
    else if vs[0].name == name then Some(0)
    else match FindRestaurant(vs[1..], name)
      case None => None
      case Some(j) => Some(j + 1)
  }

  /** A restaurant added under a name already present is never the one found. */
  lemma AddingDuplicateNameKeepsFirst(vs: seq<RestaurantView>, name: string, n: int)
    requires FindRestaurant(vs, name).Some?
    ensures FindRestaurant(AddRestaurantStep(vs, name, n), name) == FindRestaurant(vs, name)
  {
    assert forall m :: 0 <= m < |vs| ==> AddRestaurantStep(vs, name, n)[m] == vs[m];
  }

  /** A restaurant added under a new name is found, with all its tables free. */
  lemma AddedRestaurantIsFound(vs: seq<RestaurantView>, name: string, n: nat, d: DateTime)
    requires FindRestaurant(vs, name).None?
    ensures FindRestaurant(AddRestaurantStep(vs, name, n), name) == Some(|vs|)
    ensures FreeCount(AddRestaurantStep(vs, name, n)[|vs|].tables, d) == n
  {
    var ws := AddRestaurantStep(vs, name, n);
    assert ws[|vs|].name == name;
    assert forall m :: 0 <= m < |vs| ==> ws[m] == vs[m];
    EmptyTablesAreFree(n, d);
  }

  /** The outcome of BookTable and the restaurants after it. */
  datatype BookStep = BookStep(outcome: Result<bool>, after: seq<RestaurantView>)

  /** BookTable(name, d, k): the first restaurant named `name`, then table
      `k` of it, then that table's Book(d). */
  function BookTableStep(vs: seq<RestaurantView>, name: string, d: DateTime, k: int): (r: BookStep)
    ensures |r.after| == |vs|
    ensures forall m :: 0 <= m < |vs| ==> r.after[m].name == vs[m].name && |r.after[m].tables| == |vs[m].tables|
    ensures r.outcome.Err? ==> r.after == vs
  {
    match FindRestaurant(vs, name)
    case None => BookStep(Err(RestaurantNotFound), vs)
    case Some(j) =>
      if k < 0 || k >= |vs[j].tables| then BookStep(Err(InvalidTableNumber), vs)
      else
        var ts := vs[j].tables;
        BookStep(Ok(d !in ts[k]), vs[j := vs[j].(tables := ts[k := AddBooking(ts[k], d)])])
  }

  /** The two failures, exactly when they happen; a failure changes nothing. */
  lemma BookTableFailures(vs: seq<RestaurantView>, name: string, d: DateTime, k: int)
    ensures BookTableStep(vs, name, d, k).outcome == Err(RestaurantNotFound)
        <==> forall m :: 0 <= m < |vs| ==> vs[m].name != name
    ensures BookTableStep(vs, name, d, k).outcome == Err(InvalidTableNumber)
        <==> exists j :: FindRestaurant(vs, name) == Some(j) && (k < 0 || k >= |vs[j].tables|)
    ensures BookTableStep(vs, name, d, k).outcome.Err? ==> BookTableStep(vs, name, d, k).after == vs
  {
  }

  /** A successful booking returns whether the table was free at `d` and
      changes table `k` of the first restaurant named `name` and nothing else. */
  lemma BookTableSuccess(vs: seq<RestaurantView>, name: string, d: DateTime, k: int, j: nat)
    requires FindRestaurant(vs, name) == Some(j)
    requires 0 <= k < |vs[j].tables|
    ensures BookTableStep(vs, name, d, k).outcome == Ok(d !in vs[j].tables[k])
    ensures var after := BookTableStep(vs, name, d, k).after;
      && |after| == |vs|
      && (forall m :: 0 <= m < |vs| ==> after[m].name == vs[m].name && |after[m].tables| == |vs[m].tables|)
      && (forall m, i :: 0 <= m < |vs| && 0 <= i < |vs[m].tables| && (m != j || i != k) ==>
            after[m].tables[i] == vs[m].tables[i])
      && after[j].tables[k] == AddBooking(vs[j].tables[k], d)
  {
  }

  /** Booking the same restaurant, date and table twice: the second call
      returns false and changes nothing. */
  lemma BookTableTwice(vs: seq<RestaurantView>, name: string, d: DateTime, k: int)
    requires BookTableStep(vs, name, d, k).outcome.Ok?
    ensures var after := BookTableStep(vs, name, d, k).after;
      BookTableStep(after, name, d, k) == BookStep(Ok(false), after)
  {
    var j := FindRestaurant(vs, name).value;
    var after := BookTableStep(vs, name, d, k).after;
    assert forall m :: 0 <= m < |vs| ==> after[m].name == vs[m].name;
    assert FindRestaurant(after, name) == Some(j);
    var ts := after[j].tables;
    assert d in ts[k];
    assert ts[k := AddBooking(ts[k], d)] == ts;
    assert after[j := after[j].(tables := ts)] == after;
  }

  /** A successful booking takes one table of that restaurant out of its
      availability at `d` if it was free, and its availability at any other
      date is unchanged. */
  lemma BookTableAvailability(vs: seq<RestaurantView>, name: string, d: DateTime, k: int, e: DateTime)
    requires BookTableStep(vs, name, d, k).outcome.Ok?
    ensures var j := FindRestaurant(vs, name).value;
      var after := BookTableStep(vs, name, d, k).after;
      |after| == |vs| &&
      FreeCount(after[j].tables, e)
        == if e == d && BookTableStep(vs, name, d, k).outcome == Ok(true)
           then FreeCount(vs[j].tables, e) - 1 else FreeCount(vs[j].tables, e)
  {
    var j := FindRestaurant(vs, name).value;
    BookingChangesFreeCount(vs[j].tables, k, d, e);
  }
}
