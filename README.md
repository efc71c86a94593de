# Table reservation, modelled in Dafny

This project models the table-reservation domain of `Lab_7.1/Program.cs`. It has three parts:

- A **table** (`RestaurantTableClass`) keeps the list of dates booked on it. `Book` refuses a date that is already there and appends any other date. `IsBooked` tests membership.
- A **restaurant** (`RestaurantClass`) is a name plus a fixed array of tables.
- The **reservation manager** (`ReservationManagerClass`) keeps an ordered list of restaurants. It can:
  - add a restaurant with `n` new tables;
  - book table `k` of the first restaurant with a given name;
  - count the free tables of one restaurant at a date;
  - list the labels `"<name> - Table <k+1>"` of every free table;
  - bubble-sort its restaurants so the ones with the most free tables come first.

The model is split into three modules:

- `Reservation` (`reservation.dfy`) holds the objects themselves. `Table`, `Restaurant` and `ReservationManager` are classes whose fields their methods update in place. Each class has a `Valid()` invariant and a `Repr` footprint.
  - Every restaurant owns its array and its tables.
  - No two restaurants share an object.
  - The manager's ghost field `Contents` is the value of its restaurants: one `RestaurantView` each, holding the name and each table's booked dates.
  - Every mutating method states its new `Contents` through a value-level function. Every query states its result through one.
- `ReservationValues` (`values.dfy`) holds the value-level functions and their lemmas:
  - `AddBooking`, `FreeCount`, `TableLabels`/`FreeLabels`, `FindRestaurant`, `AddRestaurantStep` and `BookTableStep`;
  - lemmas on what they mean: counts against set sizes, label membership, the failure and success cases of booking, booking twice.
- `AvailabilityOrder` (`ordering.dfy`) says what the sort must achieve:
  - the order: non-increasing availability;
  - stability: each group of restaurants with equal availability keeps its order;
  - the inversion count, which every swap lowers by exactly one;
  - a reference stable insertion sort.

  A list that is ordered and stable is proved equal to the reference sort's result. The bubble sort is then proved to produce exactly that list.

Booking instants are only ever compared for equality, so `DateTime` is a datatype holding a tick count. .NET also compares `DateTime` values by their ticks.

## Model

| member | source | states |
|---|---|---|
| Reservation.Table.constructor | Lab_7.1/Program.cs:184-187 | a new table has no booked dates |
| Reservation.Table.Book | Lab_7.1/Program.cs:190-207 | true exactly when `d` was not booked; then `d` is appended at the end, otherwise the list is unchanged; afterwards `IsBooked(d)`, every other date's `IsBooked` is unchanged, and the list still holds no duplicate |
| Reservation.Table.IsBooked | Lab_7.1/Program.cs:210-213 | true exactly when some position of the booked-date list holds `d` |
| ReservationValues.AddBooking | Lab_7.1/Program.cs:194-200 | the dates after a `Book(d)`: `d` is among them, they are the old dates and `d`, the old list is a prefix, they grow by one exactly when `d` was new, and a duplicate-free list stays duplicate-free |
| Reservation.NewTables | Lab_7.1/Program.cs:36-40 | an array of `n` distinct, newly allocated tables, none with a booked date |
| Reservation.Restaurant.constructor | Lab_7.1/Program.cs:34-40 | a restaurant with the given name and `n` tables, each with no booked dates, owning only new objects |
| Reservation.Restaurant.BookTableAt | Lab_7.1/Program.cs:111 | booking table `k` returns whether it was free at `d`, and only table `k`'s dates change, to `AddBooking` of the old dates |
| Reservation.ReservationManager.constructor | Lab_7.1/Program.cs:24-27 | a manager with no restaurants |
| Reservation.ReservationManager.Append | Lab_7.1/Program.cs:41 | the restaurant is added at the end; all earlier restaurants are kept in order and the ownership invariant still holds |
| Reservation.ReservationManager.AddRestaurant | Lab_7.1/Program.cs:30-47 | for `n >= 0`, exactly one new restaurant named `name` with `n` unbooked tables is appended and earlier entries are kept; for `n < 0` nothing changes; duplicate names are accepted |
| ReservationValues.AddRestaurantStep | Lab_7.1/Program.cs:30-47 | the restaurants after adding: unchanged for a negative count; otherwise the old list followed by one restaurant with that name and `n` tables with nothing booked |
| ReservationValues.EmptyTablesAreFree | Lab_7.1/Program.cs:36-40 | all `n` tables of a newly added restaurant are free at every date |
| ReservationValues.FindRestaurant | Lab_7.1/Program.cs:102-104 | the index of the first restaurant whose name equals `name` exactly; none is found exactly when no name matches |
| ReservationValues.AddingDuplicateNameKeepsFirst | Lab_7.1/Program.cs:30-41 | adding a restaurant whose name is already present does not change which restaurant a lookup by that name finds |
| ReservationValues.AddedRestaurantIsFound | Lab_7.1/Program.cs:34-41 | a restaurant added under a new name is found at the end of the list, and all `n` of its tables are free |
| ReservationValues.BookTableStep | Lab_7.1/Program.cs:100-116 | the outcome and restaurants after a booking: same number of restaurants, every name and table count kept, and nothing changed on either failure |
| Reservation.ReservationManager.IndexOf | Lab_7.1/Program.cs:102-104 | the search loop stops at the first restaurant named `name`, or runs off the end exactly when there is none |
| Reservation.ReservationManager.BookAt | Lab_7.1/Program.cs:111 | booking table `k` of restaurant `j` returns whether it was free and changes only that table's dates; the list and the ownership invariant are unchanged |
| Reservation.ReservationManager.BookTable | Lab_7.1/Program.cs:100-116 | the result and the new restaurants are those of `BookTableStep`: not-found, bad index, or the table's `Book` result with only that table changed |
| ReservationValues.BookTableFailures | Lab_7.1/Program.cs:106-115 | "restaurant not found" exactly when no name matches; "invalid table number" exactly when the first match has no table `k`; either failure leaves every restaurant unchanged |
| ReservationValues.BookTableSuccess | Lab_7.1/Program.cs:104-111 | on success the answer is whether table `k` was free; every other table of every restaurant and every name stay the same, and table `k` gets `AddBooking` of its dates |
| ReservationValues.BookTableTwice | Lab_7.1/Program.cs:111 | repeating a successful booking with the same name, date and table returns false and changes nothing |
| ReservationValues.BookTableAvailability | Lab_7.1/Program.cs:111 | a booking that returns true lowers that restaurant's free count at `d` by one; a booking never changes the free count at any other date |
| ReservationValues.BookingChangesFreeCount | Lab_7.1/Program.cs:194-200 | adding a date to one table changes the free count only for that date, and only if the table was free |
| ReservationValues.FreeCountIsNumberOfFreeTables | Lab_7.1/Program.cs:153-161 | the free count is the number of table indices whose dates do not contain `d` |
| Reservation.ReservationManager.CountAvailableTables | Lab_7.1/Program.cs:149-168 | the count loop returns the number of unbooked tables of the restaurant at `d`, between 0 and the number of tables, and changes no state |
| Reservation.ReservationManager.AvailabilityAt | Lab_7.1/Program.cs:128-129 | the free-table count of the restaurant at position `i`, read from the manager's list |
| ReservationValues.NatToString | Lab_7.1/Program.cs:87 | a table number is rendered as a non-empty string of decimal digits |
| ReservationValues.DecimalValueOfNatToString | Lab_7.1/Program.cs:87 | reading the rendered table number back gives the number |
| ReservationValues.Label | Lab_7.1/Program.cs:87 | a label is the restaurant's name, then `" - Table "`, then the decimal table number |
| ReservationValues.LabelInjective | Lab_7.1/Program.cs:87 | two tables of one restaurant never get the same label |
| ReservationValues.TableLabels | Lab_7.1/Program.cs:83-89 | one restaurant yields as many labels as it has free tables |
| ReservationValues.TableLabelsMembership | Lab_7.1/Program.cs:83-89 | `"<name> - Table <number>"` is listed exactly when `1 <= number <= tables` and table `number - 1` is free at `d` |
| ReservationValues.FreeLabels | Lab_7.1/Program.cs:80-91 | the whole list has as many labels as the restaurants have free tables in total |
| ReservationValues.FreeLabelsAppend | Lab_7.1/Program.cs:81-90 | the labels of earlier restaurants all come before those of later ones |
| ReservationValues.FreeLabelsExample | Lab_7.1/Program.cs:83-88 | restaurant "A" with three tables, table index 1 booked at `d`, lists "A - Table 1" and "A - Table 3" at `d`, and three labels at any other date |
| Reservation.ReservationManager.FreeTableLabels | Lab_7.1/Program.cs:83-89 | the inner loop returns exactly the labels of the free tables of one restaurant, in table order, and changes no state |
| Reservation.ReservationManager.FindAllFreeTables | Lab_7.1/Program.cs:76-98 | the loops return exactly `FreeLabels` of the current restaurants (restaurant order first, then table order) and change no state |
| AvailabilityOrder.AdjacentOrderIsOrder | Lab_7.1/Program.cs:126-140 | neighbours in order exactly when the whole list is non-increasing in availability |
| AvailabilityOrder.SwapIsPermutation | Lab_7.1/Program.cs:134-136 | swapping two neighbours only rearranges the list |
| AvailabilityOrder.SwapRemovesInversion | Lab_7.1/Program.cs:131-137 | swapping neighbours with strictly fewer free tables in front lowers the inversion count by exactly one |
| AvailabilityOrder.SwapKeepsTies | Lab_7.1/Program.cs:131-137 | such a swap keeps every group of equally available restaurants in its order |
| Reservation.ReservationManager.SwapNeighbours | Lab_7.1/Program.cs:134-136 | the restaurants at `i` and `i + 1` trade places, nothing else changes, and the list is a permutation of the old one |
| Reservation.ReservationManager.OrderNeighbours | Lab_7.1/Program.cs:128-138 | it swaps exactly when the restaurant at `i` has strictly fewer free tables than the one at `i + 1`; a swap exchanges exactly those two, in both the list and `Contents`, lowers the inversion count and keeps ties in order; otherwise nothing changes |
| AvailabilityOrder.PassStep | Lab_7.1/Program.cs:126-139 | each step of a pass keeps tie groups in order, and either some swap lowered the inversion count or nothing moved and the neighbours up to the position are in order |
| AvailabilityOrder.PassEnd | Lab_7.1/Program.cs:125-140 | a pass that made no swap leaves the list unchanged and ordered |
| AvailabilityOrder.PassFrom | Lab_7.1/Program.cs:126-139 | the list one left-to-right pass produces from position `i`: same length, a permutation of its input |
| AvailabilityOrder.PassFromStep | Lab_7.1/Program.cs:128-138 | the step at `i`, swap or not, followed by the rest of the pass is the pass from `i` |
| Reservation.ReservationManager.BubblePass | Lab_7.1/Program.cs:125-139 | the new list is exactly `PassFrom` of the old one from position 0; one pass keeps the restaurants a permutation with tie groups in order; if it swapped, the inversion count fell; otherwise nothing changed and the list is ordered |
| AvailabilityOrder.StableSortProperties | Lab_7.1/Program.cs:118-140 | the reference insertion sort is non-increasing in availability, a permutation, and keeps tie groups in order |
| AvailabilityOrder.OrderedByTiesIsUnique | Lab_7.1/Program.cs:118-140 | two non-increasing lists with the same tie groups are equal |
| AvailabilityOrder.SortedAndStableIsStableSort | Lab_7.1/Program.cs:118-140 | any non-increasing, tie-keeping rearrangement is the reference sort's result |
| AvailabilityOrder.SortExample | Lab_7.1/Program.cs:118-140 | A (2 free), B (2 free), C (5 free) become C, A, B: C moves up and A stays before B |
| Reservation.ReservationManager.SortByAvailability | Lab_7.1/Program.cs:118-146 | the bubble sort ends, its `decreases` being the inversion count and then the flag; it leaves the restaurants a permutation, non-increasing in availability, with tie groups in their old order, equal to the reference stable sort; only the manager's list changes, so no booking moves |
| Reservation.Scenario | Lab_7.1/Program.cs:9-14 | after adding "A" with 10 tables and "B" with 5, booking table 3 of "A" on 2023-12-25 returns true and the same booking again returns false |

## Left out

- `LoadRestaurantsFromFileMethod` (Lab_7.1/Program.cs:51-73) is not modelled. It reads a file and parses integers with `int.TryParse`, and it is private and never called.
- Console output is not modelled. Each catch-and-print block either returns its default value or changes nothing. The catch blocks that cannot be reached in the modelled states are left out. Their possible causes are these:
  - `FindAllFreeTables` and the count (Lab_7.1/Program.cs:93-97, 163-167): a null restaurant, array or table.
  - `Book` (Lab_7.1/Program.cs:202-206): an allocation failure in `List.Add`, since `bookedDates` is private and never null.
  - The sort (Lab_7.1/Program.cs:142-145): a null `result`. A null table is already caught inside the count, which then answers 0.

  All of these lie outside the modelled states. `Valid()` rules out null references, and allocation never fails in Dafny. A null table passed to `BookTable` throws at Lab_7.1/Program.cs:111, outside any `try`; that case is ruled out too.
- The one catch that can be reached is `AddRestaurantMethod`'s, when the negative array length is rejected. It is modelled as "nothing changes".
- `Main` is modelled as `Scenario`, without its output.
- Null references are not modelled. A restaurant must have a non-null array of distinct, non-null tables, and no two restaurants may share an object. `AddRestaurantMethod` only ever builds such restaurants. The public fields of `RestaurantClass` would let other code build others, but no code in `Program.cs` does.
- Both failures of `BookTable` throw the same `Exception(null)` (Lab_7.1/Program.cs:108 and 115). Here they are two distinct error values, `InvalidTableNumber` and `RestaurantNotFound`, named after the source's comments. The exception itself is not modelled.
- Program.cs behaves as follows, and the model follows it:
  - names are compared exactly and case-sensitively;
  - duplicate names are accepted;
  - a restaurant may have 0 tables;
  - a negative table count is swallowed rather than reported.
- `int` overflow is not modelled. Counts and table numbers are unbounded here. In the source they are bounded by an array length, so they cannot overflow.
- Real date and time semantics are not modelled. A `DateTime` is only a tick count compared for equality.
- Some loops are restructured: each is split so that every piece can be specified on its own.
  - `BookTable`'s `foreach` becomes `IndexOf` (the search) followed by `BookAt`/`Restaurant.BookTableAt` (the delegated `Book`).
  - The table-filling `for` loop of `AddRestaurantMethod` is `NewTables`, called by the `Restaurant` constructor.
  - The body of the sort's inner loop is `OrderNeighbours`, and one pass of it is `BubblePass`.
  - The inner loop of `FindAllFreeTables` is `FreeTableLabels`.
  - The `do … while (swapped)` becomes a `while (swapped)` whose flag starts out true.
- The two unit-test files target a different API and are not modelled.
