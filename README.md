# Parking-lot occupancy engine

A Dafny model of the occupancy engine of a small Flask parking application
(`app.py`). An administrator creates, resizes and deletes parking lots; a user
books the first free spot of a lot and later releases it, paying for the time
parked. The engine keeps four tables: lots, spots, reservations and history.
Each lot caches `available`, its number of free spots. The central invariant is
that, for every lot, `available` is the number of its spots with status `'A'`
and `0 <= available <= max_spots`.

- `model.dfy` (module `ParkingModel`) holds the rows as datatypes (`Lot`,
  `Spot`, `Reservation`, `HistoryRecord`; spot status `'A'`/`'O'` is
  `Free`/`Occupied`). It also holds the counting and lookup functions, the
  store invariant `Inv`, and one lemma per handler proving the invariant is
  kept.
- `store.dfy` (module `ParkingApp`) holds the class `ParkingStore`. Its fields
  are the four tables and the two id counters. Each route handler that changes
  state becomes a method: `CreateLot`, `Book`, `Release`, `Resize` and
  `DeleteLot`. Each method states its whole new state in terms of the old one,
  the two id counters included. Every method keeps `Valid()` except the two
  as-written models `CreateLotUnchecked` and `ReleaseUnchecked`, which say
  exactly when they break it. The handlers' loops stay loops: `AddFreeSpots` is the
  spot-creating loop, and `DropFreeSpots` is the shrink loop with its `cnt`
  countdown and `break`.
- `scenarios.dfy` (module `ParkingScenarios`) holds client methods that rely
  only on the contracts. One books a spot, releases it after two hours, then
  releases it again. One resizes a lot around two occupied spots. One grows a lot
  and checks the new spots' ids. One deletes a lot after its last spot is
  released.

The caller's user id and the current time are method parameters. Times are
whole seconds. Prices and costs are integers in minor currency units. The
invariant also covers these facts:

- each lot has exactly `max_spots` spots;
- spot ids ascend and every spot belongs to an existing lot;
- every open reservation holds an existing occupied spot;
- no spot is held by two open reservations;
- there is one history row per closed reservation.

The handlers report no error in these cases, and the model follows them:

- A release of a missing or foreign reservation does nothing: `Release`
  returns `None`.
- A booking in a missing or full lot does nothing: `Book` returns `None`.
- A negative resize falls into the "below occupied" case, so `Resize` returns
  `CapacityConflict`.

`ReleaseUnchecked` models `release_spot` as written. It does not check that the
reservation is still open. `Release` adds that check and is a no-op on a closed
reservation; the check is not a precondition. `CreateLotUnchecked` models
`create_lot` as written. `CreateLot` refuses a negative capacity. See Findings.

## Model

| member | source | states |
|---|---|---|
| `ParkingModel.CountFree` | app.py:33-34 | a lot's free-spot count never exceeds its spot count, so a ledger equal to the counts has `0 <= available <= max_spots` |
| `ParkingModel.CountSetStatus` | app.py:189-190 | changing one spot's status keeps every lot's spot count and moves its own lot's free count by exactly the status change |
| `ParkingModel.SpotIndexOf` | app.py:206-208 | the `reservation.spot` lookup returns the position of the spot with that id, or None when no spot has it |
| `ParkingModel.FirstFree` | app.py:187 | the booking query returns a Free spot of the lot with no Free spot of the lot before it, or None when the lot has no Free spot |
| `ParkingModel.FirstFreeNoneIffNoneFree` | app.py:187-197 | the booking query finds nothing exactly when the lot's free count is zero |
| `ParkingModel.FreshSpots` | app.py:108-109 | the spots created for a lot are `n` Free spots of that lot with consecutive new ids |
| `ParkingModel.FreshSpotsCount` | app.py:164-165 | adding `n` fresh spots adds `n` to the lot's spot and free counts and nothing to other lots |
| `ParkingModel.DropFree` | app.py:156-162 | the shrink loop removes only Free spots of the lot: every spot that is occupied or in another lot survives, and no spot is added |
| `ParkingModel.DropFreeCount` | app.py:155-162 | when the lot has at least `k` Free spots, the shrink removes exactly `k` spots, all from the lot's free count, and no other count moves |
| `ParkingModel.DropFreeAscending` | app.py:157-161 | deleting spots keeps the remaining spots in id order |
| `ParkingModel.WithoutLot` | app.py:128 | deleting a lot leaves exactly the spots of the other lots |
| `ParkingModel.WithoutLotCount` | app.py:35 | the lot cascade leaves every other lot's spot and free counts unchanged |
| `ParkingModel.WithoutLotAscending` | app.py:128 | the lot cascade keeps the remaining spots in id order |
| `ParkingModel.CountClosedSet` | app.py:204 | closing one open reservation adds exactly one to the number of closed reservations |
| `ParkingModel.OpenReservationsOf` | app.py:179 | the dashboard's open-reservation list holds exactly the ids of the user's reservations without a leaving time |
| `ParkingModel.HasOccupiedIffCountsDiffer` | app.py:123 | the delete check "some spot of the lot is occupied" holds exactly when the lot's free count is below its spot count, so under the ledger exactly when `available < max_spots` |
| `ParkingModel.Cost` | app.py:205-206 | the cost is elapsed seconds times the hourly price over 3600, rounded to the nearest minor unit with ties up: `3600 * cost - 1800 <= seconds * price < 3600 * cost + 1800` |
| `ParkingModel.CostOfWholeHours` | app.py:205-206 | a stay of exactly `h` hours costs `h` times the lot's hourly price |
| `ParkingModel.AddSpotsKeepsInvariant` | app.py:103-110 | adding `n` Free spots to a lot whose row now counts `n` more spots and `n` more free ones keeps the store invariant |
| `ParkingModel.SetStatusKeepsLedger` | app.py:207-208 | flipping one spot's status and moving its lot's `available` by one in the same direction keeps the ledger |
| `ParkingModel.BookKeepsInvariant` | app.py:187-194 | booking the first Free spot keeps the invariant; the lot exists and had `available > 0` |
| `ParkingModel.BookKeepsBookings` | app.py:189-193 | the new open reservation holds a newly occupied spot that no other open reservation holds |
| `ParkingModel.ReleaseKeepsInvariant` | app.py:202-211 | releasing an open reservation keeps the invariant, including one history row per closed reservation; its spot was occupied |
| `ParkingModel.ReleaseKeepsBookings` | app.py:204-208 | after the release, every remaining open reservation still holds an occupied spot |
| `ParkingModel.ShrinkKeepsInvariant` | app.py:150-167 | shrinking a lot by at most its free count keeps the invariant |
| `ParkingModel.ShrinkKeepsLedger` | app.py:166-167 | after the shrink, the lot's counts equal its new `max_spots` and `available` and no other lot's counts change |
| `ParkingModel.ShrinkKeepsSpots` | app.py:156-162 | after the shrink, spots stay in id order and every spot still belongs to an existing lot |
| `ParkingModel.ShrinkKeepsBookings` | app.py:160-161 | every open reservation still holds an occupied spot after the shrink |
| `ParkingModel.DeleteKeepsInvariant` | app.py:123-129 | deleting a lot without occupied spots, with its spots, keeps the invariant and leaves reservations and history alone |
| `ParkingModel.SecondReleaseBreaksLedger` | app.py:207-208 | raising `available` for a spot that is already Free breaks the ledger |
| `ParkingModel.NegativeCapacityBreaksLedger` | app.py:103-105 | a lot stored with a negative `max_spots` and `available == max_spots` breaks the ledger |
| `ParkingApp.ParkingStore.AddFreeSpots` | app.py:108-109 | the loop appends exactly `FreshSpots(old next id, lot, n)` and advances the spot id counter by `n`, changing nothing else |
| `ParkingApp.ParkingStore.DropFreeSpots` | app.py:155-162 | the `cnt` countdown loop with its `break` leaves exactly `DropFree(old spots, lot, k)` |
| `ParkingApp.ParkingStore.CreateLotUnchecked` | app.py:96-110 | create_lot as written stores the row with `available == max_spots` and `max(0, max_spots)` Free spots; the store stays valid iff `max_spots >= 0` |
| `ParkingApp.ParkingStore.CreateLot` | app.py:103-110 | refuses a negative capacity with no change; otherwise the new lot has exactly `max_spots` spots, all Free, `available == max_spots`, the lot counter advances by one and the spot counter by `max_spots`, and the invariant holds |
| `ParkingApp.ParkingStore.Book` | app.py:183-198 | fails with no change exactly when the lot is missing or `available == 0`; otherwise only the first Free spot becomes Occupied, only that lot's `available` drops by 1, and exactly one open reservation with no leaving time and no cost is appended |
| `ParkingApp.ParkingStore.OccupySpot` | app.py:188-194 | the writes of a booking: one status change, one decrement, one appended open reservation, nothing else; the invariant is kept |
| `ParkingApp.ParkingStore.ReleaseUnchecked` | app.py:200-213 | release_spot as written: changes nothing for a missing or foreign reservation; otherwise closes it, frees its spot, raises `available`, appends a history row; the store stays valid iff the reservation was open |
| `ParkingApp.ParkingStore.CloseReservation` | app.py:204-211 | the writes of a release: leaving time and cost set, spot Free, `available + 1`, one history row copying user, start, end and cost; valid afterwards iff the reservation was open |
| `ParkingApp.ParkingStore.Release` | app.py:200-213 | acts exactly when the reservation exists, belongs to the caller and is open, otherwise changes nothing; on success it performs exactly the release writes on an occupied spot and keeps the invariant |
| `ParkingApp.ParkingStore.Resize` | app.py:134-172 | NotFound, a missing value, and a value below `occupied = max_spots - available` (every negative value) each refuse with no change; otherwise it succeeds, the spots are `DropFree` or old plus fresh, and the lot ends with `max_spots == n` and `available == n - occupied`; the spot counter advances by the number of spots added and the lot counter stays |
| `ParkingApp.ParkingStore.ShrinkLot` | app.py:155-167 | the shrink path deletes exactly `max_spots - n` spots, every one a Free spot of the lot, keeps every other spot, and leaves the lot's counts equal to its new row |
| `ParkingApp.ParkingStore.GrowLot` | app.py:163-167 | the grow path appends exactly `n - max_spots` Free spots of the lot, advances the spot counter by that number, and leaves the lot's counts equal to its new row |
| `ParkingApp.ParkingStore.DeleteLot` | app.py:115-132 | succeeds exactly when the lot exists and has no occupied spot; then the lot and exactly its spots go, and reservations and history are unchanged; otherwise nothing changes |

## Findings

| source | as written | input that shows it | evidently intended | confidence | as-written member | corrected member |
|---|---|---|---|---|---|---|
| app.py:202-211 | `release_spot` checks only that the reservation exists and belongs to the caller, not that it is still open | book a spot, then release reservation 0 twice: `available` is raised twice and a second history row is written | a second release of the same reservation changes nothing | high; not executed | `ParkingApp.ParkingStore.ReleaseUnchecked` | `ParkingApp.ParkingStore.Release` |
| app.py:103-110 | `create_lot` stores any integer `max_spots`; for a negative value it sets `available` to that value and `range` creates no spots | `max_spots = -1`: the lot has `available == -1` | a negative capacity is refused | medium; not executed | `ParkingApp.ParkingStore.CreateLotUnchecked` | `ParkingApp.ParkingStore.CreateLot` |

## Left out

- Flask plumbing is not modelled: routing, templates, `flash`, `redirect`, `abort`, and the GET branches that only render forms. Results are return values instead.
- Identity is not modelled: `register`, `login`, `logout`, `init_db`, and the admin and login checks in the session. The caller's user id is a parameter.
- The read-only dashboard queries are left out, except for `OpenReservationsOf`.
- SQLAlchemy persistence is replaced by in-memory collections. Commits and backrefs are not modelled.
- The spot-to-reservation `cascade='all'` is not modelled. The ORM would also delete one reservation row of a deleted spot. In the model those reservations are always closed, and the model keeps them.
- Lot ids and spot ids come from two counters, `nextLotId` and `nextSpotId`, that never reuse an id. This is a modelling choice: SQLite's default rowid keys can reuse the largest id after it is deleted.
- Reservation ids are positions in the reservation table, starting at 0.
- Spot order is assumed to be primary-key order. The handlers' `first()` and `lot.spots` have no explicit `ORDER BY`.
- Clock reads are not modelled: `datetime.utcnow()` becomes the `now` parameter in whole seconds.
- Float arithmetic is not modelled. The cost is elapsed seconds times an integer hourly price in minor units, divided by 3600 and rounded half up. The handler uses Python's float `round(x, 2)`, which can round a tie either way.
- Parsing the form fields with `int()` and `float()` is not modelled, including the server error for non-numeric input. A missing or empty resize value is `None`.
- Concurrency and transactional atomicity are not modelled. The model is single-threaded, and each method applies all its writes together.
- `ParkingApp.ParkingStore.ReleaseUnchecked`: when the reservation's spot row no longer exists, the model changes nothing. The handler would instead fail on `reservation.spot`.
