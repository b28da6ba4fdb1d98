/** Values of the parking-lot occupancy engine: the rows of the four tables
    (lots, spots, reservations, history), the counts the lot ledger caches,
    the store invariant, and the lemmas that each handler keeps it. */
module ParkingModel {

  datatype Option<T> = None | Some(value: T)

  /** Why a handler refused to act. */
  datatype Error =
    | NotFound          // no lot with that id (abort(404))
    | MissingValue      // the resize form carried no max_spots value
    | CapacityConflict  // resize below the number of occupied spots
    | InvalidArgument   // negative capacity at lot creation
    | Conflict          // deleting a lot that still has an occupied spot

  datatype Result<T> = Ok(value: T) | Err(error: Error)

  datatype Outcome = Done | Refused(error: Error)

  /** A spot's status column: 'A' (available) or 'O' (occupied). */
  datatype Status = Free | Occupied

  /** A parking_lot row without its id, which is the key of the lot map.
      `price` is in minor currency units per hour. */
  datatype Lot = Lot(name: string, price: int, address: string, pinCode: string,
                     maxSpots: int, available: int)

  /** A parking_spot row. */
  datatype Spot = Spot(id: nat, lotId: nat, status: Status)

  /** A reservation row; its id is its position in the reservation table.
      Times are in seconds; `cost` is in minor currency units. */
  datatype Reservation = Reservation(spotId: nat, userId: int, parkingTime: int,
                                     leavingTime: Option<int>, cost: Option<int>)
  {
    /** Still open: no leaving timestamp yet. */
    predicate IsOpen() { leavingTime.None? }
  }

  /** A history row, copied from a reservation when it is released. */
  datatype HistoryRecord = HistoryRecord(userId: int, parkingTime: int, leavingTime: int, price: int)

  predicate IsFreeIn(sp: Spot, l: nat) { sp.lotId == l && sp.status == Free }

  // ---------------------------------------------------------------------------
  // Counting spots per lot

  /** Number of spots of lot `l`. */
  function CountSpots(s: seq<Spot>, l: nat): (n: nat)
  {
    if s == [] then 0 else (if s[0].lotId == l then 1 else 0) + CountSpots(s[1..], l)
  }

  /** Number of spots of lot `l` with status Free: what `available` caches. */
  function CountFree(s: seq<Spot>, l: nat): (n: nat)
    ensures n <= CountSpots(s, l)
    ensures n <= |s|
  {
    if s == [] then 0 else (if IsFreeIn(s[0], l) then 1 else 0) + CountFree(s[1..], l)
  }

  lemma {:induction false} CountConcat(a: seq<Spot>, b: seq<Spot>, l: nat)
    ensures CountFree(a + b, l) == CountFree(a, l) + CountFree(b, l)
    ensures CountSpots(a + b, l) == CountSpots(a, l) + CountSpots(b, l)
  {
    if a != [] {
      assert (a + b)[1..] == a[1..] + b;
      CountConcat(a[1..], b, l);
    } else {
      assert a + b == b;
    }
  }

  /** Changing one spot's status leaves every lot's spot count alone and moves
      the free count of that spot's lot by at most one. */
  lemma {:induction false} CountSetStatus(s: seq<Spot>, i: nat, st: Status, l: nat)
    requires i < |s|
    ensures CountSpots(s[i := s[i].(status := st)], l) == CountSpots(s, l)
    ensures CountFree(s[i := s[i].(status := st)], l)
         == CountFree(s, l) - (if IsFreeIn(s[i], l) then 1 else 0)
                            + (if s[i].lotId == l && st == Free then 1 else 0)
  {
    var t := s[i := s[i].(status := st)];
    if i == 0 {
      assert t[1..] == s[1..];
    } else {
      assert t[1..] == s[1..][i - 1 := s[i].(status := st)];
      CountSetStatus(s[1..], i - 1, st, l);
    }
  }

  /** A lot that no spot points to has no spots. */
  lemma {:induction false} CountAbsentLot(s: seq<Spot>, l: nat)
    requires forall i :: 0 <= i < |s| ==> s[i].lotId != l
    ensures CountSpots(s, l) == 0 && CountFree(s, l) == 0
  {
    if s != [] {
      CountAbsentLot(s[1..], l);
    }
  }

  // ---------------------------------------------------------------------------
  // Spot ids and lookups

  /** Spots are kept in id order, as the table's primary key orders them. */
  ghost predicate IdsAscending(s: seq<Spot>)
  {
    forall i, j :: 0 <= i < j < |s| ==> s[i].id < s[j].id
  }

  /** Position of the spot with id `id`: the `reservation.spot` lookup. */
  function SpotIndexOf(s: seq<Spot>, id: nat): (r: Option<nat>)
    ensures r.Some? ==> r.value < |s| && s[r.value].id == id
    ensures r.None? ==> forall j :: 0 <= j < |s| ==> s[j].id != id
  {
    if s == [] then None
    else if s[0].id == id then Some(0)
    else match SpotIndexOf(s[1..], id)
      case Some(j) => Some(j + 1)
      case None => None
  }

  lemma IndexOfAscending(s: seq<Spot>, j: nat)
    requires IdsAscending(s) && j < |s|
    ensures SpotIndexOf(s, s[j].id) == Some(j)
  {
  }

  /** The spot with id `id` exists and is occupied. */
  ghost predicate OccupiedSpot(s: seq<Spot>, id: nat)
  {
    match SpotIndexOf(s, id)
    case Some(i) => s[i].status == Occupied
    case None => false
  }

  /** First spot of lot `l` with status Free, in id order: the
      `filter_by(lot_id=l, status='A').first()` query. */
  function FirstFree(s: seq<Spot>, l: nat): (r: Option<nat>)
    ensures r.Some? ==> r.value < |s| && IsFreeIn(s[r.value], l)
                        && forall j :: 0 <= j < r.value ==> !IsFreeIn(s[j], l)
    ensures r.None? ==> forall j :: 0 <= j < |s| ==> !IsFreeIn(s[j], l)
  {
    if s == [] then None
    else if IsFreeIn(s[0], l) then Some(0)
    else match FirstFree(s[1..], l)
      case Some(j) => Some(j + 1)
      case None => None
  }

  /** The booking query finds nothing exactly when the lot's free count is zero. */
  lemma {:induction false} FirstFreeNoneIffNoneFree(s: seq<Spot>, l: nat)
    ensures FirstFree(s, l).None? <==> CountFree(s, l) == 0
  {
    if s != [] {
      FirstFreeNoneIffNoneFree(s[1..], l);
    }
  }

  /** Does lot `l` have an occupied spot (the `any(spot.status == 'O' ...)` test)? */
  predicate HasOccupied(s: seq<Spot>, l: nat)
  {
    exists i :: 0 <= i < |s| && s[i].lotId == l && s[i].status == Occupied
  }

  /** A lot has an occupied spot exactly when its free count is below its
      spot count; with the ledger, exactly when `available < max_spots`. */
  lemma {:induction false} HasOccupiedIffCountsDiffer(s: seq<Spot>, l: nat)
    ensures HasOccupied(s, l) <==> CountFree(s, l) < CountSpots(s, l)
  {
    if s != [] {
      HasOccupiedIffCountsDiffer(s[1..], l);
      if HasOccupied(s[1..], l) {
        var i :| 0 <= i < |s[1..]| && s[1..][i].lotId == l && s[1..][i].status == Occupied;
        assert s[i + 1] == s[1..][i];
      }
      if HasOccupied(s, l) && !(s[0].lotId == l && s[0].status == Occupied) {
        var i :| 0 <= i < |s| && s[i].lotId == l && s[i].status == Occupied;
        assert i > 0 && s[1..][i - 1] == s[i];
      }
    }
  }

  // ---------------------------------------------------------------------------
  // Adding and removing spots

  /** `n` new Free spots of lot `l` with consecutive ids from `start`. */
  function FreshSpots(start: nat, l: nat, n: nat): (r: seq<Spot>)
    ensures |r| == n
    ensures forall j :: 0 <= j < n ==> r[j] == Spot(start + j, l, Free)
  {
    if n == 0 then [] else FreshSpots(start, l, n - 1) + [Spot(start + n - 1, l, Free)]
  }

  lemma {:induction false} FreshSpotsCount(start: nat, l: nat, n: nat, m: nat)
    ensures CountSpots(FreshSpots(start, l, n), m) == (if m == l then n else 0)
    ensures CountFree(FreshSpots(start, l, n), m) == (if m == l then n else 0)
  {
    if n > 0 {
      FreshSpotsCount(start, l, n - 1, m);
      CountConcat(FreshSpots(start, l, n - 1), [Spot(start + n - 1, l, Free)], m);
      assert [Spot(start + n - 1, l, Free)][1..] == [];
    }
  }

  /** The spots left after deleting the first `k` Free spots of lot `l`,
      stopping as soon as `k` have gone (the shrink loop of the resize). */
  function DropFree(s: seq<Spot>, l: nat, k: nat): (r: seq<Spot>)
    ensures forall sp :: sp in r ==> sp in s
    ensures forall sp :: sp in s && !IsFreeIn(sp, l) ==> sp in r
  {
    if s == [] || k == 0 then s
    else if IsFreeIn(s[0], l) then DropFree(s[1..], l, k - 1)
    else [s[0]] + DropFree(s[1..], l, k)
  }

  /** When lot `l` has at least `k` Free spots, exactly `k` of them go and no
      other count moves. */
  lemma {:induction false} DropFreeCount(s: seq<Spot>, l: nat, k: nat, m: nat)
    requires k <= CountFree(s, l)
    ensures |DropFree(s, l, k)| == |s| - k
    ensures CountSpots(DropFree(s, l, k), m) == CountSpots(s, m) - (if m == l then k else 0)
    ensures CountFree(DropFree(s, l, k), m) == CountFree(s, m) - (if m == l then k else 0)
  {
    if s != [] && k != 0 {
      if IsFreeIn(s[0], l) {
        DropFreeCount(s[1..], l, k - 1, m);
      } else {
        DropFreeCount(s[1..], l, k, m);
        var r := [s[0]] + DropFree(s[1..], l, k);
        assert r[1..] == DropFree(s[1..], l, k);
      }
    }
  }

  lemma {:induction false} DropFreeAscending(s: seq<Spot>, l: nat, k: nat)
    requires IdsAscending(s)
    ensures IdsAscending(DropFree(s, l, k))
  {
    if s != [] && k != 0 {
      DropFreeAscending(s[1..], l, if IsFreeIn(s[0], l) then k - 1 else k);
      if !IsFreeIn(s[0], l) {
        var rest := DropFree(s[1..], l, k);
        forall j | 0 <= j < |rest| ensures s[0].id < rest[j].id {
          assert rest[j] in s[1..];
        }
      }
    }
  }

  /** The spots left once every spot of lot `l` is deleted. */
  function WithoutLot(s: seq<Spot>, l: nat): (r: seq<Spot>)
    ensures forall sp :: sp in r <==> sp in s && sp.lotId != l
  {
    if s == [] then []
    else if s[0].lotId == l then WithoutLot(s[1..], l)
    else [s[0]] + WithoutLot(s[1..], l)
  }

  lemma {:induction false} WithoutLotCount(s: seq<Spot>, l: nat, m: nat)
    requires m != l
    ensures CountSpots(WithoutLot(s, l), m) == CountSpots(s, m)
    ensures CountFree(WithoutLot(s, l), m) == CountFree(s, m)
  {
    if s != [] {
      WithoutLotCount(s[1..], l, m);
      if s[0].lotId != l {
        assert ([s[0]] + WithoutLot(s[1..], l))[1..] == WithoutLot(s[1..], l);
      }
    }
  }

  lemma {:induction false} WithoutLotAscending(s: seq<Spot>, l: nat)
    requires IdsAscending(s)
    ensures IdsAscending(WithoutLot(s, l))
  {
    if s != [] {
      WithoutLotAscending(s[1..], l);
      if s[0].lotId != l {
        var rest := WithoutLot(s[1..], l);
        forall j | 0 <= j < |rest| ensures s[0].id < rest[j].id {
          assert rest[j] in s[1..];
        }
      }
    }
  }

  // ---------------------------------------------------------------------------
  // Reservations and cost

  /** Number of closed reservations: each release closes one and writes one
      history row. */
  function CountClosed(rs: seq<Reservation>): (n: nat)
    ensures n <= |rs|
  {
    if rs == [] then 0 else CountClosed(rs[..|rs| - 1]) + (if rs[|rs| - 1].IsOpen() then 0 else 1)
  }

  /** Overwriting reservation `k` moves the closed count by the change in
      that one reservation's state. */
  lemma {:induction false} CountClosedSet(rs: seq<Reservation>, k: nat, r: Reservation)
    requires k < |rs|
    ensures CountClosed(rs[k := r])
         == CountClosed(rs) - (if rs[k].IsOpen() then 0 else 1) + (if r.IsOpen() then 0 else 1)
  {
    var t := rs[k := r];
    if k < |rs| - 1 {
      assert t[..|t| - 1] == rs[..|rs| - 1][k := r];
      CountClosedSet(rs[..|rs| - 1], k, r);
    } else {
      assert t[..|t| - 1] == rs[..|rs| - 1];
    }
  }

  /** Reservation ids of the open reservations of `user` (the user dashboard's
      `filter_by(user_id=..., leaving_timestamp=None)`). */
  function OpenReservationsOf(rs: seq<Reservation>, user: int): (ids: seq<nat>)
    ensures forall k: nat :: k in ids <==> k < |rs| && rs[k].userId == user && rs[k].IsOpen()
  {
    if rs == [] then []
    else
      var last := |rs| - 1;
      OpenReservationsOf(rs[..last], user)
        + (if rs[last].userId == user && rs[last].IsOpen() then [last] else [])
  }

  /** Cost in minor units of a stay from `start` to `end` (seconds) at `price`
      minor units per hour: elapsed hours times price, rounded half-up to a
      whole minor unit. */
  function Cost(start: int, end: int, price: int): (r: int)
    ensures 3600 * r - 1800 <= (end - start) * price < 3600 * r + 1800
  {
    ((end - start) * price + 1800) / 3600
  }

  /** A stay of exactly `h` hours costs `h` times the hourly price. */
  lemma CostOfWholeHours(start: int, h: nat, price: int)
    ensures Cost(start, start + 3600 * h, price) == h * price
  {
  }

  // ---------------------------------------------------------------------------
  // The store invariant

  ghost predicate LotIdsBelow(lots: map<nat, Lot>, nextLot: nat)
  {
    forall l :: l in lots ==> l < nextLot
  }

  ghost predicate SpotsWellFormed(lots: map<nat, Lot>, spots: seq<Spot>, nextSpot: nat)
  {
    && IdsAscending(spots)
    && (forall i :: 0 <= i < |spots| ==> spots[i].id < nextSpot && spots[i].lotId in lots)
  }

  /** Per lot: `available` is the number of Free spots, `max_spots` the number
      of spots, and 0 <= available <= max_spots. */
  ghost predicate LedgerHolds(lots: map<nat, Lot>, spots: seq<Spot>)
  {
    forall l :: l in lots ==>
      && lots[l].available == CountFree(spots, l)
      && lots[l].maxSpots == CountSpots(spots, l)
      && 0 <= lots[l].available <= lots[l].maxSpots
  }

  /** Every open reservation holds an existing occupied spot, and no spot is
      held by two open reservations. */
  ghost predicate BookingsConsistent(spots: seq<Spot>, rs: seq<Reservation>)
  {
    && (forall k :: 0 <= k < |rs| && rs[k].IsOpen() ==> OccupiedSpot(spots, rs[k].spotId))
    && (forall k, m :: 0 <= k < m < |rs| && rs[k].IsOpen() && rs[m].IsOpen() ==>
          rs[k].spotId != rs[m].spotId)
  }

  ghost predicate Inv(lots: map<nat, Lot>, spots: seq<Spot>, rs: seq<Reservation>,
                      history: seq<HistoryRecord>, nextLot: nat, nextSpot: nat)
  {
    && LotIdsBelow(lots, nextLot)
    && SpotsWellFormed(lots, spots, nextSpot)
    && LedgerHolds(lots, spots)
    && BookingsConsistent(spots, rs)
    && |history| == CountClosed(rs)
  }

  // ---------------------------------------------------------------------------
  // Each handler keeps the invariant

  /** Appending `n` Free spots to lot `l` whose row now caches `n` more spots
      and `n` more free ones: the spot-creating loops of create_lot and of a
      growing edit_lot. */
  lemma AddSpotsKeepsInvariant(lots: map<nat, Lot>, spots: seq<Spot>, rs: seq<Reservation>,
                               history: seq<HistoryRecord>, nextLot: nat, nextSpot: nat,
                               l: nat, lot: Lot, n: nat, nextLot': nat)
    requires Inv(lots, spots, rs, history, nextLot, nextSpot)
    requires l < nextLot' && nextLot <= nextLot'
    requires lot.available == CountFree(spots, l) + n
    requires lot.maxSpots == CountSpots(spots, l) + n
    ensures Inv(lots[l := lot], spots + FreshSpots(nextSpot, l, n), rs, history, nextLot', nextSpot + n)
  {
    var lots', spots' := lots[l := lot], spots + FreshSpots(nextSpot, l, n);
    forall m | m in lots'
      ensures lots'[m].available == CountFree(spots', m) && lots'[m].maxSpots == CountSpots(spots', m)
    {
      CountConcat(spots, FreshSpots(nextSpot, l, n), m);
      FreshSpotsCount(nextSpot, l, n, m);
    }
    assert IdsAscending(spots');
    forall k | 0 <= k < |rs| && rs[k].IsOpen() ensures OccupiedSpot(spots', rs[k].spotId) {
      var i := SpotIndexOf(spots, rs[k].spotId).value;
      IndexOfAscending(spots', i);
    }
  }

  /** Flipping the status of spot `i` and moving its lot's `available` by one
      in the same direction keeps the ledger: the shared core of booking and
      releasing. */
  lemma SetStatusKeepsLedger(lots: map<nat, Lot>, spots: seq<Spot>, i: nat, st: Status)
    requires LedgerHolds(lots, spots)
    requires i < |spots| && spots[i].lotId in lots && spots[i].status != st
    ensures LedgerHolds(lots[spots[i].lotId := lots[spots[i].lotId].(available := lots[spots[i].lotId].available + (if st == Free then 1 else -1))],
                        spots[i := spots[i].(status := st)])
  {
    var l := spots[i].lotId;
    var lots' := lots[l := lots[l].(available := lots[l].available + (if st == Free then 1 else -1))];
    var spots' := spots[i := spots[i].(status := st)];
    forall m | m in lots'
      ensures lots'[m].available == CountFree(spots', m) && lots'[m].maxSpots == CountSpots(spots', m)
    {
      CountSetStatus(spots, i, st, m);
    }
  }

  /** Booking spot `i`, the first Free spot of lot `l`. */
  lemma BookKeepsInvariant(lots: map<nat, Lot>, spots: seq<Spot>, rs: seq<Reservation>,
                           history: seq<HistoryRecord>, nextLot: nat, nextSpot: nat,
                           l: nat, i: nat, user: int, now: int)
    requires Inv(lots, spots, rs, history, nextLot, nextSpot)
    requires i < |spots| && IsFreeIn(spots[i], l)
    ensures l in lots && lots[l].available > 0
    ensures Inv(lots[l := lots[l].(available := lots[l].available - 1)],
                spots[i := spots[i].(status := Occupied)],
                rs + [Reservation(spots[i].id, user, now, None, None)],
                history, nextLot, nextSpot)
  {
    var spots' := spots[i := spots[i].(status := Occupied)];
    var rs' := rs + [Reservation(spots[i].id, user, now, None, None)];
    SetStatusKeepsLedger(lots, spots, i, Occupied);
    CountSetStatus(spots, i, Occupied, l);
    BookKeepsBookings(spots, rs, i, user, now);
    assert rs'[..|rs|] == rs;
  }

  lemma BookKeepsBookings(spots: seq<Spot>, rs: seq<Reservation>, i: nat, user: int, now: int)
    requires IdsAscending(spots) && BookingsConsistent(spots, rs)
    requires i < |spots| && spots[i].status == Free
    ensures BookingsConsistent(spots[i := spots[i].(status := Occupied)],
                               rs + [Reservation(spots[i].id, user, now, None, None)])
  {
    var spots' := spots[i := spots[i].(status := Occupied)];
    var rs' := rs + [Reservation(spots[i].id, user, now, None, None)];
    assert IdsAscending(spots');
    forall k | 0 <= k < |rs'| && rs'[k].IsOpen() ensures OccupiedSpot(spots', rs'[k].spotId) {
      if k == |rs| {
        IndexOfAscending(spots', i);
      } else {
        var j := SpotIndexOf(spots, rs[k].spotId).value;
        IndexOfAscending(spots', j);
      }
    }
    forall k | 0 <= k < |rs| && rs[k].IsOpen() ensures rs[k].spotId != spots[i].id {
      IndexOfAscending(spots, i);
    }
  }

  /** Releasing the open reservation `k`, whose spot is at `i`. */
  lemma ReleaseKeepsInvariant(lots: map<nat, Lot>, spots: seq<Spot>, rs: seq<Reservation>,
                              history: seq<HistoryRecord>, nextLot: nat, nextSpot: nat,
                              k: nat, i: nat, now: int, cost: int, h: HistoryRecord)
    requires Inv(lots, spots, rs, history, nextLot, nextSpot)
    requires k < |rs| && rs[k].IsOpen()
    requires SpotIndexOf(spots, rs[k].spotId) == Some(i)
    ensures spots[i].lotId in lots && spots[i].status == Occupied
    ensures Inv(lots[spots[i].lotId := lots[spots[i].lotId].(available := lots[spots[i].lotId].available + 1)],
                spots[i := spots[i].(status := Free)],
                rs[k := rs[k].(leavingTime := Some(now), cost := Some(cost))],
                history + [h], nextLot, nextSpot)
  {
    var rs' := rs[k := rs[k].(leavingTime := Some(now), cost := Some(cost))];
    SetStatusKeepsLedger(lots, spots, i, Free);
    ReleaseKeepsBookings(spots, rs, k, i, now, cost);
    CountClosedSet(rs, k, rs'[k]);
  }

  lemma ReleaseKeepsBookings(spots: seq<Spot>, rs: seq<Reservation>, k: nat, i: nat, now: int, cost: int)
    requires IdsAscending(spots) && BookingsConsistent(spots, rs)
    requires k < |rs| && rs[k].IsOpen()
    requires SpotIndexOf(spots, rs[k].spotId) == Some(i)
    ensures BookingsConsistent(spots[i := spots[i].(status := Free)],
                               rs[k := rs[k].(leavingTime := Some(now), cost := Some(cost))])
  {
    var spots' := spots[i := spots[i].(status := Free)];
    var rs' := rs[k := rs[k].(leavingTime := Some(now), cost := Some(cost))];
    assert IdsAscending(spots');
    forall q | 0 <= q < |rs'| && rs'[q].IsOpen() ensures OccupiedSpot(spots', rs'[q].spotId) {
      var j := SpotIndexOf(spots, rs[q].spotId).value;
      IndexOfAscending(spots', j);
      if j == i {
        assert false;
      }
    }
  }

  /** Shrinking lot `l` by `k` spots when it has at least `k` Free spots;
      the lot row is rewritten with the given counts. */
  lemma ShrinkKeepsInvariant(lots: map<nat, Lot>, spots: seq<Spot>, rs: seq<Reservation>,
                             history: seq<HistoryRecord>, nextLot: nat, nextSpot: nat,
                             l: nat, k: nat, lot: Lot)
    requires Inv(lots, spots, rs, history, nextLot, nextSpot)
    requires l in lots && k <= lots[l].available
    requires lot.available == lots[l].available - k && lot.maxSpots == lots[l].maxSpots - k
    ensures Inv(lots[l := lot], DropFree(spots, l, k), rs, history, nextLot, nextSpot)
  {
    ShrinkKeepsLedger(lots, spots, l, k, lot);
    ShrinkKeepsSpots(lots, spots, nextSpot, l, k);
    ShrinkKeepsBookings(spots, rs, l, k);
  }

  lemma ShrinkKeepsLedger(lots: map<nat, Lot>, spots: seq<Spot>, l: nat, k: nat, lot: Lot)
    requires LedgerHolds(lots, spots)
    requires l in lots && k <= lots[l].available
    requires lot.available == lots[l].available - k && lot.maxSpots == lots[l].maxSpots - k
    ensures LedgerHolds(lots[l := lot], DropFree(spots, l, k))
  {
    var lots', spots' := lots[l := lot], DropFree(spots, l, k);
    forall m | m in lots'
      ensures lots'[m].available == CountFree(spots', m) && lots'[m].maxSpots == CountSpots(spots', m)
    {
      DropFreeCount(spots, l, k, m);
    }
  }

  lemma ShrinkKeepsSpots(lots: map<nat, Lot>, spots: seq<Spot>, nextSpot: nat, l: nat, k: nat)
    requires SpotsWellFormed(lots, spots, nextSpot)
    ensures SpotsWellFormed(lots, DropFree(spots, l, k), nextSpot)
  {
    var spots' := DropFree(spots, l, k);
    DropFreeAscending(spots, l, k);
    forall j | 0 <= j < |spots'| ensures spots'[j].id < nextSpot && spots'[j].lotId in lots {
      assert spots'[j] in spots;
    }
  }

  lemma ShrinkKeepsBookings(spots: seq<Spot>, rs: seq<Reservation>, l: nat, k: nat)
    requires IdsAscending(spots) && BookingsConsistent(spots, rs)
    ensures BookingsConsistent(DropFree(spots, l, k), rs)
  {
    var spots' := DropFree(spots, l, k);
    DropFreeAscending(spots, l, k);
    forall q | 0 <= q < |rs| && rs[q].IsOpen() ensures OccupiedSpot(spots', rs[q].spotId) {
      var i := SpotIndexOf(spots, rs[q].spotId).value;
      assert spots[i] in spots';
      var j :| 0 <= j < |spots'| && spots'[j] == spots[i];
      IndexOfAscending(spots', j);
    }
  }

  /** Deleting lot `l` and its spots when none of them is occupied. */
  lemma DeleteKeepsInvariant(lots: map<nat, Lot>, spots: seq<Spot>, rs: seq<Reservation>,
                             history: seq<HistoryRecord>, nextLot: nat, nextSpot: nat, l: nat)
    requires Inv(lots, spots, rs, history, nextLot, nextSpot)
    requires !HasOccupied(spots, l)
    ensures Inv(lots - {l}, WithoutLot(spots, l), rs, history, nextLot, nextSpot)
  {
    var spots' := WithoutLot(spots, l);
    forall m | m in lots && m != l
      ensures CountSpots(spots', m) == CountSpots(spots, m) && CountFree(spots', m) == CountFree(spots, m)
    {
      WithoutLotCount(spots, l, m);
    }
    WithoutLotAscending(spots, l);
    forall j | 0 <= j < |spots'| ensures spots'[j].id < nextSpot && spots'[j].lotId in lots - {l} {
      assert spots'[j] in spots;
    }
    forall q | 0 <= q < |rs| && rs[q].IsOpen() ensures OccupiedSpot(spots', rs[q].spotId) {
      var i := SpotIndexOf(spots, rs[q].spotId).value;
      assert spots[i] in spots';
      var j :| 0 <= j < |spots'| && spots'[j] == spots[i];
      IndexOfAscending(spots', j);
    }
  }

  // ---------------------------------------------------------------------------
  // What the unguarded handlers break

  /** Releasing a reservation whose spot is already Free, as release_spot does
      for a reservation it released before: the status write changes nothing
      but `available` still goes up, so the ledger no longer holds. */
  lemma SecondReleaseBreaksLedger(lots: map<nat, Lot>, spots: seq<Spot>, i: nat)
    requires LedgerHolds(lots, spots)
    requires i < |spots| && spots[i].status == Free && spots[i].lotId in lots
    ensures !LedgerHolds(lots[spots[i].lotId := lots[spots[i].lotId].(available := lots[spots[i].lotId].available + 1)],
                         spots[i := spots[i].(status := Free)])
  {
    CountSetStatus(spots, i, Free, spots[i].lotId);
  }

  /** A lot created with a negative `max_spots` caches a negative `available`. */
  lemma NegativeCapacityBreaksLedger(lots: map<nat, Lot>, spots: seq<Spot>, l: nat, lot: Lot)
    requires lot.maxSpots < 0 && lot.available == lot.maxSpots
    ensures !LedgerHolds(lots[l := lot], spots)
  {
    assert l in lots[l := lot];
  }
}
