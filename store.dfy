/** The parking-lot occupancy engine of the Flask app: one store object holding
    the four tables, with one method per state-changing route handler. The
    caller's user id and the current time are parameters. */
module ParkingApp {
  import opened ParkingModel

  class ParkingStore {
    var lots: map<nat, Lot>
    var spots: seq<Spot>                 // in id order
    var reservations: seq<Reservation>   // a reservation's id is its position
    var history: seq<HistoryRecord>
    var nextLotId: nat                   // the tables' autoincrement counters
    var nextSpotId: nat

    ghost predicate Valid()
      reads this
    {
      Inv(lots, spots, reservations, history, nextLotId, nextSpotId)
    }

    constructor ()
      ensures Valid()
      ensures lots == map[] && spots == [] && reservations == [] && history == []
      ensures nextLotId == 0 && nextSpotId == 0
    {
      lots, spots, reservations, history := map[], [], [], [];
      nextLotId, nextSpotId := 0, 0;
    }

    /** Adds `n` Free spots to lot `l`, one row per iteration: the
        `ParkingSpot(lot_id=...)` loops of create_lot and of a growing edit_lot. */
    method AddFreeSpots(l: nat, n: nat)
      modifies this
      ensures spots == old(spots) + FreshSpots(old(nextSpotId), l, n)
      ensures nextSpotId == old(nextSpotId) + n
      ensures lots == old(lots) && reservations == old(reservations)
      ensures history == old(history) && nextLotId == old(nextLotId)
    {
      var i := 0;
      while i < n
        invariant 0 <= i <= n
        invariant spots == old(spots) + FreshSpots(old(nextSpotId), l, i)
        invariant nextSpotId == old(nextSpotId) + i
        invariant lots == old(lots) && reservations == old(reservations)
        invariant history == old(history) && nextLotId == old(nextLotId)
      {
        spots := spots + [Spot(nextSpotId, l, Free)];
        nextSpotId := nextSpotId + 1;
        i := i + 1;
      }
    }

    /** Deletes the first `k` Free spots of lot `l`, counting `cnt` down and
        stopping when it reaches zero: the shrink loop of edit_lot. */
    method DropFreeSpots(l: nat, k: nat)
      modifies this
      ensures spots == DropFree(old(spots), l, k)
      ensures nextSpotId == old(nextSpotId) && lots == old(lots)
      ensures reservations == old(reservations)
      ensures history == old(history) && nextLotId == old(nextLotId)
    {
      var s := spots;
      var kept: seq<Spot> := [];
      var cnt := k;
      var j := 0;
      while j < |s|
        invariant 0 <= j <= |s|
        invariant kept + DropFree(s[j..], l, cnt) == DropFree(s, l, k)
      {
        if cnt == 0 {
          break;
        }
        assert s[j..][1..] == s[j + 1..];
        if IsFreeIn(s[j], l) {
          assert DropFree(s[j..], l, cnt) == DropFree(s[j + 1..], l, cnt - 1);
          cnt := cnt - 1;
        } else {
          assert DropFree(s[j..], l, cnt) == [s[j]] + DropFree(s[j + 1..], l, cnt);
          kept := kept + [s[j]];
        }
        j := j + 1;
      }
      spots := kept + s[j..];
    }

    /** create_lot exactly as the handler does it: no check on `max_spots`,
        `available := max_spots`, and `range(max_spots)` spots, which is none
        when `max_spots` is negative. A negative `max_spots` leaves the store
        invalid. */
    method CreateLotUnchecked(name: string, price: int, address: string, pinCode: string, maxSpots: int)
      returns (id: nat)
      requires Valid()
      modifies this
      ensures id == old(nextLotId) && nextLotId == id + 1
      ensures lots == old(lots)[id := Lot(name, price, address, pinCode, maxSpots, maxSpots)]
      ensures spots == old(spots) + FreshSpots(old(nextSpotId), id, if maxSpots < 0 then 0 else maxSpots)
      ensures nextSpotId == old(nextSpotId) + (if maxSpots < 0 then 0 else maxSpots)
      ensures reservations == old(reservations) && history == old(history)
      ensures maxSpots >= 0 ==> Valid()
      ensures maxSpots < 0 ==> !Valid()
    {
      id := nextLotId;
      var lot := Lot(name, price, address, pinCode, maxSpots, maxSpots);
      lots := lots[id := lot];
      nextLotId := nextLotId + 1;
      var n: nat := if maxSpots < 0 then 0 else maxSpots;
      AddFreeSpots(id, n);
      if maxSpots >= 0 {
        CountAbsentLot(old(spots), id);
        AddSpotsKeepsInvariant(old(lots), old(spots), old(reservations), old(history),
                               old(nextLotId), old(nextSpotId), id, lot, n, id + 1);
      } else {
        NegativeCapacityBreaksLedger(old(lots), spots, id, lot);
      }
    }

    /** create_lot with a negative capacity refused: otherwise a lot with
        exactly `max_spots` spots, all Free, and `available == max_spots`. */
    method CreateLot(name: string, price: int, address: string, pinCode: string, maxSpots: int)
      returns (r: Result<nat>)
      requires Valid()
      modifies this
      ensures Valid()
      ensures maxSpots < 0 ==> r == Err(InvalidArgument) && unchanged(this)
      ensures maxSpots >= 0 ==> r == Ok(old(nextLotId)) && r.value !in old(lots)
      ensures r.Ok? ==> lots == old(lots)[r.value := Lot(name, price, address, pinCode, maxSpots, maxSpots)]
      ensures r.Ok? ==> spots == old(spots) + FreshSpots(old(nextSpotId), r.value, maxSpots)
      ensures r.Ok? ==> CountSpots(spots, r.value) == maxSpots && CountFree(spots, r.value) == maxSpots
      ensures r.Ok? ==> nextLotId == old(nextLotId) + 1 && nextSpotId == old(nextSpotId) + maxSpots
      ensures reservations == old(reservations) && history == old(history)
    {
      if maxSpots < 0 {
        return Err(InvalidArgument);
      }
      var id := CreateLotUnchecked(name, price, address, pinCode, maxSpots);
      r := Ok(id);
    }

    /** book_spot: the first Free spot of the lot, in id order, becomes
        Occupied, the lot's `available` drops by one and an open reservation
        for the caller is appended. With no Free spot (or no such lot)
        nothing changes. */
    method Book(lotId: nat, userId: int, now: int) returns (r: Option<nat>)
      requires Valid()
      modifies this
      ensures Valid()
      ensures r.None? <==> lotId !in old(lots) || old(lots)[lotId].available == 0
      ensures r.None? ==> unchanged(this)
      ensures r.Some? ==>
        && FirstFree(old(spots), lotId).Some?
        && var i := FirstFree(old(spots), lotId).value;
        && spots == old(spots)[i := old(spots)[i].(status := Occupied)]
        && lots == old(lots)[lotId := old(lots)[lotId].(available := old(lots)[lotId].available - 1)]
        && reservations == old(reservations) + [Reservation(old(spots)[i].id, userId, now, None, None)]
        && r.value == |old(reservations)|
      ensures history == old(history)
      ensures nextLotId == old(nextLotId) && nextSpotId == old(nextSpotId)
    {
      FirstFreeNoneIffNoneFree(spots, lotId);
      var f := FirstFree(spots, lotId);
      if f.None? {
        return None;
      }
      OccupySpot(lotId, f.value, userId, now);
      r := Some(|reservations| - 1);
    }

    /** The writes of a successful booking: spot `i` of lot `lotId` becomes
        Occupied, the lot's `available` drops by one, and an open reservation
        for the caller is appended. */
    method OccupySpot(lotId: nat, i: nat, userId: int, now: int)
      requires Valid()
      requires i < |spots| && IsFreeIn(spots[i], lotId)
      modifies this
      ensures Valid()
      ensures lotId in old(lots) && old(lots)[lotId].available > 0
      ensures spots == old(spots)[i := old(spots)[i].(status := Occupied)]
      ensures lots == old(lots)[lotId := old(lots)[lotId].(available := old(lots)[lotId].available - 1)]
      ensures reservations == old(reservations) + [Reservation(old(spots)[i].id, userId, now, None, None)]
      ensures history == old(history)
      ensures nextLotId == old(nextLotId) && nextSpotId == old(nextSpotId)
    {
      BookKeepsInvariant(lots, spots, reservations, history, nextLotId, nextSpotId, lotId, i, userId, now);
      var spot := spots[i];
      spots := spots[i := spot.(status := Occupied)];
      lots := lots[lotId := lots[lotId].(available := lots[lotId].available - 1)];
      reservations := reservations + [Reservation(spot.id, userId, now, None, None)];
    }

    /** release_spot exactly as the handler does it: it acts on any
        reservation of the caller, open or already closed. Releasing a closed
        reservation leaves the store invalid (a second history row, and
        `available` raised again). A reservation whose spot row is gone is
        left alone. */
    method ReleaseUnchecked(resId: nat, userId: int, now: int) returns (cost: Option<int>)
      requires Valid()
      modifies this
      ensures
        var acts := resId < |old(reservations)| && old(reservations)[resId].userId == userId
                    && SpotIndexOf(old(spots), old(reservations)[resId].spotId).Some?;
        && (!acts ==> cost.None? && unchanged(this))
        && (acts ==>
              var res := old(reservations)[resId];
              var i := SpotIndexOf(old(spots), res.spotId).value;
              var l := old(spots)[i].lotId;
              var c := Cost(res.parkingTime, now, old(lots)[l].price);
              && cost == Some(c)
              && reservations == old(reservations)[resId := res.(leavingTime := Some(now), cost := Some(c))]
              && spots == old(spots)[i := old(spots)[i].(status := Free)]
              && lots == old(lots)[l := old(lots)[l].(available := old(lots)[l].available + 1)]
              && history == old(history) + [HistoryRecord(userId, res.parkingTime, now, c)])
        && (acts && old(reservations)[resId].IsOpen() ==> Valid())
        && (acts && !old(reservations)[resId].IsOpen() ==> !Valid())
      ensures nextLotId == old(nextLotId) && nextSpotId == old(nextSpotId)
    {
      if !(resId < |reservations| && reservations[resId].userId == userId) {
        return None;
      }
      var res := reservations[resId];
      var found := SpotIndexOf(spots, res.spotId);
      if found.None? {
        return None;
      }
      var i := found.value;
      var c := Cost(res.parkingTime, now, lots[spots[i].lotId].price);
      CloseReservation(resId, i, now, c);
      cost := Some(c);
    }

    /** The writes of a release: reservation `resId` gets its leaving time and
        cost, its spot `i` becomes Free, the spot's lot gets one more
        `available`, and a history row copies the reservation. The store stays
        valid exactly when the reservation was still open. */
    method CloseReservation(resId: nat, i: nat, now: int, c: int)
      requires Valid()
      requires resId < |reservations| && SpotIndexOf(spots, reservations[resId].spotId) == Some(i)
      modifies this
      ensures
        var res := old(reservations)[resId];
        var l := old(spots)[i].lotId;
        && l in old(lots)
        && reservations == old(reservations)[resId := res.(leavingTime := Some(now), cost := Some(c))]
        && spots == old(spots)[i := old(spots)[i].(status := Free)]
        && lots == old(lots)[l := old(lots)[l].(available := old(lots)[l].available + 1)]
        && history == old(history) + [HistoryRecord(res.userId, res.parkingTime, now, c)]
      ensures old(reservations)[resId].IsOpen() ==> Valid()
      ensures !old(reservations)[resId].IsOpen() ==> !Valid()
      ensures nextLotId == old(nextLotId) && nextSpotId == old(nextSpotId)
    {
      var res := reservations[resId];
      var l := spots[i].lotId;
      var res' := res.(leavingTime := Some(now), cost := Some(c));
      var h := HistoryRecord(res.userId, res.parkingTime, now, c);
      if res.IsOpen() {
        ReleaseKeepsInvariant(lots, spots, reservations, history, nextLotId, nextSpotId, resId, i, now, c, h);
      } else {
        CountClosedSet(reservations, resId, res');
      }
      reservations := reservations[resId := res'];
      spots := spots[i := spots[i].(status := Free)];
      lots := lots[l := lots[l].(available := lots[l].available + 1)];
      history := history + [h];
    }

    /** release_spot with the missing "still open" check added: a reservation
        that does not exist, belongs to another user or is already closed is
        left alone. Otherwise the reservation gets its leaving time and cost,
        its spot becomes Free, its lot's `available` rises by one and one
        history row copies the reservation. */
    method Release(resId: nat, userId: int, now: int) returns (cost: Option<int>)
      requires Valid()
      modifies this
      ensures Valid()
      ensures cost.Some? <==> resId < |old(reservations)| && old(reservations)[resId].userId == userId
                              && old(reservations)[resId].IsOpen()
      ensures cost.None? ==> unchanged(this)
      ensures cost.Some? ==>
        var res := old(reservations)[resId];
        && SpotIndexOf(old(spots), res.spotId).Some?
        && var i := SpotIndexOf(old(spots), res.spotId).value;
        && var l := old(spots)[i].lotId;
        && old(spots)[i].status == Occupied
        && cost.value == Cost(res.parkingTime, now, old(lots)[l].price)
        && reservations == old(reservations)[resId := res.(leavingTime := Some(now), cost := cost)]
        && spots == old(spots)[i := old(spots)[i].(status := Free)]
        && lots == old(lots)[l := old(lots)[l].(available := old(lots)[l].available + 1)]
        && history == old(history) + [HistoryRecord(res.userId, res.parkingTime, now, cost.value)]
      ensures nextLotId == old(nextLotId) && nextSpotId == old(nextSpotId)
    {
      if resId < |reservations| && reservations[resId].userId == userId && reservations[resId].IsOpen() {
        cost := ReleaseUnchecked(resId, userId, now);
      } else {
        cost := None;
      }
    }

    /** edit_lot: refused with no change when the lot is missing, the value is
        missing, or the new capacity is below the occupied count (which every
        negative capacity is). Otherwise a shrink deletes exactly the surplus,
        all of it Free spots of the lot, a grow adds the missing spots as Free,
        and the lot ends with `max_spots == n` and `available == n - occupied`. */
    method Resize(lotId: nat, newMaxSpots: Option<int>) returns (r: Outcome)
      requires Valid()
      modifies this
      ensures Valid()
      ensures lotId !in old(lots) ==> r == Refused(NotFound)
      ensures lotId in old(lots) && newMaxSpots.None? ==> r == Refused(MissingValue)
      ensures lotId in old(lots) && newMaxSpots.Some?
              && newMaxSpots.value < old(lots)[lotId].maxSpots - old(lots)[lotId].available
              ==> r == Refused(CapacityConflict)
      ensures lotId in old(lots) && newMaxSpots.Some? && newMaxSpots.value < 0 ==> r == Refused(CapacityConflict)
      ensures r == Done <==> lotId in old(lots) && newMaxSpots.Some?
                             && newMaxSpots.value >= old(lots)[lotId].maxSpots - old(lots)[lotId].available
      ensures r.Refused? ==> unchanged(this)
      ensures r == Done ==>
        && lotId in old(lots) && newMaxSpots.Some?
        && var n := newMaxSpots.value;
        && var lot := old(lots)[lotId];
        && var occupied := lot.maxSpots - lot.available;
        && n >= occupied
        && lots == old(lots)[lotId := lot.(maxSpots := n, available := n - occupied)]
        && CountSpots(spots, lotId) == n && CountFree(spots, lotId) == n - occupied
        && (n < lot.maxSpots ==> spots == DropFree(old(spots), lotId, lot.maxSpots - n))
        && (n >= lot.maxSpots ==>
              spots == old(spots) + FreshSpots(old(nextSpotId), lotId, n - lot.maxSpots))
        && (n < lot.maxSpots ==> nextSpotId == old(nextSpotId))
        && (n >= lot.maxSpots ==> nextSpotId == old(nextSpotId) + (n - lot.maxSpots))
      ensures reservations == old(reservations) && history == old(history)
      ensures nextLotId == old(nextLotId)
    {
      if lotId !in lots {
        return Refused(NotFound);
      }
      if newMaxSpots.None? {
        return Refused(MissingValue);
      }
      var lot := lots[lotId];
      var occupied := lot.maxSpots - lot.available;
      var n := newMaxSpots.value;
      if n < occupied {
        return Refused(CapacityConflict);
      }
      var lot' := lot.(maxSpots := n, available := n - occupied);
      if n < lot.maxSpots {
        ShrinkLot(lotId, lot');
      } else {
        GrowLot(lotId, lot');
      }
      r := Done;
    }

    /** The shrink path of edit_lot: deletes the surplus Free spots of the
        lot and stores its new row `lot'` (fewer spots, same occupied count). */
    method ShrinkLot(lotId: nat, lot': Lot)
      requires Valid() && lotId in lots
      requires lot'.maxSpots < lots[lotId].maxSpots
      requires lot'.maxSpots - lot'.available == lots[lotId].maxSpots - lots[lotId].available
      requires lot'.available >= 0
      modifies this
      ensures Valid()
      ensures lots == old(lots)[lotId := lot']
      ensures spots == DropFree(old(spots), lotId, old(lots)[lotId].maxSpots - lot'.maxSpots)
      ensures |spots| == |old(spots)| - (old(lots)[lotId].maxSpots - lot'.maxSpots)
      ensures forall sp :: sp in spots ==> sp in old(spots)
      ensures forall sp :: sp in old(spots) && !IsFreeIn(sp, lotId) ==> sp in spots
      ensures CountSpots(spots, lotId) == lot'.maxSpots && CountFree(spots, lotId) == lot'.available
      ensures reservations == old(reservations) && history == old(history)
      ensures nextLotId == old(nextLotId) && nextSpotId == old(nextSpotId)
    {
      var k := lots[lotId].maxSpots - lot'.maxSpots;
      ShrinkKeepsInvariant(lots, spots, reservations, history, nextLotId, nextSpotId, lotId, k, lot');
      DropFreeCount(spots, lotId, k, lotId);
      DropFreeSpots(lotId, k);
      lots := lots[lotId := lot'];
    }

    /** The grow path of edit_lot: adds the missing spots as Free and stores
        the lot's new row `lot'` (more spots, same occupied count). */
    method GrowLot(lotId: nat, lot': Lot)
      requires Valid() && lotId in lots
      requires lot'.maxSpots >= lots[lotId].maxSpots
      requires lot'.maxSpots - lot'.available == lots[lotId].maxSpots - lots[lotId].available
      modifies this
      ensures Valid()
      ensures lots == old(lots)[lotId := lot']
      ensures spots == old(spots) + FreshSpots(old(nextSpotId), lotId, lot'.maxSpots - old(lots)[lotId].maxSpots)
      ensures nextSpotId == old(nextSpotId) + (lot'.maxSpots - old(lots)[lotId].maxSpots)
      ensures CountSpots(spots, lotId) == lot'.maxSpots && CountFree(spots, lotId) == lot'.available
      ensures reservations == old(reservations) && history == old(history) && nextLotId == old(nextLotId)
    {
      var k := lot'.maxSpots - lots[lotId].maxSpots;
      AddFreeSpots(lotId, k);
      AddSpotsKeepsInvariant(old(lots), old(spots), reservations, history, nextLotId, old(nextSpotId),
                             lotId, lot', k, nextLotId);
      lots := lots[lotId := lot'];
    }

    /** delete_lot: refused with no change when the lot is missing or has an
        occupied spot; otherwise the lot and all its spots go, and the
        reservation and history tables stay as they are. */
    method DeleteLot(lotId: nat) returns (r: Outcome)
      requires Valid()
      modifies this
      ensures Valid()
      ensures lotId !in old(lots) ==> r == Refused(NotFound)
      ensures lotId in old(lots) && HasOccupied(old(spots), lotId) ==> r == Refused(Conflict)
      ensures r == Done <==> lotId in old(lots) && !HasOccupied(old(spots), lotId)
      ensures r.Refused? ==> unchanged(this)
      ensures r == Done ==> lots == old(lots) - {lotId} && spots == WithoutLot(old(spots), lotId)
      ensures reservations == old(reservations) && history == old(history)
      ensures nextLotId == old(nextLotId) && nextSpotId == old(nextSpotId)
    {
      if lotId !in lots {
        return Refused(NotFound);
      }
      if HasOccupied(spots, lotId) {
        return Refused(Conflict);
      }
      DeleteKeepsInvariant(lots, spots, reservations, history, nextLotId, nextSpotId, lotId);
      lots := lots - {lotId};
      spots := WithoutLot(spots, lotId);
      r := Done;
    }
  }
}
