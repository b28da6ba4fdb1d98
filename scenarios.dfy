/** Client methods that use only the store's contracts: what a caller of the
    route handlers can rely on. */
module ParkingScenarios {
  import opened ParkingModel
  import opened ParkingApp

  /** Three spots at 2000 minor units an hour; one booking released after
      two hours costs 4000, and a second release of it changes nothing. */
  method BookThenReleaseTwice()
  {
    var store := new ParkingStore();
    var created := store.CreateLot("Central", 2000, "Main Road", "110001", 3);
    assert created == Ok(0);
    assert store.lots[0].available == 3;

    var booked := store.Book(0, 7, 1000);
    assert booked == Some(0);
    assert store.lots[0].available == 2;
    assert store.lots.Keys == {0} && store.lots[0].price == 2000;
    assert store.reservations[0].parkingTime == 1000 && store.reservations[0].IsOpen();

    var cost := store.Release(0, 7, 1000 + 7200);
    CostOfWholeHours(1000, 2, 2000);
    assert cost == Some(4000);
    assert store.lots[0].available == 3 && |store.history| == 1;
    assert store.history[0].price == 4000;

    var again := store.Release(0, 7, 20000);
    assert again == None;
    assert store.lots[0].available == 3 && |store.history| == 1;
  }

  /** Five spots, two occupied: shrinking to one is refused, shrinking to two
      leaves no spot to book and no new spot id used. */
  method ResizeAroundOccupiedSpots()
  {
    var store := new ParkingStore();
    var created := store.CreateLot("Station", 500, "Rail Road", "560001", 5);
    assert created == Ok(0);
    assert store.nextSpotId == 5 && store.nextLotId == 1;
    var first := store.Book(0, 1, 0);
    assert first.Some?;
    var second := store.Book(0, 2, 0);
    assert second.Some?;
    assert store.lots[0].maxSpots == 5 && store.lots[0].available == 3;

    var tooSmall := store.Resize(0, Some(1));
    assert tooSmall == Refused(CapacityConflict);
    var negative := store.Resize(0, Some(-4));
    assert negative == Refused(CapacityConflict);
    var missing := store.Resize(0, None);
    assert missing == Refused(MissingValue);

    var shrunk := store.Resize(0, Some(2));
    assert shrunk == Done;
    assert store.lots[0].maxSpots == 2 && store.lots[0].available == 0;
    assert store.nextSpotId == 5;
    var none := store.Book(0, 3, 0);
    assert none == None;
  }

  /** Growing a lot of two spots to four appends two Free spots whose ids
      continue the spot counter. */
  method GrowTakesFreshIds()
  {
    var store := new ParkingStore();
    var created := store.CreateLot("Depot", 300, "Dock Road", "600001", 2);
    assert created == Ok(0);
    assert store.nextSpotId == 2 && store.nextLotId == 1;

    var grown := store.Resize(0, Some(4));
    assert grown == Done;
    assert store.nextSpotId == 4 && store.lots[0].available == 4;
    assert store.spots[3] == Spot(3, 0, Free);
  }

  /** A lot with an occupied spot cannot be deleted until that spot is
      released; the history row of the stay survives the deletion. */
  method DeleteAfterRelease()
  {
    var store := new ParkingStore();
    var created := store.CreateLot("Market", 100, "Bazaar Street", "400001", 2);
    assert created == Ok(0);
    var booked := store.Book(0, 9, 0);
    assert booked == Some(0);
    assert store.spots[0].lotId == 0 && store.spots[0].status == Occupied;

    var refused := store.DeleteLot(0);
    assert refused == Refused(Conflict);

    var cost := store.Release(0, 9, 3600);
    assert cost.Some?;
    var deleted := store.DeleteLot(0);
    assert deleted == Done;
    assert 0 !in store.lots && |store.history| == 1;

    var gone := store.DeleteLot(0);
    assert gone == Refused(NotFound);
  }
}
