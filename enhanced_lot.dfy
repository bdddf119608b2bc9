/**
 * The vehicle-tracking variant `Code/smart_parking_enhanced.py`: slots carry a
 * record with the parked vehicle, a vehicle may hold at most one slot, and
 * every successful change is logged to the booking history once the lot has
 * been saved. The transitions are first given as functions on a `LotState`
 * value; the class `ParkingLot` then performs them in place and is proved to
 * agree with those functions.
 */
module EnhancedLot {
  import opened Wrappers
  import opened Text
  import opened LotRecords

  /** The module-level `parking_lot` dict together with the history file's list. */
  datatype LotState = LotState(lot: Lot, history: seq<HistoryEntry>)

  /** Why `validate_vehicle_id` refuses an id, or that it accepts it. */
  datatype VehicleCheck = Valid | Empty | TooShort

  /** What a booking ends in; only `Booked` makes the source return True. */
  datatype BookOutcome = Booked | SlotMissing | BadVehicleId(check: VehicleCheck) | SlotTaken | VehicleElsewhere

  /** What a release ends in; only `Freed` makes the source return True. */
  datatype ReleaseOutcome = Freed(vehicleId: Option<string>) | UnknownSlot | NotOccupied

  /**
   * `validate_vehicle_id`: an id that is empty or all whitespace is refused,
   * then one shorter than three characters (counted before stripping).
   */
  function ValidateVehicleId(v: string): (r: VehicleCheck)
    ensures r == Empty <==> forall i :: 0 <= i < |v| ==> IsSpace(v[i])
    ensures r == TooShort <==> (exists i :: 0 <= i < |v| && !IsSpace(v[i])) && |v| < 3
    ensures r == Valid <==> (exists i :: 0 <= i < |v| && !IsSpace(v[i])) && |v| >= 3
  {
    StripEmpty(v);
    if |Strip(v)| == 0 then Empty
    else if |v| < 3 then TooShort
    else Valid
  }

  /** Some occupied slot holds vehicle `v` (the test of the loop in `book_parking_slot` and of `search_vehicle`). */
  predicate VehicleParked(lot: Lot, v: string)
  {
    exists s :: s in lot && !lot[s].available && lot[s].vehicleId == Some(v)
  }

  /** No vehicle id is recorded in two occupied slots. */
  predicate UniqueVehicles(lot: Lot)
  {
    forall s, t ::
      (s in lot && t in lot && !lot[s].available && !lot[t].available &&
       lot[s].vehicleId.Some? && lot[s].vehicleId == lot[t].vehicleId) ==> s == t
  }

  /** The record a booking at time `now` leaves behind. */
  function BookedRecord(v: string, now: string): SlotRecord
  {
    SlotRecord(false, Some(v), Some(now))
  }

  /**
   * `book_parking_slot`: the slot must exist, the vehicle id must pass
   * validation, the slot must be available and the vehicle must not be parked
   * elsewhere. A booking that passes is kept even when saving the lot fails
   * (`saved` false); the history entry is written only after a save.
   */
  function BookSlot(st: LotState, slot: string, v: string, now: string, saved: bool): (res: (LotState, BookOutcome))
    ensures res.1 == Booked <==>
              slot in st.lot && ValidateVehicleId(v) == Valid && st.lot[slot].available && !VehicleParked(st.lot, v)
    ensures res.1 != Booked ==> res.0 == st
    ensures res.1 == Booked ==> res.0.lot == st.lot[slot := BookedRecord(v, now)]
    ensures res.1 == Booked ==>
              res.0.history == if saved then st.history + [HistoryEntry(Some(slot), Some(v), Some(now), BookAction)] else st.history
    ensures slot !in st.lot ==> res.1 == SlotMissing
    ensures slot in st.lot && ValidateVehicleId(v) != Valid ==> res.1 == BadVehicleId(ValidateVehicleId(v))
    ensures slot in st.lot && ValidateVehicleId(v) == Valid && !st.lot[slot].available ==> res.1 == SlotTaken
    ensures slot in st.lot && ValidateVehicleId(v) == Valid && st.lot[slot].available && VehicleParked(st.lot, v)
            ==> res.1 == VehicleElsewhere
  {
    if slot !in st.lot then (st, SlotMissing)
    else if ValidateVehicleId(v) != Valid then (st, BadVehicleId(ValidateVehicleId(v)))
    else if !st.lot[slot].available then (st, SlotTaken)
    else if VehicleParked(st.lot, v) then (st, VehicleElsewhere)
    else
      var history := if saved then st.history + [HistoryEntry(Some(slot), Some(v), Some(now), BookAction)] else st.history;
      (LotState(st.lot[slot := BookedRecord(v, now)], history), Booked)
  }

  /**
   * `release_parking_slot`: an occupied slot goes back to the free record; the
   * history entry (written only after a save) carries the vehicle and, since
   * it is read after the record was cleared, no booking time.
   */
  function ReleaseSlot(st: LotState, slot: string, saved: bool): (res: (LotState, ReleaseOutcome))
    ensures res.1.Freed? <==> slot in st.lot && !st.lot[slot].available
    ensures !res.1.Freed? ==> res.0 == st
    ensures slot !in st.lot ==> res.1 == UnknownSlot
    ensures slot in st.lot && st.lot[slot].available ==> res.1 == NotOccupied
    ensures res.1.Freed? ==> res.1.vehicleId == st.lot[slot].vehicleId
    ensures res.1.Freed? ==> res.0.lot == st.lot[slot := FreeRecord]
    ensures res.1.Freed? ==>
              res.0.history == if saved then st.history + [HistoryEntry(Some(slot), st.lot[slot].vehicleId, None, ReleaseAction)]
                               else st.history
  {
    if slot !in st.lot then (st, UnknownSlot)
    else if st.lot[slot].available then (st, NotOccupied)
    else
      var vehicle := st.lot[slot].vehicleId;
      var history := if saved then st.history + [HistoryEntry(Some(slot), vehicle, None, ReleaseAction)] else st.history;
      (LotState(st.lot[slot := FreeRecord], history), Freed(vehicle))
  }

  /** Booking keeps every vehicle in at most one slot. */
  lemma BookPreservesUniqueVehicles(st: LotState, slot: string, v: string, now: string, saved: bool)
    requires UniqueVehicles(st.lot)
    ensures UniqueVehicles(BookSlot(st, slot, v, now, saved).0.lot)
  {
  }

  /** Releasing keeps every vehicle in at most one slot. */
  lemma ReleasePreservesUniqueVehicles(st: LotState, slot: string, saved: bool)
    requires UniqueVehicles(st.lot)
    ensures UniqueVehicles(ReleaseSlot(st, slot, saved).0.lot)
  {
  }

  /** After a booking, searching for the vehicle finds it. */
  lemma BookedVehicleIsFound(st: LotState, slot: string, v: string, now: string, saved: bool)
    requires BookSlot(st, slot, v, now, saved).1 == Booked
    ensures VehicleParked(BookSlot(st, slot, v, now, saved).0.lot, v)
  {
    var lot' := BookSlot(st, slot, v, now, saved).0.lot;
    assert slot in lot' && !lot'[slot].available && lot'[slot].vehicleId == Some(v);
  }

  /** Once a vehicle holds a slot, booking it into any slot is refused and changes nothing. */
  lemma SecondBookingRefused(st: LotState, slot: string, v: string, now: string, saved: bool,
                             slot2: string, now2: string, saved2: bool)
    requires BookSlot(st, slot, v, now, saved).1 == Booked
    requires slot2 in st.lot
    ensures var st1 := BookSlot(st, slot, v, now, saved).0;
            BookSlot(st1, slot2, v, now2, saved2) == (st1, if slot2 == slot then SlotTaken
                                                          else if st.lot[slot2].available then VehicleElsewhere
                                                          else SlotTaken)
  {
    BookedVehicleIsFound(st, slot, v, now, saved);
  }

  /** With unique vehicles, releasing a vehicle's slot leaves it parked nowhere. */
  lemma ReleaseUnparksVehicle(st: LotState, slot: string, saved: bool)
    requires UniqueVehicles(st.lot)
    requires slot in st.lot && !st.lot[slot].available && st.lot[slot].vehicleId.Some?
    ensures !VehicleParked(ReleaseSlot(st, slot, saved).0.lot, st.lot[slot].vehicleId.value)
  {
  }

  /**
   * Booking a free slot and then releasing it gives back the lot as it was;
   * with both saves succeeding the history gains a book and a release entry.
   */
  lemma BookReleaseRoundTrip(st: LotState, slot: string, v: string, now: string, saved1: bool, saved2: bool)
    requires slot in st.lot && st.lot[slot] == FreeRecord
    requires BookSlot(st, slot, v, now, saved1).1 == Booked
    ensures var st1 := BookSlot(st, slot, v, now, saved1).0;
            var (st2, r) := ReleaseSlot(st1, slot, saved2);
            && r == Freed(Some(v))
            && st2.lot == st.lot
            && (saved1 && saved2 ==>
                  st2.history == st.history + [HistoryEntry(Some(slot), Some(v), Some(now), BookAction),
                                               HistoryEntry(Some(slot), Some(v), None, ReleaseAction)])
  {
    var st1 := BookSlot(st, slot, v, now, saved1).0;
    assert st1.lot[slot := FreeRecord] == st.lot;
  }

  /** The lot of `Code/smart_parking_enhanced.py`, updated in place. */
  class ParkingLot {
    var lot: Lot
    var history: seq<HistoryEntry>

    function State(): LotState
      reads this
    {
      LotState(lot, history)
    }

    /**
     * `load_parking_data`: the lot read from the data file (`loaded`), or the
     * default lot when the file is missing or cannot be decoded (`None`).
     */
    constructor(loaded: Option<Lot>, history0: seq<HistoryEntry>)
      ensures lot == if loaded.Some? then loaded.value else DefaultParkingLot()
      ensures history == history0
    {
      if loaded.Some? {
        lot := loaded.value;
      } else {
        lot := DefaultParkingLot();
      }
      history := history0;
    }

    /** `validate_slot`: the id is a key of the lot, taken as typed. */
    method ValidateSlot(slot: string) returns (ok: bool)
      ensures ok <==> slot in lot
    {
      ok := slot in lot;
    }

    /** `book_parking_slot`, with the scan over the other slots for the same vehicle. */
    method BookParkingSlot(slot: string, v: string, now: string, saved: bool) returns (outcome: BookOutcome)
      modifies this
      ensures (State(), outcome) == BookSlot(old(State()), slot, v, now, saved)
    {
      var known := ValidateSlot(slot);
      if !known {
        return SlotMissing;
      }
      var check := ValidateVehicleId(v);
      if check != Valid {
        return BadVehicleId(check);
      }
      if !lot[slot].available {
        return SlotTaken;
      }
      var unseen := lot.Keys;
      while unseen != {}
        invariant unseen <= lot.Keys
        invariant forall s :: s in lot && s !in unseen ==> lot[s].available || lot[s].vehicleId != Some(v)
        decreases |unseen|
      {
        var other :| other in unseen;
        if !lot[other].available && lot[other].vehicleId == Some(v) {
          return VehicleElsewhere;
        }
        unseen := unseen - {other};
      }
      lot := lot[slot := BookedRecord(v, now)];
      if saved {
        history := history + [HistoryEntry(Some(slot), Some(v), Some(now), BookAction)];
      }
      return Booked;
    }

    /** `release_parking_slot`. */
    method ReleaseParkingSlot(slot: string, saved: bool) returns (outcome: ReleaseOutcome)
      modifies this
      ensures (State(), outcome) == ReleaseSlot(old(State()), slot, saved)
    {
      var known := ValidateSlot(slot);
      if !known {
        return UnknownSlot;
      }
      if lot[slot].available {
        return NotOccupied;
      }
      var vehicle := lot[slot].vehicleId;
      lot := lot[slot := FreeRecord];
      if saved {
        history := history + [HistoryEntry(Some(slot), vehicle, None, ReleaseAction)];
      }
      return Freed(vehicle);
    }

    /** `search_available_slots`: exactly the available slot ids, in ascending order. */
    method SearchAvailableSlots() returns (available: seq<string>)
      ensures StrictlySorted(available)
      ensures forall s :: s in available <==> s in lot && lot[s].available
    {
      available := [];
      var unseen := lot.Keys;
      while unseen != {}
        invariant unseen <= lot.Keys
        invariant StrictlySorted(available)
        invariant forall s :: s in available <==> s in lot && s !in unseen && lot[s].available
        decreases |unseen|
      {
        var s :| s in unseen;
        if lot[s].available {
          available := InsertSorted(available, s);
        }
        unseen := unseen - {s};
      }
    }

    /** `search_vehicle`: whether some occupied slot holds vehicle `v`. */
    method SearchVehicle(v: string) returns (found: bool)
      ensures found <==> VehicleParked(lot, v)
    {
      found := false;
      var unseen := lot.Keys;
      while unseen != {}
        invariant unseen <= lot.Keys
        invariant !found
        invariant forall s :: s in lot && s !in unseen ==> lot[s].available || lot[s].vehicleId != Some(v)
        decreases |unseen|
      {
        var s :| s in unseen;
        if !lot[s].available && lot[s].vehicleId == Some(v) {
          found := true;
          break;
        }
        unseen := unseen - {s};
      }
    }
  }

  /** The list `search_available_slots` returns is the only strictly sorted list of the available slot ids. */
  lemma AvailableListIsUnique(lot: Lot, a: seq<string>, b: seq<string>)
    requires StrictlySorted(a) && (forall s :: s in a <==> s in lot && lot[s].available)
    requires StrictlySorted(b) && (forall s :: s in b <==> s in lot && lot[s].available)
    ensures a == b
  {
    SortedUnique(a, b);
  }
}
