/**
 * The objects of `complete_code.py`: the slot/booking store and the booking
 * system with its per-slot lock table. The SQLite tables become two map
 * fields of `ParkingDatabase`, whose primitives and `GetOrCreateLock` carry
 * their own contracts on the fields they change; `ValidateSlot`,
 * `BookParkingSlot` and `ReleaseParkingSlotByBookingId` are proved to make
 * exactly the transition `EngineSpec` describes.
 */
module Engine {
  import opened Wrappers
  import opened Text
  import opened EngineSpec

  /** Stands for a `threading.Lock`: only its identity matters to the model. */
  class SlotLock {
    constructor() {}
  }

  /** The `slots` and `bookings` tables, held in memory. */
  class ParkingDatabase {
    var slots: map<string, bool>
    var bookings: map<string, Booking>

    constructor(slots0: map<string, bool>, bookings0: map<string, Booking>)
      ensures slots == slots0 && bookings == bookings0
    {
      slots := slots0;
      bookings := bookings0;
    }

    /** Both tables as one value. */
    function Snapshot(): Store
      reads this
    {
      Store(slots, bookings)
    }

    /** `get_slot_status`: the slot's availability, or nothing when there is no such row. */
    method GetSlotStatus(slotId: string) returns (r: Option<bool>)
      ensures r.Some? <==> slotId in slots
      ensures r.Some? ==> r.value == slots[slotId]
    {
      if slotId in slots {
        r := Some(slots[slotId]);
      } else {
        r := None;
      }
    }

    /** `update_slot_status`: an UPDATE that reports whether a row matched. */
    method UpdateSlotStatus(slotId: string, isAvailable: bool) returns (success: bool)
      modifies this
      ensures success <==> slotId in old(slots)
      ensures slots == if success then old(slots)[slotId := isAvailable] else old(slots)
      ensures bookings == old(bookings)
    {
      success := slotId in slots;
      if success {
        slots := slots[slotId := isAvailable];
      }
    }

    /** `create_booking`: insert an ACTIVE row under the id the generator drew. */
    method CreateBooking(slotId: string, userName: string, freshId: string) returns (bookingId: string)
      requires freshId !in bookings
      modifies this
      ensures bookingId == freshId
      ensures bookings == old(bookings)[freshId := Booking(slotId, userName, Active)]
      ensures slots == old(slots)
    {
      bookings := bookings[freshId := Booking(slotId, userName, Active)];
      bookingId := freshId;
    }

    /** `get_booking_by_id`: slot and user of the booking, found only while it is ACTIVE. */
    method GetBookingById(bookingId: string) returns (r: Option<(string, string)>)
      ensures r.Some? <==> ActiveBooking(Snapshot(), bookingId).Some?
      ensures r.Some? ==> var b := bookings[bookingId]; r.value == (b.slotId, b.userName)
    {
      if bookingId in bookings && bookings[bookingId].status == Active {
        var b := bookings[bookingId];
        r := Some((b.slotId, b.userName));
      } else {
        r := None;
      }
    }

    /** `update_booking_status`: an UPDATE of the status column that reports whether a row matched. */
    method UpdateBookingStatus(bookingId: string, status: Status) returns (success: bool)
      modifies this
      ensures success <==> bookingId in old(bookings)
      ensures bookings == if success then old(bookings)[bookingId := old(bookings)[bookingId].(status := status)]
                          else old(bookings)
      ensures slots == old(slots)
    {
      success := bookingId in bookings;
      if success {
        bookings := bookings[bookingId := bookings[bookingId].(status := status)];
      }
    }
  }

  /** `SmartParkingSystem`: the store plus a table of per-slot locks that only grows. */
  class SmartParkingSystem {
    const db: ParkingDatabase
    var slotLocks: map<string, SlotLock>

    constructor(db: ParkingDatabase)
      ensures this.db == db && slotLocks == map[]
    {
      this.db := db;
      slotLocks := map[];
    }

    /**
     * `get_or_create_lock`: a slot id already in the table gets the lock stored
     * for it; a new one gets a fresh lock that is stored. No entry is ever
     * removed or replaced.
     */
    method GetOrCreateLock(slotId: string) returns (lock: SlotLock)
      modifies this
      ensures slotId in old(slotLocks) ==> lock == old(slotLocks)[slotId] && slotLocks == old(slotLocks)
      ensures slotId !in old(slotLocks) ==> fresh(lock) && slotLocks == old(slotLocks)[slotId := lock]
      ensures slotId in slotLocks && slotLocks[slotId] == lock
    {
      if slotId !in slotLocks {
        var l := new SlotLock();
        slotLocks := slotLocks[slotId := l];
      }
      lock := slotLocks[slotId];
    }

    /** `validate_slot`, checked against the store as it stands. */
    method ValidateSlot(raw: string) returns (r: Result<string, Rejection>)
      ensures r == EngineSpec.ValidateSlot(db.Snapshot(), raw)
    {
      ReservedSurvivesNormalize(raw);
      var slotId := Normalize(raw);
      if ContainsReserved(slotId) {
        return Err(InvalidCharacters);
      }
      var status := db.GetSlotStatus(slotId);
      if status.None? {
        return Err(SlotNotFound(slotId));
      }
      return Ok(slotId);
    }

    /**
     * `book_parking_slot`: validate, take the slot's lock, re-read the slot and,
     * when it is available, mark it occupied and record an ACTIVE booking. The
     * lock table gains the slot's entry whenever validation succeeds.
     */
    method BookParkingSlot(raw: string, userName: string, freshId: string) returns (r: Result<string, Rejection>)
      requires IsGeneratedId(freshId) && freshId !in db.bookings
      modifies this, db
      ensures (db.Snapshot(), r) == Book(old(db.Snapshot()), raw, userName, freshId)
      ensures r.Ok? ==> IsGeneratedId(r.value)
      ensures Consistent(old(db.Snapshot())) ==> Consistent(db.Snapshot())
      ensures slotLocks.Keys == old(slotLocks).Keys +
                (if EngineSpec.ValidateSlot(old(db.Snapshot()), raw).Ok? then {Normalize(raw)} else {})
      ensures forall k :: k in old(slotLocks) ==> slotLocks[k] == old(slotLocks)[k]
    {
      ghost var st0 := db.Snapshot();
      var v := ValidateSlot(raw);
      if v.Err? {
        return Err(v.error);
      }
      var slotId := v.value;
      var _ := GetOrCreateLock(slotId);
      // critical section guarded by the slot's lock
      var isAvailable := db.GetSlotStatus(slotId);
      if isAvailable != Some(true) {
        return Err(SlotOccupied(slotId));
      }
      var _ := db.UpdateSlotStatus(slotId, false);
      var bookingId := db.CreateBooking(slotId, userName, freshId);
      r := Ok(bookingId);
      if Consistent(st0) {
        BookPreservesConsistency(st0, raw, userName, freshId);
      }
    }

    /**
     * `release_parking_slot_by_booking_id`: normalise and screen the id, look it
     * up among ACTIVE bookings, take its slot's lock, free the slot and mark the
     * booking COMPLETED. The outcome is the message the source prints.
     */
    method ReleaseParkingSlotByBookingId(raw: string) returns (outcome: ReleaseOutcome)
      modifies this, db
      ensures (db.Snapshot(), outcome) == Release(old(db.Snapshot()), raw)
      ensures Consistent(old(db.Snapshot())) ==> Consistent(db.Snapshot())
      ensures slotLocks.Keys == old(slotLocks).Keys +
                (if outcome.Released? then {outcome.slotId} else {})
      ensures forall k :: k in old(slotLocks) ==> slotLocks[k] == old(slotLocks)[k]
    {
      ghost var st0 := db.Snapshot();
      var bookingId := Normalize(raw);
      if ContainsReserved(bookingId) {
        ReservedSurvivesNormalize(raw);
        return InvalidBookingId;
      }
      assert !ContainsReserved(raw) by {
        ReservedSurvivesNormalize(raw);
      }
      var details := db.GetBookingById(bookingId);
      if details.None? {
        return BookingNotFound;
      }
      var (slotId, userName) := details.value;
      var _ := GetOrCreateLock(slotId);
      // critical section guarded by the slot's lock
      var _ := db.UpdateSlotStatus(slotId, true);
      var _ := db.UpdateBookingStatus(bookingId, Completed);
      outcome := Released(slotId, userName);
      if Consistent(st0) {
        ReleasePreservesConsistency(st0, raw);
      }
    }
  }
}
