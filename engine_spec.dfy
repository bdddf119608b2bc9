/**
 * The booking engine of `SmartParkingSystem` over its slot/booking store,
 * as pure transitions on a snapshot of the store. `Book` and `ReleaseCommit`
 * are the lock-protected critical sections; `ReleaseLookup` is the unlocked
 * lookup before the lock is taken, and `Release` is the lookup and the commit
 * run back to back.
 */
module EngineSpec {
  import opened Wrappers
  import opened Text

  datatype Status = Active | Completed

  /** A row of the bookings table (the booking time is not modelled). */
  datatype Booking = Booking(slotId: string, userName: string, status: Status)

  /** The two tables: slot id to availability, booking id to booking row. */
  datatype Store = Store(slots: map<string, bool>, bookings: map<string, Booking>)

  /**
   * Why a booking request is turned down: the message the source prints, or
   * (`IdCollision`) the integrity error the INSERT of an already used id raises.
   */
  datatype Rejection = InvalidCharacters | SlotNotFound(slotId: string) | SlotOccupied(slotId: string) | IdCollision

  /** What a release request ends in (the message the source prints). */
  datatype ReleaseOutcome = Released(slotId: string, userName: string) | InvalidBookingId | BookingNotFound

  predicate IsUpperHex(c: char) { '0' <= c <= '9' || 'A' <= c <= 'F' }

  /** The shape of `str(uuid.uuid4())[:8].upper()`: eight upper-case hex digits. */
  predicate IsGeneratedId(id: string)
  {
    |id| == 8 && forall i :: 0 <= i < |id| ==> IsUpperHex(id[i])
  }

  /** `get_booking_by_id`: the row for `id`, but only while it is ACTIVE. */
  function ActiveBooking(st: Store, id: string): (r: Option<Booking>)
    ensures r.Some? ==> id in st.bookings && r.value == st.bookings[id] && r.value.status == Active
    ensures r.None? ==> id !in st.bookings || st.bookings[id].status != Active
  {
    if id in st.bookings && st.bookings[id].status == Active then Some(st.bookings[id]) else None
  }

  /** The ids of the ACTIVE bookings that reference slot `s`. */
  function ActiveFor(st: Store, s: string): set<string>
  {
    set id | id in st.bookings && st.bookings[id].status == Active && st.bookings[id].slotId == s
  }

  /**
   * The invariant the per-slot locks exist to keep: every ACTIVE booking names an
   * existing slot, and a slot is occupied iff exactly one ACTIVE booking references it.
   */
  ghost predicate Consistent(st: Store)
  {
    && (forall id :: id in st.bookings && st.bookings[id].status == Active ==> st.bookings[id].slotId in st.slots)
    && (forall s :: s in st.slots ==> |ActiveFor(st, s)| == if st.slots[s] then 0 else 1)
  }

  /**
   * `validate_slot`: normalise, refuse reserved characters whatever the store
   * holds, refuse an id the store does not know, else hand back the normal form.
   */
  function ValidateSlot(st: Store, raw: string): (r: Result<string, Rejection>)
    ensures r.Ok? <==> !ContainsReserved(raw) && Normalize(raw) in st.slots
    ensures r.Ok? ==> r.value == Normalize(raw)
    ensures ContainsReserved(raw) ==> r == Err(InvalidCharacters)
    ensures !ContainsReserved(raw) && Normalize(raw) !in st.slots ==> r == Err(SlotNotFound(Normalize(raw)))
  {
    ReservedSurvivesNormalize(raw);
    var n := Normalize(raw);
    if ContainsReserved(n) then Err(InvalidCharacters)
    else if n !in st.slots then Err(SlotNotFound(n))
    else Ok(n)
  }

  /**
   * `book_parking_slot`: validate, re-read the slot inside its lock, and on an
   * available slot mark it occupied and insert an ACTIVE booking under `freshId`.
   */
  function Book(st: Store, raw: string, user: string, freshId: string): (res: (Store, Result<string, Rejection>))
    requires freshId !in st.bookings
    ensures res.1.Ok? <==> !ContainsReserved(raw) && Normalize(raw) in st.slots && st.slots[Normalize(raw)]
    ensures res.1.Ok? ==> res.1.value == freshId
    ensures res.1.Ok? ==> res.0.slots == st.slots[Normalize(raw) := false]
    ensures res.1.Ok? ==> res.0.bookings == st.bookings[freshId := Booking(Normalize(raw), user, Active)]
    ensures res.1.Err? ==> res.0 == st
    ensures !ContainsReserved(raw) && Normalize(raw) in st.slots && !st.slots[Normalize(raw)]
            ==> res.1 == Err(SlotOccupied(Normalize(raw)))
  {
    match ValidateSlot(st, raw)
    case Err(e) => (st, Err(e))
    case Ok(slot) =>
      if !st.slots[slot] then (st, Err(SlotOccupied(slot)))
      else (Store(st.slots[slot := false], st.bookings[freshId := Booking(slot, user, Active)]), Ok(freshId))
  }

  /**
   * `book_parking_slot` as written, for any drawn id: the slot is marked
   * occupied and committed before the booking row is inserted, so when the
   * drawn id is already a key of the bookings table the INSERT raises and the
   * slot stays occupied with no booking added. With a fresh id it is `Book`.
   */
  function BookAsWritten(st: Store, raw: string, user: string, freshId: string): (res: (Store, Result<string, Rejection>))
    ensures freshId !in st.bookings ==> res == Book(st, raw, user, freshId)
    ensures freshId in st.bookings && ValidateSlot(st, raw).Ok? && st.slots[Normalize(raw)] ==>
              res == (Store(st.slots[Normalize(raw) := false], st.bookings), Err(IdCollision))
    ensures freshId in st.bookings && !(ValidateSlot(st, raw).Ok? && st.slots[ValidateSlot(st, raw).value]) ==>
              res.0 == st && res.1.Err? && res.1.error != IdCollision
  {
    if freshId !in st.bookings then Book(st, raw, user, freshId)
    else match ValidateSlot(st, raw)
      case Err(e) => (st, Err(e))
      case Ok(slot) =>
        if !st.slots[slot] then (st, Err(SlotOccupied(slot)))
        else (Store(st.slots[slot := false], st.bookings), Err(IdCollision))
  }

  /**
   * A drawn id that collides with any earlier booking (ACTIVE or COMPLETED)
   * leaves a free slot occupied with no ACTIVE booking on it: the invariant is
   * broken and no booking id can ever release that slot.
   */
  lemma CollisionBreaksConsistency(st: Store, raw: string, user: string, freshId: string, s: string)
    requires Consistent(st) && freshId in st.bookings
    requires ValidateSlot(st, raw) == Ok(s) && st.slots[s]
    ensures var st' := BookAsWritten(st, raw, user, freshId).0;
            s in st'.slots && !st'.slots[s] && ActiveFor(st', s) == {} && !Consistent(st')
  {
    var st' := BookAsWritten(st, raw, user, freshId).0;
    assert |ActiveFor(st, s)| == 0;
    assert ActiveFor(st', s) == ActiveFor(st, s);
  }

  /**
   * `release_parking_slot_by_booking_id`: normalise, refuse reserved characters,
   * look the id up among ACTIVE bookings only, then free its slot (when the slot
   * row still exists) and mark the booking COMPLETED.
   */
  function Release(st: Store, raw: string): (res: (Store, ReleaseOutcome))
    ensures ContainsReserved(raw) ==> res == (st, InvalidBookingId)
    ensures !ContainsReserved(raw) && ActiveBooking(st, Normalize(raw)).None? ==> res == (st, BookingNotFound)
    ensures res.1.Released? <==> !ContainsReserved(raw) && ActiveBooking(st, Normalize(raw)).Some?
    ensures res.1.Released? ==>
              var id := Normalize(raw);
              var b := st.bookings[id];
              && res.1 == Released(b.slotId, b.userName)
              && res.0.bookings == st.bookings[id := b.(status := Completed)]
              && res.0.slots == if b.slotId in st.slots then st.slots[b.slotId := true] else st.slots
  {
    ReservedSurvivesNormalize(raw);
    var id := Normalize(raw);
    if ContainsReserved(id) then (st, InvalidBookingId)
    else match ActiveBooking(st, id)
      case None => (st, BookingNotFound)
      case Some(b) =>
        var slots := if b.slotId in st.slots then st.slots[b.slotId := true] else st.slots;
        (Store(slots, st.bookings[id := b.(status := Completed)]), Released(b.slotId, b.userName))
  }

  /** A store whose slots are all free and that holds no booking satisfies the invariant. */
  lemma FreshStoreConsistent(slots: map<string, bool>)
    requires forall s :: s in slots ==> slots[s]
    ensures Consistent(Store(slots, map[]))
  {
    var st := Store(slots, map[]);
    forall s | s in slots ensures ActiveFor(st, s) == {} {
      assert forall id :: id !in st.bookings;
    }
  }

  /** A successful booking keeps the slot/booking invariant. */
  lemma BookPreservesConsistency(st: Store, raw: string, user: string, freshId: string)
    requires freshId !in st.bookings && Consistent(st)
    ensures Consistent(Book(st, raw, user, freshId).0)
  {
    var (st', r) := Book(st, raw, user, freshId);
    if r.Ok? {
      var slot := Normalize(raw);
      forall s | s in st'.slots
        ensures |ActiveFor(st', s)| == if st'.slots[s] then 0 else 1
      {
        if s == slot {
          assert ActiveFor(st, s) == {};
          assert ActiveFor(st', s) == {freshId};
        } else {
          assert ActiveFor(st', s) == ActiveFor(st, s);
        }
      }
    }
  }

  /** A successful release keeps the slot/booking invariant. */
  lemma ReleasePreservesConsistency(st: Store, raw: string)
    requires Consistent(st)
    ensures Consistent(Release(st, raw).0)
  {
    var (st', r) := Release(st, raw);
    if r.Released? {
      var id := Normalize(raw);
      var slot := st.bookings[id].slotId;
      assert id in ActiveFor(st, slot);
      forall s | s in st'.slots
        ensures |ActiveFor(st', s)| == if st'.slots[s] then 0 else 1
      {
        if s == slot {
          assert |ActiveFor(st, s)| == 1;
          var others := ActiveFor(st, s) - {id};
          assert |others| == 0;
          assert others == {};
          forall x | x in st'.bookings && st'.bookings[x].status == Active
            ensures st'.bookings[x].slotId != s
          {
            assert x != id && x in st.bookings && st.bookings[x] == st'.bookings[x];
            assert x !in others;
          }
          assert ActiveFor(st', s) == {};
        } else {
          assert ActiveFor(st', s) == ActiveFor(st, s);
        }
      }
    }
  }

  /**
   * The first phase of `release_parking_slot_by_booking_id`, run before any
   * lock is taken: normalise and screen the id, then look it up among the
   * ACTIVE bookings. It yields the normalised id and the row it found.
   */
  function ReleaseLookup(st: Store, raw: string): (r: Option<(string, Booking)>)
    ensures r.Some? <==> !ContainsReserved(raw) && ActiveBooking(st, Normalize(raw)).Some?
    ensures r.Some? ==> r.value.0 == Normalize(raw) && r.value.1 == st.bookings[Normalize(raw)]
  {
    ReservedSurvivesNormalize(raw);
    var id := Normalize(raw);
    if ContainsReserved(id) then None
    else match ActiveBooking(st, id)
      case None => None
      case Some(b) => Some((id, b))
  }

  /**
   * The second phase, inside the slot's lock: two UPDATEs by key with the slot
   * and id the lookup returned, and no second look at the booking's status.
   */
  function ReleaseCommit(st: Store, id: string, slotId: string): (st': Store)
    ensures st'.slots.Keys == st.slots.Keys && st'.bookings.Keys == st.bookings.Keys
    ensures slotId in st.slots ==> st'.slots[slotId]
    ensures forall s :: s in st.slots && s != slotId ==> st'.slots[s] == st.slots[s]
    ensures id in st.bookings ==> st'.bookings[id] == st.bookings[id].(status := Completed)
    ensures forall x :: x in st.bookings && x != id ==> st'.bookings[x] == st.bookings[x]
  {
    Store(if slotId in st.slots then st.slots[slotId := true] else st.slots,
          if id in st.bookings then st.bookings[id := st.bookings[id].(status := Completed)] else st.bookings)
  }

  /** Run back to back with nothing in between, the two phases make exactly the atomic `Release`. */
  lemma ReleaseInTwoPhases(st: Store, raw: string)
    ensures ReleaseLookup(st, raw).None? ==> Release(st, raw).0 == st && !Release(st, raw).1.Released?
    ensures ReleaseLookup(st, raw).Some? ==>
              var (id, b) := ReleaseLookup(st, raw).value;
              Release(st, raw) == (ReleaseCommit(st, id, b.slotId), Released(b.slotId, b.userName))
  {
  }

  /**
   * Two releases of the same booking both pass the unlocked lookup; the first
   * runs to the end, a booking then takes the freed slot, and the second
   * release's critical section, working from its stale lookup, frees the slot
   * again while the new booking stays ACTIVE on it: the invariant is broken.
   */
  lemma StaleReleaseBreaksConsistency(st: Store, raw: string, raw2: string, user2: string, freshId2: string)
    requires Consistent(st) && ReleaseLookup(st, raw).Some?
    requires freshId2 !in st.bookings
    requires ValidateSlot(st, raw2) == Ok(ReleaseLookup(st, raw).value.1.slotId)
    ensures var (id, b) := ReleaseLookup(st, raw).value;
            var st1 := ReleaseCommit(st, id, b.slotId);
            var st3 := ReleaseCommit(Book(st1, raw2, user2, freshId2).0, id, b.slotId);
            && Book(st1, raw2, user2, freshId2).1 == Ok(freshId2)
            && st3.slots[b.slotId] && freshId2 in ActiveFor(st3, b.slotId)
            && !Consistent(st3)
  {
    var (id, b) := ReleaseLookup(st, raw).value;
    var s := b.slotId;
    var st1 := ReleaseCommit(st, id, s);
    assert ValidateSlot(st1, raw2) == Ok(s);
    var st2 := Book(st1, raw2, user2, freshId2).0;
    assert st2.bookings[freshId2] == Booking(s, user2, Active);
    var st3 := ReleaseCommit(st2, id, s);
    assert freshId2 != id;
    assert freshId2 in ActiveFor(st3, s);
  }

  /** A second request for a slot that a booking just took is turned down and changes nothing. */
  lemma DoubleBookingFails(st: Store, raw: string, user: string, freshId: string,
                           raw2: string, user2: string, freshId2: string)
    requires freshId !in st.bookings && Book(st, raw, user, freshId).1.Ok?
    requires Normalize(raw2) == Normalize(raw)
    requires freshId2 !in Book(st, raw, user, freshId).0.bookings
    ensures var st1 := Book(st, raw, user, freshId).0;
            Book(st1, raw2, user2, freshId2) == (st1, Err(SlotOccupied(Normalize(raw))))
  {
    ReservedSurvivesNormalize(raw);
    ReservedSurvivesNormalize(raw2);
  }

  /** Release depends on the raw booking id only through its normal form. */
  lemma ReleaseDependsOnNormalForm(st: Store, raw1: string, raw2: string)
    requires Normalize(raw1) == Normalize(raw2)
    ensures Release(st, raw1) == Release(st, raw2)
  {
    ReservedSurvivesNormalize(raw1);
    ReservedSurvivesNormalize(raw2);
  }

  lemma UpperHexChar(c: char)
    requires IsUpperHex(c)
    ensures !IsSpace(c) && !IsLowerAscii(c)
    ensures !IsSpace(LowerChar(c)) && UpperChar(LowerChar(c)) == c
    ensures c != '\'' && c != '"' && c != ';' && c != '-' && c != '/'
  {
  }

  /** A generated id is its own normal form and holds no reserved pattern. */
  lemma GeneratedIdCanonical(id: string)
    requires IsGeneratedId(id)
    ensures Normalize(id) == id && !ContainsReserved(id)
  {
    forall i | 0 <= i < |id| ensures CanonicalChar(id[i]) && !ReservedAt(id, i) {
      UpperHexChar(id[i]);
    }
    NormalizeCanonical(id);
  }

  /** The lower-cased copy of a generated id normalises back to the id. */
  lemma GeneratedIdLowered(id: string)
    requires IsGeneratedId(id)
    ensures Normalize(Lower(id)) == id
  {
    var low := Lower(id);
    UpperHexChar(id[0]);
    UpperHexChar(id[7]);
    StripNoop(low);
    forall i | 0 <= i < |id| ensures Upper(low)[i] == id[i] {
      UpperHexChar(id[i]);
    }
  }

  /** Releasing with the lower-cased booking id does exactly what releasing with the id does. */
  lemma ReleaseIgnoresCase(st: Store, id: string)
    requires IsGeneratedId(id)
    ensures Release(st, Lower(id)) == Release(st, id)
  {
    GeneratedIdCanonical(id);
    GeneratedIdLowered(id);
    ReleaseDependsOnNormalForm(st, Lower(id), id);
  }

  /**
   * Book then release with the returned id: the slot table is back to what it was
   * and the booking stays behind as a COMPLETED row.
   */
  lemma BookReleaseRoundTrip(st: Store, raw: string, user: string, freshId: string)
    requires IsGeneratedId(freshId) && freshId !in st.bookings
    requires Book(st, raw, user, freshId).1.Ok?
    ensures var rel := Release(Book(st, raw, user, freshId).0, freshId);
            && rel.1 == Released(Normalize(raw), user)
            && rel.0.slots == st.slots
            && rel.0.bookings == st.bookings[freshId := Booking(Normalize(raw), user, Completed)]
  {
    var slot := Normalize(raw);
    var st1 := Book(st, raw, user, freshId).0;
    assert st1 == Store(st.slots[slot := false], st.bookings[freshId := Booking(slot, user, Active)]);
    assert Normalize(freshId) == freshId && !ContainsReserved(freshId) by {
      GeneratedIdCanonical(freshId);
    }
    ReleaseActive(st1, freshId);
    assert st.slots[slot := false][slot := true] == st.slots;
  }

  /** Releasing an id that is already in normal form and names an ACTIVE booking. */
  lemma ReleaseActive(st: Store, id: string)
    requires Normalize(id) == id && !ContainsReserved(id) && ActiveBooking(st, id).Some?
    ensures var b := st.bookings[id];
            var rel := Release(st, id);
            && rel.1 == Released(b.slotId, b.userName)
            && rel.0.bookings == st.bookings[id := b.(status := Completed)]
            && rel.0.slots == if b.slotId in st.slots then st.slots[b.slotId := true] else st.slots
  {
  }

  /** Releasing the same booking id a second time finds nothing and changes nothing. */
  lemma ReleaseTwiceNotFound(st: Store, raw: string)
    requires Release(st, raw).1.Released?
    ensures var st1 := Release(st, raw).0;
            Release(st1, raw) == (st1, BookingNotFound)
  {
    var st1 := Release(st, raw).0;
    assert ActiveBooking(st1, Normalize(raw)).None?;
  }

  /** Booking one slot never blocks nor changes a different slot. */
  lemma CrossSlotIndependence(st: Store, raw1: string, user1: string, id1: string,
                              raw2: string, user2: string, id2: string)
    requires id1 != id2 && id1 !in st.bookings && id2 !in st.bookings
    requires Normalize(raw1) != Normalize(raw2)
    requires Book(st, raw1, user1, id1).1.Ok? && Book(st, raw2, user2, id2).1.Ok?
    ensures var st1 := Book(st, raw1, user1, id1).0;
            && st1.slots[Normalize(raw2)] == st.slots[Normalize(raw2)]
            && Book(st1, raw2, user2, id2).1 == Ok(id2)
  {
  }

  /** One booking request: the raw slot text, the caller's label and the id the generator drew. */
  datatype BookRequest = BookRequest(rawSlot: string, userName: string, freshId: string)

  /** The generator never draws the same id twice. */
  predicate DistinctIds(reqs: seq<BookRequest>)
  {
    forall i, j :: 0 <= i < j < |reqs| ==> reqs[i].freshId != reqs[j].freshId
  }

  /** The ids of the requests from position `i` on are new to the store. */
  predicate FreshFrom(st: Store, reqs: seq<BookRequest>, i: nat)
  {
    i <= |reqs| && forall k :: i <= k < |reqs| ==> reqs[k].freshId !in st.bookings
  }

  /**
   * Requests `i`, `i + 1`, ... served one critical section after another, in the
   * order the slot's lock admits them; any interleaving of concurrent callers is
   * one such order.
   */
  function BookFrom(st: Store, reqs: seq<BookRequest>, i: nat): (res: (Store, seq<Result<string, Rejection>>))
    requires DistinctIds(reqs) && FreshFrom(st, reqs, i)
    ensures |res.1| == |reqs| - i
    decreases |reqs| - i
  {
    if i == |reqs| then (st, [])
    else
      var (st1, r) := Book(st, reqs[i].rawSlot, reqs[i].userName, reqs[i].freshId);
      assert FreshFrom(st1, reqs, i + 1);
      var (st2, rs) := BookFrom(st1, reqs, i + 1);
      (st2, [r] + rs)
  }

  /** A request that validates to an occupied slot is refused as occupied and changes nothing. */
  lemma BookOccupiedSlot(st: Store, raw: string, user: string, freshId: string, s: string)
    requires freshId !in st.bookings
    requires ValidateSlot(st, raw) == Ok(s) && !st.slots[s]
    ensures Book(st, raw, user, freshId) == (st, Err(SlotOccupied(s)))
  {
  }

  /** Every request from position `i` on asks for a slot that is occupied: all are turned down and the store is left as it was. */
  lemma {:induction false} BookFromOccupied(st: Store, reqs: seq<BookRequest>, i: nat, s: string)
    requires DistinctIds(reqs) && FreshFrom(st, reqs, i)
    requires s in st.slots && !st.slots[s]
    requires forall k :: i <= k < |reqs| ==> ValidateSlot(st, reqs[k].rawSlot) == Ok(s)
    ensures BookFrom(st, reqs, i).0 == st
    ensures forall k :: 0 <= k < |reqs| - i ==> BookFrom(st, reqs, i).1[k] == Err(SlotOccupied(s))
    decreases |reqs| - i
  {
    if i < |reqs| {
      var r := reqs[i];
      BookOccupiedSlot(st, r.rawSlot, r.userName, r.freshId, s);
      BookFromOccupied(st, reqs, i + 1, s);
      var (fin, rs) := BookFrom(st, reqs, i + 1);
      assert BookFrom(st, reqs, i) == (fin, [Err(SlotOccupied(s))] + rs);
    }
  }

  /**
   * Mutual exclusion: of N requests for one available slot exactly the first
   * succeeds, the other N - 1 get "occupied", and the slot ends occupied with
   * exactly one ACTIVE booking, the first request's.
   */
  lemma MutualExclusion(st: Store, reqs: seq<BookRequest>, s: string)
    requires Consistent(st) && DistinctIds(reqs) && FreshFrom(st, reqs, 0) && |reqs| > 0
    requires s in st.slots && st.slots[s]
    requires forall i :: 0 <= i < |reqs| ==> ValidateSlot(st, reqs[i].rawSlot) == Ok(s)
    ensures var (fin, rs) := BookFrom(st, reqs, 0);
            && rs[0] == Ok(reqs[0].freshId)
            && (forall i :: 1 <= i < |rs| ==> rs[i] == Err(SlotOccupied(s)))
            && s in fin.slots && !fin.slots[s]
            && ActiveFor(fin, s) == {reqs[0].freshId}
  {
    var r := reqs[0];
    var (st1, r1) := Book(st, r.rawSlot, r.userName, r.freshId);
    assert r1 == Ok(r.freshId) && st1.slots == st.slots[s := false];
    assert FreshFrom(st1, reqs, 1);
    forall k | 1 <= k < |reqs| ensures ValidateSlot(st1, reqs[k].rawSlot) == Ok(s) {
      assert ValidateSlot(st, reqs[k].rawSlot) == Ok(s);
    }
    BookFromOccupied(st1, reqs, 1, s);
    var (fin, rs) := BookFrom(st1, reqs, 1);
    assert BookFrom(st, reqs, 0) == (st1, [r1] + rs);
    BookedSlotHasOneActive(st, r.rawSlot, r.userName, r.freshId);
  }

  /** Right after a successful booking, the booked slot has exactly the new booking ACTIVE on it. */
  lemma BookedSlotHasOneActive(st: Store, raw: string, user: string, freshId: string)
    requires Consistent(st) && freshId !in st.bookings
    requires Book(st, raw, user, freshId).1.Ok?
    ensures ActiveFor(Book(st, raw, user, freshId).0, Normalize(raw)) == {freshId}
  {
    var s := Normalize(raw);
    var st1 := Book(st, raw, user, freshId).0;
    assert ActiveFor(st, s) == {};
    assert ActiveFor(st1, s) == {freshId};
  }
}
