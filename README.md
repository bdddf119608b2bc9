# Smart Parking System — a verified model of its booking state machines

The Smart Parking System books and releases parking slots. It comes in four
variants, and each one becomes its own Dafny module:

- **`complete_code.py`** — `SmartParkingSystem` over a `ParkingDatabase`.
  - Slot ids are trimmed, upper-cased and screened against the characters
    reserved for SQL syntax (`'`, `"`, `;`, `--`, `/` followed by `*`).
  - A booking re-reads the slot inside the slot's lock, marks it occupied and
    inserts an `ACTIVE` booking under a fresh eight-character id.
  - A release looks the id up among `ACTIVE` bookings only, frees the slot
    and marks the booking `COMPLETED`.
  - The per-slot lock table only grows.
  - Modules `EngineSpec` (transitions as functions on a `Store` value) and
    `Engine` (the two classes, updating their map fields in place). The
    `ParkingDatabase` primitives and `get_or_create_lock` carry their own
    contracts on the fields they change; `validate_slot`, `book_parking_slot`
    and `release_parking_slot_by_booking_id` are proved to make exactly the
    `EngineSpec` transition.
- **`Code/smart_parking_enhanced.py`** — a JSON-backed lot where each slot
  holds `{available, vehicle_id, booked_at}`.
  - A booking refuses a vehicle that is already parked.
  - Successful changes are logged to a history list after the lot is saved.
  - There are queries for the sorted list of free slots and for a vehicle.
  - Modules `LotRecords` (records, default lot, history entries) and
    `EnhancedLot` (transition functions plus the class `ParkingLot`).
- **`Code/smart_parking.py`** — a bare slot-to-availability dict toggled in
  place. Module `SimpleLot`.
- **`Code/smart_parking_admin.py`** — the admin panel.
  - Add, remove and reset slots on the loaded lot; typed confirmations and
    the outcome of the file write are parameters.
  - The daily report's slot counts, the usage-count loop over the history
    and the top-three list. Module `Admin`.

`Text` holds the string operations all of these share. It models Python's
`strip()` over the full `str.isspace` character set, ASCII `upper()` and
`lower()`, the reserved-pattern test and Python's string order.

The main results:
- **The store invariant.** A slot is occupied iff exactly one `ACTIVE`
  booking references it. Booking preserves it, and so does a release whose
  lookup and update run back to back. The source looks the booking up before
  taking the slot's lock (complete_code.py:208, 217-224), and a stale lookup
  can break the invariant; see "## Findings".
- **Mutual exclusion.** Of N requests for one free slot, served one critical
  section at a time, exactly the first succeeds. The slot ends with exactly
  that one `ACTIVE` booking.
- **Round trips.** Book then release restores the slot table in the engine
  and restores the lot in the vehicle-tracking variant. Add then remove
  restores the admin lot.
- **Vehicle uniqueness.** No vehicle id is recorded in two occupied slots.
- **Case-insensitive release.** Release accepts a generated id in lower case.
- **Query contracts.**
  - The free-slot query returns the one strictly sorted list of the free ids.
  - The usage table counts exactly the history entries that name each slot.
  - The report lists at most three slots, highest count first, and leaves
    out none that beats them.

`validate_slot` has no explicit empty-input test (complete_code.py:142-155):
an empty or all-blank id is refused only because no slot is named `""`, which
the blank input of test.py:45 relies on. `EngineSpec.ValidateSlot` behaves
the same way.

Files the programs load (the lot, the history, the booking store) are taken
as well-formed: every slot record has its three fields with `booked_at` an
ISO timestamp or null, and every history entry names its slot by a string or
leaves the key out.

## Model

| member | source | states |
|---|---|---|
| Text.Strip | complete_code.py:145 | the result is the input with every leading and trailing whitespace character (Python's `isspace` set) removed and no inner character changed |
| Text.Upper | complete_code.py:145 | same length, each character upper-cased (ASCII letters) |
| Text.Lower | Code/smart_parking_admin.py:218 | same length, each character lower-cased (ASCII letters) |
| Text.ReservedSurvivesNormalize | complete_code.py:145-149 | the normalised text contains a reserved pattern iff the raw text does, so the deny-list rejects by the raw input |
| Text.Normalize | complete_code.py:145 | `strip()` followed by `upper()`, as at complete_code.py:145 and 200 and Code/smart_parking_admin.py:181 and 207; its shape is stated by `Text.NormalizeShape` |
| Text.NormalizeShape | complete_code.py:145 | the normal form is the text between the leading and trailing whitespace, each character upper-cased: neither end is whitespace and no lower-case letter remains |
| Text.ReservedAt | complete_code.py:148 | one of `'`, `"`, `;`, `--`, `/` followed by `*` starts at the given index |
| Text.ContainsReserved | complete_code.py:148 | some index starts a reserved pattern: the `any(...)` test of complete_code.py:148 and 203 |
| Text.NormalizeIdempotent | Code/smart_parking_admin.py:181 | stripping and upper-casing an id that is already normalised changes nothing |
| Text.NormalizeCanonical | complete_code.py:200 | text with no whitespace and no lower-case letter is its own normal form |
| Text.StrLess | Code/smart_parking_enhanced.py:179 | Python's `<` on `str`, which `sorted()` uses: lexicographic by code point, a proper prefix before any extension; its order properties are stated by `Text.StrLessIrreflexive`, `Text.StrLessTransitive` and `Text.StrLessTotal` |
| Text.StrLessIrreflexive | Code/smart_parking_enhanced.py:179 | Python's string `<` is irreflexive |
| Text.StrLessTransitive | Code/smart_parking_enhanced.py:179 | Python's string `<` is transitive |
| Text.StrLessTotal | Code/smart_parking_enhanced.py:179 | of two different strings one is smaller |
| Text.InsertSorted | Code/smart_parking_enhanced.py:179 | inserting a new id into a strictly sorted list keeps it strictly sorted and adds exactly that id |
| Text.SortedUnique | Code/smart_parking_enhanced.py:179 | two strictly sorted lists with the same members are equal |
| Text.StripEmpty | Code/smart_parking_enhanced.py:88 | `strip()` returns the empty string iff every character is whitespace |
| EngineSpec.IsGeneratedId | complete_code.py:57 | the shape of `str(uuid.uuid4())[:8].upper()`: eight characters, each a digit or an upper-case A to F |
| EngineSpec.Consistent | complete_code.py:157-229 | the invariant the per-slot locks exist to keep: every ACTIVE booking names an existing slot, and a slot is occupied iff exactly one ACTIVE booking references it |
| EngineSpec.FreshStoreConsistent | test.py:14-26 | a store with every slot free and no booking, as a new database holds, satisfies the invariant |
| EngineSpec.ActiveBooking | complete_code.py:68-78 | a booking is found only when its id is present and its status is ACTIVE |
| EngineSpec.ValidateSlot | complete_code.py:142-155 | accepted iff the raw input has no reserved pattern and its normal form is a slot; a reserved pattern is refused whether or not the slot exists; an unknown id is refused with its normal form; on success the normal form is returned |
| EngineSpec.Book | complete_code.py:157-195 | succeeds iff the input validates and the slot is available; then the slot becomes occupied, exactly one ACTIVE booking for that slot and user is added under the fresh id, and that id is returned; every refusal leaves the store unchanged, with "occupied" for a taken slot |
| EngineSpec.Release | complete_code.py:197-229 | reserved input and ids with no ACTIVE booking change nothing; otherwise the booking becomes COMPLETED and its slot available, and the slot and user are reported |
| EngineSpec.ReleaseLookup | complete_code.py:200-212 | the unlocked first phase of release: a booking is found iff the raw id has no reserved pattern and its normal form names an ACTIVE row; it returns that id and row |
| EngineSpec.ReleaseCommit | complete_code.py:219-224 | the locked second phase: the given slot is freed when its row exists and the given booking is marked COMPLETED when its row exists, with no re-check of the status; every other slot and booking is unchanged |
| EngineSpec.ReleaseInTwoPhases | complete_code.py:197-229 | the lookup followed at once by the update makes exactly the atomic `Release`; a failed lookup changes nothing |
| EngineSpec.StaleReleaseBreaksConsistency | complete_code.py:208-224 | from a consistent store, two releases of one booking both pass the lookup; the first completes, a booking takes the freed slot, and the second's update frees the slot while the new booking stays ACTIVE on it, so the invariant fails |
| EngineSpec.BookAsWritten | complete_code.py:185-188 | with a fresh id it is exactly `Book`; with an id already in the bookings table and a free valid slot, the slot ends occupied, no booking is added and the request fails; with a colliding id and invalid input or an occupied slot, the store is unchanged |
| EngineSpec.CollisionBreaksConsistency | complete_code.py:185-188 | from a consistent store, a colliding id leaves a free slot occupied with no ACTIVE booking on it, so the invariant fails |
| EngineSpec.BookPreservesConsistency | complete_code.py:185-188 | booking keeps "slot occupied iff exactly one ACTIVE booking on it, and every ACTIVE booking names a slot" |
| EngineSpec.ReleasePreservesConsistency | complete_code.py:219-224 | release keeps the same invariant |
| EngineSpec.DoubleBookingFails | complete_code.py:171-179 | after a successful booking, any request whose id normalises to the same slot is refused as occupied and changes nothing |
| EngineSpec.ReleaseDependsOnNormalForm | complete_code.py:200-212 | two booking ids with the same normal form release identically |
| EngineSpec.UpperHexChar | complete_code.py:57 | an upper-case hex digit is no whitespace, no lower-case letter, no reserved character, and upper-casing its lower-case form gives it back |
| EngineSpec.GeneratedIdCanonical | complete_code.py:57 | an id of eight upper-case hex digits is its own normal form and holds no reserved pattern |
| EngineSpec.GeneratedIdLowered | complete_code.py:57 | the lower-cased copy of a generated id normalises back to the id |
| EngineSpec.ReleaseIgnoresCase | test.py:60-63 | releasing with the lower-cased generated id does exactly what releasing with the id does |
| EngineSpec.BookReleaseRoundTrip | complete_code.py:185-188 | book then release with the returned id: the slot table is as before, the booking remains as COMPLETED, and the release reports that slot and user |
| EngineSpec.ReleaseActive | complete_code.py:207-224 | releasing a normal-form id with an ACTIVE booking completes it and frees its slot |
| EngineSpec.ReleaseTwiceNotFound | complete_code.py:208-212 | a second release of the same id finds nothing and changes nothing |
| EngineSpec.CrossSlotIndependence | complete_code.py:171-188 | booking one slot leaves a different slot's state alone and does not block booking it |
| EngineSpec.BookOccupiedSlot | complete_code.py:175-179 | a request that validates to an occupied slot is refused as occupied and changes nothing |
| EngineSpec.BookFromOccupied | complete_code.py:175-179 | a run of requests for an occupied slot is refused request by request and leaves the store unchanged |
| EngineSpec.MutualExclusion | complete_code.py:170-195 | of N requests for one free slot, served one critical section at a time, the first gets its id, all others "occupied", and the slot ends occupied with exactly the first booking ACTIVE on it |
| EngineSpec.BookedSlotHasOneActive | complete_code.py:185-188 | right after a booking the slot has exactly the new booking ACTIVE on it |
| Engine.ParkingDatabase.constructor | complete_code.py:19-22 | the store holds the given slot and booking tables |
| Engine.ParkingDatabase.GetSlotStatus | complete_code.py:24-31 | a value iff the slot row exists, and then the slot's availability |
| Engine.ParkingDatabase.UpdateSlotStatus | complete_code.py:42-53 | reports success iff the row exists; only that row's availability changes |
| Engine.ParkingDatabase.CreateBooking | complete_code.py:55-66 | inserts an ACTIVE row under the fresh id and returns the id; slots unchanged |
| Engine.ParkingDatabase.GetBookingById | complete_code.py:68-78 | returns slot and user iff the id has an ACTIVE row |
| Engine.ParkingDatabase.UpdateBookingStatus | complete_code.py:80-91 | reports success iff the row exists; only that row's status changes |
| Engine.SmartParkingSystem.constructor | complete_code.py:97-101 | the system starts with the given store and an empty lock table |
| Engine.SmartParkingSystem.GetOrCreateLock | complete_code.py:103-108 | a known slot gets its stored lock and the table is unchanged; a new slot gets a fresh lock that is stored; nothing is removed or replaced |
| Engine.SmartParkingSystem.ValidateSlot | complete_code.py:142-155 | computes `EngineSpec.ValidateSlot` on the current store |
| Engine.SmartParkingSystem.BookParkingSlot | complete_code.py:157-195 | makes exactly the `EngineSpec.Book` transition, returns a generated-shape id, keeps the store invariant, and grows the lock table by the slot iff validation passed |
| Engine.SmartParkingSystem.ReleaseParkingSlotByBookingId | complete_code.py:197-229 | makes exactly the `EngineSpec.Release` transition, keeps the store invariant, and grows the lock table by the released slot only |
| LotRecords.DefaultParkingLot | Code/smart_parking_enhanced.py:26-35 | six slots A1, A2, B1, B2, C1, C2, each available with no vehicle and no booking time |
| LotRecords.AvailablePlusOccupied | Code/smart_parking_admin.py:48-55 | available and occupied slots partition the lot, so their counts add up to the total |
| EnhancedLot.ValidateVehicleId | Code/smart_parking_enhanced.py:86-92 | "empty" iff every character is whitespace; "too short" iff some character is not whitespace and the raw length is below 3; valid otherwise |
| EnhancedLot.VehicleParked | Code/smart_parking_enhanced.py:111-112 | some occupied slot records the vehicle id: the test of the loop at lines 111-112 and of `search_vehicle` at lines 203-204 |
| EnhancedLot.BookSlot | Code/smart_parking_enhanced.py:94-137 | booked iff the slot exists, the vehicle id is valid, the slot is available and the vehicle is parked nowhere; then only that slot gets the vehicle and time, even when saving fails, and a history entry is appended only after a save; each refusal is named and changes nothing |
| EnhancedLot.ReleaseSlot | Code/smart_parking_enhanced.py:140-175 | freed iff the slot exists and is occupied; then only that slot returns to the free record and reports the vehicle; unknown or already free slots change nothing |
| EnhancedLot.UniqueVehicles | Code/smart_parking_enhanced.py:110-115 | the invariant behind the "already parked" check: no vehicle id is recorded in two occupied slots |
| EnhancedLot.BookPreservesUniqueVehicles | Code/smart_parking_enhanced.py:110-120 | booking keeps every vehicle id in at most one occupied slot |
| EnhancedLot.ReleasePreservesUniqueVehicles | Code/smart_parking_enhanced.py:160-162 | releasing keeps the same invariant |
| EnhancedLot.BookedVehicleIsFound | Code/smart_parking_enhanced.py:196-221 | after a booking the vehicle is found parked |
| EnhancedLot.SecondBookingRefused | Code/smart_parking_enhanced.py:108-137 | once a vehicle holds a slot, booking it anywhere is refused (slot taken or vehicle elsewhere) and changes nothing |
| EnhancedLot.ReleaseUnparksVehicle | Code/smart_parking_enhanced.py:160-162 | with unique vehicles, after releasing a vehicle's slot the vehicle is parked nowhere |
| EnhancedLot.BookReleaseRoundTrip | Code/smart_parking_enhanced.py:117-172 | booking a free slot then releasing it restores the lot and frees that vehicle; with both saves the history gains a book and a release entry |
| EnhancedLot.ParkingLot.constructor | Code/smart_parking_enhanced.py:11-24 | the lot read from the file, or the default lot when there is none |
| EnhancedLot.ParkingLot.ValidateSlot | Code/smart_parking_enhanced.py:82-84 | true iff the id is a key of the lot |
| EnhancedLot.ParkingLot.BookParkingSlot | Code/smart_parking_enhanced.py:94-137 | makes exactly the `BookSlot` transition on the lot and history, its loop over the slots deciding "vehicle elsewhere" |
| EnhancedLot.ParkingLot.ReleaseParkingSlot | Code/smart_parking_enhanced.py:140-175 | makes exactly the `ReleaseSlot` transition on the lot and history |
| EnhancedLot.ParkingLot.SearchAvailableSlots | Code/smart_parking_enhanced.py:177-194 | returns a strictly ascending list holding exactly the available slot ids |
| EnhancedLot.ParkingLot.SearchVehicle | Code/smart_parking_enhanced.py:196-221 | true iff some occupied slot holds the vehicle id |
| EnhancedLot.AvailableListIsUnique | Code/smart_parking_enhanced.py:179 | there is only one strictly sorted list of the available ids, so the query's answer is determined |
| SimpleLot.InitialLot | Code/smart_parking.py:4 | slots A1, A2, B1, B2 with exactly A2 and B1 available |
| SimpleLot.Book | Code/smart_parking.py:17-26 | keys unchanged and other slots untouched; an unknown slot reports so, an available slot becomes occupied, an occupied one is left as is |
| SimpleLot.Release | Code/smart_parking.py:29-38 | keys unchanged and other slots untouched; an unknown slot reports so, an occupied slot becomes available, an available one is left as is |
| SimpleLot.RequestSettlesSlot | Code/smart_parking.py:17-38 | after booking an existing slot it is occupied; after releasing it, it is available |
| SimpleLot.ToggleRoundTrips | Code/smart_parking.py:17-38 | book then release of a free slot, or release then book of a taken one, restores the lot |
| SimpleLot.RunKeepsSlots | Code/smart_parking.py:43-53 | no sequence of menu requests adds or removes a slot, and a slot no request names keeps its value |
| SimpleLot.SimpleParkingLot.constructor | Code/smart_parking.py:4 | the lot starts as the initial lot |
| SimpleLot.SimpleParkingLot.ValidateSlot | Code/smart_parking.py:13-14 | true iff the id is a key of the lot |
| SimpleLot.SimpleParkingLot.BookParkingSlot | Code/smart_parking.py:17-26 | makes exactly the `SimpleLot.Book` transition in place |
| SimpleLot.SimpleParkingLot.ReleaseParkingSlot | Code/smart_parking.py:29-38 | makes exactly the `SimpleLot.Release` transition in place |
| Admin.AddParkingSlot | Code/smart_parking_admin.py:176-200 | added iff the normalised id is new and the write succeeds, as a free slot with every other slot unchanged; an existing id is refused and changes nothing |
| Admin.RemoveParkingSlot | Code/smart_parking_admin.py:202-232 | removed iff the normalised id exists, is available, the answer is "yes" and the write succeeds, and then only that slot goes; an absent or occupied slot is refused by name; otherwise nothing changes |
| Admin.ResetParkingLot | Code/smart_parking_admin.py:149-174 | reset iff the stripped answer is exactly "RESET" and the write succeeds, and then the lot is the default lot; otherwise nothing changes |
| Admin.ConfirmsRemoval | Code/smart_parking_admin.py:218-220 | the answer, stripped and lower-cased, is exactly "yes" |
| Admin.ResetFreesEverything | Code/smart_parking_admin.py:154-167 | after a reset the six default slots are all available and none is occupied |
| Admin.AddTwiceRefused | Code/smart_parking_admin.py:181-185 | a slot just added is refused when added again under any spelling with the same normal form |
| Admin.AddThenRemoveRoundTrip | Code/smart_parking_admin.py:176-232 | adding a new slot and removing it with confirmation restores the lot |
| Admin.RemoveKeepsOccupied | Code/smart_parking_admin.py:213-216 | removal never changes the set of occupied slots |
| Admin.FindSlot | Code/smart_parking_admin.py:88 | the first position of the slot in the usage table, or none when it is absent |
| Admin.Bump | Code/smart_parking_admin.py:88 | `slot_usage[slot] += 1` on a defaultdict: the slot's count goes up by one, or the slot is appended with count 1 |
| Admin.UsageTable | Code/smart_parking_admin.py:85-88 | the table after counting the history entry by entry, skipping entries without a slot; stated by `Admin.UsageTableCounts` |
| Admin.UsageTableCounts | Code/smart_parking_admin.py:85-88 | the usage table lists each slot named in the history once, with the number of entries naming it, and no other slot |
| Admin.BumpSlots | Code/smart_parking_admin.py:88 | counting one entry adds its slot to the table's slots and no other |
| Admin.CountSlotUsage | Code/smart_parking_admin.py:85-88 | the counting loop builds exactly the table `UsageTable` describes |
| Admin.InsertByCount | Code/smart_parking_admin.py:91 | inserting an entry adds exactly that entry |
| Admin.InsertByCountSorted | Code/smart_parking_admin.py:91 | inserting into a table sorted by count, highest first, keeps it sorted |
| Admin.SortByCountDesc | Code/smart_parking_admin.py:91 | a permutation of the table sorted by count, highest first |
| Admin.TopSlots | Code/smart_parking_admin.py:91 | the first three entries of the table sorted by count, highest first; stated by `Admin.TopSlotsShape` and `Admin.TopSlotsAreTop` |
| Admin.TopSlotsSplit | Code/smart_parking_admin.py:91 | the sorted table is the top list followed by the entries it leaves out |
| Admin.TopSlotsShape | Code/smart_parking_admin.py:90-93 | the report lists min(3, n) slots from the table, highest count first |
| Admin.SuffixNotAbove | Code/smart_parking_admin.py:91 | in a table sorted by count, no entry after a position beats the entry before it |
| Admin.TopSlotsAreTop | Code/smart_parking_admin.py:91 | an entry the report leaves out means three are listed, none with a lower count than it |
| Admin.GenerateDailyReport | Code/smart_parking_admin.py:37-97 | nothing for an empty lot; otherwise the total, the available and occupied counts, and the top list of the usage table |

## Left out

- Threading: `threading.Lock`, the master `lock_manager` and `with slot_lock`. Each critical section is one atomic method, and the lock table is a map that only grows. `EngineSpec.MutualExclusion` reasons about requests served one after another in the order the lock admits them; it does not model interleavings in general.
- EngineSpec.Release: treats the lookup of complete_code.py:208 and the updates of lines 219-224 as one step, but the source takes the slot's lock only at lines 217-219 and does not re-check the status inside it. `EngineSpec.ReleasePreservesConsistency` therefore holds for releases that do not overlap. Overlapping releases of the same id can break the invariant; `EngineSpec.StaleReleaseBreaksConsistency` models that case.
- SQLite and JSON file I/O. The store and the lot are in-memory maps. Whether a save or write succeeds is the parameter `saved` or `written`. The file content `load_parking_data` reads is the constructor parameter `loaded`.
- Engine.ParkingDatabase.constructor: the source raises when the database file is missing; the model takes the tables as given.
- `uuid.uuid4()`: the new booking id is the parameter `freshId`. `EngineSpec.Book` requires only that it is fresh (not yet a key of the bookings table); `Engine.SmartParkingSystem.BookParkingSlot` and `EngineSpec.BookReleaseRoundTrip` also require the generated shape (eight upper-case hex digits). The source's behaviour on a colliding id is modelled separately by `EngineSpec.BookAsWritten`; see "## Findings".
- The default `user_name="Guest"` of `book_parking_slot` (complete_code.py:157): the model always takes the user name as an argument.
- The `ValueError` that `datetime.fromisoformat` raises on a `booked_at` that is not an ISO timestamp (Code/smart_parking_enhanced.py:152-153 in release, 209-210 in `search_vehicle`): the model assumes loaded records are well-formed, so it frees the slot or finds the vehicle where the source would stop with the error.
- A history entry whose `slot` is JSON null: the source counts it under the key `None` (Code/smart_parking_admin.py:87-88); in the model `HistoryEntry.slot == None` stands only for a missing key, so such entries are assumed absent.
- `datetime.now()`: booking times are the parameter `now` in the vehicle-tracking variant. The engine's booking time, the `last_updated` column and the history's `timestamp` and `released_at` fields are not modelled. Nor is `time.sleep`.
- Floating point: parking durations, revenue and occupancy percentages.
- Printing, ANSI colours, menus, `input()` prompts and the admin password check. The printed outcome of each operation is returned as a value (`Rejection`, `ReleaseOutcome`, `BookOutcome`, `Outcome`, ...), where the source returns `None`, `False` or nothing.
- `get_all_slots`, `display_parking_status`, `display_statistics`, `view_booking_history`, `export_report_to_file`: display and export only.
- `app.py` (a web front end, calling a `release_all_slots` that `ParkingDatabase` does not define) is not part of this model. `test.py` is used only as evidence for the properties above.
- Text.Upper: models `upper()` on ASCII letters only; other letters keep their case.
- Text.Lower: models `lower()` on ASCII letters only.
- EnhancedLot.BookSlot: the history entry is written only when the lot was saved, but a failed write of the history file itself (`save_history` in `add_to_history`) is not modelled. The history is kept in memory.
- EnhancedLot.BookSlot: the slot named in the "vehicle already parked" message is not returned.
- Admin.GenerateDailyReport: records lacking an `available` key, which the report counts as available, cannot occur in the model because every record has the field.
- Admin.SortByCountDesc: the sort is stable, like Python's `sorted`, but the contract states only that the result is a permutation sorted by count, not the order of equal counts.
- Admin.TopSlotsAreTop: speaks of counts only; which of several equally used slots make the list depends on first appearance in the history and is not stated.
- The release entry of the vehicle-tracking variant's history records no booking time, because `add_to_history` reads `booked_at` after the record was cleared. The model keeps this behaviour.

## Findings

| source | as written | input that shows it | evidently intended | confidence | as-written member | corrected member |
|---|---|---|---|---|---|---|
| complete_code.py:185-188 | the slot is committed as occupied (line 185, committed at line 51) before the booking row is inserted (line 188); the INSERT of a drawn id already used as a primary key (test.py:17) raises, so the slot stays occupied with no ACTIVE booking and no booking id can release it | a store with a free slot `A1` and a COMPLETED booking `ABCD1234`; `uuid4` draws an id whose first eight characters are `abcd1234`; book `A1` | booking is all or nothing, with a fresh id, so a slot is occupied iff exactly one ACTIVE booking references it | not executed (32-bit ids, so a collision becomes likely after roughly 77 000 bookings) | EngineSpec.CollisionBreaksConsistency | EngineSpec.BookPreservesConsistency |
| complete_code.py:208-224 | the booking is looked up among ACTIVE rows (line 208) before the slot's lock is taken (lines 217-219), and the locked updates (lines 221-224) do not re-check its status; two releases of one id can both pass the lookup | slot `A1` occupied by ACTIVE booking `X`; two callers release `X` and both pass line 208; the first completes; a third caller books `A1` as `Y`; the second caller's lines 221-224 then run | a release takes effect only while its booking is still ACTIVE, with the lookup and the updates under one lock, so a slot is occupied iff exactly one ACTIVE booking references it | not executed | EngineSpec.StaleReleaseBreaksConsistency | EngineSpec.ReleasePreservesConsistency |
