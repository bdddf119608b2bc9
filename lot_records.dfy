/**
 * The JSON-backed lot shared by the vehicle-tracking variant and the admin
 * panel: a map from slot id to a record `{available, vehicle_id, booked_at}`,
 * and the booking history, a list of entries.
 */
module LotRecords {
  import opened Wrappers

  /** One slot's record; `None` stands for JSON `null`. */
  datatype SlotRecord = SlotRecord(available: bool, vehicleId: Option<string>, bookedAt: Option<string>)

  /** The record of a free slot: available, no vehicle, no booking time. */
  const FreeRecord := SlotRecord(true, None, None)

  type Lot = map<string, SlotRecord>

  datatype Action = BookAction | ReleaseAction

  /**
   * A history entry as the admin panel reads it back. The vehicle-tracking
   * variant always writes a slot; a hand-edited file may leave it out.
   */
  datatype HistoryEntry = HistoryEntry(slot: Option<string>, vehicleId: Option<string>,
                                       bookedAt: Option<string>, action: Action)

  /** The six slot ids of the default lot. */
  const DefaultSlotIds: set<string> := {"A1", "A2", "B1", "B2", "C1", "C2"}

  /** `get_default_parking_lot` (and the lot `reset_parking_lot` writes): six free slots A1 to C2. */
  function DefaultParkingLot(): (lot: Lot)
    ensures lot.Keys == DefaultSlotIds
    ensures forall s :: s in lot ==> lot[s] == FreeRecord
  {
    map s | s in DefaultSlotIds :: FreeRecord
  }

  /** The ids of the slots marked available. */
  function AvailableSlots(lot: Lot): set<string>
  {
    set s | s in lot && lot[s].available
  }

  /** The ids of the slots marked occupied. */
  function OccupiedSlots(lot: Lot): set<string>
  {
    set s | s in lot && !lot[s].available
  }

  /** Every slot is either available or occupied, never both: the two counts add up to the total. */
  lemma AvailablePlusOccupied(lot: Lot)
    ensures AvailableSlots(lot) + OccupiedSlots(lot) == lot.Keys
    ensures AvailableSlots(lot) * OccupiedSlots(lot) == {}
    ensures |AvailableSlots(lot)| + |OccupiedSlots(lot)| == |lot|
  {
    var a, o := AvailableSlots(lot), OccupiedSlots(lot);
    assert a + o == lot.Keys;
    assert a * o == {};
    assert |lot.Keys| == |lot|;
  }
}
