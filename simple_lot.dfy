/**
 * The minimal variant `Code/smart_parking.py`: a global dict from slot id to
 * availability (true = available), toggled by book and release. The toggles
 * are given as functions on the map and performed in place by the class
 * `SimpleParkingLot`.
 */
module SimpleLot {
  /** What the source prints after a request. */
  datatype Outcome = Done | NoSuchSlot | Unchanged

  /** The lot the program starts with: A1 and B2 occupied, A2 and B1 available. */
  function InitialLot(): (lot: map<string, bool>)
    ensures lot.Keys == {"A1", "A2", "B1", "B2"}
    ensures AvailableIds(lot) == {"A2", "B1"}
  {
    var lot := map["A1" := false, "A2" := true, "B1" := true, "B2" := false];
    assert AvailableIds(lot) == {"A2", "B1"} by {
      assert "A1" !in AvailableIds(lot) && "B2" !in AvailableIds(lot);
    }
    lot
  }

  /** The ids whose value is true. */
  function AvailableIds(lot: map<string, bool>): set<string>
  {
    set s | s in lot && lot[s]
  }

  /** `book_parking_slot`: an available slot becomes occupied; anything else changes nothing. */
  function Book(lot: map<string, bool>, slot: string): (res: (map<string, bool>, Outcome))
    ensures res.0.Keys == lot.Keys
    ensures forall s :: s in lot && s != slot ==> res.0[s] == lot[s]
    ensures slot !in lot ==> res == (lot, NoSuchSlot)
    ensures slot in lot && lot[slot] ==> res == (lot[slot := false], Done)
    ensures slot in lot && !lot[slot] ==> res == (lot, Unchanged)
  {
    if slot !in lot then (lot, NoSuchSlot)
    else if lot[slot] then (lot[slot := false], Done)
    else (lot, Unchanged)
  }

  /** `release_parking_slot`: an occupied slot becomes available; anything else changes nothing. */
  function Release(lot: map<string, bool>, slot: string): (res: (map<string, bool>, Outcome))
    ensures res.0.Keys == lot.Keys
    ensures forall s :: s in lot && s != slot ==> res.0[s] == lot[s]
    ensures slot !in lot ==> res == (lot, NoSuchSlot)
    ensures slot in lot && !lot[slot] ==> res == (lot[slot := true], Done)
    ensures slot in lot && lot[slot] ==> res == (lot, Unchanged)
  {
    if slot !in lot then (lot, NoSuchSlot)
    else if !lot[slot] then (lot[slot := true], Done)
    else (lot, Unchanged)
  }

  /** After either request on an existing slot, that slot holds the value the request asks for. */
  lemma RequestSettlesSlot(lot: map<string, bool>, slot: string)
    requires slot in lot
    ensures Book(lot, slot).0[slot] == false
    ensures Release(lot, slot).0[slot] == true
  {
  }

  /** Book then release an available slot, or release then book an occupied one: the lot is as before. */
  lemma ToggleRoundTrips(lot: map<string, bool>, slot: string)
    requires slot in lot
    ensures lot[slot] ==> Release(Book(lot, slot).0, slot) == (lot, Done)
    ensures !lot[slot] ==> Book(Release(lot, slot).0, slot) == (lot, Done)
  {
    if lot[slot] {
      assert lot[slot := false][slot := true] == lot;
    } else {
      assert lot[slot := true][slot := false] == lot;
    }
  }

  /** A menu choice of the main loop. */
  datatype Request = BookRequest(slot: string) | ReleaseRequest(slot: string)

  function Step(lot: map<string, bool>, r: Request): map<string, bool>
  {
    match r
    case BookRequest(s) => Book(lot, s).0
    case ReleaseRequest(s) => Release(lot, s).0
  }

  /** The lot after a run of requests, in order. */
  function Run(lot: map<string, bool>, rs: seq<Request>): map<string, bool>
    decreases |rs|
  {
    if rs == [] then lot else Run(Step(lot, rs[0]), rs[1..])
  }

  function SlotOf(r: Request): string
  {
    match r
    case BookRequest(s) => s
    case ReleaseRequest(s) => s
  }

  /**
   * No run of requests adds or removes a slot, and a slot that no request
   * names keeps its value.
   */
  lemma {:induction false} RunKeepsSlots(lot: map<string, bool>, rs: seq<Request>)
    ensures Run(lot, rs).Keys == lot.Keys
    ensures forall s :: s in lot && (forall i :: 0 <= i < |rs| ==> SlotOf(rs[i]) != s) ==> Run(lot, rs)[s] == lot[s]
    decreases |rs|
  {
    if rs != [] {
      var next := Step(lot, rs[0]);
      RunKeepsSlots(next, rs[1..]);
      forall s | s in lot && (forall i :: 0 <= i < |rs| ==> SlotOf(rs[i]) != s)
        ensures Run(lot, rs)[s] == lot[s]
      {
        assert SlotOf(rs[0]) != s;
        forall i | 0 <= i < |rs[1..]| ensures SlotOf(rs[1..][i]) != s {
          assert rs[1..][i] == rs[i + 1];
        }
      }
    }
  }

  /** The global `parking_lot` dict of `Code/smart_parking.py`. */
  class SimpleParkingLot {
    var lot: map<string, bool>

    constructor()
      ensures lot == InitialLot()
    {
      lot := map["A1" := false, "A2" := true, "B1" := true, "B2" := false];
    }

    /** `validate_slot`: the id is a key of the lot. */
    method ValidateSlot(slot: string) returns (ok: bool)
      ensures ok <==> slot in lot
    {
      ok := slot in lot;
    }

    /** `book_parking_slot`. */
    method BookParkingSlot(slot: string) returns (outcome: Outcome)
      modifies this
      ensures (lot, outcome) == Book(old(lot), slot)
    {
      var ok := ValidateSlot(slot);
      if !ok {
        return NoSuchSlot;
      }
      if lot[slot] {
        lot := lot[slot := false];
        return Done;
      }
      return Unchanged;
    }

    /** `release_parking_slot`. */
    method ReleaseParkingSlot(slot: string) returns (outcome: Outcome)
      modifies this
      ensures (lot, outcome) == Release(old(lot), slot)
    {
      var ok := ValidateSlot(slot);
      if !ok {
        return NoSuchSlot;
      }
      if !lot[slot] {
        lot := lot[slot := true];
        return Done;
      }
      return Unchanged;
    }
  }
}
