/**
 * The admin panel `Code/smart_parking_admin.py`. Each command loads the lot
 * from the data file, changes it and writes it back, so a command is a
 * function from the file's lot to the lot the file holds afterwards. The
 * operator's typed answers and whether the file write succeeds are
 * parameters. The slot-usage count of the daily report is a loop over the
 * history, proved to build the table `UsageTable` describes.
 */
module Admin {
  import opened Wrappers
  import opened Text
  import opened LotRecords

  datatype AddOutcome = Added(slotId: string) | AlreadyExists(slotId: string) | AddWriteFailed
  datatype RemoveOutcome = Removed(slotId: string) | NoSuchSlot(slotId: string) | SlotOccupied(slotId: string)
                         | RemovalCancelled | RemoveWriteFailed
  datatype ResetOutcome = ResetDone | ResetCancelled | ResetWriteFailed

  /**
   * `add_parking_slot`: the typed id is stripped and upper-cased; an id the lot
   * already has is refused, otherwise it is added as a free slot.
   */
  function AddParkingSlot(lot: Lot, raw: string, written: bool): (res: (Lot, AddOutcome))
    ensures res.1.Added? <==> Normalize(raw) !in lot && written
    ensures Normalize(raw) in lot ==> res == (lot, AlreadyExists(Normalize(raw)))
    ensures res.1.Added? ==> res.1.slotId == Normalize(raw) && res.0 == lot[Normalize(raw) := FreeRecord]
    ensures !res.1.Added? ==> res.0 == lot
  {
    var slotId := Normalize(raw);
    if slotId in lot then (lot, AlreadyExists(slotId))
    else if !written then (lot, AddWriteFailed)
    else (lot[slotId := FreeRecord], Added(slotId))
  }

  /** The operator's answer to "Confirm removal?", stripped and lower-cased, is exactly "yes". */
  predicate ConfirmsRemoval(confirm: string)
  {
    Lower(Strip(confirm)) == "yes"
  }

  /**
   * `remove_parking_slot`: only an existing, available slot can go, and only
   * when the operator confirms.
   */
  function RemoveParkingSlot(lot: Lot, raw: string, confirm: string, written: bool): (res: (Lot, RemoveOutcome))
    ensures res.1.Removed? <==>
              Normalize(raw) in lot && lot[Normalize(raw)].available && ConfirmsRemoval(confirm) && written
    ensures res.1.Removed? ==> res.1.slotId == Normalize(raw) && res.0 == lot - {Normalize(raw)}
    ensures !res.1.Removed? ==> res.0 == lot
    ensures Normalize(raw) !in lot ==> res.1 == NoSuchSlot(Normalize(raw))
    ensures Normalize(raw) in lot && !lot[Normalize(raw)].available ==> res.1 == SlotOccupied(Normalize(raw))
  {
    var slotId := Normalize(raw);
    if slotId !in lot then (lot, NoSuchSlot(slotId))
    else if !lot[slotId].available then (lot, SlotOccupied(slotId))
    else if !ConfirmsRemoval(confirm) then (lot, RemovalCancelled)
    else if !written then (lot, RemoveWriteFailed)
    else (lot - {slotId}, Removed(slotId))
  }

  /**
   * `reset_parking_lot`: on the exact answer "RESET" (surrounding whitespace
   * stripped) the file gets the default lot; any other answer changes nothing.
   */
  function ResetParkingLot(lot: Lot, confirm: string, written: bool): (res: (Lot, ResetOutcome))
    ensures res.1 == ResetDone <==> Strip(confirm) == "RESET" && written
    ensures res.1 == ResetDone ==> res.0 == DefaultParkingLot()
    ensures res.1 != ResetDone ==> res.0 == lot
    ensures Strip(confirm) != "RESET" ==> res.1 == ResetCancelled
  {
    if Strip(confirm) != "RESET" then (lot, ResetCancelled)
    else if !written then (lot, ResetWriteFailed)
    else (DefaultParkingLot(), ResetDone)
  }

  /** After a reset the lot has the six default slots, all available and none occupied. */
  lemma ResetFreesEverything(lot: Lot, confirm: string, written: bool)
    requires ResetParkingLot(lot, confirm, written).1 == ResetDone
    ensures var lot' := ResetParkingLot(lot, confirm, written).0;
            AvailableSlots(lot') == DefaultSlotIds && OccupiedSlots(lot') == {}
  {
    var lot' := DefaultParkingLot();
    assert forall s :: s in lot' ==> lot'[s].available;
  }

  /** A slot that was just added is refused when added again under any spelling with the same normal form. */
  lemma AddTwiceRefused(lot: Lot, raw: string, raw2: string, written: bool, written2: bool)
    requires AddParkingSlot(lot, raw, written).1.Added?
    requires Normalize(raw2) == Normalize(raw)
    ensures var lot' := AddParkingSlot(lot, raw, written).0;
            AddParkingSlot(lot', raw2, written2) == (lot', AlreadyExists(Normalize(raw)))
  {
    NormalizeIdempotent(raw);
  }

  /** Adding a slot and then removing it again, with confirmation, restores the lot. */
  lemma AddThenRemoveRoundTrip(lot: Lot, raw: string, confirm: string)
    requires Normalize(raw) !in lot && ConfirmsRemoval(confirm)
    ensures var lot' := AddParkingSlot(lot, raw, true).0;
            RemoveParkingSlot(lot', raw, confirm, true) == (lot, Removed(Normalize(raw)))
  {
    var id := Normalize(raw);
    assert lot[id := FreeRecord] - {id} == lot;
  }

  /** Removing never takes away an occupied slot: the occupied slots are the same before and after. */
  lemma RemoveKeepsOccupied(lot: Lot, raw: string, confirm: string, written: bool)
    ensures OccupiedSlots(RemoveParkingSlot(lot, raw, confirm, written).0) == OccupiedSlots(lot)
  {
  }

  // ----- Daily report -----

  /** A slot-usage table: slot id and count, in the order the slots first appear. */
  type Usage = seq<(string, nat)>

  /** How many history entries name slot `s`. */
  function UsageCount(history: seq<HistoryEntry>, s: string): nat
    decreases |history|
  {
    if history == [] then 0
    else UsageCount(history[..|history| - 1], s) + (if history[|history| - 1].slot == Some(s) then 1 else 0)
  }

  /** The first position of slot `s` in the table, if any. */
  function FindSlot(table: Usage, s: string): (r: Option<nat>)
    ensures r.Some? ==> r.value < |table| && table[r.value].0 == s
    ensures r.Some? ==> forall j :: 0 <= j < r.value ==> table[j].0 != s
    ensures r.None? ==> forall j :: 0 <= j < |table| ==> table[j].0 != s
    decreases |table|
  {
    if table == [] then None
    else if table[0].0 == s then Some(0)
    else match FindSlot(table[1..], s)
      case None => None
      case Some(k) => Some(k + 1)
  }

  /** `slot_usage[slot] += 1` on a defaultdict: bump an existing count or append the slot with count 1. */
  function Bump(table: Usage, s: string): Usage
  {
    match FindSlot(table, s)
    case Some(k) => table[k := (s, table[k].1 + 1)]
    case None => table + [(s, 1)]
  }

  /** The usage table after counting the whole history, entry by entry. */
  function UsageTable(history: seq<HistoryEntry>): Usage
    decreases |history|
  {
    if history == [] then []
    else
      var prev := UsageTable(history[..|history| - 1]);
      var e := history[|history| - 1];
      if e.slot.Some? then Bump(prev, e.slot.value) else prev
  }

  predicate DistinctSlots(table: Usage)
  {
    forall i, j :: 0 <= i < j < |table| ==> table[i].0 != table[j].0
  }

  function SlotsOf(table: Usage): set<string>
  {
    set k | 0 <= k < |table| :: table[k].0
  }

  /**
   * The usage table lists each slot named in the history exactly once, with
   * the number of entries that name it, and no other slot.
   */
  lemma {:induction false} UsageTableCounts(history: seq<HistoryEntry>)
    ensures DistinctSlots(UsageTable(history))
    ensures forall k :: 0 <= k < |UsageTable(history)| ==>
              UsageTable(history)[k].1 == UsageCount(history, UsageTable(history)[k].0)
    ensures forall s :: s in SlotsOf(UsageTable(history)) <==> UsageCount(history, s) > 0
    decreases |history|
  {
    if history != [] {
      var init := history[..|history| - 1];
      var e := history[|history| - 1];
      UsageTableCounts(init);
      if e.slot.Some? {
        var s := e.slot.value;
        BumpSlots(UsageTable(init), s);
        if FindSlot(UsageTable(init), s).None? {
          assert UsageCount(init, s) == 0;
        }
      }
    }
  }

  /** Bumping a slot adds that slot to the table's slots and no other. */
  lemma BumpSlots(t: Usage, s: string)
    ensures SlotsOf(Bump(t, s)) == SlotsOf(t) + {s}
  {
    var b := Bump(t, s);
    forall x | x in SlotsOf(t) ensures x in SlotsOf(b) {
      var j :| 0 <= j < |t| && t[j].0 == x;
      assert b[j].0 == x;
    }
    match FindSlot(t, s)
    case Some(k) =>
      assert b[k].0 == s;
    case None =>
      assert b[|t|].0 == s;
  }

  /**
   * The loop of `generate_daily_report` that fills the defaultdict
   * `slot_usage`; the lookup of a slot in the table is a linear search.
   */
  method CountSlotUsage(history: seq<HistoryEntry>) returns (usage: Usage)
    ensures usage == UsageTable(history)
  {
    usage := [];
    var i := 0;
    while i < |history|
      invariant 0 <= i <= |history|
      invariant usage == UsageTable(history[..i])
    {
      var e := history[i];
      if e.slot.Some? {
        var s := e.slot.value;
        var k := 0;
        while k < |usage| && usage[k].0 != s
          invariant 0 <= k <= |usage|
          invariant forall j :: 0 <= j < k ==> usage[j].0 != s
        {
          k := k + 1;
        }
        if k < |usage| {
          assert FindSlot(usage, s) == Some(k);
          usage := usage[k := (s, usage[k].1 + 1)];
        } else {
          assert FindSlot(usage, s) == None;
          usage := usage + [(s, 1)];
        }
      }
      assert history[..i + 1][..i] == history[..i];
      i := i + 1;
    }
    assert history[..|history|] == history;
  }

  predicate NonIncreasing(t: Usage)
  {
    forall i, j :: 0 <= i < j < |t| ==> t[i].1 >= t[j].1
  }

  /** Insert `x` after every entry whose count is at least `x`'s (so equal counts keep their order). */
  function InsertByCount(t: Usage, x: (string, nat)): (r: Usage)
    ensures |r| == |t| + 1
    ensures multiset(r) == multiset(t) + multiset{x}
    ensures forall y :: y in r ==> y in t || y == x
    decreases |t|
  {
    if t == [] then [x]
    else if t[0].1 < x.1 then [x] + t
    else
      assert t == [t[0]] + t[1..];
      [t[0]] + InsertByCount(t[1..], x)
  }

  /** Inserting into a table sorted by count, highest first, keeps it sorted. */
  lemma {:induction false} InsertByCountSorted(t: Usage, x: (string, nat))
    requires NonIncreasing(t)
    ensures NonIncreasing(InsertByCount(t, x))
    decreases |t|
  {
    if t != [] && t[0].1 >= x.1 {
      var rest := InsertByCount(t[1..], x);
      InsertByCountSorted(t[1..], x);
      forall j | 0 <= j < |rest| ensures t[0].1 >= rest[j].1 {
        assert rest[j] in rest;
        if rest[j] != x {
          var k :| 0 <= k < |t[1..]| && t[1..][k] == rest[j];
          assert t[k + 1] == rest[j];
        }
      }
      var r := [t[0]] + rest;
      forall i, j | 0 <= i < j < |r| ensures r[i].1 >= r[j].1 {
        assert r[j] == rest[j - 1];
        if i > 0 {
          assert r[i] == rest[i - 1];
        }
      }
    }
  }

  /** `sorted(slot_usage.items(), key=count, reverse=True)`: a stable sort by count, highest first. */
  function SortByCountDesc(u: Usage): (r: Usage)
    ensures |r| == |u|
    ensures multiset(r) == multiset(u)
    ensures NonIncreasing(r)
    decreases |u|
  {
    if u == [] then []
    else
      var init, last := u[..|u| - 1], u[|u| - 1];
      assert u == init + [last];
      var sortedInit := SortByCountDesc(init);
      InsertByCountSorted(sortedInit, last);
      InsertByCount(sortedInit, last)
  }

  /** The report's top list: the first three entries of the sorted table. */
  function TopSlots(u: Usage): Usage
  {
    var sorted := SortByCountDesc(u);
    if |sorted| <= 3 then sorted else sorted[..3]
  }

  /** The entries of the sorted table that the top list leaves out. */
  lemma TopSlotsSplit(u: Usage)
    ensures var sorted := SortByCountDesc(u);
            && sorted == TopSlots(u) + sorted[|TopSlots(u)|..]
            && multiset(u) == multiset(TopSlots(u)) + multiset(sorted[|TopSlots(u)|..])
  {
    var sorted := SortByCountDesc(u);
    assert sorted == TopSlots(u) + sorted[|TopSlots(u)|..];
  }

  /** The report lists at most three slots, highest count first, each one taken from the table. */
  lemma TopSlotsShape(u: Usage)
    ensures |TopSlots(u)| == if |u| < 3 then |u| else 3
    ensures NonIncreasing(TopSlots(u))
    ensures multiset(TopSlots(u)) <= multiset(u)
  {
    TopSlotsSplit(u);
  }

  /** In a table sorted by count, highest first, nothing after position `n` beats the entry just before it. */
  lemma SuffixNotAbove(sorted: Usage, n: nat)
    requires NonIncreasing(sorted) && 0 < n <= |sorted|
    ensures forall y :: y in multiset(sorted[n..]) ==> y.1 <= sorted[n - 1].1
  {
    forall y: (string, nat) | y in multiset(sorted[n..]) ensures y.1 <= sorted[n - 1].1 {
      var j :| 0 <= j < |sorted[n..]| && sorted[n..][j] == y;
      assert sorted[n + j] == y;
    }
  }

  /**
   * When the report leaves an entry out it lists three slots, and none of
   * those has a lower count than the entry left out.
   */
  lemma TopSlotsAreTop(u: Usage)
    ensures forall y :: y in multiset(u) - multiset(TopSlots(u)) ==> |TopSlots(u)| == 3 && y.1 <= TopSlots(u)[2].1
  {
    var sorted := SortByCountDesc(u);
    if |sorted| > 3 {
      var top, rest := sorted[..3], sorted[3..];
      assert sorted == top + rest;
      assert multiset(u) - multiset(top) == multiset(rest);
      SuffixNotAbove(sorted, 3);
    } else {
      assert multiset(u) - multiset(sorted) == multiset{};
    }
  }

  /** The figures `generate_daily_report` prints apart from revenue. */
  datatype DailyReport = DailyReport(total: nat, available: nat, occupied: nat, topSlots: Usage)

  /**
   * `generate_daily_report`: nothing for an empty lot; otherwise the slot
   * counts and the three most used slots from the history.
   */
  method GenerateDailyReport(lot: Lot, history: seq<HistoryEntry>) returns (report: Option<DailyReport>)
    ensures report.None? <==> |lot| == 0
    ensures report.Some? ==> report.value.total == |lot|
    ensures report.Some? ==> report.value.available == |AvailableSlots(lot)|
    ensures report.Some? ==> report.value.occupied == |OccupiedSlots(lot)|
    ensures report.Some? ==> report.value.topSlots == TopSlots(UsageTable(history))
  {
    var total := |lot|;
    if total == 0 {
      return None;
    }
    var available := |AvailableSlots(lot)|;
    AvailablePlusOccupied(lot);
    var occupied := total - available;
    var usage := CountSlotUsage(history);
    return Some(DailyReport(total, available, occupied, TopSlots(usage)));
  }
}
