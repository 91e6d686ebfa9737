/**
 * The in-memory availability engine of the manager-availability service.
 *
 * Given the managers the directory found and the slots the slot repository
 * fetched, it answers: at each distinct slot start of the day, in ascending
 * order, how many eligible managers are free? A manager is free at T when it
 * has an unbooked slot starting at T and no booked slot meeting [T, T+1h).
 *
 * `Availability` and `RuntimeAvailability` say what the answer is;
 * `AggregateAvailability` and `GetAvailabilityInRuntime` compute it step by
 * step as the service does and are proved to return exactly that.
 */
module ManagerAvailabilityService {
  import opened Entities
  import opened Chronology
  import SlotRepository

  // ---------------------------------------------------------------------
  // Interval overlap

  /** Instant `t` lies in the half-open interval [start, end). */
  predicate Within(t: int, start: int, end: int)
  {
    start <= t < end
  }

  /** `isOverlapping`: two half-open intervals meet. */
  predicate IsOverlapping(slot1Start: int, slot1End: int, slot2Start: int, slot2End: int)
  {
    slot1Start < slot2End && slot2Start < slot1End
  }

  /** For two non-empty intervals the overlap test holds exactly when they
      share a millisecond. (An empty interval can still pass the test.) */
  lemma OverlapMeansSharedInstant(slot1Start: int, slot1End: int, slot2Start: int, slot2End: int)
    requires slot1Start < slot1End && slot2Start < slot2End
    ensures IsOverlapping(slot1Start, slot1End, slot2Start, slot2End)
        <==> exists t :: Within(t, slot1Start, slot1End) && Within(t, slot2Start, slot2End)
  {
    if IsOverlapping(slot1Start, slot1End, slot2Start, slot2End) {
      var t := if slot1Start < slot2Start then slot2Start else slot1Start;
      assert Within(t, slot1Start, slot1End) && Within(t, slot2Start, slot2End);
    }
  }

  /** Overlap does not depend on the order of its two intervals. */
  lemma OverlapSymmetric(slot1Start: int, slot1End: int, slot2Start: int, slot2End: int)
    ensures IsOverlapping(slot1Start, slot1End, slot2Start, slot2End)
        <==> IsOverlapping(slot2Start, slot2End, slot1Start, slot1End)
  {
  }

  /** A slot ending exactly where another begins does not overlap it. */
  lemma TouchingSlotsDoNotOverlap(start: int, middle: int, end: int)
    ensures !IsOverlapping(start, middle, middle, end)
  {
  }

  // ---------------------------------------------------------------------
  // What the engine computes

  /** The `every`/`includes` re-filter: the candidates carrying every
      requested product, in their original order. */
  function EligibleManagers(products: seq<string>, candidates: seq<SalesManager>): (r: seq<SalesManager>)
    ensures forall m :: multiset(r)[m] == if IncludesAll(m.products, products) then multiset(candidates)[m] else 0
    ensures forall m :: m in r <==> m in candidates && IncludesAll(m.products, products)
  {
    if candidates == [] then []
    else
      assert candidates == [candidates[0]] + candidates[1..];
      var rest := EligibleManagers(products, candidates[1..]);
      if IncludesAll(candidates[0].products, products) then [candidates[0]] + rest else rest
  }

  /** The ids of some managers, in order (`managers.map(m => m.id)`). */
  function ManagerIds(managers: seq<SalesManager>): seq<int>
  {
    seq(|managers|, i requires 0 <= i < |managers| => managers[i].id)
  }

  /** The manager has an unbooked slot starting exactly at `t`. */
  predicate HasUnbookedSlotAt(slots: seq<Slot>, managerId: int, t: int)
  {
    exists s :: s in slots && s.salesManagerId == managerId && !s.booked && s.start == t
  }

  /** The manager has a booked slot overlapping [t, t+1h). */
  predicate HasOverlappingBooking(slots: seq<Slot>, managerId: int, t: int)
  {
    exists s :: s in slots && s.salesManagerId == managerId && s.booked && IsOverlapping(s.start, s.end, t, t + HourMs)
  }

  /** The manager can take a one-hour appointment starting at `t`. */
  predicate IsFreeAt(slots: seq<Slot>, managerId: int, t: int)
  {
    HasUnbookedSlotAt(slots, managerId, t) && !HasOverlappingBooking(slots, managerId, t)
  }

  /** The distinct ids of the managers free at `t`. */
  function FreeManagerIds(managers: seq<SalesManager>, slots: seq<Slot>, t: int): set<int>
  {
    set m | m in managers && IsFreeAt(slots, m.id, t) :: m.id
  }

  /** The distinct start instants of the slots. */
  function StartInstants(slots: seq<Slot>): set<int>
  {
    set s | s in slots :: s.start
  }

  /** The answer's entries for the given instants, in their order: one per
      instant at which some manager is free, with the number of such managers. */
  function EntriesFor(instants: seq<int>, managers: seq<SalesManager>, slots: seq<Slot>): seq<AvailabilityEntry>
  {
    if instants == [] then []
    else
      var t := instants[|instants| - 1];
      var free := FreeManagerIds(managers, slots, t);
      EntriesFor(instants[..|instants| - 1], managers, slots)
        + (if |free| > 0 then [AvailabilityEntry(t, |free|)] else [])
  }

  /** The answer for eligible managers and their fetched slots: every distinct
      slot start, in ascending order, with its free-manager count. */
  function Availability(managers: seq<SalesManager>, slots: seq<Slot>): seq<AvailabilityEntry>
  {
    EntriesFor(SortedInstants(StartInstants(slots)), managers, slots)
  }

  /** The whole in-memory path: re-filter the directory's candidates, stop
      with no answer when none is left, otherwise fetch the day's slots of the
      eligible managers and aggregate them. */
  function RuntimeAvailability(request: AvailabilityRequest, candidates: seq<SalesManager>, table: seq<Slot>): seq<AvailabilityEntry>
  {
    var eligible := EligibleManagers(request.products, candidates);
    if eligible == [] then []
    else Availability(eligible, SlotRepository.FindAllSlots(table, request.date, ManagerIds(eligible)))
  }

  // ---------------------------------------------------------------------
  // Facts the loops rely on

  lemma FreeManagerIdsAppend(managers: seq<SalesManager>, m: SalesManager, slots: seq<Slot>, t: int)
    ensures FreeManagerIds(managers + [m], slots, t)
         == FreeManagerIds(managers, slots, t) + (if IsFreeAt(slots, m.id, t) then {m.id} else {})
  {
    var l := FreeManagerIds(managers + [m], slots, t);
    var r := FreeManagerIds(managers, slots, t) + (if IsFreeAt(slots, m.id, t) then {m.id} else {});
    forall id | id in l ensures id in r {
      var w :| w in managers + [m] && IsFreeAt(slots, w.id, t) && w.id == id;
      if w != m { assert w in managers; }
    }
    forall id | id in r ensures id in l {
      if id in FreeManagerIds(managers, slots, t) {
        var w :| w in managers && IsFreeAt(slots, w.id, t) && w.id == id;
        assert w in managers + [m];
      } else {
        assert m in managers + [m];
      }
    }
  }

  lemma EntriesForAppend(instants: seq<int>, t: int, managers: seq<SalesManager>, slots: seq<Slot>)
    ensures EntriesFor(instants + [t], managers, slots)
         == EntriesFor(instants, managers, slots)
            + (if |FreeManagerIds(managers, slots, t)| > 0 then [AvailabilityEntry(t, |FreeManagerIds(managers, slots, t)|)] else [])
  {
    assert (instants + [t])[..|instants|] == instants;
  }

  lemma StartInstantsAppend(slots: seq<Slot>, s: Slot)
    ensures StartInstants(slots + [s]) == StartInstants(slots) + {s.start}
  {
    assert s in slots + [s];
    forall x | x in slots ensures x in slots + [x] {
    }
    forall t | t in StartInstants(slots) ensures t in StartInstants(slots + [s]) {
      var x :| x in slots && x.start == t;
      assert x in slots + [s];
    }
  }

  // ---------------------------------------------------------------------
  // The computation, step by step

  /** Step 3 of `getAvailabilityInRuntime`: one (still empty) group of
      manager ids per distinct start of the fetched slots. */
  method GroupByStart(allSlots: seq<Slot>) returns (slotGroups: map<int, set<int>>)
    ensures slotGroups.Keys == StartInstants(allSlots)
    ensures forall t :: t in slotGroups ==> slotGroups[t] == {}
  {
    slotGroups := map[];
    var i := 0;
    while i < |allSlots|
      invariant 0 <= i <= |allSlots|
      invariant slotGroups.Keys == StartInstants(allSlots[..i])
      invariant forall t :: t in slotGroups ==> slotGroups[t] == {}
    {
      var startTimeKey := allSlots[i].start;
      if startTimeKey !in slotGroups {
        slotGroups := slotGroups[startTimeKey := {}];
      }
      assert allSlots[..i + 1] == allSlots[..i] + [allSlots[i]];
      StartInstantsAppend(allSlots[..i], allSlots[i]);
      i := i + 1;
    }
    assert allSlots[..i] == allSlots;
  }

  /** The body of step 4 for one start: the ids of the eligible managers
      that hold an unbooked slot starting then and no booked slot meeting
      the following hour. */
  method FreeManagersAt(eligibleManagers: seq<SalesManager>, allSlots: seq<Slot>, currentStart: int)
    returns (availableManagerIds: set<int>)
    ensures availableManagerIds == FreeManagerIds(eligibleManagers, allSlots, currentStart)
  {
    var currentEnd := currentStart + HourMs;
    availableManagerIds := {};
    var k := 0;
    while k < |eligibleManagers|
      invariant 0 <= k <= |eligibleManagers|
      invariant availableManagerIds == FreeManagerIds(eligibleManagers[..k], allSlots, currentStart)
    {
      var manager := eligibleManagers[k];
      var hasUnbookedSlot := exists s :: s in allSlots && s.salesManagerId == manager.id
                                       && !s.booked && s.start == currentStart;
      if hasUnbookedSlot {
        var hasOverlappingBooking := exists s :: s in allSlots && s.salesManagerId == manager.id
                                               && s.booked && s.start < currentEnd && s.end > currentStart;
        if !hasOverlappingBooking {
          availableManagerIds := availableManagerIds + {manager.id};
        }
      }
      assert eligibleManagers[..k + 1] == eligibleManagers[..k] + [manager];
      FreeManagerIdsAppend(eligibleManagers[..k], manager, allSlots, currentStart);
      k := k + 1;
    }
    assert eligibleManagers[..k] == eligibleManagers;
  }

  /** Step 4 of `getAvailabilityInRuntime` over the ordered start keys: for
      each start, collect the free eligible managers and emit a line when
      there is one. */
  method EmitLines(keys: seq<int>, eligibleManagers: seq<SalesManager>, allSlots: seq<Slot>)
    returns (result: seq<AvailabilityEntry>)
    ensures result == EntriesFor(keys, eligibleManagers, allSlots)
  {
    result := [];
    var j := 0;
    while j < |keys|
      invariant 0 <= j <= |keys|
      invariant result == EntriesFor(keys[..j], eligibleManagers, allSlots)
    {
      var currentStart := keys[j];
      var availableManagerIds := FreeManagersAt(eligibleManagers, allSlots, currentStart);
      if |availableManagerIds| > 0 {
        result := result + [AvailabilityEntry(currentStart, |availableManagerIds|)];
      }
      assert keys[..j + 1] == keys[..j] + [currentStart];
      EntriesForAppend(keys[..j], currentStart, eligibleManagers, allSlots);
      j := j + 1;
    }
    assert keys[..j] == keys;
  }

  /** Steps 3 and 4 of `getAvailabilityInRuntime`: group the fetched slots by
      start time, order the starts, and count the free managers at each. */
  method AggregateAvailability(eligibleManagers: seq<SalesManager>, allSlots: seq<Slot>)
    returns (result: seq<AvailabilityEntry>)
    ensures result == Availability(eligibleManagers, allSlots)
  {
    var slotGroups := GroupByStart(allSlots);
    var keys := SortedInstants(slotGroups.Keys);
    result := EmitLines(keys, eligibleManagers, allSlots);
  }

  /** `getAvailabilityInRuntime`: the directory's candidates and the slot
      table come in as values; `slotFetches` counts calls of the slot fetch.
      With no candidate, or none carrying every product, the answer is empty
      and the slots are never fetched. */
  method GetAvailabilityInRuntime(request: AvailabilityRequest, matchingManagers: seq<SalesManager>, slotTable: seq<Slot>)
    returns (result: seq<AvailabilityEntry>, ghost slotFetches: nat)
    ensures result == RuntimeAvailability(request, matchingManagers, slotTable)
    ensures slotFetches == if EligibleManagers(request.products, matchingManagers) == [] then 0 else 1
    ensures AscendingEntries(result)
    ensures forall e :: e in result ==> 1 <= e.availableCount <= |matchingManagers|
  {
    slotFetches := 0;
    if |matchingManagers| == 0 {
      return [], slotFetches;
    }

    var eligibleManagers := EligibleManagers(request.products, matchingManagers);
    if |eligibleManagers| == 0 {
      return [], slotFetches;
    }

    var managerIds := ManagerIds(eligibleManagers);
    var allSlots := SlotRepository.FindAllSlots(slotTable, request.date, managerIds);
    slotFetches := slotFetches + 1;

    result := AggregateAvailability(eligibleManagers, allSlots);
    AvailabilitySpec(eligibleManagers, allSlots);
    EligibleManagersShorter(request.products, matchingManagers);
  }

  /** `getAvailabilityFromDB`: hands the request to the repository query,
      which takes its arguments as (date, language, products, rating); each
      field of the request reaches the test it is meant for. */
  function GetAvailabilityFromDB(managers: map<int, SalesManager>, table: seq<Slot>, request: AvailabilityRequest)
    : (r: SlotRepository.QueryResult)
    ensures r == SlotRepository.Rows(SlotRepository.AvailabilityRows(managers, table, request.date, request.language,
                                                                      request.rating, request.products))
  {
    SlotRepository.FindAvailabilityFromDB(managers, table, request.date, request.language, request.products, request.rating)
  }

  // ---------------------------------------------------------------------
  // Properties of the answer

  /** The re-filter never adds managers. */
  lemma {:induction false} EligibleManagersShorter(products: seq<string>, candidates: seq<SalesManager>)
    ensures |EligibleManagers(products, candidates)| <= |candidates|
  {
    if candidates != [] {
      EligibleManagersShorter(products, candidates[1..]);
    }
  }

  /** Counting distinct ids never exceeds the number of managers. */
  lemma {:induction false} FreeManagerIdsBound(managers: seq<SalesManager>, slots: seq<Slot>, t: int)
    ensures |FreeManagerIds(managers, slots, t)| <= |managers|
    decreases |managers|
  {
    if managers != [] {
      var init := managers[..|managers| - 1];
      var last := managers[|managers| - 1];
      assert managers == init + [last];
      FreeManagerIdsBound(init, slots, t);
      FreeManagerIdsAppend(init, last, slots, t);
    }
  }

  /** For strictly ascending instants, the entries are strictly ascending and
      hold exactly the instants with a free manager, each with the number of
      distinct free managers. */
  lemma {:induction false} EntriesForSpec(instants: seq<int>, managers: seq<SalesManager>, slots: seq<Slot>)
    requires StrictlyAscending(instants)
    ensures AscendingEntries(EntriesFor(instants, managers, slots))
    ensures forall e :: (e in EntriesFor(instants, managers, slots)
      <==> && e.startDate in instants
           && FreeManagerIds(managers, slots, e.startDate) != {}
           && e.availableCount == |FreeManagerIds(managers, slots, e.startDate)|)
    decreases |instants|
  {
    if instants != [] {
      var init := instants[..|instants| - 1];
      var t := instants[|instants| - 1];
      assert instants == init + [t];
      EntriesForSpec(init, managers, slots);
      var before := EntriesFor(init, managers, slots);
      forall e | e in before ensures e.startDate < t {
        var i :| 0 <= i < |init| && init[i] == e.startDate;
      }
      var free := FreeManagerIds(managers, slots, t);
      assert |free| > 0 <==> free != {};
    }
  }

  /** The answer is strictly ascending by start and holds exactly one line per
      slot start at which some eligible manager is free, counting the distinct
      free managers: so every count is at least 1 and at most the number of
      managers, and every line's start is the start of a fetched slot. */
  lemma AvailabilitySpec(managers: seq<SalesManager>, slots: seq<Slot>)
    ensures AscendingEntries(Availability(managers, slots))
    ensures forall e :: (e in Availability(managers, slots)
      <==> && e.startDate in StartInstants(slots)
           && FreeManagerIds(managers, slots, e.startDate) != {}
           && e.availableCount == |FreeManagerIds(managers, slots, e.startDate)|)
    ensures forall e :: e in Availability(managers, slots) ==> 1 <= e.availableCount <= |managers|
  {
    EntriesForSpec(SortedInstants(StartInstants(slots)), managers, slots);
    forall e | e in Availability(managers, slots) ensures 1 <= e.availableCount <= |managers| {
      FreeManagerIdsBound(managers, slots, e.startDate);
    }
  }

  /** A manager that is free at `t` has a slot starting at `t`, so the
      candidate instants miss no free manager. */
  lemma FreeOnlyAtSlotStarts(managers: seq<SalesManager>, slots: seq<Slot>, t: int)
    requires FreeManagerIds(managers, slots, t) != {}
    ensures t in StartInstants(slots)
  {
    var id :| id in FreeManagerIds(managers, slots, t);
    var m :| m in managers && IsFreeAt(slots, m.id, t) && m.id == id;
    var s :| s in slots && s.salesManagerId == m.id && !s.booked && s.start == t;
  }

  /** An eligible manager counts at `t` exactly when it has an unbooked slot
      starting at `t` and no booked slot with start before t+1h and end after
      `t`. */
  lemma CountsAtIff(managers: seq<SalesManager>, slots: seq<Slot>, m: SalesManager, t: int)
    requires m in managers
    ensures m.id in FreeManagerIds(managers, slots, t)
      <==> && (exists s :: s in slots && s.salesManagerId == m.id && !s.booked && s.start == t)
           && !(exists s :: s in slots && s.salesManagerId == m.id && s.booked && s.start < t + HourMs && s.end > t)
  {
    if IsFreeAt(slots, m.id, t) {
      assert m.id in FreeManagerIds(managers, slots, t);
    }
  }

  /** Every manager counted anywhere in the answer is a candidate carrying
      every requested product. */
  lemma ContributorsCarryAllProducts(products: seq<string>, candidates: seq<SalesManager>, slots: seq<Slot>, t: int, id: int)
    requires id in FreeManagerIds(EligibleManagers(products, candidates), slots, t)
    ensures exists m :: m in candidates && m.id == id && IncludesAll(m.products, products)
  {
    var m :| m in EligibleManagers(products, candidates) && IsFreeAt(slots, m.id, t) && m.id == id;
  }

  /** A candidate lacking one requested product is counted nowhere, provided
      no other candidate shares its id. */
  lemma PartialProductMatchNeverCounted(products: seq<string>, candidates: seq<SalesManager>, slots: seq<Slot>,
                                        m: SalesManager, p: string, t: int)
    requires m in candidates && p in products && p !in m.products
    requires forall n :: n in candidates && n.id == m.id ==> n == m
    ensures m.id !in FreeManagerIds(EligibleManagers(products, candidates), slots, t)
  {
    assert !IncludesAll(m.products, products);
    assert forall n :: n in EligibleManagers(products, candidates) ==> n.id != m.id;
  }
}
