/**
 * The two strategies agree: the in-memory path of the service and the
 * database query return the same ordered answer, provided that
 *   - the manager table is keyed by id (its primary key),
 *   - the candidates are exactly the directory lookup's answer over that
 *     table (language, rating, and at least one shared product),
 *   - at least one product is requested,
 *   - every slot lasts exactly one hour, and
 *   - no booked slot of a manager that starts on another day overlaps one
 *     of that manager's slots of the day.
 * The witnesses at the end show what goes wrong without the last three.
 */
module Equivalence {
  import opened Entities
  import opened Chronology
  import opened SlotRepository
  import opened ManagerAvailabilityService

  // ---------------------------------------------------------------------
  // The assumptions

  /** The directory lookup's WHERE clause: the language, at least one of the
      requested products (array overlap `&&`), and the rating. */
  predicate MatchesDirectoryCriteria(m: SalesManager, request: AvailabilityRequest)
  {
    && request.language in m.languages
    && (exists p :: p in request.products && p in m.products)
    && request.rating in m.customerRatings
  }

  /** Each row of the manager table sits under its own id. */
  predicate IsKeyedById(managers: map<int, SalesManager>)
  {
    forall id :: id in managers ==> managers[id].id == id
  }

  /** `candidates` holds exactly the table's rows that meet the directory
      criteria (in any order, possibly repeated). */
  predicate IsDirectoryResult(managers: map<int, SalesManager>, request: AvailabilityRequest, candidates: seq<SalesManager>)
  {
    && (forall m :: m in candidates ==> m.id in managers && managers[m.id] == m && MatchesDirectoryCriteria(m, request))
    && (forall id :: id in managers && MatchesDirectoryCriteria(managers[id], request) ==> managers[id] in candidates)
  }

  /** Every slot ends one hour after it starts. */
  predicate SlotsLastOneHour(table: seq<Slot>)
  {
    forall s :: s in table ==> s.end == s.start + HourMs
  }

  /** No booked slot of a manager that starts on another day overlaps one of
      that manager's slots of `date`. */
  predicate NoBookingAcrossDay(table: seq<Slot>, date: int)
  {
    forall b, s :: b in table && s in table && b.booked && !OnDate(b, date) && OnDate(s, date)
                   && b.salesManagerId == s.salesManagerId
      ==> !IsOverlapping(b.start, b.end, s.start, s.end)
  }

  /** All the assumptions together. */
  predicate ComparableInputs(managers: map<int, SalesManager>, table: seq<Slot>, request: AvailabilityRequest, candidates: seq<SalesManager>)
  {
    && IsKeyedById(managers)
    && IsDirectoryResult(managers, request, candidates)
    && |request.products| > 0
    && SlotsLastOneHour(table)
    && NoBookingAcrossDay(table, request.date)
  }

  // ---------------------------------------------------------------------
  // The in-memory fetch

  /** The slots the in-memory path fetches. */
  function InMemorySlots(request: AvailabilityRequest, candidates: seq<SalesManager>, table: seq<Slot>): seq<Slot>
  {
    FindAllSlots(table, request.date, ManagerIds(EligibleManagers(request.products, candidates)))
  }

  // ---------------------------------------------------------------------
  // Steps of the proof

  lemma ManagerIdsHas(managers: seq<SalesManager>, id: int)
    ensures id in ManagerIds(managers) <==> exists m :: m in managers && m.id == id
  {
    var ids := ManagerIds(managers);
    if id in ids {
      var i :| 0 <= i < |ids| && ids[i] == id;
      assert managers[i] in managers;
    }
    if m :| m in managers && m.id == id {
      var i :| 0 <= i < |managers| && managers[i] == m;
      assert ids[i] == id;
    }
  }

  /** The re-filtered candidates carry exactly the ids of `eligible_managers`. */
  lemma EligibleIdsAgree(managers: map<int, SalesManager>, table: seq<Slot>, request: AvailabilityRequest,
                         candidates: seq<SalesManager>, id: int)
    requires ComparableInputs(managers, table, request, candidates)
    ensures (exists m :: m in EligibleManagers(request.products, candidates) && m.id == id)
        <==> id in EligibleManagerIds(managers, request.language, request.rating, request.products)
  {
    var eligible := EligibleManagers(request.products, candidates);
    if id in EligibleManagerIds(managers, request.language, request.rating, request.products) {
      var m := managers[id];
      assert request.products[0] in request.products;
      assert MatchesDirectoryCriteria(m, request);
      assert m in eligible && m.id == id;
    }
  }

  /** A slot of an eligible manager on the day is one the in-memory path fetched. */
  lemma FetchedSlotsHave(managers: map<int, SalesManager>, table: seq<Slot>, request: AvailabilityRequest,
                         candidates: seq<SalesManager>, s: Slot)
    requires ComparableInputs(managers, table, request, candidates)
    ensures s in InMemorySlots(request, candidates, table)
        <==> && s in table && OnDate(s, request.date)
             && s.salesManagerId in EligibleManagerIds(managers, request.language, request.rating, request.products)
  {
    ManagerIdsHas(EligibleManagers(request.products, candidates), s.salesManagerId);
    EligibleIdsAgree(managers, table, request, candidates, s.salesManagerId);
  }

  /** Every row of `available_managers` spans one hour. */
  lemma RowsSpanOneHour(managers: map<int, SalesManager>, table: seq<Slot>, request: AvailabilityRequest, r: (int, int, int))
    requires SlotsLastOneHour(table)
    requires r in AvailableManagers(managers, table, request.date, request.language, request.rating, request.products)
    ensures r.1 == r.0 + HourMs
  {
    var t, id :| t in TimeSlots(table, request.date) && r == (t.0, t.1, id);
    var s :| s in table && OnDate(s, request.date) && (s.start, s.end) == t;
  }

  /** A manager free at `t` in memory yields the query row (t, t+1h, manager). */
  lemma FreeImpliesRow(managers: map<int, SalesManager>, table: seq<Slot>, request: AvailabilityRequest,
                       candidates: seq<SalesManager>, t: int, id: int)
    requires ComparableInputs(managers, table, request, candidates)
    requires id in FreeManagerIds(EligibleManagers(request.products, candidates), InMemorySlots(request, candidates, table), t)
    ensures (t, t + HourMs, id) in AvailableManagers(managers, table, request.date, request.language, request.rating, request.products)
  {
    var eligible := EligibleManagers(request.products, candidates);
    var fetched := InMemorySlots(request, candidates, table);
    var slot := (t, t + HourMs);
    var m :| m in eligible && IsFreeAt(fetched, m.id, t) && m.id == id;
    EligibleIdsAgree(managers, table, request, candidates, id);
    var s :| s in fetched && s.salesManagerId == id && !s.booked && s.start == t;
    FetchedSlotsHave(managers, table, request, candidates, s);
    assert s.end == t + HourMs;
    assert slot in TimeSlots(table, request.date);
    assert HasExactUnbookedSlot(table, id, slot);
    forall b | b in table && b.salesManagerId == id && b.booked
      ensures !(b.start < t + HourMs && b.end > t)
    {
      if OnDate(b, request.date) {
        FetchedSlotsHave(managers, table, request, candidates, b);
        assert !IsOverlapping(b.start, b.end, t, t + HourMs);
      } else {
        assert !IsOverlapping(b.start, b.end, s.start, s.end);
      }
    }
    assert !HasOverlappingBookedSlot(table, id, slot);
  }

  /** A row of `available_managers` passed both sub-queries for an eligible id. */
  lemma RowTests(managers: map<int, SalesManager>, table: seq<Slot>, date: int, language: string, rating: string,
                 products: seq<string>, slot: (int, int), id: int)
    requires (slot.0, slot.1, id) in AvailableManagers(managers, table, date, language, rating, products)
    ensures id in EligibleManagerIds(managers, language, rating, products)
    ensures !HasOverlappingBookedSlot(table, id, slot) && HasExactUnbookedSlot(table, id, slot)
  {
  }

  /** A query row (t, t+1h, manager) means the manager is free at `t` in memory. */
  lemma RowImpliesFree(managers: map<int, SalesManager>, table: seq<Slot>, request: AvailabilityRequest,
                       candidates: seq<SalesManager>, t: int, id: int)
    requires ComparableInputs(managers, table, request, candidates)
    requires (t, t + HourMs, id) in AvailableManagers(managers, table, request.date, request.language, request.rating, request.products)
    ensures id in FreeManagerIds(EligibleManagers(request.products, candidates), InMemorySlots(request, candidates, table), t)
  {
    var eligible := EligibleManagers(request.products, candidates);
    var fetched := InMemorySlots(request, candidates, table);
    var slot := (t, t + HourMs);
    RowTests(managers, table, request.date, request.language, request.rating, request.products, slot, id);
    var s :| s in table && s.salesManagerId == id && !s.booked && s.start == t && s.end == t + HourMs;
    FetchedSlotsHave(managers, table, request, candidates, s);
    assert HasUnbookedSlotAt(fetched, id, t);
    forall b | b in fetched && b.salesManagerId == id && b.booked
      ensures !IsOverlapping(b.start, b.end, t, t + HourMs)
    {
      FetchedSlotsHave(managers, table, request, candidates, b);
      assert b in table;
    }
    EligibleIdsAgree(managers, table, request, candidates, id);
    var m :| m in eligible && m.id == id;
    assert IsFreeAt(fetched, m.id, t);
  }

  /** Tagging distinct ids with a fixed (start, end) keeps them distinct. */
  lemma {:induction false} TaggedCardinality(ids: set<int>, tagged: set<(int, int, int)>, start: int, end: int)
    requires forall r :: r in tagged <==> r.0 == start && r.1 == end && r.2 in ids
    ensures |tagged| == |ids|
    decreases ids
  {
    if ids == {} {
      assert forall r :: r in tagged ==> r.2 in ids;
      assert tagged == {};
    } else {
      if forall x :: x !in ids { assert false; }
      var z :| z in ids;
      TaggedCardinality(ids - {z}, tagged - {(start, end, z)}, start, end);
    }
  }

  /** A group whose rows are exactly some ids tagged with (t, t+1h) exists
      when there is an id, and counts the ids. */
  lemma GroupOfTaggedIds(rows: set<(int, int, int)>, ids: set<int>, t: int)
    requires forall r :: r in rows && r.0 == t ==> r == (t, t + HourMs, r.2) && r.2 in ids
    requires forall id :: id in ids ==> (t, t + HourMs, id) in rows
    ensures t in GroupStarts(rows) <==> ids != {}
    ensures GroupSize(rows, t) == |ids|
  {
    var group := set r | r in rows && r.0 == t;
    forall r: (int, int, int) ensures r in group <==> r.0 == t && r.1 == t + HourMs && r.2 in ids {
      if r.0 == t && r.1 == t + HourMs && r.2 in ids {
        var id := r.2;
        assert id in ids;
        assert (t, t + HourMs, id) in rows;
        assert r == (t, t + HourMs, id);
      }
    }
    TaggedCardinality(ids, group, t, t + HourMs);
    if t in GroupStarts(rows) {
      var r :| r in rows && r.0 == t;
      assert r.2 in ids;
    }
    if id :| id in ids {
      assert (t, t + HourMs, id) in rows;
    }
  }

  /** The query's group at `t` holds one row per manager free at `t` in
      memory: so it exists exactly when someone is free, and its `COUNT(*)`
      is the number of distinct free managers. */
  lemma GroupIsFreeManagers(managers: map<int, SalesManager>, table: seq<Slot>, request: AvailabilityRequest,
                            candidates: seq<SalesManager>, t: int)
    requires ComparableInputs(managers, table, request, candidates)
    ensures var free := FreeManagerIds(EligibleManagers(request.products, candidates), InMemorySlots(request, candidates, table), t);
            var rows := AvailableManagers(managers, table, request.date, request.language, request.rating, request.products);
            && (t in GroupStarts(rows) <==> free != {})
            && GroupSize(rows, t) == |free|
  {
    var free := FreeManagerIds(EligibleManagers(request.products, candidates), InMemorySlots(request, candidates, table), t);
    var rows := AvailableManagers(managers, table, request.date, request.language, request.rating, request.products);
    forall r | r in rows && r.0 == t ensures r == (t, t + HourMs, r.2) && r.2 in free {
      RowsSpanOneHour(managers, table, request, r);
      RowImpliesFree(managers, table, request, candidates, t, r.2);
    }
    forall id | id in free ensures (t, t + HourMs, id) in rows {
      FreeImpliesRow(managers, table, request, candidates, t, id);
    }
    GroupOfTaggedIds(rows, free, t);
  }

  // ---------------------------------------------------------------------
  // The theorem

  /** Under the assumptions, `getAvailabilityInRuntime` and
      `findAvailabilityFromDB` answer the same request with the same
      sequence of (start, count) lines. */
  lemma {:induction false} RuntimeMatchesDatabase(managers: map<int, SalesManager>, table: seq<Slot>,
                                                 request: AvailabilityRequest, candidates: seq<SalesManager>)
    requires ComparableInputs(managers, table, request, candidates)
    ensures RuntimeAvailability(request, candidates, table)
         == AvailabilityRows(managers, table, request.date, request.language, request.rating, request.products)
    ensures FindAvailabilityFromDB(managers, table, request.date, request.language, request.products, request.rating)
         == Rows(RuntimeAvailability(request, candidates, table))
  {
    var eligible := EligibleManagers(request.products, candidates);
    var fetched := InMemorySlots(request, candidates, table);
    var rows := AvailableManagers(managers, table, request.date, request.language, request.rating, request.products);
    var inMemory := RuntimeAvailability(request, candidates, table);
    var query := AvailabilityRows(managers, table, request.date, request.language, request.rating, request.products);
    AvailabilityRowsSpec(managers, table, request.date, request.language, request.rating, request.products);
    AvailabilitySpec(eligible, fetched);
    assert AscendingEntries(inMemory);
    forall e ensures e in inMemory <==> e in query {
      GroupIsFreeManagers(managers, table, request, candidates, e.startDate);
      var free := FreeManagerIds(eligible, fetched, e.startDate);
      if free != {} {
        FreeOnlyAtSlotStarts(eligible, fetched, e.startDate);
      }
      if eligible == [] {
        assert free == {};
      }
    }
    AscendingEntriesUnique(inMemory, query);
  }

  // ---------------------------------------------------------------------
  // What each assumption rules out

  /** A manager whose booking runs from 23:30 the day before into the first
      slot of 2024-05-03 (day 19846). */
  const Seller: SalesManager := SalesManager(1, "Seller 1", ["German"], ["Heatpumps"], ["Gold"])
  const Midnight: int := 19846 * DayMs
  const LateBooking: Slot := Slot(1, Midnight - 30 * 60 * 1000, Midnight + 30 * 60 * 1000, true, 1)
  const FirstSlot: Slot := Slot(2, Midnight, Midnight + HourMs, false, 1)
  /** The seller's request on that day: heat pumps, in German, Gold tier. */
  const HeatpumpRequest: AvailabilityRequest := AvailabilityRequest(19846, ["Heatpumps"], "German", "Gold")

  /** The answer for the seller over any fetch that holds only the
      midnight slot. */
  lemma FirstSlotAnswer(fetched: seq<Slot>)
    requires forall s :: s in fetched <==> s == FirstSlot
    ensures Availability([Seller], fetched) == [AvailabilityEntry(Midnight, 1)]
  {
    assert FirstSlot in fetched;
    assert StartInstants(fetched) == {Midnight};
    assert IsFreeAt(fetched, 1, Midnight);
    assert FreeManagerIds([Seller], fetched, Midnight) == {1};
    AvailabilitySpec([Seller], fetched);
    AscendingEntriesUnique(Availability([Seller], fetched), [AvailabilityEntry(Midnight, 1)]);
  }

  /** The in-memory path only fetched the day's slots, so it never sees the
      booking and reports the manager free at midnight. */
  lemma OvernightBookingIgnoredInMemory()
    ensures RuntimeAvailability(HeatpumpRequest, [Seller], [LateBooking, FirstSlot])
         == [AvailabilityEntry(Midnight, 1)]
  {
    var table := [LateBooking, FirstSlot];
    var eligible := EligibleManagers(HeatpumpRequest.products, [Seller]);
    assert IncludesAll(Seller.products, HeatpumpRequest.products);
    assert eligible == [Seller];
    assert ManagerIds(eligible) == [1];
    assert DayOf(LateBooking.start) == 19845;
    assert DayOf(FirstSlot.start) == 19846;
    var fetched := FindAllSlots(table, 19846, [1]);
    assert forall s :: s in fetched <==> s == FirstSlot;
    FirstSlotAnswer(fetched);
  }

  /** The query checks bookings of every day, so the same inputs give an
      empty answer. */
  lemma OvernightBookingBlocksQuery()
    ensures AvailabilityRows(map[1 := Seller], [LateBooking, FirstSlot], 19846, "German", "Gold", ["Heatpumps"]) == []
  {
    var table := [LateBooking, FirstSlot];
    var managers := map[1 := Seller];
    assert IsOverlapping(LateBooking.start, LateBooking.end, FirstSlot.start, FirstSlot.end);
    assert DayOf(LateBooking.start) == 19845;
    assert DayOf(FirstSlot.start) == 19846;
    assert TimeSlots(table, 19846) == {(Midnight, Midnight + HourMs)};
    assert HasOverlappingBookedSlot(table, 1, (Midnight, Midnight + HourMs));
    var rows := AvailableManagers(managers, table, 19846, "German", "Gold", ["Heatpumps"]);
    assert rows == {};
    AvailabilityRowsSpec(managers, table, 19846, "German", "Gold", ["Heatpumps"]);
    AscendingEntriesUnique(AvailabilityRows(managers, table, 19846, "German", "Gold", ["Heatpumps"]), []);
  }

  /** The overnight inputs meet every assumption but the last. */
  lemma OvernightInputsBreakOnlyDayScope()
    ensures IsKeyedById(map[1 := Seller])
    ensures IsDirectoryResult(map[1 := Seller], HeatpumpRequest, [Seller])
    ensures |HeatpumpRequest.products| > 0
    ensures SlotsLastOneHour([LateBooking, FirstSlot])
    ensures !NoBookingAcrossDay([LateBooking, FirstSlot], 19846)
  {
    assert "Heatpumps" in HeatpumpRequest.products && "Heatpumps" in Seller.products;
    assert MatchesDirectoryCriteria(Seller, HeatpumpRequest);
    assert IsOverlapping(LateBooking.start, LateBooking.end, FirstSlot.start, FirstSlot.end);
    assert DayOf(LateBooking.start) == 19845;
    assert DayOf(FirstSlot.start) == 19846;
  }

  /** A second seller, free at midnight, beside the first one's overnight
      booking. */
  const OtherSeller: SalesManager := SalesManager(2, "Seller 2", ["German"], ["Heatpumps"], ["Gold"])
  const OtherFirstSlot: Slot := Slot(6, Midnight, Midnight + HourMs, false, 2)

  /** A booking from the day before blocks only its own manager: with the
      second seller's midnight slot beside it, every assumption holds. */
  lemma OtherManagersBookingIsComparable()
    ensures ComparableInputs(map[1 := Seller, 2 := OtherSeller], [LateBooking, OtherFirstSlot], HeatpumpRequest,
                             [Seller, OtherSeller])
  {
    var managers := map[1 := Seller, 2 := OtherSeller];
    assert "Heatpumps" in HeatpumpRequest.products && "Heatpumps" in Seller.products;
    assert MatchesDirectoryCriteria(Seller, HeatpumpRequest) && MatchesDirectoryCriteria(OtherSeller, HeatpumpRequest);
    assert forall id :: id in managers ==> id == 1 || id == 2;
    assert DayOf(LateBooking.start) == 19845;
  }

  /** Rows that all share one start group into a single line. */
  lemma OneGroupOneLine(rows: set<(int, int, int)>, start: int)
    requires GroupStarts(rows) == {start}
    ensures CountsByStart(SortedInstants(GroupStarts(rows)), rows) == [AvailabilityEntry(start, GroupSize(rows, start))]
  {
    var lines := CountsByStart(SortedInstants(GroupStarts(rows)), rows);
    var expected := [AvailabilityEntry(start, GroupSize(rows, start))];
    GroupedRowsSpec(rows);
    assert forall e :: e in lines <==> e in expected;
    AscendingEntriesUnique(lines, expected);
  }

  /** A set holding a single row groups into a single line of count 1. */
  lemma SingleRowGroups(rows: set<(int, int, int)>, row: (int, int, int))
    requires rows == {row}
    ensures CountsByStart(SortedInstants(GroupStarts(rows)), rows) == [AvailabilityEntry(row.0, 1)]
  {
    assert GroupStarts(rows) == {row.0};
    assert (set r | r in rows && r.0 == row.0) == {row};
    OneGroupOneLine(rows, row.0);
  }

  /** With no product requested, the directory (array overlap `&&`) finds
      nobody, so the in-memory path answers nothing; the query's containment
      `@>` holds for the empty array, so it counts the manager. */
  const NoProductRequest: AvailabilityRequest := AvailabilityRequest(19846, [], "German", "Gold")

  lemma EmptyProductListDiverges()
    ensures IsDirectoryResult(map[1 := Seller], NoProductRequest, [])
    ensures RuntimeAvailability(NoProductRequest, [], [FirstSlot]) == []
    ensures AvailabilityRows(map[1 := Seller], [FirstSlot], 19846, "German", "Gold", []) == [AvailabilityEntry(Midnight, 1)]
  {
    var managers := map[1 := Seller];
    var table := [FirstSlot];
    assert DayOf(FirstSlot.start) == 19846;
    assert TimeSlots(table, 19846) == {(Midnight, Midnight + HourMs)};
    assert EligibleManagerIds(managers, "German", "Gold", []) == {1};
    assert HasExactUnbookedSlot(table, 1, (Midnight, Midnight + HourMs));
    var rows := AvailableManagers(managers, table, 19846, "German", "Gold", []);
    assert rows == {(Midnight, Midnight + HourMs, 1)};
    SingleRowGroups(rows, (Midnight, Midnight + HourMs, 1));
  }

  /** The empty-product inputs meet every assumption but the product count. */
  lemma EmptyProductInputsBreakOnlyProductCount()
    ensures IsKeyedById(map[1 := Seller])
    ensures IsDirectoryResult(map[1 := Seller], NoProductRequest, [])
    ensures |NoProductRequest.products| == 0
    ensures SlotsLastOneHour([FirstSlot])
    ensures NoBookingAcrossDay([FirstSlot], 19846)
  {
  }

  /** A free half-hour slot at midnight followed by a half-hour booking. */
  const HalfHourMs: int := 30 * 60 * 1000
  const ShortFree: Slot := Slot(3, Midnight, Midnight + HalfHourMs, false, 1)
  const ShortBooking: Slot := Slot(4, Midnight + HalfHourMs, Midnight + HourMs, true, 1)

  /** The in-memory path tests the full hour from midnight, which the booking
      meets, so the manager is not free. */
  lemma ShortSlotBlockedInMemory()
    ensures RuntimeAvailability(HeatpumpRequest, [Seller], [ShortFree, ShortBooking]) == []
  {
    var table := [ShortFree, ShortBooking];
    var eligible := EligibleManagers(HeatpumpRequest.products, [Seller]);
    assert IncludesAll(Seller.products, HeatpumpRequest.products);
    assert eligible == [Seller];
    assert ManagerIds(eligible) == [1];
    assert DayOf(ShortFree.start) == 19846 && DayOf(ShortBooking.start) == 19846;
    FetchWholeTable(table, 19846, [1]);
    ShortSlotFetchAnswer(FindAllSlots(table, 19846, [1]));
  }

  lemma ShortSlotFetchAnswer(fetched: seq<Slot>)
    requires forall s :: s in fetched <==> s == ShortFree || s == ShortBooking
    ensures Availability([Seller], fetched) == []
  {
    assert ShortBooking in fetched;
    forall t | t in StartInstants(fetched) ensures FreeManagerIds([Seller], fetched, t) == {} {
      assert !IsFreeAt(fetched, 1, t);
    }
    AvailabilitySpec([Seller], fetched);
    AscendingEntriesUnique(Availability([Seller], fetched), []);
  }

  /** The query tests only the slot's own half hour, which the booking does
      not meet, so it counts the manager. */
  lemma ShortSlotCountedByQuery()
    ensures AvailabilityRows(map[1 := Seller], [ShortFree, ShortBooking], 19846, "German", "Gold", ["Heatpumps"])
         == [AvailabilityEntry(Midnight, 1)]
    ensures !SlotsLastOneHour([ShortFree, ShortBooking])
  {
    var managers := map[1 := Seller];
    var table := [ShortFree, ShortBooking];
    assert DayOf(ShortFree.start) == 19846 && DayOf(ShortBooking.start) == 19846;
    assert TimeSlots(table, 19846) == {(Midnight, Midnight + HalfHourMs), (Midnight + HalfHourMs, Midnight + HourMs)};
    assert EligibleManagerIds(managers, "German", "Gold", ["Heatpumps"]) == {1};
    assert HasExactUnbookedSlot(table, 1, (Midnight, Midnight + HalfHourMs));
    assert !HasExactUnbookedSlot(table, 1, (Midnight + HalfHourMs, Midnight + HourMs));
    var rows := AvailableManagers(managers, table, 19846, "German", "Gold", ["Heatpumps"]);
    assert rows == {(Midnight, Midnight + HalfHourMs, 1)};
    SingleRowGroups(rows, (Midnight, Midnight + HalfHourMs, 1));
  }

  /** The short-slot inputs meet every assumption but the slot length. */
  lemma ShortSlotInputsBreakOnlySlotLength()
    ensures IsKeyedById(map[1 := Seller])
    ensures IsDirectoryResult(map[1 := Seller], HeatpumpRequest, [Seller])
    ensures |HeatpumpRequest.products| > 0
    ensures !SlotsLastOneHour([ShortFree, ShortBooking])
    ensures NoBookingAcrossDay([ShortFree, ShortBooking], 19846)
  {
    assert "Heatpumps" in HeatpumpRequest.products && "Heatpumps" in Seller.products;
    assert MatchesDirectoryCriteria(Seller, HeatpumpRequest);
    assert ShortFree in [ShortFree, ShortBooking];
  }

  /** Two free slots of one manager that start together but end apart: the
      in-memory path counts the manager once, the query's `COUNT(*)` counts
      one row per (start, end) pair. */
  const HourFree: Slot := Slot(5, Midnight, Midnight + HourMs, false, 1)

  lemma SameStartCountedOnceInMemory()
    ensures RuntimeAvailability(HeatpumpRequest, [Seller], [HourFree, ShortFree]) == [AvailabilityEntry(Midnight, 1)]
  {
    var table := [HourFree, ShortFree];
    var eligible := EligibleManagers(HeatpumpRequest.products, [Seller]);
    assert IncludesAll(Seller.products, HeatpumpRequest.products);
    assert eligible == [Seller];
    assert ManagerIds(eligible) == [1];
    assert DayOf(HourFree.start) == 19846 && DayOf(ShortFree.start) == 19846;
    FetchWholeTable(table, 19846, [1]);
    SameStartFetchAnswer(FindAllSlots(table, 19846, [1]));
  }

  lemma SameStartFetchAnswer(fetched: seq<Slot>)
    requires forall s :: s in fetched <==> s == HourFree || s == ShortFree
    ensures Availability([Seller], fetched) == [AvailabilityEntry(Midnight, 1)]
  {
    assert HourFree in fetched;
    assert StartInstants(fetched) == {Midnight};
    assert IsFreeAt(fetched, 1, Midnight);
    assert FreeManagerIds([Seller], fetched, Midnight) == {1};
    AvailabilitySpec([Seller], fetched);
    AscendingEntriesUnique(Availability([Seller], fetched), [AvailabilityEntry(Midnight, 1)]);
  }

  lemma SameStartCountedTwiceByQuery()
    ensures AvailabilityRows(map[1 := Seller], [HourFree, ShortFree], 19846, "German", "Gold", ["Heatpumps"])
         == [AvailabilityEntry(Midnight, 2)]
  {
    var managers := map[1 := Seller];
    var table := [HourFree, ShortFree];
    assert DayOf(HourFree.start) == 19846 && DayOf(ShortFree.start) == 19846;
    assert TimeSlots(table, 19846) == {(Midnight, Midnight + HourMs), (Midnight, Midnight + HalfHourMs)};
    assert EligibleManagerIds(managers, "German", "Gold", ["Heatpumps"]) == {1};
    assert HasExactUnbookedSlot(table, 1, (Midnight, Midnight + HourMs));
    assert HasExactUnbookedSlot(table, 1, (Midnight, Midnight + HalfHourMs));
    var rows := AvailableManagers(managers, table, 19846, "German", "Gold", ["Heatpumps"]);
    assert rows == {(Midnight, Midnight + HourMs, 1), (Midnight, Midnight + HalfHourMs, 1)};
    TwoRowsOneStartGroup(rows, (Midnight, Midnight + HourMs, 1), (Midnight, Midnight + HalfHourMs, 1));
  }

  /** Two distinct rows with the same start group into one line of count 2. */
  lemma TwoRowsOneStartGroup(rows: set<(int, int, int)>, a: (int, int, int), b: (int, int, int))
    requires rows == {a, b} && a != b && a.0 == b.0
    ensures CountsByStart(SortedInstants(GroupStarts(rows)), rows) == [AvailabilityEntry(a.0, 2)]
  {
    assert GroupStarts(rows) == {a.0};
    assert (set r | r in rows && r.0 == a.0) == rows;
    OneGroupOneLine(rows, a.0);
  }

  /** The same-start inputs meet every assumption but the slot length. */
  lemma SameStartInputsBreakOnlySlotLength()
    ensures IsKeyedById(map[1 := Seller])
    ensures IsDirectoryResult(map[1 := Seller], HeatpumpRequest, [Seller])
    ensures |HeatpumpRequest.products| > 0
    ensures !SlotsLastOneHour([HourFree, ShortFree])
    ensures NoBookingAcrossDay([HourFree, ShortFree], 19846)
  {
    assert "Heatpumps" in HeatpumpRequest.products && "Heatpumps" in Seller.products;
    assert MatchesDirectoryCriteria(Seller, HeatpumpRequest);
    assert ShortFree in [HourFree, ShortFree];
  }
}
