/**
 * The service's unit-test cases, stated for every table that holds exactly
 * the fetched slots: the directory's answer and the day's slots are fixed,
 * and the whole in-memory answer is pinned down.
 *
 * Instants: 2024-05-03 is day 19846 and 2024-05-04 is day 19847.
 */
module Scenarios {
  import opened Entities
  import opened Chronology
  import opened SlotRepository
  import opened ManagerAvailabilityService

  const May3: int := 19846
  const May4: int := 19847
  const May3At1030: int := May3 * DayMs + 10 * HourMs + 30 * 60 * 1000
  const May3At1100: int := May3 * DayMs + 11 * HourMs
  const May3At1130: int := May3 * DayMs + 11 * HourMs + 30 * 60 * 1000
  const May4At1030: int := May4 * DayMs + 10 * HourMs + 30 * 60 * 1000
  const May4At1100: int := May4 * DayMs + 11 * HourMs
  const May4At1130: int := May4 * DayMs + 11 * HourMs + 30 * 60 * 1000

  /** A one-hour slot, as the tests build them. The tests draw a random id,
      which the service never reads; a fixed id stands in for it. */
  function HourSlot(id: int, managerId: int, start: int, booked: bool): (s: Slot)
    ensures s.id == id && s.start == start && s.end - s.start == HourMs
    ensures s.salesManagerId == managerId && s.booked == booked
  {
    Slot(id, start, start + HourMs, booked, managerId)
  }

  /** The request date of every day-`date` slot is its own day. */
  lemma DaysOfTestInstants()
    ensures DayOf(May3At1030) == May3 && DayOf(May3At1100) == May3 && DayOf(May3At1130) == May3
    ensures DayOf(May4At1030) == May4 && DayOf(May4At1100) == May4 && DayOf(May4At1130) == May4
  {
  }

  /** An empty re-filter leaves an empty answer whatever the slot table:
      this covers a directory that found nobody and candidates that each
      miss some requested product. `GetAvailabilityInRuntime` then reports
      no slot fetch. */
  lemma {:induction false} NoEligibleManagerMeansNoAnswer(request: AvailabilityRequest, candidates: seq<SalesManager>,
                                                          table: seq<Slot>)
    requires forall m :: m in candidates ==> exists p :: p in request.products && p !in m.products
    ensures EligibleManagers(request.products, candidates) == []
    ensures RuntimeAvailability(request, candidates, table) == []
    decreases |candidates|
  {
    if candidates != [] {
      assert candidates[0] in candidates;
      var p :| p in request.products && p !in candidates[0].products;
      assert !IncludesAll(candidates[0].products, request.products);
      NoEligibleManagerMeansNoAnswer(request, candidates[1..], table);
    }
  }

  /** An answer is pinned down by its lines: an ascending list whose every
      line counts the free managers at a slot start, and which has a line at
      every start where someone is free, is the answer. */
  lemma AnswerFromLines(managers: seq<SalesManager>, slots: seq<Slot>, expected: seq<AvailabilityEntry>)
    requires AscendingEntries(expected)
    requires forall e :: e in expected ==> && e.startDate in StartInstants(slots)
                                            && e.availableCount == |FreeManagerIds(managers, slots, e.startDate)|
                                            && e.availableCount > 0
    requires forall t :: (t in StartInstants(slots) && FreeManagerIds(managers, slots, t) != {}
                          ==> exists e :: e in expected && e.startDate == t)
    ensures Availability(managers, slots) == expected
  {
    var answer := Availability(managers, slots);
    AvailabilitySpec(managers, slots);
    forall e ensures e in answer <==> e in expected {
      if e in answer {
        var e' :| e' in expected && e'.startDate == e.startDate;
      }
    }
    AscendingEntriesUnique(answer, expected);
  }

  /** A manager with a free slot at `t` and no booking at all is free at `t`. */
  lemma FreeWithoutBookings(managers: seq<SalesManager>, slots: seq<Slot>, m: SalesManager, s: Slot)
    requires m in managers && s in slots && s.salesManagerId == m.id && !s.booked
    requires forall b :: b in slots ==> !b.booked
    ensures m.id in FreeManagerIds(managers, slots, s.start)
  {
    assert IsFreeAt(slots, m.id, s.start);
  }

  /** Seller 2 speaks German and English, sells solar panels and heat pumps
      and serves every rating tier. */
  const Seller2: SalesManager := SalesManager(2, "Seller 2", ["German", "English"], ["SolarPanels", "Heatpumps"],
                                              ["Gold", "Silver", "Bronze"])

  const BothProductsInGerman: AvailabilityRequest := AvailabilityRequest(May3, ["SolarPanels", "Heatpumps"], "German", "Gold")

  /** Seller 2's three free slots on 2024-05-03. */
  const ThreeFreeSlots: seq<Slot> := [HourSlot(1, 2, May3At1030, false), HourSlot(2, 2, May3At1100, false),
                                      HourSlot(3, 2, May3At1130, false)]

  /** The answer for Seller 2 over any fetch that holds exactly the three
      free slots. */
  lemma ThreeFreeSlotsAnswer(fetched: seq<Slot>)
    requires forall s :: s in fetched <==> s in ThreeFreeSlots
    ensures Availability([Seller2], fetched)
         == [AvailabilityEntry(May3At1030, 1), AvailabilityEntry(May3At1100, 1), AvailabilityEntry(May3At1130, 1)]
  {
    var table := ThreeFreeSlots;
    var expected := [AvailabilityEntry(May3At1030, 1), AvailabilityEntry(May3At1100, 1), AvailabilityEntry(May3At1130, 1)];
    forall e | e in expected
      ensures e.startDate in StartInstants(fetched) && e.availableCount == |FreeManagerIds([Seller2], fetched, e.startDate)|
    {
      var i :| 0 <= i < 3 && expected[i] == e;
      assert table[i] in fetched && table[i].start == e.startDate;
      FreeWithoutBookings([Seller2], fetched, Seller2, table[i]);
      assert FreeManagerIds([Seller2], fetched, e.startDate) == {2};
    }
    forall t | t in StartInstants(fetched) ensures exists e :: e in expected && e.startDate == t {
      var s :| s in fetched && s.start == t;
      var i :| 0 <= i < 3 && table[i] == s;
      assert expected[i] in expected;
    }
    AnswerFromLines([Seller2], fetched, expected);
  }

  /** One eligible manager with three free slots and no booking: three lines
      of count 1 in chronological order. */
  lemma SingleManagerThreeFreeSlots()
    ensures RuntimeAvailability(BothProductsInGerman, [Seller2], ThreeFreeSlots)
         == [AvailabilityEntry(May3At1030, 1), AvailabilityEntry(May3At1100, 1), AvailabilityEntry(May3At1130, 1)]
  {
    var eligible := EligibleManagers(BothProductsInGerman.products, [Seller2]);
    assert IncludesAll(Seller2.products, BothProductsInGerman.products);
    assert eligible == [Seller2];
    assert ManagerIds(eligible) == [2];
    DaysOfTestInstants();
    FetchWholeTable(ThreeFreeSlots, May3, [2]);
    ThreeFreeSlotsAnswer(FindAllSlots(ThreeFreeSlots, May3, [2]));
  }

  const BothProductsOnMay4: AvailabilityRequest := AvailabilityRequest(May4, ["SolarPanels", "Heatpumps"], "German", "Gold")

  /** Seller 2 on 2024-05-04: booked at 10:30 and 11:30, free at 11:00. */
  const BookedAround: seq<Slot> := [HourSlot(1, 2, May4At1030, true), HourSlot(2, 2, May4At1100, false),
                                    HourSlot(3, 2, May4At1130, true)]

  /** The answer for Seller 2 over any fetch that holds exactly the three
      slots of 2024-05-04. */
  lemma BookedAroundAnswer(fetched: seq<Slot>)
    requires forall s :: s in fetched <==> s in BookedAround
    ensures Availability([Seller2], fetched) == []
  {
    assert BookedAround[0] in fetched;
    forall t | t in StartInstants(fetched) ensures FreeManagerIds([Seller2], fetched, t) == {} {
      assert !IsFreeAt(fetched, 2, t);
    }
    AvailabilitySpec([Seller2], fetched);
    AscendingEntriesUnique(Availability([Seller2], fetched), []);
  }

  /** The 10:30 booking runs until 11:30 and so blocks the free 11:00 slot,
      and no other start has a free slot: the answer is empty. */
  lemma OverlappingBookingsLeaveNothing()
    ensures RuntimeAvailability(BothProductsOnMay4, [Seller2], BookedAround) == []
  {
    var eligible := EligibleManagers(BothProductsOnMay4.products, [Seller2]);
    assert IncludesAll(Seller2.products, BothProductsOnMay4.products);
    assert eligible == [Seller2];
    assert ManagerIds(eligible) == [2];
    DaysOfTestInstants();
    FetchWholeTable(BookedAround, May4, [2]);
    BookedAroundAnswer(FindAllSlots(BookedAround, May4, [2]));
  }

  /** Sellers 2 and 3 as the multi-manager test builds them. */
  const HeatpumpSeller2: SalesManager := SalesManager(2, "Seller 2", ["German", "English"], ["Heatpumps"], ["Gold", "Silver"])
  const HeatpumpSeller3: SalesManager := SalesManager(3, "Seller 3", ["German", "English"], ["Heatpumps"], ["Gold", "Silver"])
  const HeatpumpsInEnglish: AvailabilityRequest := AvailabilityRequest(May3, ["Heatpumps"], "English", "Silver")
  const BothFreeAt1130: seq<Slot> := [HourSlot(1, 2, May3At1130, false), HourSlot(2, 3, May3At1130, false)]

  /** The answer for both sellers over any fetch that holds exactly their
      two 11:30 slots. */
  lemma BothFreeAt1130Answer(fetched: seq<Slot>)
    requires forall s :: s in fetched <==> s in BothFreeAt1130
    ensures Availability([HeatpumpSeller2, HeatpumpSeller3], fetched) == [AvailabilityEntry(May3At1130, 2)]
  {
    var table := BothFreeAt1130;
    var eligible := [HeatpumpSeller2, HeatpumpSeller3];
    assert table[0] in fetched && table[1] in fetched;
    assert StartInstants(fetched) == {May3At1130};
    FreeWithoutBookings(eligible, fetched, HeatpumpSeller2, table[0]);
    FreeWithoutBookings(eligible, fetched, HeatpumpSeller3, table[1]);
    assert FreeManagerIds(eligible, fetched, May3At1130) == {2, 3};
    AnswerFromLines(eligible, fetched, [AvailabilityEntry(May3At1130, 2)]);
  }

  /** Both sellers are free at 11:30: one line counting two managers. */
  lemma TwoManagersShareOneLine()
    ensures RuntimeAvailability(HeatpumpsInEnglish, [HeatpumpSeller2, HeatpumpSeller3], BothFreeAt1130)
         == [AvailabilityEntry(May3At1130, 2)]
  {
    var candidates := [HeatpumpSeller2, HeatpumpSeller3];
    var eligible := EligibleManagers(HeatpumpsInEnglish.products, candidates);
    assert IncludesAll(HeatpumpSeller2.products, HeatpumpsInEnglish.products);
    assert IncludesAll(HeatpumpSeller3.products, HeatpumpsInEnglish.products);
    assert candidates[1..] == [HeatpumpSeller3];
    assert EligibleManagers(HeatpumpsInEnglish.products, [HeatpumpSeller3]) == [HeatpumpSeller3];
    assert eligible == candidates;
    assert ManagerIds(eligible) == [2, 3];
    DaysOfTestInstants();
    FetchWholeTable(BothFreeAt1130, May3, [2, 3]);
    BothFreeAt1130Answer(FindAllSlots(BothFreeAt1130, May3, [2, 3]));
  }
}
