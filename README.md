# Availability of sales managers: the two strategies, verified

The calendar-availability service answers one question. Given a day, a list of
products, a language and a customer-rating tier, how many suitable sales
managers are free at each slot start of that day? The service can answer it
in two ways:

- **`getAvailabilityInRuntime`** works in memory. It re-filters the managers
  the directory lookup returned, so that each one carries every requested
  product. It fetches their slots for the day and groups them by start time.
  For each start, in ascending order, it counts the distinct managers that have
  an unbooked slot starting then and no booked slot overlapping the following
  hour.
- **`findAvailabilityFromDB`** answers with a single SQL query. The query
  defines the eligible managers, the day's distinct (start, end) slots, and the
  available (slot, manager) pairs. It then groups the pairs by start, counts
  them and orders the result.

Modules:

- `Entities`: managers, slots, the request and the answer line. Instants are
  whole milliseconds since the Unix epoch in UTC. A day is a whole-day number.
- `Chronology`: the ascending order of distinct instants, and the fact that a
  strictly ascending answer is fixed by its lines.
- `SlotRepository`: the repository's queries as pure functions over the
  `slots` and `sales_managers` tables.
- `ManagerAvailabilityService`: the overlap test and the in-memory path. The
  path is imperative methods with loops, proved against specification
  functions.
- `Equivalence`: the two strategies give the same answer under stated
  assumptions. It also has witnesses showing that each of the last three
  assumptions is needed.
- `Scenarios`: the service's unit-test cases.

The two strategies really do differ. `Equivalence.RuntimeMatchesDatabase`
proves that they agree when five conditions hold:

- the manager table is keyed by id;
- the candidates are exactly what the directory lookup returns;
- at least one product is requested;
- every slot lasts exactly one hour;
- no booked slot of a manager that starts on another day overlaps one of that
  manager's slots of the requested day.

The query takes candidate instants from every manager's slots. That is not a
difference, because a row also needs the manager's own slot at that start.
Without the last three conditions the answers part:

- **Overnight booking.** The in-memory path fetches only the day's slots. A
  booking from 23:30 the day before therefore does not block 00:00 in memory,
  but it does in the query.
- **Empty product list.** The directory's overlap `&&` finds nobody, while
  the query's `@>` holds for an empty array.
- **Short slot.** The in-memory path tests the whole hour after a start. The
  query tests only the slot's own interval.
- **Same start, two ends.** The in-memory path counts the manager once.
  `COUNT(*)` counts one row per (start, end) pair.

The service's `isOverlapping` is true only when both intervals share an
instant, provided both are non-empty. For an empty interval it can hold with
no instant shared (`OverlapMeansSharedInstant` needs that precondition).

## Model

| member | source | states |
|---|---|---|
| Entities.DayOf | src/infrastructure/repositories/slots.repository.ts:53 | the day of an instant is the whole day containing it: `d * DayMs <= t < (d + 1) * DayMs`, also before the epoch |
| Entities.IncludesAll | src/application/service/managerAvailability.service.ts:55 | definition, no contract: every wanted product occurs in the list; the `every`/`includes` test, and the array containment `@>` of the query (slots.repository.ts line 48) |
| Chronology.LeastExists | src/application/service/managerAvailability.service.ts:81 | every finite set of instants that holds some value has a least element |
| Chronology.Least | src/application/service/managerAvailability.service.ts:81 | the least instant of a non-empty set belongs to it and is below every other member |
| Chronology.SortedInstants | src/application/service/managerAvailability.service.ts:81 | the sorted keys are strictly ascending and hold exactly the members of the set |
| Chronology.AscendingEntriesUnique | src/application/service/managerAvailability.service.ts:79-120 | two strictly ascending answers with the same lines are equal |
| SlotRepository.OnDate | src/infrastructure/repositories/slots.repository.ts:30 | definition, no contract: `start_date::date` equals the requested day (also line 21 of `findAvailableSlots` and line 53 of the query) |
| SlotRepository.IsAvailableSlotOf | src/infrastructure/repositories/slots.repository.ts:21-23 | definition, no contract: the WHERE clause of `findAvailableSlots`: on the date, unbooked, owner in the id list |
| SlotRepository.IsSlotOf | src/infrastructure/repositories/slots.repository.ts:30-31 | definition, no contract: the WHERE clause of `findAllSlots`: on the date, owner in the id list, booked or not |
| SlotRepository.SortedByStart | src/infrastructure/repositories/slots.repository.ts:32 | definition, no contract: `ORDER BY start_date ASC`: no slot starts after a later one |
| SlotRepository.IsEligibleManager | src/infrastructure/repositories/slots.repository.ts:46-48 | definition, no contract: a manager row of `eligible_managers`: speaks `$2`, serves rating `$3`, and its products contain every product of `$4` |
| SlotRepository.EligibleManagerIds | src/infrastructure/repositories/slots.repository.ts:43-49 | definition, no contract: the ids of the eligible rows of the manager table |
| SlotRepository.TimeSlots | src/infrastructure/repositories/slots.repository.ts:50-54 | definition, no contract: `time_slots`: the distinct (start, end) pairs of every slot starting on the date, of any manager, booked or not |
| SlotRepository.HasOverlappingBookedSlot | src/infrastructure/repositories/slots.repository.ts:62-69 | definition, no contract: the NOT EXISTS sub-query: a booked slot of the manager, on any day, meeting the time slot |
| SlotRepository.HasExactUnbookedSlot | src/infrastructure/repositories/slots.repository.ts:70-77 | definition, no contract: the EXISTS sub-query: an unbooked slot of the manager with exactly the time slot's start and end |
| SlotRepository.AvailableManagers | src/infrastructure/repositories/slots.repository.ts:55-78 | definition, no contract: `available_managers`: the (start, end, manager) triples of the cross join that pass both sub-queries |
| SlotRepository.GroupStarts | src/infrastructure/repositories/slots.repository.ts:83 | definition, no contract: the groups of `GROUP BY start_date`: the distinct starts of the rows |
| SlotRepository.GroupSize | src/infrastructure/repositories/slots.repository.ts:81-83 | definition, no contract: `COUNT(*)` of one group: the number of rows with that start |
| SlotRepository.AvailabilityRows | src/infrastructure/repositories/slots.repository.ts:43-84 | definition, no contract: the query's answer: one line per group, in ascending start order, with the group's count |
| SlotRepository.AvailabilityQuery | src/infrastructure/repositories/slots.repository.ts:42-85 | definition, no contract: the query read against its placeholders `$1`..`$4`; a parameter list of another shape is an error |
| SlotRepository.FindAvailableSlots | src/infrastructure/repositories/slots.repository.ts:18-25 | every row that is on the date, unbooked and owned by a listed manager, with its multiplicity, and no other row; every result is unbooked |
| SlotRepository.SelectSlots | src/infrastructure/repositories/slots.repository.ts:27-31 | every row on the date owned by a listed manager, booked or not, with its multiplicity, and no other row |
| SlotRepository.InsertByStart | src/infrastructure/repositories/slots.repository.ts:32 | inserting into an ordered sequence keeps it ordered by start and adds exactly that slot to the multiset |
| SlotRepository.SortByStart | src/infrastructure/repositories/slots.repository.ts:32 | the result is ordered by start and is a permutation of the input |
| SlotRepository.FindAllSlots | src/infrastructure/repositories/slots.repository.ts:27-34 | ordered by start; a slot is in the result exactly when it is a row of the table on the date owned by a listed manager, each with its multiplicity |
| SlotRepository.FetchWholeTable | src/infrastructure/repositories/slots.repository.ts:27-34 | when every row is on the date and owned by a listed manager, the fetch holds every row |
| SlotRepository.CountsByStart | src/infrastructure/repositories/slots.repository.ts:79-84 | one output line per start, in order, each carrying the size of that start's group |
| SlotRepository.FindAvailabilityFromDB | src/infrastructure/repositories/slots.repository.ts:36-87 | binding `[date, language, rating, products]` to `$1..$4` runs the query with each argument in its intended test, and never yields a parameter error |
| SlotRepository.AvailablePairIff | src/infrastructure/repositories/slots.repository.ts:43-78 | a (start, end, manager) row is available exactly when all of these hold: a slot of the date has that start and end; the manager meets language, rating and `@>`; no booked slot of the manager (any day) meets the interval; an unbooked slot of the manager has exactly that start and end |
| SlotRepository.GroupSizePositive | src/infrastructure/repositories/slots.repository.ts:81-83 | every group that exists counts at least one row |
| SlotRepository.GroupedRowsSpec | src/infrastructure/repositories/slots.repository.ts:79-84 | grouping and ordering gives strictly ascending lines; a line is present exactly when its start has a group and its count is that group's size |
| SlotRepository.AvailabilityRowsSpec | src/infrastructure/repositories/slots.repository.ts:43-84 | the query's answer is strictly ascending, has one line per start with an available pair counting those pairs, and has no line of count 0 |
| SlotRepository.RowStartsAreSlotStarts | src/infrastructure/repositories/slots.repository.ts:50-61 | every output start is the start of a slot on the requested date |
| ManagerAvailabilityService.IsOverlapping | src/application/service/managerAvailability.service.ts:28-30 | definition, no contract: `isOverlapping`: each interval starts before the other ends |
| ManagerAvailabilityService.ManagerIds | src/application/service/managerAvailability.service.ts:62 | definition, no contract: `managers.map(m => m.id)`: the ids in list order |
| ManagerAvailabilityService.HasUnbookedSlotAt | src/application/service/managerAvailability.service.ts:91-95 | definition, no contract: `hasUnbookedSlot`: an unbooked fetched slot of the manager starts exactly at T |
| ManagerAvailabilityService.HasOverlappingBooking | src/application/service/managerAvailability.service.ts:100-105 | definition, no contract: `hasOverlappingBooking`: a booked fetched slot of the manager meets [T, T+1h) |
| ManagerAvailabilityService.IsFreeAt | src/application/service/managerAvailability.service.ts:89-110 | definition, no contract: the manager is added at T: an unbooked slot at T and no overlapping booking |
| ManagerAvailabilityService.FreeManagerIds | src/application/service/managerAvailability.service.ts:87-110 | definition, no contract: `availableManagerIds`: the set of ids of the eligible managers free at T |
| ManagerAvailabilityService.StartInstants | src/application/service/managerAvailability.service.ts:71-76 | definition, no contract: the keys of `slotGroups`: the distinct starts of the fetched slots |
| ManagerAvailabilityService.EntriesFor | src/application/service/managerAvailability.service.ts:81-118 | definition, no contract: the lines for a list of starts, in its order: one per start where the free set is non-empty, carrying its size |
| ManagerAvailabilityService.Availability | src/application/service/managerAvailability.service.ts:68-120 | definition, no contract: the lines for every distinct fetched start in ascending order |
| ManagerAvailabilityService.RuntimeAvailability | src/application/service/managerAvailability.service.ts:41-121 | definition, no contract: the whole in-memory answer: re-filter, empty answer when nobody is left, else fetch the day's slots and aggregate |
| ManagerAvailabilityService.OverlapMeansSharedInstant | src/application/service/managerAvailability.service.ts:28-30 | for non-empty half-open intervals, `isOverlapping` holds exactly when some instant lies in both |
| ManagerAvailabilityService.OverlapSymmetric | src/application/service/managerAvailability.service.ts:28-30 | `isOverlapping` is symmetric in its two intervals |
| ManagerAvailabilityService.TouchingSlotsDoNotOverlap | src/application/service/managerAvailability.service.ts:28-30 | intervals that only touch at an endpoint do not overlap |
| ManagerAvailabilityService.EligibleManagers | src/application/service/managerAvailability.service.ts:53-56 | the re-filter keeps exactly the candidates carrying every requested product, each with its multiplicity |
| ManagerAvailabilityService.EligibleManagersShorter | src/application/service/managerAvailability.service.ts:54-56 | the re-filter never adds managers |
| ManagerAvailabilityService.FreeManagerIdsAppend | src/application/service/managerAvailability.service.ts:89-110 | visiting one more manager adds its id to the free set exactly when it is free |
| ManagerAvailabilityService.StartInstantsAppend | src/application/service/managerAvailability.service.ts:71-76 | visiting one more slot adds exactly its start to the group keys |
| ManagerAvailabilityService.EntriesForAppend | src/application/service/managerAvailability.service.ts:112-117 | one more start adds a line exactly when some manager is free then |
| ManagerAvailabilityService.GroupByStart | src/application/service/managerAvailability.service.ts:68-76 | the grouping's keys are exactly the distinct starts of the fetched slots, each with an empty group |
| ManagerAvailabilityService.FreeManagersAt | src/application/service/managerAvailability.service.ts:87-110 | the collected set is exactly the ids of eligible managers with an unbooked slot starting then and no booked slot meeting the following hour |
| ManagerAvailabilityService.EmitLines | src/application/service/managerAvailability.service.ts:81-118 | walking the keys in order emits the specification's lines for those keys |
| ManagerAvailabilityService.AggregateAvailability | src/application/service/managerAvailability.service.ts:68-120 | grouping plus the ordered walk computes the specification answer (see `AvailabilitySpec` for its properties) |
| ManagerAvailabilityService.GetAvailabilityInRuntime | src/application/service/managerAvailability.service.ts:41-121 | the result is the specification answer: strictly ascending, every count between 1 and the number of candidates. The slot fetch happens once when some candidate carries every product, and never otherwise |
| ManagerAvailabilityService.GetAvailabilityFromDB | src/application/service/managerAvailability.service.ts:32-39 | the request's date, language, products and rating reach the query's date, language, product and rating tests |
| ManagerAvailabilityService.FreeManagerIdsBound | src/application/service/managerAvailability.service.ts:87-117 | the number of distinct free managers never exceeds the number of eligible managers |
| ManagerAvailabilityService.EntriesForSpec | src/application/service/managerAvailability.service.ts:81-118 | for ascending starts, the lines ascend strictly; a line is present exactly when its start is one of them and someone is free, and it counts the distinct free managers |
| ManagerAvailabilityService.AvailabilitySpec | src/application/service/managerAvailability.service.ts:71-118 | the answer is strictly ascending; a line is present exactly when its start is a fetched slot's start and someone is free, and it carries the number of distinct free managers; 1 <= count <= number of managers |
| ManagerAvailabilityService.FreeOnlyAtSlotStarts | src/application/service/managerAvailability.service.ts:71-95 | a manager free at some instant has a fetched slot starting then, so the grouping misses no free manager |
| ManagerAvailabilityService.CountsAtIff | src/application/service/managerAvailability.service.ts:89-110 | an eligible manager counts at T exactly when it has an unbooked slot starting at T and no booked slot with start < T+1h and end > T |
| ManagerAvailabilityService.ContributorsCarryAllProducts | src/application/service/managerAvailability.service.ts:53-56 | every counted manager is a candidate that carries every requested product |
| ManagerAvailabilityService.PartialProductMatchNeverCounted | src/application/service/managerAvailability.service.ts:53-56 | a candidate missing one requested product is counted at no instant |
| Equivalence.MatchesDirectoryCriteria | src/infrastructure/repositories/salesManager.repository.ts:11-17 | definition, no contract: `findByCriteria`'s WHERE clause: the language, one shared product (`&&`), the rating |
| Equivalence.IsKeyedById | src/infrastructure/entities/salesManager.entity.ts:5-6 | definition, no contract: the manager table sits under its primary key `id` |
| Equivalence.IsDirectoryResult | src/infrastructure/repositories/salesManager.repository.ts:11-17 | definition, no contract: the candidates are exactly the table rows meeting the directory criteria |
| Equivalence.SlotsLastOneHour | src/application/service/managerAvailability.service.ts:83 | definition, no contract: every slot lasts the one hour the in-memory path assumes |
| Equivalence.NoBookingAcrossDay | src/infrastructure/repositories/slots.repository.ts:62-69 | definition, no contract: no booking of a manager starting on another day meets one of that manager's slots of the date |
| Equivalence.ComparableInputs | src/application/service/managerAvailability.service.ts:41-121 | definition, no contract: the five assumptions under which the two strategies agree |
| Equivalence.InMemorySlots | src/application/service/managerAvailability.service.ts:62-65 | definition, no contract: the slots the in-memory path fetches for the re-filtered managers |
| Equivalence.ManagerIdsHas | src/application/service/managerAvailability.service.ts:62 | an id is in the id list exactly when some listed manager has it |
| Equivalence.EligibleIdsAgree | src/infrastructure/repositories/slots.repository.ts:43-48 | under the assumptions, the re-filtered candidates carry exactly the ids of `eligible_managers` |
| Equivalence.FetchedSlotsHave | src/application/service/managerAvailability.service.ts:62-65 | under the assumptions, the in-memory path fetches exactly the day's slots of the managers in `eligible_managers` |
| Equivalence.RowsSpanOneHour | src/infrastructure/repositories/slots.repository.ts:50-61 | with one-hour slots every available row spans one hour |
| Equivalence.FreeImpliesRow | src/infrastructure/repositories/slots.repository.ts:62-77 | a manager free at T in memory yields the query row (T, T+1h, manager) |
| Equivalence.RowImpliesFree | src/infrastructure/repositories/slots.repository.ts:62-77 | a query row (T, T+1h, manager) means the manager is free at T in memory |
| Equivalence.TaggedCardinality | src/infrastructure/repositories/slots.repository.ts:81 | tagging distinct ids with a fixed interval gives as many rows as ids |
| Equivalence.GroupOfTaggedIds | src/infrastructure/repositories/slots.repository.ts:79-83 | a group made of some ids tagged with (T, T+1h) exists exactly when there is an id, and its `COUNT(*)` is the number of ids |
| Equivalence.GroupIsFreeManagers | src/infrastructure/repositories/slots.repository.ts:79-83 | the query's group at T exists exactly when a manager is free at T in memory, and its count is the number of distinct free managers |
| Equivalence.RuntimeMatchesDatabase | src/application/service/managerAvailability.service.ts:41-121 | under the assumptions, the in-memory answer and the query's answer are the same sequence of lines |
| Equivalence.FirstSlotAnswer | src/application/service/managerAvailability.service.ts:89-117 | a manager whose only fetched slot is free at midnight yields one line of count 1 |
| Equivalence.OvernightBookingIgnoredInMemory | src/application/service/managerAvailability.service.ts:99-105 | a booking from 23:30 the day before is not fetched, so the in-memory path reports the manager free at 00:00 |
| Equivalence.OvernightBookingBlocksQuery | src/infrastructure/repositories/slots.repository.ts:62-69 | the query sees the same booking and answers with no line |
| Equivalence.OvernightInputsBreakOnlyDayScope | src/infrastructure/repositories/slots.repository.ts:62-69 | those inputs meet every assumption except the day-scope one |
| Equivalence.OtherManagersBookingIsComparable | src/infrastructure/repositories/slots.repository.ts:62-69 | a booking from the day before that overlaps only another manager's midnight slot leaves every assumption intact, so the equivalence covers it |
| Equivalence.OneGroupOneLine | src/infrastructure/repositories/slots.repository.ts:79-84 | rows that share one start become one line counting them |
| Equivalence.SingleRowGroups | src/infrastructure/repositories/slots.repository.ts:79-84 | a single row becomes one line of count 1 |
| Equivalence.TwoRowsOneStartGroup | src/infrastructure/repositories/slots.repository.ts:79-84 | two distinct rows with one start become one line of count 2 |
| Equivalence.EmptyProductListDiverges | src/infrastructure/repositories/slots.repository.ts:48 | with no product requested, the directory finds nobody and the in-memory answer is empty, while `@>` admits the manager and the query answers one line |
| Equivalence.EmptyProductInputsBreakOnlyProductCount | src/infrastructure/repositories/slots.repository.ts:48 | those inputs meet every assumption except that a product is requested |
| Equivalence.ShortSlotFetchAnswer | src/application/service/managerAvailability.service.ts:83-105 | a free half-hour slot followed by a half-hour booking yields no line in memory |
| Equivalence.ShortSlotBlockedInMemory | src/application/service/managerAvailability.service.ts:83-105 | the whole in-memory path gives an empty answer for those slots |
| Equivalence.ShortSlotCountedByQuery | src/infrastructure/repositories/slots.repository.ts:62-77 | the query tests only the slot's own half hour and answers one line; these slots do not last one hour |
| Equivalence.ShortSlotInputsBreakOnlySlotLength | src/application/service/managerAvailability.service.ts:83 | those inputs meet every assumption except the one-hour slot length |
| Equivalence.SameStartFetchAnswer | src/application/service/managerAvailability.service.ts:87-117 | two free slots of one manager with one start yield one line of count 1 in memory |
| Equivalence.SameStartCountedOnceInMemory | src/application/service/managerAvailability.service.ts:87-117 | the whole in-memory path counts that manager once |
| Equivalence.SameStartCountedTwiceByQuery | src/infrastructure/repositories/slots.repository.ts:79-84 | the query's `COUNT(*)` counts the two (start, end) pairs and answers count 2 |
| Equivalence.SameStartInputsBreakOnlySlotLength | src/infrastructure/repositories/slots.repository.ts:81 | those inputs meet every assumption except the one-hour slot length |
| Scenarios.HourSlot | src/application/service/managerAvailability.service.test.ts:67-74 | a test slot keeps its id and start, lasts one hour, and keeps its owner and booked flag |
| Scenarios.DaysOfTestInstants | src/application/service/managerAvailability.service.test.ts:85-118 | the tests' instants fall on 2024-05-03 and 2024-05-04 |
| Scenarios.NoEligibleManagerMeansNoAnswer | src/application/service/managerAvailability.service.ts:49-60 | when each candidate misses some requested product, or there is none, the re-filter is empty and the answer is empty; `GetAvailabilityInRuntime` then reports no slot fetch |
| Scenarios.AnswerFromLines | src/application/service/managerAvailability.service.ts:79-120 | an ascending list with a correct line at every start where someone is free, and no other line, is the answer |
| Scenarios.FreeWithoutBookings | src/application/service/managerAvailability.service.ts:89-110 | a manager with a free slot at T and no booking at all counts at T |
| Scenarios.ThreeFreeSlotsAnswer | src/application/service/managerAvailability.service.test.ts:76-105 | three free slots of one manager give three lines of count 1 |
| Scenarios.SingleManagerThreeFreeSlots | src/application/service/managerAvailability.service.test.ts:76-105 | one eligible manager with free slots at 10:30, 11:00 and 11:30 gives exactly those three lines of count 1, in order |
| Scenarios.BookedAroundAnswer | src/application/service/managerAvailability.service.test.ts:107-132 | bookings at 10:30 and 11:30 around a free 11:00 slot leave no line |
| Scenarios.OverlappingBookingsLeaveNothing | src/application/service/managerAvailability.service.test.ts:107-132 | the 10:30 booking runs into 11:00, so the whole in-memory path answers nothing |
| Scenarios.BothFreeAt1130Answer | src/application/service/managerAvailability.service.test.ts:169-193 | two managers free at 11:30 give one line of count 2 |
| Scenarios.TwoManagersShareOneLine | src/application/service/managerAvailability.service.test.ts:169-193 | two eligible managers free at 11:30 give exactly one line, of count 2 |

## Left out

- The directory lookup (`SalesManagerRepository.findByCriteria`) is not part of this model. The in-memory path takes its answer as an input. `Equivalence.IsDirectoryResult` states what that answer must be for the two strategies to be compared.
- TypeORM, the Postgres engine, connections and async/Promise plumbing are not modelled. Repository answers are plain sequences, and database errors are not modelled.
- Timestamps are not formatted: `toISOString` and `to_char` are left out. Instants are integers, and the string sort of ISO keys is taken to be chronological order. The query relies on the same thing: its `ORDER BY start_date` (src/infrastructure/repositories/slots.repository.ts line 84) names the `to_char` output column of line 80, so it sorts text, while `GROUP BY start_date` (line 83) groups on the timestamp column. Text order equals time order for the fixed-width UTC strings between years 0 and 9999.
- Stored timestamps are taken to be whole milliseconds. `start_date` and `end_date` are `timestamptz` columns (src/infrastructure/entities/slot.entity.ts lines 10 and 14), which hold microseconds. The in-memory path compares the driver's millisecond `Date`s, while the query compares and groups at full precision. With sub-millisecond data the two strategies can disagree, and `Equivalence.RuntimeMatchesDatabase` does not cover that case.
- The database session is taken to run in UTC, so `start_date::date` is the UTC day of the start.
- The query returns `COUNT(*)` as a string through the driver. Counts are modelled as numbers.
- `ORDER BY start_date` leaves the order of equal starts open. `SlotRepository.SortByStart` fixes one order, and nothing in the model depends on which.
- `findAvailableSlots` has no `ORDER BY`. Its result is modelled in table order.
- SQL rejects an empty `IN ()` list. The service never fetches with no ids, and the model returns no rows in that case.
- The date arrives as a `YYYY-MM-DD` string, and its parsing is not modelled. It is a day number here.
- The HTTP and GraphQL servers, routes, schemas, resolvers and the deployment stacks are left out.
- The slot fetch of `getAvailabilityInRuntime` is not an observable call here. A ghost counter records it.
