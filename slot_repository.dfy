/**
 * The slot repository's queries, stated as what the database returns.
 *
 * `FindAvailableSlots` and `FindAllSlots` are filters over the `slots` table
 * (the second one also ordered by start). `FindAvailabilityFromDB` is the
 * declarative twin of the in-memory engine: a single query built from set
 * definitions (`eligible_managers`, `time_slots`, `available_managers`) that is
 * grouped by start instant, counted and ordered.
 */
module SlotRepository {
  import opened Entities
  import opened Chronology

  /** `start_date::date = $date`: the slot starts on the given UTC day. */
  predicate OnDate(s: Slot, date: int)
  {
    DayOf(s.start) == date
  }

  /** The WHERE clause of `findAvailableSlots`. */
  predicate IsAvailableSlotOf(s: Slot, date: int, managerIds: seq<int>)
  {
    OnDate(s, date) && !s.booked && s.salesManagerId in managerIds
  }

  /** The WHERE clause of `findAllSlots`: booked or not. */
  predicate IsSlotOf(s: Slot, date: int, managerIds: seq<int>)
  {
    OnDate(s, date) && s.salesManagerId in managerIds
  }

  /** The unbooked slots on `date` of the given managers, every matching row
      and nothing else, in table order (the query has no ORDER BY). */
  function FindAvailableSlots(table: seq<Slot>, date: int, managerIds: seq<int>): (r: seq<Slot>)
    ensures forall s :: multiset(r)[s] == if IsAvailableSlotOf(s, date, managerIds) then multiset(table)[s] else 0
    ensures forall s :: s in r ==> !s.booked
  {
    if table == [] then []
    else
      assert table == [table[0]] + table[1..];
      var rest := FindAvailableSlots(table[1..], date, managerIds);
      if IsAvailableSlotOf(table[0], date, managerIds) then [table[0]] + rest else rest
  }

  /** The rows `findAllSlots` selects, before ordering. */
  function SelectSlots(table: seq<Slot>, date: int, managerIds: seq<int>): (r: seq<Slot>)
    ensures forall s :: multiset(r)[s] == if IsSlotOf(s, date, managerIds) then multiset(table)[s] else 0
  {
    if table == [] then []
    else
      assert table == [table[0]] + table[1..];
      var rest := SelectSlots(table[1..], date, managerIds);
      if IsSlotOf(table[0], date, managerIds) then [table[0]] + rest else rest
  }

  predicate SortedByStart(xs: seq<Slot>)
  {
    forall i, j :: 0 <= i < j < |xs| ==> xs[i].start <= xs[j].start
  }

  /** A slot no later than any of an ordered sequence can go in front. */
  lemma SortedCons(y: Slot, ys: seq<Slot>)
    requires SortedByStart(ys)
    requires forall e :: e in ys ==> y.start <= e.start
    ensures SortedByStart([y] + ys)
  {
    forall i, j | 0 <= i < j < |[y] + ys| ensures ([y] + ys)[i].start <= ([y] + ys)[j].start {
      if i == 0 {
        assert ys[j - 1] in ys;
      }
    }
  }

  /** The first slot of an ordered sequence starts no later than any other. */
  lemma FirstStartsEarliest(xs: seq<Slot>)
    requires SortedByStart(xs) && xs != []
    ensures forall e :: e in xs ==> xs[0].start <= e.start
  {
    forall e | e in xs ensures xs[0].start <= e.start {
      var k :| 0 <= k < |xs| && xs[k] == e;
    }
  }

  /** Puts `x` into an ordered sequence before the first later-starting slot. */
  function InsertByStart(x: Slot, xs: seq<Slot>): (r: seq<Slot>)
    requires SortedByStart(xs)
    ensures SortedByStart(r)
    ensures multiset(r) == multiset(xs) + multiset{x}
    ensures forall e :: e in r ==> e in xs || e == x
  {
    if xs == [] then [x]
    else
      FirstStartsEarliest(xs);
      if x.start <= xs[0].start then
        SortedCons(x, xs);
        [x] + xs
      else
        assert xs == [xs[0]] + xs[1..];
        var rest := InsertByStart(x, xs[1..]);
        SortedCons(xs[0], rest);
        [xs[0]] + rest
  }

  /** `ORDER BY slot.start_date ASC`: a permutation ordered by start. The
      database leaves the order of equal starts open; this fixes one. */
  function SortByStart(xs: seq<Slot>): (r: seq<Slot>)
    ensures SortedByStart(r)
    ensures multiset(r) == multiset(xs)
  {
    if xs == [] then []
    else
      assert xs == [xs[0]] + xs[1..];
      InsertByStart(xs[0], SortByStart(xs[1..]))
  }

  /** Every slot on `date` of the given managers, booked or not, each row
      once, ordered by start. */
  function FindAllSlots(table: seq<Slot>, date: int, managerIds: seq<int>): (r: seq<Slot>)
    ensures SortedByStart(r)
    ensures forall s :: multiset(r)[s] == if IsSlotOf(s, date, managerIds) then multiset(table)[s] else 0
    ensures forall s :: s in r <==> s in table && OnDate(s, date) && s.salesManagerId in managerIds
  {
    var r := SortByStart(SelectSlots(table, date, managerIds));
    assert forall s :: s in r <==> multiset(r)[s] > 0;
    assert forall s :: s in table <==> multiset(table)[s] > 0;
    r
  }

  // ---------------------------------------------------------------------
  // findAvailabilityFromDB

  /** The value bound to one `$n` placeholder. */
  datatype QueryParameter =
    | DateParameter(day: int)
    | TextParameter(text: string)
    | TextArrayParameter(items: seq<string>)

  /** A query either yields rows or fails on a parameter of the wrong kind. */
  datatype QueryResult = Rows(entries: seq<AvailabilityEntry>) | ParameterError

  /** A row of `sales_managers` in `eligible_managers`: `$2 = ANY(languages)`,
      `$3 = ANY(customer_ratings)` and `products @> $4`. */
  predicate IsEligibleManager(m: SalesManager, language: string, rating: string, products: seq<string>)
  {
    language in m.languages && rating in m.customerRatings && IncludesAll(m.products, products)
  }

  /** `eligible_managers`: the ids of the eligible rows. The table is keyed by
      its primary key. */
  function EligibleManagerIds(managers: map<int, SalesManager>, language: string, rating: string, products: seq<string>): set<int>
  {
    set id | id in managers && IsEligibleManager(managers[id], language, rating, products)
  }

  /** `time_slots`: the distinct (start, end) pairs of every slot starting on
      the date, whoever owns it and whether booked or not. */
  function TimeSlots(table: seq<Slot>, date: int): set<(int, int)>
  {
    set s | s in table && OnDate(s, date) :: (s.start, s.end)
  }

  /** The NOT EXISTS sub-query: a booked slot of the manager, on any day,
      whose interval meets the time slot's. */
  predicate HasOverlappingBookedSlot(table: seq<Slot>, managerId: int, t: (int, int))
  {
    exists s :: s in table && s.salesManagerId == managerId && s.booked && s.start < t.1 && s.end > t.0
  }

  /** The EXISTS sub-query: an unbooked slot of the manager with exactly the
      time slot's start and end. */
  predicate HasExactUnbookedSlot(table: seq<Slot>, managerId: int, t: (int, int))
  {
    exists s :: s in table && s.salesManagerId == managerId && !s.booked && s.start == t.0 && s.end == t.1
  }

  /** `available_managers`: the (start, end, manager) rows of the cross join
      that pass both sub-queries. */
  function AvailableManagers(managers: map<int, SalesManager>, table: seq<Slot>, date: int,
                             language: string, rating: string, products: seq<string>): set<(int, int, int)>
  {
    set t, id | t in TimeSlots(table, date) && id in EligibleManagerIds(managers, language, rating, products)
                && !HasOverlappingBookedSlot(table, id, t) && HasExactUnbookedSlot(table, id, t)
      :: (t.0, t.1, id)
  }

  /** The groups of `GROUP BY start_date`. */
  function GroupStarts(rows: set<(int, int, int)>): set<int>
  {
    set r | r in rows :: r.0
  }

  /** `COUNT(*)` of one group. */
  function GroupSize(rows: set<(int, int, int)>, start: int): nat
  {
    |set r | r in rows && r.0 == start|
  }

  /** One output row per start in `starts`, in that order. */
  function CountsByStart(starts: seq<int>, rows: set<(int, int, int)>): (r: seq<AvailabilityEntry>)
    ensures |r| == |starts|
    ensures forall i :: 0 <= i < |r| ==> r[i] == AvailabilityEntry(starts[i], GroupSize(rows, starts[i]))
  {
    if starts == [] then []
    else [AvailabilityEntry(starts[0], GroupSize(rows, starts[0]))] + CountsByStart(starts[1..], rows)
  }

  /** What the query returns for a date, language, rating and product list. */
  function AvailabilityRows(managers: map<int, SalesManager>, table: seq<Slot>, date: int,
                            language: string, rating: string, products: seq<string>): seq<AvailabilityEntry>
  {
    var rows := AvailableManagers(managers, table, date, language, rating, products);
    CountsByStart(SortedInstants(GroupStarts(rows)), rows)
  }

  /** The query text read against its placeholders: `$1` is the date, `$2`
      the language, `$3` the rating and `$4` the product array. */
  function AvailabilityQuery(managers: map<int, SalesManager>, table: seq<Slot>, params: seq<QueryParameter>): QueryResult
  {
    if |params| == 4 && params[0].DateParameter? && params[1].TextParameter?
       && params[2].TextParameter? && params[3].TextArrayParameter?
    then Rows(AvailabilityRows(managers, table, params[0].day, params[1].text, params[2].text, params[3].items))
    else ParameterError
  }

  /** `findAvailabilityFromDB`: binds `[date, language, rating, products]`
      and runs the query. Each argument reaches the test it is meant for. */
  function FindAvailabilityFromDB(managers: map<int, SalesManager>, table: seq<Slot>, date: int,
                                  language: string, products: seq<string>, rating: string): (r: QueryResult)
    ensures r == Rows(AvailabilityRows(managers, table, date, language, rating, products))
  {
    AvailabilityQuery(managers, table,
      [DateParameter(date), TextParameter(language), TextParameter(rating), TextArrayParameter(products)])
  }

  // ---------------------------------------------------------------------
  // Properties of the query

  /** A (time slot, manager) pair is a row of `available_managers` exactly when
      the manager is eligible, has no booked slot meeting the interval and has
      an unbooked slot with exactly that start and end. */
  lemma AvailablePairIff(managers: map<int, SalesManager>, table: seq<Slot>, date: int,
                         language: string, rating: string, products: seq<string>, start: int, end: int, id: int)
    ensures (start, end, id) in AvailableManagers(managers, table, date, language, rating, products)
      <==> && (exists s :: s in table && OnDate(s, date) && s.start == start && s.end == end)
           && id in managers && language in managers[id].languages && rating in managers[id].customerRatings
           && IncludesAll(managers[id].products, products)
           && !(exists s :: s in table && s.salesManagerId == id && s.booked && s.start < end && s.end > start)
           && (exists s :: s in table && s.salesManagerId == id && !s.booked && s.start == start && s.end == end)
  {
    var rows := AvailableManagers(managers, table, date, language, rating, products);
    var t := (start, end);
    assert t in TimeSlots(table, date) <==> exists s :: s in table && OnDate(s, date) && s.start == start && s.end == end;
    assert (start, end, id) in rows <==>
      t in TimeSlots(table, date) && id in EligibleManagerIds(managers, language, rating, products)
      && !HasOverlappingBookedSlot(table, id, t) && HasExactUnbookedSlot(table, id, t);
  }

  /** Every start with an available pair is a group of positive size. */
  lemma GroupSizePositive(rows: set<(int, int, int)>, start: int)
    requires start in GroupStarts(rows)
    ensures GroupSize(rows, start) >= 1
  {
    var w :| w in rows && w.0 == start;
    var group := set x | x in rows && x.0 == start;
    assert w in group;
    assert |group - {w}| == |group| - 1;
  }

  /** Grouping a set of rows by start and ordering the groups gives a strictly
      ascending output with one row per group, carrying the group's size. */
  lemma GroupedRowsSpec(rows: set<(int, int, int)>)
    ensures var r := CountsByStart(SortedInstants(GroupStarts(rows)), rows);
            && AscendingEntries(r)
            && (forall e :: e in r <==> e.startDate in GroupStarts(rows) && e.availableCount == GroupSize(rows, e.startDate))
  {
    var starts := SortedInstants(GroupStarts(rows));
    var r := CountsByStart(starts, rows);
    forall e ensures e in r <==> e.startDate in GroupStarts(rows) && e.availableCount == GroupSize(rows, e.startDate) {
      if e in r {
        var i :| 0 <= i < |r| && r[i] == e;
        assert starts[i] in starts;
      }
      if e.startDate in GroupStarts(rows) && e.availableCount == GroupSize(rows, e.startDate) {
        var i :| 0 <= i < |starts| && starts[i] == e.startDate;
        assert r[i] == e;
      }
    }
  }

  /** The output is strictly ascending by start, has one row per start that
      has an available pair, and each row counts that start's pairs; so no
      row has count 0. */
  lemma AvailabilityRowsSpec(managers: map<int, SalesManager>, table: seq<Slot>, date: int,
                             language: string, rating: string, products: seq<string>)
    ensures var rows := AvailableManagers(managers, table, date, language, rating, products);
            var r := AvailabilityRows(managers, table, date, language, rating, products);
            && AscendingEntries(r)
            && (forall e :: e in r <==> e.startDate in GroupStarts(rows) && e.availableCount == GroupSize(rows, e.startDate))
            && (forall e :: e in r ==> e.availableCount >= 1)
  {
    var rows := AvailableManagers(managers, table, date, language, rating, products);
    GroupedRowsSpec(rows);
    forall e | e in AvailabilityRows(managers, table, date, language, rating, products)
      ensures e.availableCount >= 1
    {
      GroupSizePositive(rows, e.startDate);
    }
  }

  /** A row's start is the start of some slot on the requested date. */
  lemma RowStartsAreSlotStarts(managers: map<int, SalesManager>, table: seq<Slot>, date: int,
                               language: string, rating: string, products: seq<string>, e: AvailabilityEntry)
    requires e in AvailabilityRows(managers, table, date, language, rating, products)
    ensures exists s :: s in table && OnDate(s, date) && s.start == e.startDate
  {
    AvailabilityRowsSpec(managers, table, date, language, rating, products);
    var rows := AvailableManagers(managers, table, date, language, rating, products);
    var w :| w in rows && w.0 == e.startDate;
    assert (w.0, w.1) in TimeSlots(table, date);
  }

  /** When every row of the table is a slot of the date owned by a listed
      manager, `findAllSlots` returns every row. */
  lemma FetchWholeTable(table: seq<Slot>, date: int, managerIds: seq<int>)
    requires forall s :: s in table ==> OnDate(s, date) && s.salesManagerId in managerIds
    ensures forall s :: s in FindAllSlots(table, date, managerIds) <==> s in table
  {
  }
}
