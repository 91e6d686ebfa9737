/**
 * The shapes the availability engine works on: sales managers, calendar
 * slots, the request and one line of the answer.
 *
 * Instants are whole milliseconds since the Unix epoch (UTC); a calendar day
 * is the number of whole days since the epoch.
 */
module Entities {

  /** One hour in milliseconds: the fixed length of every slot. */
  const HourMs: int := 60 * 60 * 1000

  /** One day in milliseconds. */
  const DayMs: int := 24 * HourMs

  /** The UTC calendar day an instant falls on (what `start_date::date` yields
      in a UTC session). Dafny's `/` floors for a positive divisor, so instants
      before the epoch land on the right day as well. */
  function DayOf(t: int): (d: int)
    ensures d * DayMs <= t < (d + 1) * DayMs
  {
    t / DayMs
  }

  /** A row of `sales_managers`. */
  datatype SalesManager = SalesManager(
    id: int,
    name: string,
    languages: seq<string>,
    products: seq<string>,
    customerRatings: seq<string>)

  /** A row of `slots`: one manager's calendar entry, booked or free. */
  datatype Slot = Slot(
    id: int,
    start: int,
    end: int,
    booked: bool,
    salesManagerId: int)

  /** What a caller asks for: a day, the products that must all be covered,
      one language and one customer-rating tier. */
  datatype AvailabilityRequest = AvailabilityRequest(
    date: int,
    products: seq<string>,
    language: string,
    rating: string)

  /** One line of the answer: a slot start and how many managers are free
      then. Both strategies answer with a sequence of these. */
  datatype AvailabilityEntry = AvailabilityEntry(startDate: int, availableCount: nat)

  /** Every wanted item occurs in `have`: the `every`/`includes` test of the
      in-memory path and the array containment `@>` of the query. */
  predicate IncludesAll(have: seq<string>, wanted: seq<string>)
  {
    forall p :: p in wanted ==> p in have
  }
}
