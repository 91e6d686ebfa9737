/**
 * Ordering of instants: the ascending sort both strategies apply to the
 * distinct slot starts, and the fact that an answer is pinned down by its
 * elements once it is strictly ascending.
 */
module Chronology {
  import opened Entities

  predicate StrictlyAscending(xs: seq<int>)
  {
    forall i, j :: 0 <= i < j < |xs| ==> xs[i] < xs[j]
  }

  /** Entries whose start instants strictly ascend (hence are distinct). */
  predicate AscendingEntries(es: seq<AvailabilityEntry>)
  {
    forall i, j :: 0 <= i < j < |es| ==> es[i].startDate < es[j].startDate
  }

  /** Every finite set of instants that holds `y` has a least element. */
  lemma {:induction false} LeastExists(s: set<int>, y: int)
    requires y in s
    ensures exists m :: m in s && forall x :: x in s ==> m <= x
    decreases s
  {
    var below := set x | x in s && x < y;
    if z :| z in below {
      LeastExists(below, z);
      var m :| m in below && forall x :: x in below ==> m <= x;
      forall x | x in s ensures m <= x {
        if x < y { assert x in below; }
      }
    } else {
      assert forall x :: x in s && x < y ==> x in below;
    }
  }

  /** The least instant of a non-empty set. */
  function Least(s: set<int>): (m: int)
    requires s != {}
    ensures m in s && forall x :: x in s ==> m <= x
  {
    assert exists m :: m in s && forall x :: x in s ==> m <= x by {
      if forall x :: x !in s { assert false; }
      var y :| y in s;
      LeastExists(s, y);
    }
    var m :| m in s && forall x :: x in s ==> m <= x;
    m
  }

  /** The instants of `s` in ascending order, each once: the sorted keys of
      the in-memory grouping and the `ORDER BY start_date ASC` of the query. */
  function SortedInstants(s: set<int>): (r: seq<int>)
    ensures StrictlyAscending(r)
    ensures forall t :: t in r <==> t in s
    decreases s
  {
    if s == {} then []
    else
      var m := Least(s);
      var rest := SortedInstants(s - {m});
      assert forall i :: 0 <= i < |rest| ==> m < rest[i] by {
        forall i | 0 <= i < |rest| ensures m < rest[i] {
          assert rest[i] in s - {m};
        }
      }
      [m] + rest
  }

  /** A non-empty sequence holds its first element. */
  lemma FirstIsMember<T>(xs: seq<T>)
    requires xs != []
    ensures xs[0] in xs
  {
  }

  /** Two strictly ascending answers with the same elements are the same
      answer: this is what lets two strategies be compared element-wise. */
  lemma {:induction false} AscendingEntriesUnique(a: seq<AvailabilityEntry>, b: seq<AvailabilityEntry>)
    requires AscendingEntries(a) && AscendingEntries(b)
    requires forall e :: e in a <==> e in b
    ensures a == b
    decreases |a|
  {
    if a == [] {
      if b != [] {
        FirstIsMember(b);
        assert false;
      }
    } else {
      assert b != [] by { assert a[0] in b; }
      assert a[0] == b[0] by {
        assert a[0] in b && b[0] in a;
      }
      forall e ensures e in a[1..] <==> e in b[1..] {
        if e in a[1..] {
          var i :| 1 <= i < |a| && a[i] == e;
          assert e.startDate > a[0].startDate;
          assert e in b;
        }
        if e in b[1..] {
          var j :| 1 <= j < |b| && b[j] == e;
          assert e.startDate > b[0].startDate;
          assert e in a;
        }
      }
      AscendingEntriesUnique(a[1..], b[1..]);
      assert a == [a[0]] + a[1..];
      assert b == [b[0]] + b[1..];
    }
  }
}
