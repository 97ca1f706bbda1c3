/**
 * The queries of db_manager.py without SQL: a scan of the table in id order,
 * the `WHERE completed = ?` filter, and the two `ORDER BY ... DESC` orders.
 * SQL leaves the order of ties open, so the sort is specified only by the
 * order it guarantees and by being a permutation of its input.
 */
module TaskOrder {
  import opened Wrappers
  import opened TaskTable

  /** The ids in `[lo, hi)` that are keys of `m`, ascending: a scan in id (insertion) order. */
  function PresentIds<T>(m: map<int, T>, lo: int, hi: int): (ids: seq<int>)
    ensures forall i :: 0 <= i < |ids| ==> ids[i] in m && lo <= ids[i] < hi
    ensures forall i, j :: 0 <= i < j < |ids| ==> ids[i] < ids[j]
    ensures forall id :: id in m && lo <= id < hi ==> id in ids
    decreases hi - lo
  {
    if hi <= lo then []
    else (if lo in m then [lo] else []) + PresentIds(m, lo + 1, hi)
  }

  /** The values stored under `ids`, in that order. */
  function ValuesAt<T>(m: map<int, T>, ids: seq<int>): (vs: seq<T>)
    requires forall i :: 0 <= i < |ids| ==> ids[i] in m
    ensures |vs| == |ids|
    ensures forall i :: 0 <= i < |vs| ==> vs[i] == m[ids[i]]
  {
    seq(|ids|, i requires 0 <= i < |ids| => m[ids[i]])
  }

  /** No two rows of `s` share an id. */
  ghost predicate DistinctIds(s: seq<Row>)
  {
    forall i, j :: 0 <= i < j < |s| ==> s[i].id != s[j].id
  }

  /** The rows of a table whose ids lie in `[1, hi)`, in id order. */
  function RowsInIdOrder(m: map<int, Row>, hi: int): (s: seq<Row>)
    requires forall id :: id in m ==> 1 <= id < hi && m[id].id == id
    ensures DistinctIds(s)
    ensures forall r :: r in s <==> r.id in m && m[r.id] == r
  {
    var ids := PresentIds(m, 1, hi);
    RowsAtIds(m, ids, hi);
    ValuesAt(m, ids)
  }

  /** The rows under a complete ascending list of a table's ids are its rows, each once. */
  lemma RowsAtIds(m: map<int, Row>, ids: seq<int>, hi: int)
    requires forall id :: id in m ==> 1 <= id < hi && m[id].id == id
    requires forall i :: 0 <= i < |ids| ==> ids[i] in m
    requires forall i, j :: 0 <= i < j < |ids| ==> ids[i] < ids[j]
    requires forall id :: id in m && 1 <= id < hi ==> id in ids
    ensures DistinctIds(ValuesAt(m, ids))
    ensures forall r :: r in ValuesAt(m, ids) <==> r.id in m && m[r.id] == r
  {
    var s := ValuesAt(m, ids);
    forall r: Row | r in s ensures r.id in m && m[r.id] == r {
      var k :| 0 <= k < |s| && s[k] == r;
    }
    forall r: Row | r.id in m && m[r.id] == r ensures r in s {
      var k :| 0 <= k < |ids| && ids[k] == r.id;
      assert s[k] == r;
    }
    forall i, j | 0 <= i < j < |s| ensures s[i].id != s[j].id {
      assert s[i].id == ids[i] && s[j].id == ids[j];
    }
  }

  /** `WHERE completed = ?` when a filter is given; every row otherwise. */
  predicate Matches(r: Row, completed: Option<bool>)
  {
    completed.None? || r.completed == completed.value
  }

  /** Prepending a row whose id is new keeps the ids distinct. */
  lemma DistinctCons(x: Row, s: seq<Row>)
    requires DistinctIds(s)
    requires forall y :: y in s ==> y.id != x.id
    ensures DistinctIds([x] + s)
  {
    var xs := [x] + s;
    forall i, j | 0 <= i < j < |xs| ensures xs[i].id != xs[j].id {
      assert xs[j] == s[j - 1];
      if i == 0 {
        assert s[j - 1] in s;
      } else {
        assert xs[i] == s[i - 1];
      }
    }
  }

  /** The tail of a sequence with distinct ids has distinct ids, none equal to the head's. */
  lemma DistinctTail(s: seq<Row>)
    requires s != [] && DistinctIds(s)
    ensures DistinctIds(s[1..])
    ensures forall y :: y in s[1..] ==> y.id != s[0].id
  {
    forall y | y in s[1..] ensures y.id != s[0].id {
      var k :| 0 <= k < |s[1..]| && s[1..][k] == y;
      assert s[k + 1] == y;
    }
  }

  /** The rows of `s` that match, in their order. */
  function Filter(s: seq<Row>, completed: Option<bool>): (f: seq<Row>)
    ensures forall r :: r in f <==> r in s && Matches(r, completed)
    ensures multiset(f) <= multiset(s)
    ensures DistinctIds(s) ==> DistinctIds(f)
  {
    if s == [] then []
    else
      var rest := Filter(s[1..], completed);
      assert s == [s[0]] + s[1..];
      if Matches(s[0], completed) then
        assert DistinctIds(s) ==> DistinctIds([s[0]] + rest) by {
          if DistinctIds(s) {
            DistinctTail(s);
            DistinctCons(s[0], rest);
          }
        }
        [s[0]] + rest
      else
        assert DistinctIds(s) ==> DistinctIds(s[1..]) by {
          if DistinctIds(s) { DistinctTail(s); }
        }
        rest
  }

  /** The two orders the queries use. */
  datatype Order =
    | CreatedAtDesc            // ORDER BY created_at DESC
    | CompletedAtDescNullsLast // ORDER BY completed_at DESC NULLS LAST

  /** Whether `a` may stand before `b` in `o`. */
  predicate Precedes(a: Row, b: Row, o: Order)
  {
    match o
    case CreatedAtDesc => a.createdAt >= b.createdAt
    case CompletedAtDescNullsLast =>
      b.completedAt.None? || (a.completedAt.Some? && a.completedAt.value >= b.completedAt.value)
  }

  /** Both orders are total preorders: any two rows compare, and comparisons chain. */
  lemma PrecedesTotalPreorder(a: Row, b: Row, c: Row, o: Order)
    ensures Precedes(a, b, o) || Precedes(b, a, o)
    ensures Precedes(a, b, o) && Precedes(b, c, o) ==> Precedes(a, c, o)
  {
  }

  /** Every pair of rows in `s` is in order `o`. */
  ghost predicate SortedBy(s: seq<Row>, o: Order)
  {
    forall i, j :: 0 <= i < j < |s| ==> Precedes(s[i], s[j], o)
  }

  /** Prepending a row that may precede every row of a sorted sequence keeps it sorted. */
  lemma SortedCons(x: Row, s: seq<Row>, o: Order)
    requires SortedBy(s, o)
    requires forall y :: y in s ==> Precedes(x, y, o)
    ensures SortedBy([x] + s, o)
  {
    var xs := [x] + s;
    forall i, j | 0 <= i < j < |xs| ensures Precedes(xs[i], xs[j], o) {
      assert xs[j] == s[j - 1];
      if i == 0 {
        assert s[j - 1] in s;
      } else {
        assert xs[i] == s[i - 1];
      }
    }
  }

  /** The tail of a sorted sequence is sorted, and its head may precede all of it. */
  lemma SortedTail(s: seq<Row>, o: Order)
    requires s != [] && SortedBy(s, o)
    ensures SortedBy(s[1..], o)
    ensures forall y :: y in s[1..] ==> Precedes(s[0], y, o)
  {
    forall y | y in s[1..] ensures Precedes(s[0], y, o) {
      var k :| 0 <= k < |s[1..]| && s[1..][k] == y;
      assert s[k + 1] == y;
    }
  }

  /** Inserts `x` before the first row it may precede. */
  function Insert(x: Row, s: seq<Row>, o: Order): (r: seq<Row>)
    ensures multiset(r) == multiset(s) + multiset{x}
    ensures forall y :: y in r <==> y == x || y in s
    ensures SortedBy(s, o) ==> SortedBy(r, o)
    ensures DistinctIds(s) && (forall y :: y in s ==> y.id != x.id) ==> DistinctIds(r)
  {
    if s == [] then [x]
    else if Precedes(x, s[0], o) then
      InsertAtFront(x, s, o);
      [x] + s
    else
      var rest := Insert(x, s[1..], o);
      InsertAfterHead(x, s, rest, o);
      [s[0]] + rest
  }

  /** Placing `x` before a head it may precede keeps order and distinct ids. */
  lemma InsertAtFront(x: Row, s: seq<Row>, o: Order)
    requires s != [] && Precedes(x, s[0], o)
    ensures SortedBy(s, o) ==> SortedBy([x] + s, o)
    ensures DistinctIds(s) && (forall y :: y in s ==> y.id != x.id) ==> DistinctIds([x] + s)
  {
    if SortedBy(s, o) {
      SortedTail(s, o);
      forall y | y in s ensures Precedes(x, y, o) {
        if y != s[0] {
          assert y in s[1..] by { assert s == [s[0]] + s[1..]; }
          PrecedesTotalPreorder(x, s[0], y, o);
        }
      }
      SortedCons(x, s, o);
    }
    if DistinctIds(s) && (forall y :: y in s ==> y.id != x.id) {
      DistinctCons(x, s);
    }
  }

  /** Keeping the head in front of the tail with `x` inserted keeps order and distinct ids. */
  lemma InsertAfterHead(x: Row, s: seq<Row>, rest: seq<Row>, o: Order)
    requires s != [] && !Precedes(x, s[0], o)
    requires multiset(rest) == multiset(s[1..]) + multiset{x}
    requires forall y :: y in rest <==> y == x || y in s[1..]
    requires SortedBy(s[1..], o) ==> SortedBy(rest, o)
    requires DistinctIds(s[1..]) && (forall y :: y in s[1..] ==> y.id != x.id) ==> DistinctIds(rest)
    ensures multiset([s[0]] + rest) == multiset(s) + multiset{x}
    ensures forall y :: y in [s[0]] + rest <==> y == x || y in s
    ensures SortedBy(s, o) ==> SortedBy([s[0]] + rest, o)
    ensures DistinctIds(s) && (forall y :: y in s ==> y.id != x.id) ==> DistinctIds([s[0]] + rest)
  {
    assert s == [s[0]] + s[1..];
    if SortedBy(s, o) {
      SortedTail(s, o);
      PrecedesTotalPreorder(x, s[0], x, o);
      SortedCons(s[0], rest, o);
    }
    if DistinctIds(s) && (forall y :: y in s ==> y.id != x.id) {
      DistinctTail(s);
      DistinctCons(s[0], rest);
    }
  }

  /** Sorts `s` into order `o`, by insertion. */
  function Sort(s: seq<Row>, o: Order): (r: seq<Row>)
    ensures multiset(r) == multiset(s)
    ensures SortedBy(r, o)
    ensures DistinctIds(s) ==> DistinctIds(r)
  {
    if s == [] then []
    else
      var rest := Sort(s[1..], o);
      SortStep(s, rest);
      Insert(s[0], rest, o)
  }

  /** The head of a sequence and a permutation of its tail: the pieces `Sort` inserts from. */
  lemma SortStep(s: seq<Row>, rest: seq<Row>)
    requires s != []
    requires multiset(rest) == multiset(s[1..])
    requires DistinctIds(s[1..]) ==> DistinctIds(rest)
    ensures multiset(s) == multiset(rest) + multiset{s[0]}
    ensures DistinctIds(s) ==> DistinctIds(rest) && forall y :: y in rest ==> y.id != s[0].id
  {
    assert s == [s[0]] + s[1..];
    if DistinctIds(s) {
      DistinctTail(s);
      forall y | y in rest ensures y.id != s[0].id {
        assert y in multiset(rest);
      }
    }
  }
}
