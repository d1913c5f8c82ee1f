/** The shape shared by the list queries of the catalogue tables: take the
    rows of a table, keep those that pass the filters, order them by one
    column, then apply `offset(skip).limit(limit)`. Rows are read in
    ascending primary-key order and the sort is stable, so among rows with
    equal sort keys the model lists the smaller key first. That is one of
    the orders the database may return; the database itself promises none. */
module Listing {

  /** A table row together with its primary key. */
  type Row<V> = (nat, V)

  /** `m` is the least element of `ks`. */
  predicate IsLeast(m: nat, ks: set<nat>) {
    m in ks && forall y :: y in ks ==> m <= y
  }

  lemma {:induction false} MinExists(ks: set<nat>)
    requires ks != {}
    ensures exists m :: IsLeast(m, ks)
    decreases |ks|
  {
    var x :| x in ks;
    if ks == {x} {
      assert IsLeast(x, ks);
    } else {
      var rest := ks - {x};
      MinExists(rest);
      var m :| IsLeast(m, rest);
      var least := if x < m then x else m;
      forall y | y in ks
        ensures least <= y
      {
        if y != x {
          assert y in rest;
        }
      }
      assert IsLeast(least, ks);
    }
  }

  function MinOf(ks: set<nat>): (m: nat)
    requires ks != {}
    ensures IsLeast(m, ks)
  {
    MinExists(ks);
    var m :| IsLeast(m, ks);
    m
  }

  predicate StrictlyIncreasing(s: seq<nat>) {
    forall i, j :: 0 <= i < j < |s| ==> s[i] < s[j]
  }

  /** The primary keys of a table, in ascending order. */
  function SortedIds(ks: set<nat>): (s: seq<nat>)
    ensures |s| == |ks|
    decreases |ks|
  {
    if ks == {} then [] else [MinOf(ks)] + SortedIds(ks - {MinOf(ks)})
  }

  /** The sorted keys are the keys, each once, in ascending order. */
  lemma {:induction false} SortedIdsFacts(ks: set<nat>)
    ensures forall x :: x in SortedIds(ks) <==> x in ks
    ensures StrictlyIncreasing(SortedIds(ks))
    decreases |ks|
  {
    if ks != {} {
      var m := MinOf(ks);
      var rest := SortedIds(ks - {m});
      SortedIdsFacts(ks - {m});
      var s := [m] + rest;
      assert s == SortedIds(ks);
      forall i, j | 0 <= i < j < |s|
        ensures s[i] < s[j]
      {
        assert s[j] == rest[j - 1];
        assert rest[j - 1] in ks - {m};
        if i > 0 {
          assert s[i] == rest[i - 1];
        }
      }
    }
  }

  /** No two rows of `s` share a key. */
  predicate DistinctKeys<V>(s: seq<Row<V>>) {
    forall i, j :: 0 <= i < j < |s| ==> s[i].0 != s[j].0
  }

  lemma DistinctCons<V>(x: Row<V>, s: seq<Row<V>>)
    ensures DistinctKeys([x] + s) <==> (forall k :: 0 <= k < |s| ==> s[k].0 != x.0) && DistinctKeys(s)
  {
    var r := [x] + s;
    if DistinctKeys(r) {
      forall k | 0 <= k < |s|
        ensures s[k].0 != x.0
      {
        assert r[0] == x && r[k + 1] == s[k];
      }
      forall i, j | 0 <= i < j < |s|
        ensures s[i].0 != s[j].0
      {
        assert r[i + 1] == s[i] && r[j + 1] == s[j];
      }
    }
    if (forall k :: 0 <= k < |s| ==> s[k].0 != x.0) && DistinctKeys(s) {
      forall i, j | 0 <= i < j < |r|
        ensures r[i].0 != r[j].0
      {
        assert r[j] == s[j - 1];
        if i > 0 {
          assert r[i] == s[i - 1];
        }
      }
    }
  }

  /** The rows under the keys `ids`, in that order. */
  function RowsAt<V>(table: map<nat, V>, ids: seq<nat>): (rows: seq<Row<V>>)
    requires forall id :: id in ids ==> id in table
    ensures |rows| == |ids|
    ensures forall i :: 0 <= i < |rows| ==> rows[i] == (ids[i], table[ids[i]])
  {
    if ids == [] then [] else [(ids[0], table[ids[0]])] + RowsAt(table, ids[1..])
  }

  lemma {:induction false} RowsAtHolds<V>(table: map<nat, V>, ids: seq<nat>)
    requires forall id :: id in ids ==> id in table
    ensures forall r :: r in RowsAt(table, ids) <==> r.0 in ids && r.1 == table[r.0]
  {
    if ids != [] {
      RowsAtHolds(table, ids[1..]);
      assert ids == [ids[0]] + ids[1..];
    }
  }

  /** Every row of a table, by ascending key. */
  function RowsOf<V(!new)>(table: map<nat, V>): (rows: seq<Row<V>>)
    ensures forall r :: r in rows <==> r.0 in table && r.1 == table[r.0]
    ensures |rows| == |table|
    ensures DistinctKeys(rows)
  {
    var ids := SortedIds(table.Keys);
    SortedIdsFacts(table.Keys);
    RowsAtHolds(table, ids);
    RowsAt(table, ids)
  }

  function IndexOf(s: seq<nat>, x: nat): (i: nat)
    requires x in s
    ensures i < |s| && s[i] == x
  {
    if s[0] == x then 0 else 1 + IndexOf(s[1..], x)
  }

  /** The rows that pass `keep`, in their original order. */
  function Filter<V(!new)>(keep: V -> bool, rows: seq<Row<V>>): (r: seq<Row<V>>)
    ensures forall x :: x in r <==> x in rows && keep(x.1)
    ensures |r| <= |rows|
  {
    if rows == [] then []
    else if keep(rows[0].1) then [rows[0]] + Filter(keep, rows[1..])
    else Filter(keep, rows[1..])
  }

  /** Filtering keeps keys distinct. */
  lemma {:induction false} FilterDistinct<V(!new)>(keep: V -> bool, rows: seq<Row<V>>)
    requires DistinctKeys(rows)
    ensures DistinctKeys(Filter(keep, rows))
  {
    if rows != [] {
      assert rows == [rows[0]] + rows[1..];
      DistinctCons(rows[0], rows[1..]);
      FilterDistinct(keep, rows[1..]);
      if keep(rows[0].1) {
        var tail := Filter(keep, rows[1..]);
        forall k | 0 <= k < |tail|
          ensures tail[k].0 != rows[0].0
        {
          assert tail[k] in rows[1..];
          var m :| 0 <= m < |rows[1..]| && rows[1..][m] == tail[k];
        }
        DistinctCons(rows[0], tail);
      }
    }
  }

  predicate SortedByRank<V>(rank: V -> int, s: seq<Row<V>>) {
    forall i, j :: 0 <= i < j < |s| ==> rank(s[i].1) <= rank(s[j].1)
  }

  /** Places `x` before the first row that ranks at or above it. */
  function Insert<V>(rank: V -> int, x: Row<V>, s: seq<Row<V>>): (r: seq<Row<V>>)
    ensures |r| == |s| + 1 && (r[0] == x || (s != [] && r[0] == s[0]))
  {
    if s == [] then [x]
    else if rank(x.1) <= rank(s[0].1) then [x] + s
    else [s[0]] + Insert(rank, x, s[1..])
  }

  /** Inserting into an ordered listing keeps it ordered. */
  lemma {:induction false} InsertSorted<V>(rank: V -> int, x: Row<V>, s: seq<Row<V>>)
    requires SortedByRank(rank, s)
    ensures SortedByRank(rank, Insert(rank, x, s))
  {
    if s != [] && rank(x.1) > rank(s[0].1) {
      var tail := Insert(rank, x, s[1..]);
      InsertSorted(rank, x, s[1..]);
      assert rank(s[0].1) <= rank(tail[0].1) by {
        if tail[0] != x {
          assert tail[0] == s[1];
        }
      }
      var r := [s[0]] + tail;
      assert r == Insert(rank, x, s);
      forall i, j | 0 <= i < j < |r|
        ensures rank(r[i].1) <= rank(r[j].1)
      {
        assert r[j] == tail[j - 1];
        if i > 0 {
          assert r[i] == tail[i - 1];
        } else if j > 1 {
          assert rank(tail[0].1) <= rank(tail[j - 1].1);
        }
      }
    }
  }

  /** Inserting adds exactly one row. */
  lemma {:induction false} InsertPermutes<V>(rank: V -> int, x: Row<V>, s: seq<Row<V>>)
    ensures multiset(Insert(rank, x, s)) == multiset(s) + multiset{x}
  {
    if s != [] && rank(x.1) > rank(s[0].1) {
      var tail := Insert(rank, x, s[1..]);
      InsertPermutes(rank, x, s[1..]);
      assert Insert(rank, x, s) == [s[0]] + tail;
      assert s == [s[0]] + s[1..];
      assert multiset([s[0]] + tail) == multiset([s[0]]) + multiset(tail);
    }
  }

  /** Inserting a row under a new key keeps keys distinct. */
  lemma {:induction false} InsertDistinct<V>(rank: V -> int, x: Row<V>, s: seq<Row<V>>)
    requires DistinctKeys(s)
    requires forall k :: 0 <= k < |s| ==> s[k].0 != x.0
    ensures DistinctKeys(Insert(rank, x, s))
  {
    if s == [] {
    } else if rank(x.1) <= rank(s[0].1) {
      DistinctCons(x, s);
    } else {
      assert s == [s[0]] + s[1..];
      DistinctCons(s[0], s[1..]);
      var tail := Insert(rank, x, s[1..]);
      InsertDistinct(rank, x, s[1..]);
      InsertPermutes(rank, x, s[1..]);
      forall k | 0 <= k < |tail|
        ensures tail[k].0 != s[0].0
      {
        assert tail[k] in multiset(tail);
        if tail[k] != x {
          assert tail[k] in multiset(s[1..]);
          var m :| 0 <= m < |s[1..]| && s[1..][m] == tail[k];
          assert s[m + 1] == tail[k];
        }
      }
      DistinctCons(s[0], tail);
    }
  }

  /** `order_by(rank)`: the rows, by ascending rank (an insertion sort). */
  function SortByRank<V>(rank: V -> int, rows: seq<Row<V>>): (r: seq<Row<V>>)
    ensures |r| == |rows|
  {
    if rows == [] then [] else Insert(rank, rows[0], SortByRank(rank, rows[1..]))
  }

  /** Sorting orders the rows and neither adds nor drops one. */
  lemma {:induction false} SortFacts<V>(rank: V -> int, rows: seq<Row<V>>)
    ensures SortedByRank(rank, SortByRank(rank, rows))
    ensures multiset(SortByRank(rank, rows)) == multiset(rows)
  {
    if rows != [] {
      SortFacts(rank, rows[1..]);
      InsertSorted(rank, rows[0], SortByRank(rank, rows[1..]));
      InsertPermutes(rank, rows[0], SortByRank(rank, rows[1..]));
      assert rows == [rows[0]] + rows[1..];
    }
  }

  /** Sorting keeps the same rows. */
  lemma SortKeepsRows<V>(rank: V -> int, rows: seq<Row<V>>)
    ensures SortedByRank(rank, SortByRank(rank, rows))
    ensures forall x :: x in SortByRank(rank, rows) <==> x in rows
  {
    var sorted := SortByRank(rank, rows);
    SortFacts(rank, rows);
    forall x
      ensures x in sorted <==> x in rows
    {
      assert x in sorted <==> x in multiset(sorted);
      assert x in rows <==> x in multiset(rows);
    }
  }

  /** Sorting keeps keys distinct. */
  lemma {:induction false} SortDistinct<V>(rank: V -> int, rows: seq<Row<V>>)
    requires DistinctKeys(rows)
    ensures DistinctKeys(SortByRank(rank, rows))
  {
    if rows != [] {
      var rest := rows[1..];
      assert rows == [rows[0]] + rest;
      DistinctCons(rows[0], rest);
      SortDistinct(rank, rest);
      var sorted := SortByRank(rank, rest);
      SortFacts(rank, rest);
      forall k | 0 <= k < |sorted|
        ensures sorted[k].0 != rows[0].0
      {
        assert sorted[k] in multiset(sorted);
        assert sorted[k] in multiset(rest);
        var m :| 0 <= m < |rest| && rest[m] == sorted[k];
      }
      InsertDistinct(rank, rows[0], sorted);
    }
  }

  /** `p` is what `offset(skip).limit(limit)` returns from `s`: the rows of
      `s` from position `skip` on, at most `limit` of them. */
  ghost predicate IsPage<T>(p: seq<T>, s: seq<T>, skip: nat, limit: nat) {
    && |p| == (if skip >= |s| then 0 else if limit < |s| - skip then limit else |s| - skip)
    && forall i :: 0 <= i < |p| ==> p[i] == s[skip + i]
  }

  /** `offset(skip).limit(limit)`. */
  function Page<T>(s: seq<T>, skip: nat, limit: nat): (p: seq<T>)
    ensures IsPage(p, s, skip, limit)
  {
    if skip >= |s| then []
    else if limit < |s| - skip then s[skip..skip + limit]
    else s[skip..]
  }

  /** The rows of a table that pass the filter, ordered, before paging. */
  function Ordered<V(!new)>(table: map<nat, V>, keep: V -> bool, rank: V -> int): seq<Row<V>> {
    SortByRank(rank, Filter(keep, RowsOf(table)))
  }

  /** A filtered, ordered, paginated listing of a table. */
  function Query<V(!new)>(table: map<nat, V>, keep: V -> bool, rank: V -> int, skip: nat, limit: nat): seq<Row<V>> {
    Page(Ordered(table, keep, rank), skip, limit)
  }

  /** The ordered rows are exactly the rows of the table that pass the
      filter, under their own keys, by ascending rank, at most one per key. */
  lemma OrderedFacts<V(!new)>(table: map<nat, V>, keep: V -> bool, rank: V -> int)
    ensures forall r :: r in Ordered(table, keep, rank) <==> r.0 in table && r.1 == table[r.0] && keep(r.1)
    ensures SortedByRank(rank, Ordered(table, keep, rank))
    ensures DistinctKeys(Ordered(table, keep, rank))
    ensures |Ordered(table, keep, rank)| <= |table|
  {
    SortKeepsRows(rank, Filter(keep, RowsOf(table)));
    FilterDistinct(keep, RowsOf(table));
    SortDistinct(rank, Filter(keep, RowsOf(table)));
  }

  /** A page of an ordered listing is ordered and holds rows of it only. */
  lemma PageOfSorted<V>(rank: V -> int, s: seq<Row<V>>, skip: nat, limit: nat)
    requires SortedByRank(rank, s)
    ensures SortedByRank(rank, Page(s, skip, limit))
    ensures forall x :: x in Page(s, skip, limit) ==> x in s
    ensures skip == 0 && limit >= |s| ==> Page(s, skip, limit) == s
  {
    var p := Page(s, skip, limit);
    forall i, j | 0 <= i < j < |p|
      ensures rank(p[i].1) <= rank(p[j].1)
    {
      assert p[i] == s[skip + i] && p[j] == s[skip + j];
    }
    forall x | x in p
      ensures x in s
    {
      var i :| 0 <= i < |p| && p[i] == x;
      assert s[skip + i] == x;
    }
  }

  /** What a listing promises: every row it returns is a row of the table
      that passes the filter, under its own key; rows come by ascending
      rank; and with no offset and a large enough limit it returns every
      such row. */
  lemma QueryFacts<V(!new)>(table: map<nat, V>, keep: V -> bool, rank: V -> int, skip: nat, limit: nat)
    ensures forall r :: r in Query(table, keep, rank, skip, limit) ==> r.0 in table && r.1 == table[r.0] && keep(r.1)
    ensures SortedByRank(rank, Query(table, keep, rank, skip, limit))
    ensures skip == 0 && limit >= |table| ==> Query(table, keep, rank, skip, limit) == Ordered(table, keep, rank)
  {
    OrderedFacts(table, keep, rank);
    PageOfSorted(rank, Ordered(table, keep, rank), skip, limit);
  }
}
