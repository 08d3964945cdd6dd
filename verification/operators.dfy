/** The table operators of `ops.rs`: each is a total function from a table
    to a new table, apart from the two preconditions the source panics on. */
module Operators {
  import opened Seqs
  import opened Strings
  import opened Tables
  import opened Sorting
  import opened Grouping

  /** The row's country is one of `names`. */
  function CountryIn(names: seq<string>): Row -> bool {
    (r: Row) => r.name.country in names
  }

  /** `filter`: the rows whose country is one of `names`, in their original
      order, each as often as in the input. */
  function Filter(t: Table, names: seq<string>): (r: Table)
    ensures r.header == t.header
    ensures IsSubseq(r.rows, t.rows)
    ensures forall x :: x in r.rows ==> x.name.country in names
    ensures forall x :: x in t.rows && x.name.country in names ==> x in r.rows
    ensures forall x :: multiset(r.rows)[x] == if x.name.country in names then multiset(t.rows)[x] else 0
    ensures |names| == 0 ==> r.rows == []
  {
    KeepSpec(t.rows, CountryIn(names));
    Table(t.header, Keep(t.rows, CountryIn(names)))
  }

  lemma OffsetMonotone(i: nat, j: nat, step: nat)
    ensures i <= j ==> Offset(i, step) <= Offset(j, step)
    decreases j
  {
    if i < j {
      OffsetMonotone(i, j - 1, step);
    }
  }

  /** A window of a shorter sequence is never longer than the same window of
      a longer one. */
  lemma WindowMonotone<A, B>(a: seq<A>, b: seq<B>, start: nat, size: nat, step: nat)
    requires step > 0 && |a| <= |b|
    ensures |Window(a, start, size, step)| <= |Window(b, start, size, step)|
  {
    var wa, wb := Window(a, start, size, step), Window(b, start, size, step);
    if |wa| > 0 && |wb| < size {
      assert start + Offset(|wa| - 1, step) < |a|;
      OffsetMonotone(|wb|, |wa| - 1, step);
    }
  }

  /** `select`: the same window `(start, size, step)` over the header and over
      every row. Names and the number of rows are kept, and column `i` of
      every row still sits under column `i` of the header: both come from
      original column `start + i * step`. */
  function Select(t: Table, start: nat, size: nat, step: nat): (r: Table)
    requires step > 0
    ensures |r.rows| == |t.rows|
    ensures forall k :: 0 <= k < |r.rows| ==> r.rows[k].name == t.rows[k].name
    ensures |r.header| <= size
    ensures |r.header| < size ==> start + Offset(|r.header|, step) >= |t.header|
    ensures forall i :: 0 <= i < |r.header| ==>
      start + Offset(i, step) < |t.header| && r.header[i] == t.header[start + Offset(i, step)]
    ensures forall k, i :: 0 <= k < |r.rows| && 0 <= i < |r.rows[k].data| ==>
      start + Offset(i, step) < |t.rows[k].data| && r.rows[k].data[i] == t.rows[k].data[start + Offset(i, step)]
    ensures forall k :: 0 <= k < |r.rows| && |t.rows[k].data| <= |t.header| ==> |r.rows[k].data| <= |r.header|
    ensures forall k :: 0 <= k < |r.rows| && |t.rows[k].data| == |t.header| ==> |r.rows[k].data| == |r.header|
  {
    var header := Window(t.header, start, size, step);
    var rows := seq(|t.rows|, k requires 0 <= k < |t.rows| =>
                      Row(t.rows[k].name, Window(t.rows[k].data, start, size, step)));
    assert forall k :: 0 <= k < |rows| && |t.rows[k].data| <= |t.header| ==> |rows[k].data| <= |header| by {
      forall k | 0 <= k < |rows| && |t.rows[k].data| <= |t.header|
        ensures |rows[k].data| <= |header|
      {
        WindowMonotone(t.rows[k].data, t.header, start, size, step);
      }
    }
    assert forall k :: 0 <= k < |rows| && |t.rows[k].data| == |t.header| ==> |rows[k].data| == |header| by {
      forall k | 0 <= k < |rows| && |t.rows[k].data| == |t.header|
        ensures |rows[k].data| == |header|
      {
        WindowMonotone(t.rows[k].data, t.header, start, size, step);
        WindowMonotone(t.header, t.rows[k].data, start, size, step);
      }
    }
    Table(header, rows)
  }

  /** The window's length in closed form: `min(size, ceil((n - start) / step))`
      columns of an `n`-column header or row, none when `start >= n`. */
  lemma SelectLength(t: Table, start: nat, size: nat, step: nat)
    requires step > 0
    ensures var r := Select(t, start, size, step);
      && |r.header| == WindowSize(|t.header|, start, size, step)
      && forall k :: 0 <= k < |r.rows| ==> |r.rows[k].data| == WindowSize(|t.rows[k].data|, start, size, step)
  {
    var r := Select(t, start, size, step);
    assert r.header == Window(t.header, start, size, step);
    WindowLength(t.header, start, size, step);
    forall k | 0 <= k < |r.rows|
      ensures |r.rows[k].data| == WindowSize(|t.rows[k].data|, start, size, step)
    {
      assert r.rows[k].data == Window(t.rows[k].data, start, size, step);
      WindowLength(t.rows[k].data, start, size, step);
    }
  }

  /** `group_by`: one row per distinct country, in strictly ascending country
      order, each named `Name::new("", country)`. A country's series is as
      long as its first row, and entry `i` sums column `i` over that
      country's rows that have one (`zip` stops at the shorter series). */
  function GroupBy(t: Table): (r: Table)
    ensures r.header == t.header
    ensures |r.rows| <= |t.rows|
    ensures forall i, j :: 0 <= i < j < |r.rows| ==> Less(r.rows[i].name.country, r.rows[j].name.country)
    ensures forall x :: x in r.rows ==> x.name.province == ""
    ensures (set x | x in r.rows :: x.name.country) == Countries(t.rows)
    ensures forall x, j :: x in r.rows && IsFirst(t.rows, x.name.country, j) ==> |x.data| == |t.rows[j].data|
    ensures forall x, i :: x in r.rows && 0 <= i < |x.data| ==> x.data[i] == Total(t.rows, x.name.country, i)
  {
    var m := Accumulate(t.rows);
    AccumulateKeys(t.rows);
    AccumulateSummed(t.rows);
    var rows := seq(|m|, k requires 0 <= k < |m| => Row(Tables.Name("", m[k].country), m[k].data));
    assert forall x :: x in rows ==> Entry(x.name.country, x.data) in m;
    assert (set x | x in rows :: x.name.country) == Keys(m) by {
      forall c | c in Keys(m)
        ensures c in (set x | x in rows :: x.name.country)
      {
        var e :| e in m && e.country == c;
        var k :| 0 <= k < |m| && m[k] == e;
        assert rows[k] in rows;
      }
    }
    Table(t.header, rows)
  }

  /** What `sort_by` demands: with `SortBy::Max`, `row.data[0]` must exist
      for every row. The key is only read when there are two or more rows
      to compare. */
  predicate Sortable(mode: SortBy, rows: seq<Row>) {
    mode == SortBy.Max && |rows| >= 2 ==> forall i :: 0 <= i < |rows| ==> |rows[i].data| > 0
  }

  /** `sort_by`: a stable sort of the rows by name or by first value. */
  function Sort(t: Table, mode: SortBy): (r: Table)
    requires Sortable(mode, t.rows)
    ensures r.header == t.header
    ensures |r.rows| == |t.rows|
    ensures multiset(r.rows) == multiset(t.rows)
    ensures mode == SortBy.Name ==> forall i, j :: 0 <= i < j < |r.rows| ==> NameLe(r.rows[i].name, r.rows[j].name)
    ensures mode == SortBy.Max ==> forall i, j :: 0 <= i < j < |r.rows| ==>
      |r.rows[i].data| > 0 && |r.rows[j].data| > 0 && r.rows[i].data[0] <= r.rows[j].data[0]
    ensures forall k :: Keep(r.rows, KeyIs(mode, k)) == Keep(t.rows, KeyIs(mode, k))
  {
    var rows := SortRows(mode, t.rows);
    SortPermutes(mode, t.rows);
    SortSorted(mode, t.rows);
    SortStable(mode, t.rows);
    assert forall x :: x in rows ==> x in t.rows by {
      forall x | x in rows
        ensures x in t.rows
      {
        assert x in multiset(rows);
      }
    }
    assert |rows| == |t.rows| by {
      assert |multiset(rows)| == |multiset(t.rows)|;
    }
    assert mode == SortBy.Max && |rows| >= 2 ==> forall i :: 0 <= i < |rows| ==> |rows[i].data| > 0 by {
      if mode == SortBy.Max && |rows| >= 2 {
        forall i | 0 <= i < |rows|
          ensures |rows[i].data| > 0
        {
          assert rows[i] in t.rows;
        }
      }
    }
    Table(t.header, rows)
  }

  /** `limit`: `rev().take(n).rev()` keeps the last `min(n, |rows|)` rows in
      their original order. */
  function Limit(t: Table, n: nat): (r: Table)
    ensures r.header == t.header
    ensures |r.rows| == Min(n, |t.rows|)
    ensures r.rows == t.rows[|t.rows| - |r.rows|..]
    ensures n >= |t.rows| ==> r == t
  {
    var rows := Reverse(Take(Reverse(t.rows), n));
    assert rows == t.rows[|t.rows| - |rows|..];
    Table(t.header, rows)
  }

  /** The row has a first value, and it exceeds `min`. */
  function Above(min: nat): Row -> bool {
    (r: Row) => |r.data| > 0 && min < r.data[0]
  }

  /** `greater_than`: the rows whose first value exceeds `min`, in their
      original order; a row with no values never passes. */
  function GreaterThan(t: Table, min: nat): (r: Table)
    ensures r.header == t.header
    ensures IsSubseq(r.rows, t.rows)
    ensures forall x :: x in r.rows ==> |x.data| > 0 && min < x.data[0]
    ensures forall x :: x in t.rows && |x.data| > 0 && min < x.data[0] ==> x in r.rows
    ensures forall x :: multiset(r.rows)[x] == if |x.data| > 0 && min < x.data[0] then multiset(t.rows)[x] else 0
  {
    KeepSpec(t.rows, Above(min));
    Table(t.header, Keep(t.rows, Above(min)))
  }
}
