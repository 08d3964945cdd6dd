/** `group_by`: rows are folded into an ordered map from country to summed
    series (a `BTreeMap` in the source), here an association list kept in
    ascending country order. */
module Grouping {
  import opened Strings
  import opened Tables

  /** One map entry: a country and its running element-wise sum. */
  datatype Entry = Entry(country: string, data: seq<nat>)

  /** `data.iter_mut().zip(other).for_each(|(a, b)| *a += *b)`: adds `other`
      into `acc` over their common prefix; `acc` keeps its length. */
  function AddInto(acc: seq<nat>, other: seq<nat>): (r: seq<nat>)
    ensures |r| == |acc|
    ensures forall i :: 0 <= i < |r| ==> r[i] == acc[i] + (if i < |other| then other[i] else 0)
  {
    if |acc| == 0 || |other| == 0 then acc
    else [acc[0] + other[0]] + AddInto(acc[1..], other[1..])
  }

  /** Keys strictly ascend, so each country has at most one entry. */
  predicate Ascending(m: seq<Entry>) {
    forall i, j :: 0 <= i < j < |m| ==> Less(m[i].country, m[j].country)
  }

  function Keys(m: seq<Entry>): set<string> {
    set e | e in m :: e.country
  }

  /** `entry(c).and_modify(add d).or_insert(d)` on the ordered map. */
  function Upsert(m: seq<Entry>, c: string, d: seq<nat>): seq<Entry> {
    if |m| == 0 then [Entry(c, d)]
    else if m[0].country == c then [Entry(c, AddInto(m[0].data, d))] + m[1..]
    else if Less(c, m[0].country) then [Entry(c, d)] + m
    else [m[0]] + Upsert(m[1..], c, d)
  }

  /** The map after the loop has seen every row of `rows`, in order. */
  function Accumulate(rows: seq<Row>): seq<Entry> {
    if |rows| == 0 then []
    else
      var last := rows[|rows| - 1];
      Upsert(Accumulate(rows[..|rows| - 1]), last.name.country, last.data)
  }

  /** Reference definition: the sum of column `i` over the rows of country
      `c` that are long enough to have a column `i`. */
  function Total(rows: seq<Row>, c: string, i: nat): nat {
    if |rows| == 0 then 0
    else
      var last := rows[|rows| - 1];
      Total(rows[..|rows| - 1], c, i) + (if last.name.country == c && i < |last.data| then last.data[i] else 0)
  }

  /** Row `j` is the first row of country `c`. */
  predicate IsFirst(rows: seq<Row>, c: string, j: int) {
    0 <= j < |rows| && rows[j].name.country == c
    && forall k :: 0 <= k < j ==> rows[k].name.country != c
  }

  function Countries(rows: seq<Row>): set<string> {
    set r | r in rows :: r.name.country
  }

  /** Entry `e` holds what the source promises for its country after
      `rows`: the length of the country's first row, and the column sums. */
  predicate Summed(rows: seq<Row>, e: Entry) {
    (forall j :: 0 <= j < |rows| && IsFirst(rows, e.country, j) ==> |e.data| == |rows[j].data|)
    && forall i :: 0 <= i < |e.data| ==> e.data[i] == Total(rows, e.country, i)
  }

  lemma AscendingTail(m: seq<Entry>)
    requires |m| > 0 && Ascending(m)
    ensures Ascending(m[1..])
    ensures forall e :: e in m[1..] ==> Less(m[0].country, e.country)
  {
    forall e | e in m[1..]
      ensures Less(m[0].country, e.country)
    {
      var k :| 0 <= k < |m[1..]| && m[1..][k] == e;
      assert m[k + 1] == e;
    }
  }

  lemma AscendingCons(e: Entry, m: seq<Entry>)
    requires Ascending(m)
    requires forall x :: x in m ==> Less(e.country, x.country)
    ensures Ascending([e] + m)
  {
    var r := [e] + m;
    forall i, j | 0 <= i < j < |r|
      ensures Less(r[i].country, r[j].country)
    {
      if i == 0 {
        assert r[j] == m[j - 1];
        assert r[j] in m;
      } else {
        assert r[i] == m[i - 1] && r[j] == m[j - 1];
      }
    }
  }

  lemma KeysCons(e: Entry, m: seq<Entry>)
    ensures Keys([e] + m) == {e.country} + Keys(m)
  {
    assert forall x :: x in [e] + m <==> x == e || x in m;
  }

  lemma {:induction false} UpsertKeys(m: seq<Entry>, c: string, d: seq<nat>)
    requires Ascending(m)
    ensures Ascending(Upsert(m, c, d))
    ensures Keys(Upsert(m, c, d)) == Keys(m) + {c}
    decreases |m|
  {
    if |m| > 0 {
      AscendingTail(m);
      var head := m[0];
      assert m == [head] + m[1..];
      KeysCons(head, m[1..]);
      if head.country == c {
        AscendingCons(Entry(c, AddInto(head.data, d)), m[1..]);
        KeysCons(Entry(c, AddInto(head.data, d)), m[1..]);
      } else if Less(c, head.country) {
        forall x | x in m
          ensures Less(c, x.country)
        {
          if x != head {
            LessTransitive(c, head.country, x.country);
          }
        }
        AscendingCons(Entry(c, d), m);
        KeysCons(Entry(c, d), m);
      } else {
        LessTrichotomy(c, head.country);
        var rest := Upsert(m[1..], c, d);
        UpsertKeys(m[1..], c, d);
        forall x | x in rest
          ensures Less(head.country, x.country)
        {
          assert x.country in Keys(rest);
        }
        AscendingCons(head, rest);
        KeysCons(head, rest);
      }
    }
  }

  /** Upsert leaves the entries of every other country alone. */
  lemma {:induction false} UpsertOthers(m: seq<Entry>, c: string, d: seq<nat>)
    ensures forall e :: e in Upsert(m, c, d) && e.country != c ==> e in m
    decreases |m|
  {
    if |m| > 0 && m[0].country != c && !Less(c, m[0].country) {
      UpsertOthers(m[1..], c, d);
      assert m == [m[0]] + m[1..];
    }
  }

  /** A country not yet in the map is inserted with the row's series. */
  lemma {:induction false} UpsertNew(m: seq<Entry>, c: string, d: seq<nat>)
    requires c !in Keys(m)
    ensures forall e :: e in Upsert(m, c, d) && e.country == c ==> e.data == d
    decreases |m|
  {
    if |m| > 0 {
      assert m[0] in m;
      if !Less(c, m[0].country) {
        assert Keys(m[1..]) <= Keys(m) by {
          forall x | x in m[1..]
            ensures x in m
          {
          }
        }
        UpsertNew(m[1..], c, d);
      } else {
        forall e | e in m
          ensures e.country != c
        {
          assert e.country in Keys(m);
        }
      }
    }
  }

  /** A country already in the map has the row's series added into it. */
  lemma {:induction false} UpsertMerged(m: seq<Entry>, c: string, d: seq<nat>, o: Entry)
    requires Ascending(m) && o in m && o.country == c
    ensures forall e :: e in Upsert(m, c, d) && e.country == c ==> e.data == AddInto(o.data, d)
    decreases |m|
  {
    AscendingTail(m);
    var head := m[0];
    if head.country == c {
      LessIrreflexive(c);
      forall e | e in m[1..]
        ensures e.country != c
      {
      }
      assert o !in m[1..];
      assert m == [head] + m[1..];
    } else {
      assert o != head;
      assert m == [head] + m[1..];
      assert o in m[1..];
      LessIrreflexive(c);
      if Less(c, head.country) {
        assert Less(head.country, o.country);
        LessTransitive(c, head.country, c);
      } else {
        UpsertMerged(m[1..], c, d, o);
      }
    }
  }

  /** An entry of a country other than the new row's keeps its meaning. */
  lemma SummedOther(pre: seq<Row>, last: Row, e: Entry)
    requires Summed(pre, e) && e.country != last.name.country
    ensures Summed(pre + [last], e)
  {
    var rows := pre + [last];
    assert rows[..|rows| - 1] == pre;
    forall j | 0 <= j < |rows| && IsFirst(rows, e.country, j)
      ensures |e.data| == |rows[j].data|
    {
      assert IsFirst(pre, e.country, j);
    }
  }

  /** The row of a country not seen before starts that country's series. */
  lemma SummedNew(pre: seq<Row>, last: Row)
    requires last.name.country !in Countries(pre)
    ensures Summed(pre + [last], Entry(last.name.country, last.data))
  {
    var rows, c := pre + [last], last.name.country;
    assert rows[..|rows| - 1] == pre;
    assert forall k :: 0 <= k < |pre| ==> rows[k] == pre[k] && pre[k] in pre;
    forall j | 0 <= j < |rows| && IsFirst(rows, c, j)
      ensures |last.data| == |rows[j].data|
    {
      assert j == |pre|;
    }
    forall i | 0 <= i < |last.data|
      ensures last.data[i] == Total(rows, c, i)
    {
      TotalAbsent(pre, c, i);
    }
  }

  /** A later row of a known country adds into its series over the common
      prefix; the series keeps the length of the country's first row. */
  lemma SummedMerged(pre: seq<Row>, last: Row, o: Entry)
    requires Summed(pre, o) && o.country == last.name.country
    requires o.country in Countries(pre)
    ensures Summed(pre + [last], Entry(o.country, AddInto(o.data, last.data)))
  {
    var rows, c := pre + [last], last.name.country;
    assert rows[..|rows| - 1] == pre;
    forall j | 0 <= j < |rows| && IsFirst(rows, c, j)
      ensures |o.data| == |rows[j].data|
    {
      var w :| w in pre && w.name.country == c;
      var q :| 0 <= q < |pre| && pre[q] == w;
      assert rows[q] == w;
      assert j <= q;
      assert IsFirst(pre, c, j);
    }
  }

  lemma {:induction false} UpsertLength(m: seq<Entry>, c: string, d: seq<nat>)
    ensures |Upsert(m, c, d)| <= |m| + 1
    decreases |m|
  {
    if |m| > 0 && m[0].country != c && !Less(c, m[0].country) {
      UpsertLength(m[1..], c, d);
    }
  }

  /** Loop invariant of `group_by`: after any prefix of the rows the map is
      ascending, holds exactly the countries seen, and has no more entries
      than rows seen. */
  lemma {:induction false} AccumulateKeys(rows: seq<Row>)
    ensures Ascending(Accumulate(rows))
    ensures Keys(Accumulate(rows)) == Countries(rows)
    ensures |Accumulate(rows)| <= |rows|
    decreases |rows|
  {
    if |rows| > 0 {
      var n := |rows| - 1;
      var pre, last := rows[..n], rows[n];
      AccumulateKeys(pre);
      UpsertLength(Accumulate(pre), last.name.country, last.data);
      UpsertKeys(Accumulate(pre), last.name.country, last.data);
      assert rows == pre + [last];
      assert Countries(rows) == Countries(pre) + {last.name.country};
    }
  }

  /** Loop invariant of `group_by`: each entry is the summed series of its
      country over the rows seen so far. */
  lemma {:induction false} AccumulateSummed(rows: seq<Row>)
    ensures forall e :: e in Accumulate(rows) ==> Summed(rows, e)
    decreases |rows|
  {
    if |rows| > 0 {
      var n := |rows| - 1;
      var pre, last := rows[..n], rows[n];
      var c, d := last.name.country, last.data;
      var m := Accumulate(pre);
      AccumulateSummed(pre);
      AccumulateKeys(pre);
      assert rows == pre + [last];
      UpsertOthers(m, c, d);
      forall e | e in Accumulate(rows)
        ensures Summed(rows, e)
      {
        if e.country != c {
          SummedOther(pre, last, e);
        } else if c !in Keys(m) {
          UpsertNew(m, c, d);
          SummedNew(pre, last);
        } else {
          var o :| o in m && o.country == c;
          UpsertMerged(m, c, d, o);
          SummedMerged(pre, last, o);
        }
      }
    }
  }

  lemma {:induction false} TotalAbsent(rows: seq<Row>, c: string, i: nat)
    requires c !in Countries(rows)
    ensures Total(rows, c, i) == 0
    decreases |rows|
  {
    if |rows| > 0 {
      var pre := rows[..|rows| - 1];
      assert Countries(pre) <= Countries(rows) by {
        forall x | x in pre
          ensures x in rows
        {
        }
      }
      assert rows[|rows| - 1] in rows;
      TotalAbsent(pre, c, i);
    }
  }
}
