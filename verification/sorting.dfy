/** `sort_by`: the stable sort of rows (`slice::sort_by_key`) by name or by
    the first column, modelled as a functional insertion sort. */
module Sorting {
  import opened Seqs
  import opened Tables

  /** `ops::SortBy`. */
  datatype SortBy = Max | Name

  /** A sort key: the row's name, or its first value. */
  datatype Key = ByName(name: Tables.Name) | ByValue(value: nat)

  /** The key `sort_by_key` extracts: `row.name` or `row.data[0]`. */
  function KeyOf(mode: SortBy, r: Row): Key {
    match mode
    case Name => ByName(r.name)
    case Max => ByValue(Head(r))
  }

  /** The order the keys are compared by (keys of one sort never mix kinds). */
  predicate KeyLe(a: Key, b: Key) {
    match a
    case ByName(x) => b.ByName? ==> NameLe(x, b.name)
    case ByValue(x) => b.ByValue? && x <= b.value
  }

  lemma KeyLeTotal(a: Key, b: Key)
    ensures KeyLe(a, b) || KeyLe(b, a)
  {
    if a.ByName? && b.ByName? {
      NameTrichotomy(a.name, b.name);
    }
  }

  lemma KeyLeTransitive(a: Key, b: Key, c: Key)
    requires KeyLe(a, b) && KeyLe(b, c)
    ensures KeyLe(a, c)
  {
    if a.ByName? && b.ByName? && c.ByName? && NameLess(a.name, b.name) && NameLess(b.name, c.name) {
      NameLessTransitive(a.name, b.name, c.name);
    }
  }

  lemma KeyLeAntisymmetric(a: Key, b: Key)
    requires KeyLe(a, b) && KeyLe(b, a)
    ensures a == b
  {
    if a.ByName? && b.ByName? && a.name != b.name {
      NameLessTransitive(a.name, b.name, a.name);
      NameLessIrreflexive(a.name);
    }
  }

  /** The rows whose key is `k`. */
  function KeyIs(mode: SortBy, k: Key): Row -> bool {
    r => KeyOf(mode, r) == k
  }

  /** Every row's key is at most the key of every later row. */
  predicate Sorted(mode: SortBy, s: seq<Row>) {
    forall i, j :: 0 <= i < j < |s| ==> KeyLe(KeyOf(mode, s[i]), KeyOf(mode, s[j]))
  }

  /** Places `x` before the first row of `t` whose key is not smaller. */
  function Insert(mode: SortBy, x: Row, t: seq<Row>): seq<Row> {
    if |t| == 0 || KeyLe(KeyOf(mode, x), KeyOf(mode, t[0])) then [x] + t
    else [t[0]] + Insert(mode, x, t[1..])
  }

  /** Sorts the tail, then inserts the head in front of its equals. */
  function SortRows(mode: SortBy, s: seq<Row>): seq<Row> {
    if |s| == 0 then [] else Insert(mode, s[0], SortRows(mode, s[1..]))
  }

  lemma {:induction false} InsertPermutes(mode: SortBy, x: Row, t: seq<Row>)
    ensures multiset(Insert(mode, x, t)) == multiset(t) + multiset{x}
    decreases |t|
  {
    if |t| > 0 && !KeyLe(KeyOf(mode, x), KeyOf(mode, t[0])) {
      InsertPermutes(mode, x, t[1..]);
      assert t == [t[0]] + t[1..];
    }
  }

  /** Sorting only reorders the rows. */
  lemma {:induction false} SortPermutes(mode: SortBy, s: seq<Row>)
    ensures multiset(SortRows(mode, s)) == multiset(s)
    decreases |s|
  {
    if |s| > 0 {
      SortPermutes(mode, s[1..]);
      InsertPermutes(mode, s[0], SortRows(mode, s[1..]));
      assert s == [s[0]] + s[1..];
    }
  }

  lemma {:induction false} InsertSorted(mode: SortBy, x: Row, t: seq<Row>)
    requires Sorted(mode, t)
    ensures Sorted(mode, Insert(mode, x, t))
    decreases |t|
  {
    var kx := KeyOf(mode, x);
    if |t| == 0 {
    } else if KeyLe(kx, KeyOf(mode, t[0])) {
      var r := [x] + t;
      forall i, j | 0 <= i < j < |r|
        ensures KeyLe(KeyOf(mode, r[i]), KeyOf(mode, r[j]))
      {
        if i == 0 && j > 1 {
          KeyLeTransitive(kx, KeyOf(mode, t[0]), KeyOf(mode, t[j - 1]));
        }
      }
    } else {
      var k0 := KeyOf(mode, t[0]);
      KeyLeTotal(kx, k0);
      var rest := Insert(mode, x, t[1..]);
      InsertSorted(mode, x, t[1..]);
      InsertPermutes(mode, x, t[1..]);
      var r := [t[0]] + rest;
      forall i, j | 0 <= i < j < |r|
        ensures KeyLe(KeyOf(mode, r[i]), KeyOf(mode, r[j]))
      {
        if i == 0 {
          var y := rest[j - 1];
          assert y in multiset(rest);
          if y != x {
            assert y in t[1..];
            var m :| 0 <= m < |t[1..]| && t[1..][m] == y;
            assert t[m + 1] == y;
          }
        }
      }
    }
  }

  /** The sorted rows are in ascending key order. */
  lemma {:induction false} SortSorted(mode: SortBy, s: seq<Row>)
    ensures Sorted(mode, SortRows(mode, s))
    decreases |s|
  {
    if |s| > 0 {
      SortSorted(mode, s[1..]);
      InsertSorted(mode, s[0], SortRows(mode, s[1..]));
    }
  }

  lemma {:induction false} InsertStable(mode: SortBy, x: Row, t: seq<Row>, k: Key)
    ensures Keep(Insert(mode, x, t), KeyIs(mode, k)) == Keep([x] + t, KeyIs(mode, k))
    decreases |t|
  {
    var p := KeyIs(mode, k);
    if |t| > 0 && !KeyLe(KeyOf(mode, x), KeyOf(mode, t[0])) {
      var y, u := t[0], t[1..];
      KeyLeTotal(KeyOf(mode, x), KeyOf(mode, y));
      InsertStable(mode, x, u, k);
      calc {
        Keep(Insert(mode, x, t), p);
        Keep([y] + Insert(mode, x, u), p);
        { KeepCons(y, Insert(mode, x, u), p); KeepCons(y, [x] + u, p); }
        Keep([y] + ([x] + u), p);
        { KeepSwap(x, y, u, p); }
        Keep([x] + ([y] + u), p);
        { assert [y] + u == t; }
        Keep([x] + t, p);
      }
    }
  }

  /** Stability: rows with equal keys keep their relative order, so the rows
      of any one key appear in the sorted output exactly as in the input. */
  lemma {:induction false} SortStable(mode: SortBy, s: seq<Row>)
    ensures forall k :: Keep(SortRows(mode, s), KeyIs(mode, k)) == Keep(s, KeyIs(mode, k))
    decreases |s|
  {
    if |s| > 0 {
      SortStable(mode, s[1..]);
      forall k
        ensures Keep(SortRows(mode, s), KeyIs(mode, k)) == Keep(s, KeyIs(mode, k))
      {
        var p := KeyIs(mode, k);
        var t := SortRows(mode, s[1..]);
        InsertStable(mode, s[0], t, k);
        KeepConcat([s[0]], t, p);
        KeepConcat([s[0]], s[1..], p);
        assert [s[0]] + s[1..] == s;
      }
    }
  }

  /** Rows already in order are left exactly where they are. */
  lemma {:induction false} SortOfSorted(mode: SortBy, s: seq<Row>)
    requires Sorted(mode, s)
    ensures SortRows(mode, s) == s
    decreases |s|
  {
    if |s| > 0 {
      assert Sorted(mode, s[1..]);
      SortOfSorted(mode, s[1..]);
      assert s == [s[0]] + s[1..];
    }
  }

  /** Sorting twice is sorting once. */
  lemma SortIdempotent(mode: SortBy, s: seq<Row>)
    ensures SortRows(mode, SortRows(mode, s)) == SortRows(mode, s)
  {
    SortSorted(mode, s);
    SortOfSorted(mode, SortRows(mode, s));
  }
}
