/** `ops::Op` and `ops::eval`: a closed set of operators, dispatched by
    pattern matching, with `Combine` as sequential composition. */
module Ops {
  import opened Seqs
  import opened Tables
  import Sorting
  import Operators

  datatype Op =
    | Combine(first: Op, second: Op)
    | GroupByCountry
    | Filter(names: seq<string>)
    | Limit(limit: nat)
    | Select(start: nat, size: nat, step: nat)
    | SortBy(mode: Sorting.SortBy)
    | GreaterThan(min: nat)

  /** The operator can run on `t` without panicking: `step_by(0)` panics, and
      so does `row.data[0]` on an empty row when sorting by `Max`. For
      `Combine`, the second operator must be able to run on the first one's
      output. */
  predicate Evaluable(op: Op, t: Table)
    decreases op, 0
  {
    match op
    case Select(_, _, step) => step > 0
    case SortBy(mode) => Operators.Sortable(mode, t.rows)
    case Combine(a, b) => Evaluable(a, t) && Evaluable(b, Eval(a, t))
    case _ => true
  }

  /** The operator contains a `Select`, the only one that rebuilds the
      header. */
  predicate Windows(op: Op) {
    match op
    case Select(_, _, _) => true
    case Combine(a, b) => Windows(a) || Windows(b)
    case _ => false
  }

  /** `eval`. No operator adds rows, and every operator other than `Select`
      passes the header through unchanged. */
  function Eval(op: Op, t: Table): (r: Table)
    requires Evaluable(op, t)
    ensures |r.rows| <= |t.rows|
    ensures !Windows(op) ==> r.header == t.header
    decreases op, 1
  {
    match op
    case Filter(names) => Operators.Filter(t, names)
    case GroupByCountry => Operators.GroupBy(t)
    case Limit(n) => Operators.Limit(t, n)
    case Select(start, size, step) => Operators.Select(t, start, size, step)
    case SortBy(mode) => Operators.Sort(t, mode)
    case Combine(a, b) => Eval(b, Eval(a, t))
    case GreaterThan(min) => Operators.GreaterThan(t, min)
  }

  /** Composition is associative: how a pipeline is bracketed does not
      matter. */
  lemma CombineAssociative(a: Op, b: Op, c: Op, t: Table)
    ensures Evaluable(Combine(Combine(a, b), c), t) <==> Evaluable(Combine(a, Combine(b, c)), t)
    ensures Evaluable(Combine(Combine(a, b), c), t) ==>
      Eval(Combine(Combine(a, b), c), t) == Eval(Combine(a, Combine(b, c)), t)
  {
  }

  /** Runs the operators one after another, first to last. */
  predicate RunnableAll(ops: seq<Op>, t: Table)
    decreases |ops|, 0
  {
    |ops| == 0 || (Evaluable(ops[0], t) && RunnableAll(ops[1..], Eval(ops[0], t)))
  }

  function RunAll(ops: seq<Op>, t: Table): Table
    requires RunnableAll(ops, t)
    decreases |ops|, 1
  {
    if |ops| == 0 then t else RunAll(ops[1..], Eval(ops[0], t))
  }

  /** Nests a non-empty list of operators into `Combine` nodes, so that the
      first operator runs first. */
  function Chain(ops: seq<Op>): Op
    requires |ops| > 0
  {
    if |ops| == 1 then ops[0] else Combine(ops[0], Chain(ops[1..]))
  }

  /** Evaluating a chain of `Combine` nodes is folding `eval` over the list
      from left to right. */
  lemma {:induction false} ChainIsFold(ops: seq<Op>, t: Table)
    requires |ops| > 0
    ensures Evaluable(Chain(ops), t) <==> RunnableAll(ops, t)
    ensures RunnableAll(ops, t) ==> Eval(Chain(ops), t) == RunAll(ops, t)
    decreases |ops|
  {
    if |ops| > 1 {
      if Evaluable(ops[0], t) {
        ChainIsFold(ops[1..], Eval(ops[0], t));
      }
    }
  }

  /** In rows sorted by first value, a row with a copy outside the suffix
      `s[p..]` has a first value no larger than any row of the suffix. */
  lemma SuffixDominates(s: seq<Row>, all: seq<Row>, p: nat)
    requires p <= |s| && Sorting.Sorted(Sorting.SortBy.Max, s)
    requires multiset(s) == multiset(all) && Operators.Sortable(Sorting.SortBy.Max, all)
    ensures forall x, y :: x in s[p..] && y in all && multiset(s[p..])[y] < multiset(all)[y] ==>
              |x.data| > 0 && |y.data| > 0 && y.data[0] <= x.data[0]
  {
    assert s == s[..p] + s[p..];
    forall x, y | x in s[p..] && y in all && multiset(s[p..])[y] < multiset(all)[y]
      ensures |x.data| > 0 && |y.data| > 0 && y.data[0] <= x.data[0]
    {
      assert multiset(s) == multiset(s[..p]) + multiset(s[p..]);
      assert y in multiset(s[..p]);
      var a :| 0 <= a < p && s[a] == y;
      var b' :| 0 <= b' < |s[p..]| && s[p..][b'] == x;
      assert s[p + b'] == x;
      assert x in multiset(all) && y in multiset(all);
    }
  }

  /** `SortBy(Max)` then `Limit(n)` keeps `min(n, |rows|)` of the rows, and
      every row with a copy left out has a first value no larger than that
      of any kept row: the rows kept are the ones with the largest first
      values. */
  lemma TopN(t: Table, n: nat)
    requires Operators.Sortable(Sorting.SortBy.Max, t.rows)
    ensures Evaluable(Combine(SortBy(Sorting.SortBy.Max), Limit(n)), t)
    ensures var r := Eval(Combine(SortBy(Sorting.SortBy.Max), Limit(n)), t);
      && |r.rows| == Min(n, |t.rows|)
      && multiset(r.rows) <= multiset(t.rows)
      && forall x, y :: x in r.rows && y in t.rows && multiset(r.rows)[y] < multiset(t.rows)[y] ==>
           |x.data| > 0 && |y.data| > 0 && y.data[0] <= x.data[0]
  {
    var sorted := Operators.Sort(t, Sorting.SortBy.Max);
    var s := sorted.rows;
    assert Evaluable(SortBy(Sorting.SortBy.Max), t);
    assert Eval(SortBy(Sorting.SortBy.Max), t) == sorted;
    assert Evaluable(Limit(n), sorted);
    assert Eval(Limit(n), sorted) == Operators.Limit(sorted, n);
    var r := Eval(Combine(SortBy(Sorting.SortBy.Max), Limit(n)), t);
    assert r == Operators.Limit(sorted, n);
    var p := |s| - |r.rows|;
    assert r.rows == s[p..];
    Sorting.SortSorted(Sorting.SortBy.Max, t.rows);
    SuffixDominates(s, t.rows, p);
    SuffixSubMultiset(s, p);
  }

  lemma SuffixSubMultiset<T>(s: seq<T>, p: nat)
    requires p <= |s|
    ensures multiset(s[p..]) <= multiset(s)
  {
    assert s == s[..p] + s[p..];
  }
}
