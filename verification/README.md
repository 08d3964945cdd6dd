# covid19 table operators and record reader, in Dafny

This project models the core of `covid19`, a Rust tool that reads daily
case-count time series and reshapes them with a small operator algebra. Two
parts are modelled:

- `src/ops.rs`: a `Table` is a header of column labels plus rows. Each row is
  a place `Name` with a series of counts. `eval` dispatches over the closed
  `Op` type. The operators are `Filter`, `Select`, `GroupByCountry`, `SortBy`,
  `Limit` and `GreaterThan`, and `Combine` is sequential composition.
- `src/data.rs`: `read` turns already-tokenised CSV rows into `Record`s. It
  skips rows of fewer than four fields, takes the names from the first two
  fields and the counts from the last two, trims the names, parses the counts as `u32`, fails on the first bad count, and drops
  records whose `today` count is zero. `Summary::change` is today's count
  minus yesterday's.

Every operation is a pure function over immutable datatypes.

The files:
- `seqs.dfy`: sequence helpers.
  - `Keep`, a generic filter.
  - Subsequences.
  - Rust's `skip`, `step_by` and `take`, and the strided `Window` built from them.
- `strings.dfy`: lexicographic string order and Unicode `trim`.
- `tables.dfy`: `Name`, `Row`, `Table` and the name order.
- `sorting.dfy`: a stable insertion sort by key.
- `grouping.dfy`: the `BTreeMap` used by `group_by`, as an ascending association list.
- `operators.dfy`: one function per operator.
- `ops.dfy`: `Op`, `eval`, and lemmas about pipelines.
- `results.dfy`: Rust's `Option` and `Result`.
- `parsing.dfy`: `u32::from_str`.
- `data.dfy`: `Summary`, `Record` and `read`.

`ops.rs` imports `Name`, `Row` and `Table` from `crate::data`, but this
revision of `data.rs` does not define them. Their shape is taken from their
uses in `ops.rs`:
- `row.name.country`;
- `Name::new("", country)`, whose first argument is the province;
- `Row { name, data }`.

`Name::new`'s body is not part of this model, and neither is `Name`'s `Ord`
(not in the source files modelled). Names are ordered by country, then
province.

Counts are modelled as `nat`. The header's `Rc` sharing is modelled as a
plain value.

## Model

| member | source | states |
|---|---|---|
| Ops.Eval | src/ops.rs:23-33 | Dispatch over every `Op` variant. No operator adds rows. Any pipeline without a `Select` passes the header through unchanged. |
| Ops.CombineAssociative | src/ops.rs:30 | Bracketing a pipeline differently changes neither whether it can run nor its result. |
| Ops.ChainIsFold | src/ops.rs:30 | Evaluating nested `Combine` nodes is the same as folding `eval` left to right over the operator list. The nested form can run exactly when the fold can. |
| Ops.TopN | src/ops.rs:92-106 | `SortBy(Max)` then `Limit(n)` keeps `min(n, number of rows)` input rows. Every row left out has a first value no larger than that of any row kept. |
| Operators.Filter | src/ops.rs:35-44 | Keeps exactly the rows whose country is in `names`, in their original order, each as often as in the input. The header is unchanged. An empty `names` list gives no rows. |
| Seqs.KeepSpec | src/ops.rs:37-42 | The generic filter is a subsequence of its input. It holds exactly the elements that pass the predicate, each with its input multiplicity. |
| Seqs.StepBySpec | src/ops.rs:52 | Element `i` of `step_by(step)` is element `i * step` of its input, and the stride runs until it leaves the input. |
| Seqs.StepByLength | src/ops.rs:52 | `step_by(step)` yields `ceil(n / step)` elements. |
| Seqs.Window | src/ops.rs:46-53 | `skip(start).step_by(step).take(size)` yields at most `size` elements. Element `i` is input element `start + i * step`. A window shorter than `size` has run past the end of its input. |
| Seqs.WindowLength | src/ops.rs:46-53 | The window has `min(size, ceil((n - start) / step))` elements, and none when `start >= n`. |
| Seqs.OffsetIsProduct | src/ops.rs:52 | The stride offset used throughout the model is `i * step`. |
| Operators.Select | src/ops.rs:55-66 | The same window is applied to the header and to every row. The number of rows and every name are kept. Row column `i` and header column `i` both come from original column `start + i * step`. A row no longer than the header stays no longer, and a row as long as the header stays as long. |
| Operators.SelectLength | src/ops.rs:55-66 | The header and every row are cut to `min(size, ceil((n - start) / step))` columns of their own length `n`. |
| Operators.GroupBy | src/ops.rs:68-90 | One row per distinct input country, in strictly ascending country order, each with an empty province. The header is unchanged. A country's series is as long as its first input row. Entry `i` sums column `i` over that country's rows that have one. |
| Grouping.AddInto | src/ops.rs:75-79 | Zipped in-place addition: the result keeps the accumulator's length. Each entry adds the other series' entry where there is one and is unchanged past its end. |
| Grouping.AccumulateKeys | src/ops.rs:69-81 | The accumulated map's keys are strictly ascending and are exactly the input's countries. It has no more entries than there are input rows. |
| Grouping.AccumulateSummed | src/ops.rs:69-81 | Every map entry has the length of its country's first row, and holds that country's column totals. |
| Operators.Sort | src/ops.rs:92-100 | The rows are permuted and the header is kept. By `Name` they are in non-decreasing name order. By `Max` they are in non-decreasing first value and every row has one. Rows with equal keys keep their relative order. |
| Sorting.SortPermutes | src/ops.rs:94-98 | The sort returns a permutation of its input. |
| Sorting.SortSorted | src/ops.rs:94-98 | The sort's output is ordered by the sort key. |
| Sorting.SortStable | src/ops.rs:94-98 | For every key, the rows with that key appear in the same order as in the input (`sort_by_key` is stable). |
| Sorting.SortIdempotent | src/ops.rs:92-100 | Sorting twice by the same key gives the same rows as sorting once. |
| Operators.Limit | src/ops.rs:102-106 | `rev().take(n).rev()` keeps the last `min(n, number of rows)` rows in their original order, with the header unchanged. It is the identity when `n` is at least the number of rows. |
| Operators.GreaterThan | src/ops.rs:108-117 | Keeps exactly the rows that have a first value and whose first value exceeds `min`, in order and with their multiplicity. The header is unchanged. Rows with no values are dropped. |
| Data.Change | src/data.rs:20-22 | The change added to yesterday's count gives today's count. This requires today's count to be no smaller, because `u32` subtraction cannot go negative. |
| Data.ReadRow | src/data.rs:42-54 | A row fails exactly when it has at least four fields and one of its last two fields is not a `u32`; yesterday's parse error is the one reported when both are bad. A row with at least four fields, two `u32` counts and a non-zero count for today yields exactly the record of its trimmed first two fields and the numbers its last two fields denote (the reference `Build`). Every other row is skipped. |
| Data.Read | src/data.rs:37-58 | No more records than rows. |
| Data.ReadSpec | src/data.rs:37-58 | The read fails exactly when some row fails. Otherwise every record has a non-zero count for today, both its counts fit in a `u32`, and it is built from one of the rows. |
| Data.ReadFirstError | src/data.rs:40-45 | A failed read reports the error of its first failing row: every row before that one reads without error. |
| Data.ReadComplete | src/data.rs:38-57 | When no row fails, the read yields exactly the records `Build` gives for the kept rows, in row order: every kept row contributes its record and no other row contributes anything. |
| Data.ReadConcat | src/data.rs:38-57 | Reading two runs of rows one after the other is reading each in turn. The first error wins, and otherwise the records of the first run precede those of the second. Records therefore keep row order. |
| Parsing.ParseU32 | src/data.rs:44-45 | `str::parse::<u32>`. It succeeds exactly on an optional `+` followed by one or more decimal digits whose value is below 2^32, and yields that value. It reports `Empty` exactly on the empty string. |
| Parsing.ParseShow | src/data.rs:44-45 | Parsing the decimal text of any `u32` gives back the number. |
| Strings.Trim | src/data.rs:48-49 | `trim` returns a contiguous piece of its input. Only white space is cut on either side, and the result neither starts nor ends with white space. |
| Strings.TrimIdempotent | src/data.rs:48-49 | Trimming twice is trimming once. |

## Left out

- The CSV tokeniser and header handling of the `csv` crate (src/data.rs:39-41) are left out, because they are a library. `read` takes the rows after the header, already split into fields. The errors that `result?` can raise (bad quoting, I/O, and a record whose field count differs from the header's, which the default non-flexible `csv::Reader` rejects) are left out with them.
- Data.ReadRow: skipping a row of fewer than four fields is the behaviour of the slice pattern at src/data.rs:42. In the program a row that short only reaches it when the header is that short too; otherwise the `csv` crate's field-count check aborts `read` first, and that check is not modelled.
- `Summary`'s `Display` impl (src/data.rs:25-35) is left out, because it is floating-point percentage formatting.
- The overflow of `u32` in `group_by`'s `+=` (src/ops.rs:78) is left out. Counts are unbounded `nat`s, so a sum that would panic or wrap in the source is exact here.
- The `Rc` around the header is left out, because sharing is invisible in a value model.
- The command-line programs `src/main.rs` and `src/bin/covid19.rs` are not part of this model. They target other revisions of the operator API (an `Op::NoOp` variant, a `Filter` by `Place`). Only the `SortBy(Max)`-then-`Limit` idiom they rely on is stated, as `Ops.TopN`.
- `Name::new`, `Name`'s derived `Ord`, and the definitions of `Row` and `Table` are not part of this model. Their shape follows their uses in `ops.rs`, and the name order is country, then province.
- The panics of `step_by(0)` and of `row.data[0]` on an empty row are not modelled as behaviour. They are preconditions: `step > 0` for `Select`, and `Operators.Sortable` for `SortBy(Max)`. The latter only demands a first value when there are at least two rows, because `sort_by_key` never reads the key of a slice shorter than two.
- `u32::from_str` is modelled from the standard library's documented rules, not from its code. Those rules are: an optional `+`, decimal digits, and the errors `Empty`, `InvalidDigit` and `PosOverflow`. An error's message text is left out.
- `Data.Read`: its `Result` carries the parse error kind rather than a boxed `dyn Error`.
- Data.Change: the `u32` subtraction underflows when today's count is below yesterday's (a panic in a debug build, a wrap-around in a release build). That case is a precondition, `yesterday <= today`, and its behaviour is not modelled.
- `filter` keeps no rows for an empty name list (`Operators.Filter`); a caller that wants no filtering leaves the operator out.
- This revision of `data.rs` has no schema detection, sanitation or series reversal, so none is modelled.
