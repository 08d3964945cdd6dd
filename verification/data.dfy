/** `data.rs`: daily summaries and `read`, which turns already tokenised CSV
    rows into records. */
module Data {
  import opened Results
  import opened Strings
  import opened Parsing
  import opened Seqs

  /** Yesterday's and today's cumulative counts, both `u32`. */
  datatype Summary = Summary(yesterday: nat, today: nat)

  /** `Summary::change`: how much the count grew since yesterday. The source
      subtracts `u32`s, which panics (or wraps) when the count fell. */
  function Change(s: Summary): (r: nat)
    requires s.yesterday <= s.today
    ensures s.yesterday + r == s.today
  {
    s.today - s.yesterday
  }

  datatype Record = Record(province: string, country: string, summary: Summary)

  /** The row has the four fields the slice pattern needs, and one of its
      last two fields is not a `u32`. */
  predicate Fails(row: seq<string>) {
    |row| >= 4 && (!ValidU32(row[|row| - 2]) || !ValidU32(row[|row| - 1]))
  }

  /** `rec` is what `read` builds from `row`: trimmed province and country
      from the first two fields, counts from the last two. */
  predicate BuiltFrom(rec: Record, row: seq<string>) {
    |row| >= 4
    && rec.province == Trim(row[0]) && rec.country == Trim(row[1])
    && ParseU32(row[|row| - 2]) == Ok(rec.summary.yesterday)
    && ParseU32(row[|row| - 1]) == Ok(rec.summary.today)
  }

  /** `row` yields a record: it has at least four fields, its last two are
      `u32`s, and today's count is not zero. */
  predicate Kept(row: seq<string>) {
    |row| >= 4 && ValidU32(row[|row| - 2]) && ValidU32(row[|row| - 1])
    && Value(Digits(row[|row| - 1])) != 0
  }

  /** Reference definition of the record a kept row yields: trimmed first two
      fields, and the numbers the last two fields denote. */
  function Build(row: seq<string>): Record
    requires Kept(row)
  {
    Record(Trim(row[0]), Trim(row[1]),
           Summary(Value(Digits(row[|row| - 2])), Value(Digits(row[|row| - 1]))))
  }

  /** Body of `read`'s loop for one row. A row with a bad count fails, with
      yesterday's error taking precedence; a kept row yields its record; any
      other row is skipped. */
  function ReadRow(row: seq<string>): (r: Result<Option<Record>, IntErrorKind>)
    ensures r.Err? <==> Fails(row)
    ensures r.Err? ==>
      r.error == if !ValidU32(row[|row| - 2]) then ParseU32(row[|row| - 2]).error else ParseU32(row[|row| - 1]).error
    ensures Kept(row) ==> r == Ok(Some(Build(row)))
    ensures !Kept(row) && !Fails(row) ==> r == Ok(None)
    ensures r.Ok? && r.value.Some? ==> BuiltFrom(r.value.value, row) && r.value.value.summary.today != 0
  {
    if |row| < 4 then Ok(None)
    else
      match ParseU32(row[|row| - 2])
      case Err(e) => Err(e)
      case Ok(yesterday) =>
        match ParseU32(row[|row| - 1])
        case Err(e) => Err(e)
        case Ok(today) =>
          if today != 0 then Ok(Some(Record(Trim(row[0]), Trim(row[1]), Summary(yesterday, today))))
          else Ok(None)
  }

  /** The records a row contributes: none when it was skipped. */
  function Records(o: Option<Record>): (r: seq<Record>)
    ensures |r| <= 1
    ensures forall rec :: rec in r <==> o == Some(rec)
  {
    if o.Some? then [o.value] else []
  }

  /** One step of `read`'s loop: the row's error, else the error of the rows
      after it, else its records in front of theirs. */
  function Step(head: Result<Option<Record>, IntErrorKind>, rest: Result<seq<Record>, IntErrorKind>)
    : Result<seq<Record>, IntErrorKind>
  {
    match head
    case Err(e) => Err(e)
    case Ok(o) =>
      match rest
      case Err(e) => Err(e)
      case Ok(records) => Ok(Records(o) + records)
  }

  /** `read` over the rows that follow the CSV header: the first error, or
      the records of the rows kept, in row order. */
  function Read(rows: seq<seq<string>>): (r: Result<seq<Record>, IntErrorKind>)
    ensures r.Ok? ==> |r.value| <= |rows|
  {
    if |rows| == 0 then Ok([]) else Step(ReadRow(rows[0]), Read(rows[1..]))
  }

  /** One bad count fails the whole read; otherwise every record has a
      non-zero count for today, both counts fit in a `u32`, and each record
      is built from one of the rows. */
  lemma {:induction false} ReadSpec(rows: seq<seq<string>>)
    ensures var r := Read(rows);
      && (r.Err? <==> exists i :: 0 <= i < |rows| && Fails(rows[i]))
      && (r.Ok? ==> forall rec :: rec in r.value ==>
           rec.summary.today != 0 && rec.summary.today < U32_LIMIT && rec.summary.yesterday < U32_LIMIT)
      && (r.Ok? ==> forall rec :: rec in r.value ==> exists i :: 0 <= i < |rows| && BuiltFrom(rec, rows[i]))
  {
    if |rows| > 0 {
      ReadSpec(rows[1..]);
      ReadStep(rows, ReadRow(rows[0]), Read(rows[1..]));
    }
  }

  lemma ReadStep(rows: seq<seq<string>>, head: Result<Option<Record>, IntErrorKind>,
                 rest: Result<seq<Record>, IntErrorKind>)
    requires |rows| > 0
    requires head.Err? <==> Fails(rows[0])
    requires head.Ok? && head.value.Some? ==> BuiltFrom(head.value.value, rows[0]) && head.value.value.summary.today != 0
    requires rest.Err? <==> exists i :: 0 <= i < |rows[1..]| && Fails(rows[1..][i])
    requires rest.Ok? ==> forall rec :: rec in rest.value ==>
      rec.summary.today != 0 && rec.summary.today < U32_LIMIT && rec.summary.yesterday < U32_LIMIT
    requires rest.Ok? ==> forall rec :: rec in rest.value ==> exists i :: 0 <= i < |rows[1..]| && BuiltFrom(rec, rows[1..][i])
    ensures var r := Step(head, rest);
      && (r.Err? <==> exists i :: 0 <= i < |rows| && Fails(rows[i]))
      && (r.Ok? ==> forall rec :: rec in r.value ==>
           rec.summary.today != 0 && rec.summary.today < U32_LIMIT && rec.summary.yesterday < U32_LIMIT)
      && (r.Ok? ==> forall rec :: rec in r.value ==> exists i :: 0 <= i < |rows| && BuiltFrom(rec, rows[i]))
  {
    assert forall i :: 0 <= i < |rows[1..]| ==> rows[1..][i] == rows[i + 1];
    if head.Ok? && rest.Ok? {
      var records := Records(head.value) + rest.value;
      forall rec | rec in records
        ensures rec.summary.today != 0 && rec.summary.today < U32_LIMIT && rec.summary.yesterday < U32_LIMIT
        ensures exists i :: 0 <= i < |rows| && BuiltFrom(rec, rows[i])
      {
        if rec in rest.value {
          var i :| 0 <= i < |rows[1..]| && BuiltFrom(rec, rows[1..][i]);
          assert BuiltFrom(rec, rows[i + 1]);
        } else {
          assert BuiltFrom(rec, rows[0]);
        }
      }
    }
  }

  /** Reading two runs of rows one after the other is reading each in turn:
      `read` handles its rows independently of one another. */
  lemma {:induction false} ReadConcat(a: seq<seq<string>>, b: seq<seq<string>>)
    ensures Read(a + b) == Then(Read(a), Read(b))
    decreases |a|
  {
    if |a| == 0 {
      assert a + b == b;
      if Read(b).Ok? {
        assert [] + Read(b).value == Read(b).value;
      }
    } else {
      var ab := a + b;
      assert ab[1..] == a[1..] + b;
      assert ab[0] == a[0];
      ReadConcat(a[1..], b);
      StepThen(ReadRow(a[0]), Read(a[1..]), Read(b));
    }
  }

  /** Two reads in sequence: the first error wins, and otherwise the records
      of the second follow those of the first. */
  function Then(x: Result<seq<Record>, IntErrorKind>, y: Result<seq<Record>, IntErrorKind>)
    : Result<seq<Record>, IntErrorKind>
  {
    if x.Err? then x else if y.Err? then y else Ok(x.value + y.value)
  }

  lemma StepThen(head: Result<Option<Record>, IntErrorKind>,
                 x: Result<seq<Record>, IntErrorKind>, y: Result<seq<Record>, IntErrorKind>)
    ensures Step(head, Then(x, y)) == Then(Step(head, x), y)
  {
    if head.Ok? && x.Ok? && y.Ok? {
      assert Records(head.value) + (x.value + y.value) == (Records(head.value) + x.value) + y.value;
    }
  }

  /** The error `read` reports is that of the first failing row: every row
      before it is read without error. */
  lemma {:induction false} ReadFirstError(rows: seq<seq<string>>)
    ensures Read(rows).Err? ==>
      exists i :: 0 <= i < |rows| && ReadRow(rows[i]) == Err(Read(rows).error)
        && forall j :: 0 <= j < i ==> !Fails(rows[j])
  {
    if |rows| > 0 && Read(rows).Err? {
      var rest := rows[1..];
      if ReadRow(rows[0]).Err? {
        assert ReadRow(rows[0]) == Err(Read(rows).error);
      } else {
        ReadFirstError(rest);
        var i :| 0 <= i < |rest| && ReadRow(rest[i]) == Err(Read(rest).error)
                 && forall j :: 0 <= j < i ==> !Fails(rest[j]);
        assert rows[i + 1] == rest[i];
        assert forall j :: 1 <= j < i + 1 ==> rows[j] == rest[j - 1];
      }
    }
  }

  /** The records built from `rows`, one per row. */
  function BuildAll(rows: seq<seq<string>>): seq<Record>
    requires forall i :: 0 <= i < |rows| ==> Kept(rows[i])
  {
    if |rows| == 0 then [] else [Build(rows[0])] + BuildAll(rows[1..])
  }

  /** When no row fails, `read` yields exactly the records of the kept rows,
      in row order: every row with at least four fields, two `u32` counts and
      a non-zero count for today gives its record, and no other row does. */
  lemma {:induction false} ReadComplete(rows: seq<seq<string>>)
    requires forall i :: 0 <= i < |rows| ==> !Fails(rows[i])
    ensures forall i :: 0 <= i < |Keep(rows, Kept)| ==> Kept(Keep(rows, Kept)[i])
    ensures Read(rows) == Ok(BuildAll(Keep(rows, Kept)))
    decreases |rows|, 1
  {
    KeptAll(rows);
    if |rows| > 0 {
      var x, rest := rows[0], rows[1..];
      assert forall i :: 0 <= i < |rest| ==> rest[i] == rows[i + 1];
      assert rows == [x] + rest;
      ReadCompleteStep(x, rest);
    } else {
      assert Keep(rows, Kept) == [];
    }
  }

  lemma KeptAll(rows: seq<seq<string>>)
    ensures forall i :: 0 <= i < |Keep(rows, Kept)| ==> Kept(Keep(rows, Kept)[i])
  {
    KeepSpec(rows, Kept);
    assert forall i :: 0 <= i < |Keep(rows, Kept)| ==> Keep(rows, Kept)[i] in Keep(rows, Kept);
  }

  lemma ReadCompleteStep(x: seq<string>, rest: seq<seq<string>>)
    requires !Fails(x) && forall i :: 0 <= i < |rest| ==> !Fails(rest[i])
    ensures forall i :: 0 <= i < |Keep([x] + rest, Kept)| ==> Kept(Keep([x] + rest, Kept)[i])
    ensures Read([x] + rest) == Ok(BuildAll(Keep([x] + rest, Kept)))
    decreases |rest| + 1, 0
  {
    ReadComplete(rest);
    var rows := [x] + rest;
    KeptAll(rows);
    assert rows[0] == x && rows[1..] == rest;
    KeepCons(x, rest, Kept);
    var k := Keep(rest, Kept);
    assert Read(rows) == Step(ReadRow(x), Read(rest));
    if Kept(x) {
      assert ReadRow(x) == Ok(Some(Build(x)));
      BuildAllCons(x, k);
    } else {
      assert ReadRow(x) == Ok(None);
      assert Records(None) + BuildAll(k) == BuildAll(k);
    }
  }


  lemma BuildAllCons(x: seq<string>, k: seq<seq<string>>)
    requires Kept(x) && forall i :: 0 <= i < |k| ==> Kept(k[i])
    ensures forall i :: 0 <= i < |[x] + k| ==> Kept(([x] + k)[i])
    ensures BuildAll([x] + k) == [Build(x)] + BuildAll(k)
  {
    var xs := [x] + k;
    assert xs[0] == x && xs[1..] == k;
    assert forall i :: 1 <= i < |xs| ==> xs[i] == k[i - 1];
  }
}
