/** The canonical table: a header of column labels and rows of a place name
    plus one count per column, index-aligned with the header. */
module Tables {
  import opened Strings

  /** A place key. `Name::new(province, country)` builds one; group-by keys
      use an empty province. */
  datatype Name = Name(province: string, country: string)

  /** The total order on names: by country, then by province. */
  predicate NameLess(a: Name, b: Name) {
    Less(a.country, b.country) || (a.country == b.country && Less(a.province, b.province))
  }

  predicate NameLe(a: Name, b: Name) {
    a == b || NameLess(a, b)
  }

  lemma NameLessIrreflexive(a: Name)
    ensures !NameLess(a, a)
  {
    LessIrreflexive(a.country);
    LessIrreflexive(a.province);
  }

  lemma NameLessTransitive(a: Name, b: Name, c: Name)
    requires NameLess(a, b) && NameLess(b, c)
    ensures NameLess(a, c)
  {
    if Less(a.country, b.country) && Less(b.country, c.country) {
      LessTransitive(a.country, b.country, c.country);
    } else if a.country == b.country && b.country == c.country {
      LessTransitive(a.province, b.province, c.province);
    }
  }

  lemma NameTrichotomy(a: Name, b: Name)
    ensures a == b || NameLess(a, b) || NameLess(b, a)
  {
    LessTrichotomy(a.country, b.country);
    LessTrichotomy(a.province, b.province);
  }

  /** One place's series: `data[i]` belongs to column `i` of the header. */
  datatype Row = Row(name: Name, data: seq<nat>)

  /** The header is shared by every row; the rows keep their order. */
  datatype Table = Table(header: seq<string>, rows: seq<Row>)

  /** The first (most recent) value of a row, `Some(data[0])` in the source,
      read as 0 for an empty row. */
  function Head(r: Row): nat {
    if |r.data| > 0 then r.data[0] else 0
  }
}
