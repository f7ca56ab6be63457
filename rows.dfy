/**
 * Row normalisation shared by the charts: every CSV record gets `year`,
 * `count` and `transparency` parsed as base-10 integers, records whose
 * count is not positive are dropped (`NaN > 0` is false), and the rest
 * are sorted by year with a stable sort.
 */
module Rows {
  import opened Wrappers
  import opened JsNumbers

  /** A CSV record as loaded, before normalisation. */
  datatype CsvRecord = CsvRecord(
    name: string,
    year: string,
    count: string,
    transparency: string,
    granted: int,
    notGranted: int,
    filedRequests: int)

  /** A record after the in-place parse of its three text fields. */
  datatype Parsed = Parsed(
    name: string,
    year: Number,
    count: Number,
    transparency: Number,
    granted: int,
    notGranted: int,
    filedRequests: int)

  /** A row of the normalised data: kept, so its year and count are integers. */
  datatype Row = Row(
    name: string,
    year: int,
    count: int,
    transparency: Number,
    granted: int,
    notGranted: int,
    filedRequests: int)

  /** Why normalisation has no well-defined result. */
  datatype LoadError =
    /** A kept record's year is not a number: `a.year - b.year` is NaN and the sort order is unspecified. */
    | UnorderedYear(name: string)

  /** The `map` of src/data.js:7-12: year, count and transparency parsed, the other fields kept. */
  function Normalise(c: CsvRecord, parseYear: string -> Number): Parsed {
    Parsed(c.name, parseYear(c.year), ParseInt(c.count), ParseInt(c.transparency),
           c.granted, c.notGranted, c.filedRequests)
  }

  /** `d.count > 0`: false for NaN. */
  predicate IsCounted(p: Parsed) {
    p.count.Int? && p.count.value > 0
  }

  function NormaliseAll(csv: seq<CsvRecord>, parseYear: string -> Number): seq<Parsed> {
    seq(|csv|, i requires 0 <= i < |csv| => Normalise(csv[i], parseYear))
  }

  /** `.filter(d => d.count > 0)` */
  function Counted(ps: seq<Parsed>): (r: seq<Parsed>)
    ensures forall p :: p in r <==> p in ps && IsCounted(p)
  {
    if ps == [] then []
    else
      var init, last := ps[..|ps| - 1], ps[|ps| - 1];
      assert forall p :: p in ps <==> p in init || p == last;
      Counted(init) + if IsCounted(last) then [last] else []
  }

  /** The kept records as rows, or the first one whose year cannot be ordered. */
  function ToRows(ps: seq<Parsed>): (r: Result<seq<Row>, LoadError>)
    requires forall p :: p in ps ==> IsCounted(p)
    ensures r.Success? <==> forall p :: p in ps ==> p.year.Int?
    ensures r.Success? ==>
      |r.value| == |ps| && forall i :: 0 <= i < |ps| ==> r.value[i] == AsRow(ps[i])
  {
    if ps == [] then Success([])
    else if !ps[0].year.Int? then Failure(UnorderedYear(ps[0].name))
    else
      match ToRows(ps[1..])
      case Failure(e) => Failure(e)
      case Success(rest) => Success([AsRow(ps[0])] + rest)
  }

  function AsRow(p: Parsed): Row
    requires IsCounted(p) && p.year.Int?
  {
    Row(p.name, p.year.value, p.count.value, p.transparency, p.granted, p.notGranted, p.filedRequests)
  }

  predicate SortedByYear(rows: seq<Row>) {
    forall i, j :: 0 <= i < j < |rows| ==> rows[i].year <= rows[j].year
  }

  /** The rows of `rows` with year `y`, in order. */
  function WithYear(rows: seq<Row>, y: int): seq<Row> {
    if rows == [] then []
    else
      var init, last := rows[..|rows| - 1], rows[|rows| - 1];
      WithYear(init, y) + if last.year == y then [last] else []
  }

  lemma {:induction false} WithYearMembers(rows: seq<Row>, y: int)
    ensures forall x :: x in WithYear(rows, y) <==> x in rows && x.year == y
  {
    if rows != [] {
      var init, last := rows[..|rows| - 1], rows[|rows| - 1];
      assert rows == init + [last];
      WithYearMembers(init, y);
    }
  }

  /** The rows of `rows` with name `n`, in order: `data.filter(d => d.name === key)`. */
  function WithName(rows: seq<Row>, n: string): seq<Row> {
    if rows == [] then []
    else
      var init, last := rows[..|rows| - 1], rows[|rows| - 1];
      WithName(init, n) + if last.name == n then [last] else []
  }

  /** No row carries the name, so its group is empty. */
  lemma {:induction false} NoRowsNamed(rows: seq<Row>, n: string)
    requires forall r :: r in rows ==> r.name != n
    ensures WithName(rows, n) == []
  {
    if rows != [] {
      NoRowsNamed(rows[..|rows| - 1], n);
    }
  }

  lemma {:induction false} WithNameMembers(rows: seq<Row>, n: string)
    ensures forall x :: x in WithName(rows, n) <==> x in rows && x.name == n
  {
    if rows != [] {
      var init, last := rows[..|rows| - 1], rows[|rows| - 1];
      assert rows == init + [last];
      WithNameMembers(init, n);
    }
  }

  /** Inserts `r` after every trailing row whose year is greater than its own. */
  function InsertByYear(s: seq<Row>, r: Row): seq<Row> {
    if s == [] || s[|s| - 1].year <= r.year then s + [r]
    else InsertByYear(s[..|s| - 1], r) + [s[|s| - 1]]
  }

  lemma {:induction false} InsertByYearPermutes(s: seq<Row>, r: Row)
    ensures multiset(InsertByYear(s, r)) == multiset(s) + multiset{r}
  {
    if !(s == [] || s[|s| - 1].year <= r.year) {
      var init, last := s[..|s| - 1], s[|s| - 1];
      assert s == init + [last];
      InsertByYearPermutes(init, r);
    }
  }

  lemma {:induction false} InsertByYearSorted(s: seq<Row>, r: Row)
    requires SortedByYear(s)
    ensures SortedByYear(InsertByYear(s, r))
  {
    if !(s == [] || s[|s| - 1].year <= r.year) {
      var init, last := s[..|s| - 1], s[|s| - 1];
      assert s == init + [last];
      InsertByYearSorted(init, r);
      InsertByYearPermutes(init, r);
      var t := InsertByYear(init, r);
      forall i | 0 <= i < |t| ensures t[i].year <= last.year {
        assert t[i] in multiset(t);
        if t[i] != r {
          assert t[i] in init;
          var j :| 0 <= j < |init| && init[j] == t[i];
          assert s[j] == init[j];
        }
      }
    }
  }

  /** `.sort((a, b) => a.year - b.year)`: an insertion sort, which is stable. */
  function SortByYear(rows: seq<Row>): seq<Row> {
    if rows == [] then []
    else InsertByYear(SortByYear(rows[..|rows| - 1]), rows[|rows| - 1])
  }

  /** The sort orders by year and neither loses nor duplicates a row. */
  lemma {:induction false} SortByYearSpec(rows: seq<Row>)
    ensures SortedByYear(SortByYear(rows))
    ensures multiset(SortByYear(rows)) == multiset(rows)
  {
    if rows != [] {
      var init := rows[..|rows| - 1];
      assert rows == init + [rows[|rows| - 1]];
      SortByYearSpec(init);
      InsertByYearSorted(SortByYear(init), rows[|rows| - 1]);
      InsertByYearPermutes(SortByYear(init), rows[|rows| - 1]);
    }
  }

  /** The whole normalisation: parse, keep counted records, sort by year. */
  function LoadRows(csv: seq<CsvRecord>, parseYear: string -> Number): Result<seq<Row>, LoadError> {
    match ToRows(Counted(NormaliseAll(csv, parseYear)))
    case Failure(e) => Failure(e)
    case Success(rows) => Success(SortByYear(rows))
  }

  lemma {:induction false} WithYearInsert(s: seq<Row>, r: Row, y: int)
    requires SortedByYear(s)
    ensures WithYear(InsertByYear(s, r), y) == WithYear(s, y) + if r.year == y then [r] else []
  {
    if s == [] || s[|s| - 1].year <= r.year {
      assert (s + [r])[..|s|] == s;
    } else {
      var init, last := s[..|s| - 1], s[|s| - 1];
      var t := InsertByYear(init, r);
      WithYearInsert(init, r, y);
      assert (t + [last])[..|t|] == t;
    }
  }

  /** Sorting keeps, for every year, the rows of that year in their input order. */
  lemma {:induction false} SortIsStable(rows: seq<Row>, y: int)
    ensures WithYear(SortByYear(rows), y) == WithYear(rows, y)
  {
    if rows != [] {
      var init := rows[..|rows| - 1];
      SortIsStable(init, y);
      SortByYearSpec(init);
      WithYearInsert(SortByYear(init), rows[|rows| - 1], y);
    }
  }

  /** A subsequence of sorted rows is sorted. */
  lemma {:induction false} WithNameSorted(rows: seq<Row>, n: string)
    requires SortedByYear(rows)
    ensures SortedByYear(WithName(rows, n))
  {
    if rows != [] {
      var init, last := rows[..|rows| - 1], rows[|rows| - 1];
      WithNameSorted(init, n);
      var w := WithName(init, n);
      WithNameMembers(init, n);
      forall i | 0 <= i < |w| ensures w[i].year <= last.year {
        assert w[i] in init;
        var j :| 0 <= j < |init| && init[j] == w[i];
        assert rows[j] == init[j];
      }
    }
  }

  lemma NormalisedMembers(csv: seq<CsvRecord>, parseYear: string -> Number)
    ensures forall c :: c in csv ==> Normalise(c, parseYear) in NormaliseAll(csv, parseYear)
  {
    var ps := NormaliseAll(csv, parseYear);
    forall c | c in csv ensures Normalise(c, parseYear) in ps {
      var i :| 0 <= i < |csv| && csv[i] == c;
      assert ps[i] == Normalise(c, parseYear);
    }
  }

  lemma NormalisedOrigin(csv: seq<CsvRecord>, parseYear: string -> Number, p: Parsed)
    requires p in NormaliseAll(csv, parseYear)
    ensures exists c :: c in csv && p == Normalise(c, parseYear)
  {
    var i :| 0 <= i < |csv| && NormaliseAll(csv, parseYear)[i] == p;
    assert csv[i] in csv;
  }

  /**
   * Normalisation fails exactly when a record with a positive count has a
   * year that is not a number.
   */
  lemma LoadRowsSucceeds(csv: seq<CsvRecord>, parseYear: string -> Number)
    ensures LoadRows(csv, parseYear).Success? <==>
      forall c :: c in csv && IsCounted(Normalise(c, parseYear)) ==> parseYear(c.year).Int?
  {
    NormalisedMembers(csv, parseYear);
    var kept := Counted(NormaliseAll(csv, parseYear));
    if !ToRows(kept).Success? {
      var p :| p in kept && !p.year.Int?;
      NormalisedOrigin(csv, parseYear, p);
    }
  }

  /** The normalised rows are sorted by year and every count is positive. */
  lemma LoadRowsSorted(csv: seq<CsvRecord>, parseYear: string -> Number)
    requires LoadRows(csv, parseYear).Success?
    ensures SortedByYear(LoadRows(csv, parseYear).value)
    ensures forall r :: r in LoadRows(csv, parseYear).value ==> r.count > 0
  {
    var kept := Counted(NormaliseAll(csv, parseYear));
    var rows := ToRows(kept).value;
    var data := SortByYear(rows);
    SortByYearSpec(rows);
    forall r | r in data ensures r.count > 0 {
      assert r in multiset(rows);
      var i :| 0 <= i < |rows| && rows[i] == r;
      assert kept[i] in kept;
    }
  }

  /** Every record whose count parses to a positive integer is in the normalised rows. */
  lemma LoadRowsComplete(csv: seq<CsvRecord>, parseYear: string -> Number, c: CsvRecord)
    requires LoadRows(csv, parseYear).Success?
    requires c in csv && IsCounted(Normalise(c, parseYear))
    ensures parseYear(c.year).Int?
    ensures AsRow(Normalise(c, parseYear)) in LoadRows(csv, parseYear).value
  {
    NormalisedMembers(csv, parseYear);
    var kept := Counted(NormaliseAll(csv, parseYear));
    var rows := ToRows(kept).value;
    SortByYearSpec(rows);
    var i :| 0 <= i < |kept| && kept[i] == Normalise(c, parseYear);
    assert rows[i] in multiset(SortByYear(rows));
  }

  /** Every normalised row comes from a CSV record with a positive count. */
  lemma LoadRowsOrigin(csv: seq<CsvRecord>, parseYear: string -> Number, r: Row)
    requires LoadRows(csv, parseYear).Success? && r in LoadRows(csv, parseYear).value
    ensures exists c ::
              c in csv && IsCounted(Normalise(c, parseYear)) && parseYear(c.year).Int? &&
              r == AsRow(Normalise(c, parseYear))
  {
    var ps := NormaliseAll(csv, parseYear);
    var kept := Counted(ps);
    var rows := ToRows(kept).value;
    SortByYearSpec(rows);
    assert r in multiset(SortByYear(rows));
    var i :| 0 <= i < |rows| && rows[i] == r;
    assert kept[i] in ps;
    NormalisedOrigin(csv, parseYear, kept[i]);
  }
}
