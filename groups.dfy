/**
 * Per-label series (src/data.js:16-46): an ordinary label gets the rows of
 * its institution, the synthetic label '⌀' gets one row per year whose
 * counts are summed over every institution of that year and whose rate is
 * recomputed from those sums.
 */
module Groups {
  import opened Wrappers
  import opened JsNumbers
  import opened JsObjects
  import opened Rows

  /** The label of the synthetic all-institutions series (U+2300 DIAMETER SIGN). */
  const Average: string := "\U{2300}"

  /** A summed column of a row; `Occurrences` counts every row once. */
  datatype Measure = Granted | NotGranted | Count | FiledRequests | Occurrences

  function Value(r: Row, m: Measure): int {
    match m
    case Granted => r.granted
    case NotGranted => r.notGranted
    case Count => r.count
    case FiledRequests => r.filedRequests
    case Occurrences => 1
  }

  /** `sumArray(rows, field)` */
  function Sum(rows: seq<Row>, m: Measure): int {
    if rows == [] then 0 else Sum(rows[..|rows| - 1], m) + Value(rows[|rows| - 1], m)
  }

  lemma {:induction false} SumOccurrences(rows: seq<Row>)
    ensures Sum(rows, Occurrences) == |rows|
  {
    if rows != [] {
      SumOccurrences(rows[..|rows| - 1]);
    }
  }

  lemma SumSnoc(rows: seq<Row>, r: Row, m: Measure)
    ensures Sum(rows + [r], m) == Sum(rows, m) + Value(r, m)
  {
    assert (rows + [r])[..|rows|] == rows;
  }

  lemma WithYearSnoc(rows: seq<Row>, r: Row, y: int)
    ensures WithYear(rows + [r], y) == WithYear(rows, y) + if r.year == y then [r] else []
  {
    assert (rows + [r])[..|rows|] == rows;
  }

  /** A sum of positive counts over a non-empty bucket is positive. */
  lemma {:induction false} SumPositive(rows: seq<Row>)
    requires rows != [] && forall r :: r in rows ==> r.count > 0
    ensures Sum(rows, Count) > 0
  {
    var init := rows[..|rows| - 1];
    assert rows == init + [rows[|rows| - 1]];
    if init != [] {
      SumPositive(init);
    } else {
      assert rows[0] in rows;
    }
  }

  /** The years of the rows, in row order and with repetitions. */
  function Years(rows: seq<Row>): seq<int> {
    seq(|rows|, i requires 0 <= i < |rows| => rows[i].year)
  }

  lemma YearsMembers(rows: seq<Row>)
    ensures forall y :: y in Years(rows) <==> WithYear(rows, y) != []
  {
    WithYearMembers(rows, 0);
    forall y ensures y in Years(rows) <==> WithYear(rows, y) != [] {
      WithYearMembers(rows, y);
      if y in Years(rows) {
        var i :| 0 <= i < |rows| && rows[i].year == y;
        assert rows[i] in WithYear(rows, y);
      }
      if WithYear(rows, y) != [] {
        var x := WithYear(rows, y)[0];
        assert x in WithYear(rows, y);
        var i :| 0 <= i < |rows| && rows[i] == x;
        assert Years(rows)[i] == y;
      }
    }
  }

  /** The '⌀' entry of one year: summed counts, and the rate of those sums. */
  function Aggregate(year: int, bucket: seq<Row>): Row {
    var granted := Sum(bucket, Granted);
    var notGranted := Sum(bucket, NotGranted);
    Row(Average, year, Sum(bucket, Count), RoundedPercent(granted, granted + notGranted),
        granted, notGranted, Sum(bucket, FiledRequests))
  }

  /** The '⌀' entries of the years `ys`, in that order. */
  function AggregateYears(data: seq<Row>, ys: seq<int>): (s: seq<Row>)
    ensures |s| == |ys|
    ensures forall i :: 0 <= i < |ys| ==> s[i] == Aggregate(ys[i], WithYear(data, ys[i]))
  {
    if ys == [] then []
    else AggregateYears(data, ys[..|ys| - 1]) + [Aggregate(ys[|ys| - 1], WithYear(data, ys[|ys| - 1]))]
  }

  /** The '⌀' series: one entry per distinct year, years ascending. */
  function AverageSeries(data: seq<Row>): seq<Row> {
    AggregateYears(data, AscendingDistinct(Years(data)))
  }

  /** The entries `Object.entries(years).map(...)` turns into the '⌀' series. */
  function AggregateEntries(entries: JsObject<int, seq<Row>>): seq<Row> {
    seq(|entries|, i requires 0 <= i < |entries| => Aggregate(entries[i].0, entries[i].1))
  }

  /**
   * Mapping entries that hold, under each year key, exactly that year's rows
   * gives the aggregates of those years in the entries' key order.
   */
  lemma AggregateEntriesYears(data: seq<Row>, entries: JsObject<int, seq<Row>>)
    requires forall i :: 0 <= i < |entries| ==> entries[i].1 == WithYear(data, entries[i].0)
    ensures AggregateEntries(entries) == AggregateYears(data, Keys(entries))
  {
    assert |Keys(entries)| == |entries|;
    forall i | 0 <= i < |entries|
      ensures AggregateEntries(entries)[i] == AggregateYears(data, Keys(entries))[i]
    {
      assert Keys(entries)[i] == entries[i].0;
    }
  }

  /** `years[y]` after the reduce: the rows of year `y`, or `undefined` when there are none. */
  function Bucket(rows: seq<Row>, y: int): Option<seq<Row>> {
    if WithYear(rows, y) == [] then None else Some(WithYear(rows, y))
  }

  /** The `data.reduce(...)` of src/data.js:18-22: pushes every row into its year's array. */
  method BucketByYear(data: seq<Row>) returns (years: JsObject<int, seq<Row>>)
    ensures UniqueKeys(years)
    ensures forall y :: Get(years, y) == Bucket(data, y)
  {
    years := [];
    for i := 0 to |data|
      invariant UniqueKeys(years)
      invariant forall y :: Get(years, y) == Bucket(data[..i], y)
    {
      var d := data[i];
      assert data[..i + 1] == data[..i] + [d];
      ghost var before := years;
      if Get(years, d.year).None? {
        PutKeys(years, d.year, []);
        years := Put(years, d.year, []);
      }
      assert Get(years, d.year) == Some(WithYear(data[..i], d.year));
      ghost var pushed := years;
      PutKeys(years, d.year, Get(years, d.year).value + [d]);
      years := Put(years, d.year, Get(years, d.year).value + [d]);
      forall y ensures Get(years, y) == Bucket(data[..i + 1], y) {
        WithYearSnoc(data[..i], d, y);
        if y != d.year {
          assert Get(years, y) == Get(pushed, y) == Get(before, y);
          assert WithYear(data[..i + 1], y) == WithYear(data[..i], y);
        } else {
          assert Get(years, y) == Some(WithYear(data[..i], y) + [d]);
          assert WithYear(data[..i + 1], y) == WithYear(data[..i], y) + [d];
        }
      }
    }
    assert data[..|data|] == data;
  }

  /** Listing the buckets by ascending key gives exactly the '⌀' series. */
  lemma EntriesOfBuckets(data: seq<Row>, years: JsObject<int, seq<Row>>)
    requires UniqueKeys(years)
    requires forall y :: Get(years, y) == Bucket(data, y)
    ensures AggregateEntries(Entries(years)) == AverageSeries(data)
  {
    var e := Entries(years);
    var ys := AscendingDistinct(Years(data));
    YearsMembers(data);
    EntryKeys(years, ys);
    forall i | 0 <= i < |e| ensures e[i].1 == WithYear(data, e[i].0) {
      EntryStored(years, i);
    }
    AggregateEntriesYears(data, e);
  }

  /** `groupData[key]`: the '⌀' series, or the rows of the institution `key`. */
  function SeriesOf(key: string, data: seq<Row>): seq<Row> {
    if key == Average then AverageSeries(data) else WithName(data, key)
  }

  /** The body of the label loop: bucket and aggregate for '⌀', filter by name otherwise. */
  method ComputeSeries(key: string, data: seq<Row>) returns (series: seq<Row>)
    ensures series == SeriesOf(key, data)
  {
    if key == Average {
      var years := BucketByYear(data);
      series := AggregateEntries(Entries(years));
      EntriesOfBuckets(data, years);
    } else {
      series := WithName(data, key);
    }
  }

  /** Every label key, with its series, in label order (src/data.js:16-46). */
  method BuildGroupData(labels: seq<string>, data: seq<Row>) returns (groupData: JsObject<string, seq<Row>>)
    requires forall i, j :: 0 <= i < j < |labels| ==> labels[i] != labels[j]
    ensures Keys(groupData) == labels
    ensures forall i :: 0 <= i < |labels| ==> groupData[i].1 == SeriesOf(labels[i], data)
  {
    groupData := [];
    for i := 0 to |labels|
      invariant |groupData| == i
      invariant forall j :: 0 <= j < i ==> groupData[j].0 == labels[j]
      invariant forall j :: 0 <= j < i ==> groupData[j].1 == SeriesOf(labels[j], data)
    {
      var key := labels[i];
      var series := ComputeSeries(key, data);
      Absent(groupData, key);
      PutKeys(groupData, key, series);
      groupData := Put(groupData, key, series);
    }
  }

  /** The sum of measure `m` over the buckets of the years `ys`. */
  function SumOverYears(data: seq<Row>, ys: seq<int>, m: Measure): int {
    if ys == [] then 0
    else SumOverYears(data, ys[..|ys| - 1], m) + Sum(WithYear(data, ys[|ys| - 1]), m)
  }

  lemma {:induction false} SumOverYearsEmpty(ys: seq<int>, m: Measure)
    ensures SumOverYears([], ys, m) == 0
  {
    if ys != [] {
      SumOverYearsEmpty(ys[..|ys| - 1], m);
    }
  }

  lemma {:induction false} SumOverYearsSnoc(rows: seq<Row>, r: Row, ys: seq<int>, m: Measure)
    requires Ascending(ys)
    ensures SumOverYears(rows + [r], ys, m) == SumOverYears(rows, ys, m) + if r.year in ys then Value(r, m) else 0
  {
    if ys != [] {
      var init, last := ys[..|ys| - 1], ys[|ys| - 1];
      assert ys == init + [last];
      SumOverYearsSnoc(rows, r, init, m);
      WithYearSnoc(rows, r, last);
      SumSnoc(WithYear(rows, last), r, m);
      if r.year in init {
        var k :| 0 <= k < |init| && init[k] == r.year;
        assert ys[k] < ys[|ys| - 1];
      }
      if r.year != last {
        assert WithYear(rows + [r], last) == WithYear(rows, last);
      }
    }
  }

  /** Summing bucket by bucket over years that cover every row sums every row once. */
  lemma {:induction false} SumOverYearsAll(data: seq<Row>, ys: seq<int>, m: Measure)
    requires Ascending(ys)
    requires forall r :: r in data ==> r.year in ys
    ensures SumOverYears(data, ys, m) == Sum(data, m)
  {
    if data == [] {
      SumOverYearsEmpty(ys, m);
    } else {
      var init, last := data[..|data| - 1], data[|data| - 1];
      assert data == init + [last];
      SumOverYearsAll(init, ys, m);
      SumOverYearsSnoc(init, last, ys, m);
      SumSnoc(init, last, m);
    }
  }

  lemma {:induction false} SumAggregates(data: seq<Row>, ys: seq<int>, m: Measure)
    requires m != Occurrences
    ensures Sum(AggregateYears(data, ys), m) == SumOverYears(data, ys, m)
  {
    if ys != [] {
      var init := ys[..|ys| - 1];
      SumAggregates(data, init, m);
      SumSnoc(AggregateYears(data, init), Aggregate(ys[|ys| - 1], WithYear(data, ys[|ys| - 1])), m);
    }
  }

  lemma YearsCovered(data: seq<Row>)
    ensures forall r :: r in data ==> r.year in AscendingDistinct(Years(data))
  {
    forall r | r in data ensures r.year in Years(data) {
      var i :| 0 <= i < |data| && data[i] == r;
      assert Years(data)[i] == r.year;
    }
  }

  /**
   * The year buckets partition the rows: a row lies in the bucket of its
   * own year and in no other, and the bucket sizes add up to the number of
   * rows.
   */
  lemma BucketsPartition(data: seq<Row>)
    ensures var ys := AscendingDistinct(Years(data));
      forall r, i :: r in data && 0 <= i < |ys| ==> (r in WithYear(data, ys[i]) <==> r.year == ys[i])
    ensures SumOverYears(data, AscendingDistinct(Years(data)), Occurrences) == |data|
  {
    var ys := AscendingDistinct(Years(data));
    forall i | 0 <= i < |ys| ensures forall r :: r in WithYear(data, ys[i]) <==> r in data && r.year == ys[i] {
      WithYearMembers(data, ys[i]);
    }
    YearsCovered(data);
    SumOverYearsAll(data, ys, Occurrences);
    SumOccurrences(data);
  }

  /** The '⌀' series carries, in total, exactly the granted, refused, counted and filed requests of all rows. */
  lemma AverageConserves(data: seq<Row>, m: Measure)
    requires m != Occurrences
    ensures Sum(AverageSeries(data), m) == Sum(data, m)
  {
    var ys := AscendingDistinct(Years(data));
    SumAggregates(data, ys, m);
    YearsCovered(data);
    SumOverYearsAll(data, ys, m);
  }

  /** One '⌀' entry per year that has rows, in ascending year order. */
  lemma AverageSeriesYears(data: seq<Row>)
    ensures var s := AverageSeries(data);
      (forall i, j :: 0 <= i < j < |s| ==> s[i].year < s[j].year) &&
      (forall r :: r in data ==> exists i :: 0 <= i < |s| && s[i].year == r.year) &&
      forall i :: 0 <= i < |s| ==> WithYear(data, s[i].year) != []
  {
    var s := AverageSeries(data);
    var ys := AscendingDistinct(Years(data));
    YearsMembers(data);
    YearsCovered(data);
    forall r | r in data ensures exists i :: 0 <= i < |s| && s[i].year == r.year {
      var i :| 0 <= i < |ys| && ys[i] == r.year;
      assert s[i].year == r.year;
    }
    forall i | 0 <= i < |s| ensures WithYear(data, s[i].year) != [] {
      assert ys[i] in ys;
    }
  }

  /**
   * Every '⌀' entry is named '⌀' and holds the sums over its year's rows,
   * with the rate of those sums (not the mean of the per-row rates).
   */
  lemma AverageSeriesEntries(data: seq<Row>)
    ensures var s := AverageSeries(data);
      forall i :: 0 <= i < |s| ==>
        var bucket := WithYear(data, s[i].year);
        s[i].name == Average &&
        s[i].granted == Sum(bucket, Granted) && s[i].notGranted == Sum(bucket, NotGranted) &&
        s[i].count == Sum(bucket, Count) && s[i].filedRequests == Sum(bucket, FiledRequests) &&
        s[i].transparency == RoundedPercent(s[i].granted, s[i].granted + s[i].notGranted)
  {
  }

  /** When every row has a positive count, so does every '⌀' entry. */
  lemma AverageCountsPositive(data: seq<Row>)
    requires forall r :: r in data ==> r.count > 0
    ensures forall e :: e in AverageSeries(data) ==> e.count > 0
  {
    var s := AverageSeries(data);
    AverageSeriesYears(data);
    AverageSeriesEntries(data);
    forall e | e in s ensures e.count > 0 {
      var i :| 0 <= i < |s| && s[i] == e;
      WithYearMembers(data, e.year);
      SumPositive(WithYear(data, e.year));
    }
  }

  /**
   * The '⌀' rate is weighted by volume: an institution granting its one
   * request (100%) and one granting one of ten (10%) average to 18%, not 55%.
   */
  lemma WeightedRate()
    ensures var a := Row("A", 2020, 1, Int(100), 1, 0, 0);
      var b := Row("B", 2020, 10, Int(10), 1, 9, 0);
      Aggregate(2020, [a, b]).transparency == Int(18)
  {
    var a := Row("A", 2020, 1, Int(100), 1, 0, 0);
    var b := Row("B", 2020, 10, Int(10), 1, 9, 0);
    assert [] + [a] == [a] && [a] + [b] == [a, b];
    SumSnoc([], a, Granted);
    SumSnoc([], a, NotGranted);
    SumSnoc([a], b, Granted);
    SumSnoc([a], b, NotGranted);
    assert Aggregate(2020, [a, b]).transparency == RoundedPercent(2, 11);
    assert RoundDiv(200, 11) == 18;
  }

  /**
   * An institution's series is exactly its rows of the data, in data order;
   * it is therefore sorted by year and has only positive counts.
   */
  lemma InstitutionSeries(data: seq<Row>, key: string)
    requires key != Average
    requires SortedByYear(data) && forall r :: r in data ==> r.count > 0
    ensures SortedByYear(SeriesOf(key, data))
    ensures forall r :: r in SeriesOf(key, data) <==> r in data && r.name == key
    ensures forall r :: r in SeriesOf(key, data) ==> r.count > 0
  {
    WithNameSorted(data, key);
    WithNameMembers(data, key);
  }
}
