/**
 * Input of the stacked request-volume chart (src/requests.js:6-24): one
 * record per year holding every institution's filed requests under its
 * name and the year under `year`, the stack keys, the per-year totals and
 * their maximum, which fixes the y axis.
 */
module Requests {
  import opened Wrappers
  import opened JsNumbers
  import opened JsObjects
  import opened Rows
  import opened Groups

  /** One year's record: a property per institution name, plus `year`. */
  type Frame = JsObject<string, int>

  const YearKey: string := "year"

  /**
   * The record the reduce leaves for one year, built from that year's rows
   * in data order: `obj[d.year][d.name] = d.filed_requests || 0` then
   * `obj[d.year].year = d.year`.  The fields are integers, so `|| 0` keeps
   * the value.
   */
  function FrameOf(rows: seq<Row>): Frame {
    if rows == [] then []
    else
      var last := rows[|rows| - 1];
      Put(Put(FrameOf(rows[..|rows| - 1]), last.name, last.filedRequests), YearKey, last.year)
  }

  /** `groupsByYear[y]`: the record of year `y`, or `undefined` when no row has that year. */
  function YearRecord(data: seq<Row>, y: int): Option<Frame> {
    if WithYear(data, y) == [] then None else Some(FrameOf(WithYear(data, y)))
  }

  /** The `data.reduce(...)` of src/requests.js:6-11. */
  method GroupsByYear(data: seq<Row>) returns (obj: JsObject<int, Frame>)
    ensures UniqueKeys(obj)
    ensures forall y :: Get(obj, y) == YearRecord(data, y)
  {
    obj := [];
    for i := 0 to |data|
      invariant UniqueKeys(obj)
      invariant forall y :: Get(obj, y) == YearRecord(data[..i], y)
    {
      var d := data[i];
      assert data[..i + 1] == data[..i] + [d];
      ghost var before := obj;
      if Get(obj, d.year).None? {
        PutKeys(obj, d.year, []);
        obj := Put(obj, d.year, []);
      }
      assert Get(obj, d.year) == Some(FrameOf(WithYear(data[..i], d.year)));
      ghost var created := obj;
      var frame := Put(Get(obj, d.year).value, d.name, d.filedRequests);
      frame := Put(frame, YearKey, d.year);
      PutKeys(obj, d.year, frame);
      obj := Put(obj, d.year, frame);
      forall y ensures Get(obj, y) == YearRecord(data[..i + 1], y) {
        WithYearSnoc(data[..i], d, y);
        if y != d.year {
          assert Get(obj, y) == Get(created, y) == Get(before, y);
          assert WithYear(data[..i + 1], y) == WithYear(data[..i], y);
        } else {
          assert WithYear(data[..i + 1], y) == WithYear(data[..i], y) + [d];
          assert (WithYear(data[..i], y) + [d])[..|WithYear(data[..i], y)|] == WithYear(data[..i], y);
        }
      }
    }
    assert data[..|data|] == data;
  }

  /** The filed requests of the last row named `n`, if any: the value that survives the reduce. */
  function LastFiled(rows: seq<Row>, n: string): Option<int> {
    if rows == [] then None
    else if rows[|rows| - 1].name == n then Some(rows[|rows| - 1].filedRequests)
    else LastFiled(rows[..|rows| - 1], n)
  }

  /**
   * A year's record holds, under each institution name, the filed requests
   * of the last row with that name (later rows overwrite earlier ones), and
   * under `year` the year of its last row; its keys are unique.
   */
  lemma {:induction false} FrameContents(rows: seq<Row>)
    ensures UniqueKeys(FrameOf(rows))
    ensures forall n :: n != YearKey ==> Get(FrameOf(rows), n) == LastFiled(rows, n)
    ensures rows != [] ==> Get(FrameOf(rows), YearKey) == Some(rows[|rows| - 1].year)
  {
    if rows != [] {
      var init, last := rows[..|rows| - 1], rows[|rows| - 1];
      FrameContents(init);
      var named := Put(FrameOf(init), last.name, last.filedRequests);
      PutKeys(FrameOf(init), last.name, last.filedRequests);
      PutKeys(named, YearKey, last.year);
    }
  }

  /** Every record of the reduce carries its own year under `year`. */
  lemma RecordYear(data: seq<Row>, y: int)
    requires YearRecord(data, y).Some?
    ensures Get(YearRecord(data, y).value, YearKey) == Some(y)
  {
    var w := WithYear(data, y);
    FrameContents(w);
    WithYearMembers(data, y);
    assert w[|w| - 1] in w;
  }

  /** `Object.values(o)` */
  function Values<K, V>(o: JsObject<K, V>): seq<V> {
    seq(|o|, i requires 0 <= i < |o| => o[i].1)
  }

  /** The stacking input `Object.values(groupsByYear)`: one record per year. */
  function StackData(obj: JsObject<int, Frame>): seq<Frame>
    requires UniqueKeys(obj)
  {
    Values(Entries(obj))
  }

  /**
   * The stacking input lists the records of the distinct years of the data,
   * ascending (integer-like keys enumerate in numeric order).
   */
  lemma StackDataYears(data: seq<Row>, obj: JsObject<int, Frame>)
    requires UniqueKeys(obj)
    requires forall y :: Get(obj, y) == YearRecord(data, y)
    ensures var ys := AscendingDistinct(Years(data));
      |StackData(obj)| == |ys| &&
      forall i :: 0 <= i < |ys| ==> StackData(obj)[i] == FrameOf(WithYear(data, ys[i]))
  {
    var e := Entries(obj);
    var ys := AscendingDistinct(Years(data));
    YearsMembers(data);
    EntryKeys(obj, ys);
    assert |e| == |Keys(e)|;
    forall i | 0 <= i < |ys| ensures StackData(obj)[i] == FrameOf(WithYear(data, ys[i])) {
      EntryStored(obj, i);
      assert Keys(e)[i] == ys[i];
    }
  }

  /** The stack keys `[...groups]`: every label except '⌀', in label order. */
  function StackKeys(labels: seq<string>): (keys: seq<string>)
    ensures forall k :: k in keys <==> k in labels && k != Average
  {
    if labels == [] then []
    else
      var init, last := labels[..|labels| - 1], labels[|labels| - 1];
      assert forall k :: k in labels <==> k in init || k == last;
      StackKeys(init) + if last == Average then [] else [last]
  }

  /** `Object.values(o).reduce((s, v) => s + v, 0)` */
  function Total(f: Frame): int {
    if f == [] then 0 else Total(f[..|f| - 1]) + f[|f| - 1].1
  }

  /** The sum of every value of `f` except the one under `year`. */
  function NonYearTotal(f: Frame): int {
    if f == [] then 0
    else NonYearTotal(f[..|f| - 1]) + if f[|f| - 1].0 == YearKey then 0 else f[|f| - 1].1
  }

  lemma {:induction false} TotalWithoutYear(f: Frame)
    requires forall i :: 0 <= i < |f| ==> f[i].0 != YearKey
    ensures NonYearTotal(f) == Total(f)
  {
    if f != [] {
      TotalWithoutYear(f[..|f| - 1]);
    }
  }

  lemma TotalSnoc(f: Frame, e: (string, int))
    ensures Total(f + [e]) == Total(f) + e.1
  {
    assert (f + [e])[..|f|] == f;
  }

  /** Zeroing `year` before summing sums exactly the other values (src/requests.js:21-23). */
  lemma {:induction false} ZeroedYearTotal(f: Frame)
    requires UniqueKeys(f)
    ensures Total(Put(f, YearKey, 0)) == NonYearTotal(f)
  {
    Absent(f, YearKey);
    if Get(f, YearKey).None? {
      TotalSnoc(f, (YearKey, 0));
      TotalWithoutYear(f);
    } else {
      var init, last := f[..|f| - 1], f[|f| - 1];
      if last.0 == YearKey {
        TotalSnoc(init, (YearKey, 0));
        assert forall i :: 0 <= i < |init| ==> init[i].0 != YearKey by {
          forall i | 0 <= i < |init| ensures init[i].0 != YearKey {
            assert f[i] == init[i];
          }
        }
        TotalWithoutYear(init);
      } else {
        ZeroedYearTotal(init);
        TotalSnoc(Put(init, YearKey, 0), last);
      }
    }
  }

  /** `requestsPerYear`: each record's total with its year zeroed. */
  function RequestsPerYear(frames: seq<Frame>): (totals: seq<int>)
    ensures |totals| == |frames|
  {
    seq(|frames|, i requires 0 <= i < |frames| => Total(Put(frames[i], YearKey, 0)))
  }

  /** Entry `i` of `requestsPerYear` is the sum of every non-year value of record `i`. */
  lemma RequestsPerYearTotals(frames: seq<Frame>)
    requires forall i :: 0 <= i < |frames| ==> UniqueKeys(frames[i])
    ensures forall i :: 0 <= i < |frames| ==> RequestsPerYear(frames)[i] == NonYearTotal(frames[i])
  {
    forall i | 0 <= i < |frames| ensures RequestsPerYear(frames)[i] == NonYearTotal(frames[i]) {
      ZeroedYearTotal(frames[i]);
    }
  }

  /**
   * For non-empty data the y-axis maximum is the total of some year and at
   * least the total of every year.
   */
  lemma MaxRequestsBound(data: seq<Row>, obj: JsObject<int, Frame>)
    requires data != []
    requires UniqueKeys(obj)
    requires forall y :: Get(obj, y) == YearRecord(data, y)
    ensures var totals := RequestsPerYear(StackData(obj));
      Max(totals).Int? && Max(totals).value in totals &&
      forall t :: t in totals ==> t <= Max(totals).value
  {
    var ys := AscendingDistinct(Years(data));
    StackDataYears(data, obj);
    assert Years(data)[0] in ys;
    assert |RequestsPerYear(StackData(obj))| > 0;
  }

  /** Every record of the stacking input has unique keys. */
  lemma StackDataUnique(data: seq<Row>, obj: JsObject<int, Frame>)
    requires UniqueKeys(obj)
    requires forall y :: Get(obj, y) == YearRecord(data, y)
    ensures forall i :: 0 <= i < |StackData(obj)| ==> UniqueKeys(StackData(obj)[i])
  {
    var ys := AscendingDistinct(Years(data));
    StackDataYears(data, obj);
    forall i | 0 <= i < |StackData(obj)| ensures UniqueKeys(StackData(obj)[i]) {
      FrameContents(WithYear(data, ys[i]));
    }
  }
}
