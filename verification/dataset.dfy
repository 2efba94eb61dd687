/**
 The in-memory telemetry dataset and its bounds.

 The service reads its rows once, keeps them in the order they were read (no
 sorting happens) and derives two dataset-wide values from them: the calendar
 day of the earliest timestamp and the calendar day of the latest one. Those
 two days, with the row count, are what the dataset-info endpoint reports.
 */
module Dataset {
  import opened Calendar
  import opened Options

  /** One sample: an instant and its measurements, which the model only carries. */
  datatype Row = Row(ts: int, fields: map<string, real>)

  /** The earliest timestamp among the rows. */
  function MinTs(rows: seq<Row>): (m: int)
    requires |rows| > 0
    ensures forall i :: 0 <= i < |rows| ==> m <= rows[i].ts
    ensures exists i :: 0 <= i < |rows| && rows[i].ts == m
  {
    if |rows| == 1 then rows[0].ts
    else
      var rest := MinTs(rows[1..]);
      if rows[0].ts <= rest then rows[0].ts else rest
  }

  /** The latest timestamp among the rows. */
  function MaxTs(rows: seq<Row>): (m: int)
    requires |rows| > 0
    ensures forall i :: 0 <= i < |rows| ==> rows[i].ts <= m
    ensures exists i :: 0 <= i < |rows| && rows[i].ts == m
  {
    if |rows| == 1 then rows[0].ts
    else
      var rest := MaxTs(rows[1..]);
      if rows[0].ts >= rest then rows[0].ts else rest
  }

  /** The loaded dataset: its rows in stored order and the first and last covered day. */
  datatype Store = Store(rows: seq<Row>, dataStart: int, dataEnd: int)

  /** A store as loading builds it: non-empty, with bounds derived from its rows. */
  predicate Valid(s: Store)
  {
    && |s.rows| > 0
    && s.dataStart == Day(MinTs(s.rows))
    && s.dataEnd == Day(MaxTs(s.rows))
  }

  /** The days on which the earliest and the latest row fall bracket every row's day,
      and both are attained by some row. */
  predicate Envelope(rows: seq<Row>, start: int, end: int)
  {
    && (forall i :: 0 <= i < |rows| ==> start <= Day(rows[i].ts) <= end)
    && (exists i :: 0 <= i < |rows| && Day(rows[i].ts) == start)
    && (exists j :: 0 <= j < |rows| && Day(rows[j].ts) == end)
  }

  /** The bounds of a valid store are the tightest envelope of its rows' days. */
  lemma ValidEnvelope(s: Store)
    requires Valid(s)
    ensures Envelope(s.rows, s.dataStart, s.dataEnd)
    ensures s.dataStart <= s.dataEnd
  {
  }

  /** Building the store from the rows read at start-up. With no rows the minimum
      timestamp is undefined and formatting it fails, so nothing is served. */
  function Load(rows: seq<Row>): (s: Option<Store>)
    ensures s.None? <==> |rows| == 0
    ensures s.Some? ==> s.value.rows == rows && Valid(s.value)
    ensures s.Some? ==> Envelope(rows, s.value.dataStart, s.value.dataEnd)
  {
    if |rows| == 0 then None
    else
      var s := Store(rows, Day(MinTs(rows)), Day(MaxTs(rows)));
      ValidEnvelope(s);
      Some(s)
  }

  /** What the dataset-info endpoint reports. */
  datatype DataInfo = DataInfo(start: int, end: int, totalRecords: nat)

  function Info(s: Store): (info: DataInfo)
    requires Valid(s)
    ensures info.totalRecords == |s.rows|
    ensures info.start <= info.end
    ensures Envelope(s.rows, info.start, info.end)
  {
    ValidEnvelope(s);
    DataInfo(s.dataStart, s.dataEnd, |s.rows|)
  }
}
