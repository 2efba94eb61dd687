/**
 The date-range query: parse the two requested days, reject a request that
 reaches outside the dataset's covered days, then keep, in stored order, every
 row whose timestamp truncated to its calendar day lies between the two
 requested days, both included.
 */
module RangeQuery {
  import opened Calendar
  import opened Options
  import opened Dataset

  /** The result of the validate-then-select part of a range request. */
  datatype Outcome =
    | Malformed                            // a date string did not parse
    | OutOfRange(start: int, end: int)     // carries the dataset's covered days
    | Selected(rows: seq<Row>)             // the rows the mask keeps, in stored order

  /** The mask's test for one row: its day lies in [from, to]. */
  predicate InWindow(r: Row, from: int, to: int)
  {
    from <= Day(r.ts) <= to
  }

  /** The rows the mask keeps, in stored order. */
  function Select(rows: seq<Row>, from: int, to: int): (sel: seq<Row>)
    ensures |sel| <= |rows|
    ensures forall k :: 0 <= k < |sel| ==> InWindow(sel[k], from, to) && sel[k] in rows
    ensures forall i :: 0 <= i < |rows| && InWindow(rows[i], from, to) ==> rows[i] in sel
  {
    if |rows| == 0 then []
    else
      var last := rows[|rows| - 1];
      var init := rows[..|rows| - 1];
      assert forall x :: x in init ==> x in rows;
      Select(init, from, to) + (if InWindow(last, from, to) then [last] else [])
  }

  /** The positions of the rows the mask keeps, ascending. */
  function Positions(rows: seq<Row>, from: int, to: int): (p: seq<nat>)
    ensures forall k :: 0 <= k < |p| ==> p[k] < |rows| && InWindow(rows[p[k]], from, to)
    ensures forall k, l :: 0 <= k < l < |p| ==> p[k] < p[l]
    ensures forall i :: 0 <= i < |rows| && InWindow(rows[i], from, to) ==> i in p
  {
    if |rows| == 0 then []
    else
      var n := |rows| - 1;
      var init := Positions(rows[..n], from, to);
      init + (if InWindow(rows[n], from, to) then [n] else [])
  }

  /** One step of the mask: the last stored row is appended to the selection, and its
      position to the positions, exactly when it passes the test. */
  lemma MaskStep(rows: seq<Row>, from: int, to: int)
    requires |rows| > 0
    ensures var n := |rows| - 1;
      && Select(rows, from, to) ==
           Select(rows[..n], from, to) + (if InWindow(rows[n], from, to) then [rows[n]] else [])
      && Positions(rows, from, to) ==
           Positions(rows[..n], from, to) + (if InWindow(rows[n], from, to) then [n] else [])
  {
  }

  /** The stored rows read off at the given positions, in the order given. */
  function RowsAt(rows: seq<Row>, p: seq<nat>): (out: seq<Row>)
    requires forall k :: 0 <= k < |p| ==> p[k] < |rows|
    ensures |out| == |p|
    ensures forall k :: 0 <= k < |p| ==> out[k] == rows[p[k]]
  {
    seq(|p|, k requires 0 <= k < |p| => rows[p[k]])
  }

  /** Reading positions before the last row off the rows or off their prefix is the same. */
  lemma RowsAtPrefix(rows: seq<Row>, p: seq<nat>)
    requires |rows| > 0
    requires forall k :: 0 <= k < |p| ==> p[k] < |rows| - 1
    ensures RowsAt(rows, p) == RowsAt(rows[..|rows| - 1], p)
  {
  }

  /** Appending a position appends the row stored there. */
  lemma RowsAtAppend(rows: seq<Row>, p: seq<nat>, i: nat)
    requires forall k :: 0 <= k < |p| ==> p[k] < |rows|
    requires i < |rows|
    ensures RowsAt(rows, p + [i]) == RowsAt(rows, p) + [rows[i]]
  {
  }

  /** The selection is the stored rows read off at strictly ascending positions, and
      those positions are exactly the ones whose row passes the mask: nothing is
      reordered, duplicated, dropped or invented. */
  lemma {:induction false} SelectIsMaskedRows(rows: seq<Row>, from: int, to: int)
    ensures Select(rows, from, to) == RowsAt(rows, Positions(rows, from, to))
  {
    if |rows| > 0 {
      var n := |rows| - 1;
      var init := rows[..n];
      SelectIsMaskedRows(init, from, to);
      var p := Positions(init, from, to);
      MaskStep(rows, from, to);
      RowsAtPrefix(rows, p);
      if InWindow(rows[n], from, to) {
        RowsAtAppend(rows, p, n);
      }
    }
  }

  /** Each row occurs in the selection exactly as often as it is stored when it passes
      the mask, and not at all otherwise. */
  lemma {:induction false} SelectKeepsMultiplicity(rows: seq<Row>, from: int, to: int, r: Row)
    ensures multiset(Select(rows, from, to))[r] ==
      (if InWindow(r, from, to) then multiset(rows)[r] else 0)
  {
    if |rows| > 0 {
      var n := |rows| - 1;
      SelectKeepsMultiplicity(rows[..n], from, to, r);
      assert rows == rows[..n] + [rows[n]];
      assert multiset(rows) == multiset(rows[..n]) + multiset{rows[n]};
    }
  }

  /** When every stored row passes the mask, the selection is all of them. */
  lemma {:induction false} SelectAll(rows: seq<Row>, from: int, to: int)
    requires forall i :: 0 <= i < |rows| ==> InWindow(rows[i], from, to)
    ensures Select(rows, from, to) == rows
  {
    if |rows| > 0 {
      var n := |rows| - 1;
      SelectAll(rows[..n], from, to);
      assert rows == rows[..n] + [rows[n]];
    }
  }

  /** When no stored row passes the mask, the selection is empty. */
  lemma {:induction false} SelectNone(rows: seq<Row>, from: int, to: int)
    requires forall i :: 0 <= i < |rows| ==> !InWindow(rows[i], from, to)
    ensures Select(rows, from, to) == []
  {
    if |rows| > 0 {
      SelectNone(rows[..|rows| - 1], from, to);
    }
  }

  /** Validate the requested days against the dataset's covered days, then select.
      The bounds are compared by day; nothing checks that `from <= to`. */
  function Query(s: Store, from: int, to: int): (o: Outcome)
    requires Valid(s)
    ensures !o.Malformed?
    ensures o.OutOfRange? <==> from < s.dataStart || to > s.dataEnd
    ensures o.OutOfRange? ==> o.start == s.dataStart && o.end == s.dataEnd
    ensures o.Selected? ==> forall r :: r in o.rows <==> r in s.rows && InWindow(r, from, to)
  {
    if from < Day(MinTs(s.rows)) || to > Day(MaxTs(s.rows)) then
      OutOfRange(s.dataStart, s.dataEnd)
    else
      Selected(Select(s.rows, from, to))
  }

  /** The whole validate-then-select step of a range request: both date strings are
      parsed (the first one first), and a failure of either is a malformed request. */
  function GetDataRange(s: Store, parse: string -> Option<int>, fromText: string, toText: string): (o: Outcome)
    requires Valid(s)
    ensures o.Malformed? <==> parse(fromText).None? || parse(toText).None?
    ensures !o.Malformed? ==> o == Query(s, parse(fromText).value, parse(toText).value)
  {
    match parse(fromText)
    case None => Malformed
    case Some(from) =>
      match parse(toText)
      case None => Malformed
      case Some(to) => Query(s, from, to)
  }

  /** A request within the covered days always reaches selection. */
  lemma InBoundsIsSelected(s: Store, from: int, to: int)
    requires Valid(s)
    requires s.dataStart <= from && to <= s.dataEnd
    ensures Query(s, from, to) == Selected(Select(s.rows, from, to))
  {
  }

  /** Comparison is by calendar day: a stored row at any second of the last requested
      day, or at the first second of the first requested day, is returned. */
  lemma WholeDaysIncluded(s: Store, from: int, to: int, secs: int, r: Row)
    requires Valid(s)
    requires s.dataStart <= from <= to <= s.dataEnd
    requires 0 <= secs < SecondsPerDay
    requires r in s.rows
    requires r.ts == Midnight(to) + secs || r.ts == Midnight(from) + secs
    ensures r in Query(s, from, to).rows
  {
  }

  /** A row one second before the first requested day, or at midnight after the last
      requested day, is not returned. */
  lemma NeighbouringDaysExcluded(s: Store, from: int, to: int, r: Row)
    requires Valid(s)
    requires s.dataStart <= from && to <= s.dataEnd
    requires r.ts == Midnight(from) - 1 || r.ts == Midnight(to + 1)
    ensures r !in Query(s, from, to).rows
  {
  }

  /** A reversed range that passes the bounds check selects nothing and is not an error. */
  lemma ReversedRangeIsEmpty(s: Store, from: int, to: int)
    requires Valid(s)
    requires s.dataStart <= from && to <= s.dataEnd
    requires from > to
    ensures Query(s, from, to) == Selected([])
  {
    SelectNone(s.rows, from, to);
  }

  /** A one-day request returns exactly the stored rows on that day, each as often as
      it is stored, possibly none. */
  lemma SingleDayQuery(s: Store, d: int, r: Row)
    requires Valid(s)
    requires s.dataStart <= d <= s.dataEnd
    ensures Query(s, d, d).Selected?
    ensures r in Query(s, d, d).rows <==> r in s.rows && Day(r.ts) == d
    ensures multiset(Query(s, d, d).rows)[r] == (if Day(r.ts) == d then multiset(s.rows)[r] else 0)
  {
    SelectKeepsMultiplicity(s.rows, d, d, r);
  }

  /** Asking for exactly the covered days returns every stored row, in stored order. */
  lemma FullRangeReturnsAll(s: Store)
    requires Valid(s)
    ensures Query(s, s.dataStart, s.dataEnd) == Selected(s.rows)
  {
    ValidEnvelope(s);
    SelectAll(s.rows, s.dataStart, s.dataEnd);
  }
}
