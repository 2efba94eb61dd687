/**
 The reply the range endpoint produces from the outcome of validate-then-select,
 once the handler's exception clauses have had their say.

 Two definitions are kept side by side. `HandleAsWritten` follows the handler as
 it stands: the bounds error is raised inside the `try` and so is re-raised by the
 catch-all clause as an internal error, and building the output list refers to a
 name that is never bound, so any non-empty selection ends in an internal error as
 well. `Handle` is the evidently intended reply: a bounds error is a client error
 carrying the covered days, and a selection is returned in full.
 */
module Endpoint {
  import opened Options
  import opened Dataset
  import opened RangeQuery

  const BadRequest: int := 400
  const InternalServerError: int := 500

  /** Why a request produced no data. */
  datatype Failure =
    | InvalidDateFormat                       // a date string did not parse
    | OutsideAvailableRange(start: int, end: int)
    | UndefinedName(name: string)             // an unbound name met while building the output

  datatype Reply =
    | Body(fromDate: string, toDate: string, data: seq<Row>)
    | Error(status: int, cause: Failure)

  /** The handler as written. */
  function HandleAsWritten(s: Store, parse: string -> Option<int>, fromText: string, toText: string): (r: Reply)
    requires Valid(s)
    ensures r.Body? <==> GetDataRange(s, parse, fromText, toText) == Selected([])
    ensures r.Body? ==> r.data == [] && r.fromDate == fromText && r.toDate == toText
    ensures var o := GetDataRange(s, parse, fromText, toText);
      o.Selected? && |o.rows| > 0 ==> r == Error(InternalServerError, UndefinedName("timestamp"))
    ensures GetDataRange(s, parse, fromText, toText).Malformed? ==> r == Error(BadRequest, InvalidDateFormat)
    ensures GetDataRange(s, parse, fromText, toText).OutOfRange? ==>
      r == Error(InternalServerError, OutsideAvailableRange(s.dataStart, s.dataEnd))
  {
    match GetDataRange(s, parse, fromText, toText)
    case Malformed => Error(BadRequest, InvalidDateFormat)
    case OutOfRange(start, end) =>
      // the bounds error is itself an exception, caught by the catch-all clause
      Error(InternalServerError, OutsideAvailableRange(start, end))
    case Selected(rows) =>
      if |rows| == 0 then Body(fromText, toText, [])
      else Error(InternalServerError, UndefinedName("timestamp"))
  }

  /** The handler as evidently intended. */
  function Handle(s: Store, parse: string -> Option<int>, fromText: string, toText: string): (r: Reply)
    requires Valid(s)
    ensures r.Body? <==> GetDataRange(s, parse, fromText, toText).Selected?
    ensures r.Body? ==> r.fromDate == fromText && r.toDate == toText
    ensures r.Body? ==> forall x :: x in r.data <==>
      x in s.rows && InWindow(x, parse(fromText).value, parse(toText).value)
    ensures r.Body? ==> r.data == Select(s.rows, parse(fromText).value, parse(toText).value)
    ensures r.Error? ==> r.status == BadRequest && !r.cause.UndefinedName?
    ensures GetDataRange(s, parse, fromText, toText).OutOfRange? ==>
      r == Error(BadRequest, OutsideAvailableRange(s.dataStart, s.dataEnd))
  {
    match GetDataRange(s, parse, fromText, toText)
    case Malformed => Error(BadRequest, InvalidDateFormat)
    case OutOfRange(start, end) => Error(BadRequest, OutsideAvailableRange(start, end))
    case Selected(rows) => Body(fromText, toText, rows)
  }

  /** The two handlers differ only on the defective paths: a malformed request and an
      in-range request matching nothing get the same reply from both. */
  lemma HandlersAgreeOffDefects(s: Store, parse: string -> Option<int>, fromText: string, toText: string)
    requires Valid(s)
    requires GetDataRange(s, parse, fromText, toText).Malformed? ||
             GetDataRange(s, parse, fromText, toText) == Selected([])
    ensures HandleAsWritten(s, parse, fromText, toText) == Handle(s, parse, fromText, toText)
  {
  }

  /** One row at 01:00 on day 0. */
  function OneRowStore(): (s: Store)
    ensures Valid(s) && s.dataStart == 0 && s.dataEnd == 0
  {
    Store([Row(3600, map[])], 0, 0)
  }

  /** A stand-in for the date parser that knows two dates. */
  function TwoDateParser(): string -> Option<int>
  {
    t => if t == "1970-01-01" then Some(0) else if t == "1970-01-02" then Some(1) else None
  }

  /** Asking the one-row store for its only day selects its row, yet the handler as
      written replies with an internal error; the intended handler returns the row. */
  lemma UndefinedNameWitness()
    ensures GetDataRange(OneRowStore(), TwoDateParser(), "1970-01-01", "1970-01-01")
      == Selected(OneRowStore().rows)
    ensures HandleAsWritten(OneRowStore(), TwoDateParser(), "1970-01-01", "1970-01-01")
      == Error(InternalServerError, UndefinedName("timestamp"))
    ensures Handle(OneRowStore(), TwoDateParser(), "1970-01-01", "1970-01-01")
      == Body("1970-01-01", "1970-01-01", OneRowStore().rows)
  {
    var s, parse := OneRowStore(), TwoDateParser();
    assert parse("1970-01-01") == Some(0);
    assert InWindow(s.rows[0], 0, 0);
    MaskStep(s.rows, 0, 0);
    assert Query(s, 0, 0) == Selected(s.rows);
  }

  /** Asking the one-row store for a day past its last one is out of range, yet the
      handler as written replies with an internal error rather than a client error. */
  lemma OutOfRangeWitness()
    ensures GetDataRange(OneRowStore(), TwoDateParser(), "1970-01-01", "1970-01-02")
      == OutOfRange(0, 0)
    ensures HandleAsWritten(OneRowStore(), TwoDateParser(), "1970-01-01", "1970-01-02").status
      == InternalServerError
    ensures Handle(OneRowStore(), TwoDateParser(), "1970-01-01", "1970-01-02")
      == Error(BadRequest, OutsideAvailableRange(0, 0))
  {
  }
}
