/** `dump`: the command-line arguments it parses (the column list and the
    filter spec) and the loop that writes one record per row up to the row
    cap. The rows arrive already filtered and ordered by the database. */
module Dump {
  import opened Wrappers
  import opened Values
  import opened PyStr
  import opened TableLoader

  /** A query filter: `column == value`, or `column != None`. */
  datatype Filter = Equals(column: string, value: string) | NotNull(column: string)

  /** One comma-separated filter spec: split at its first `=` when it has
      one, otherwise a not-null test on the named column. */
  function FilterOf(spec: string): (f: Filter)
    ensures f.Equals? <==> '=' in spec
    ensures f.Equals? ==> '=' !in f.column && spec == f.column + "=" + f.value
    ensures f.NotNull? ==> f.column == spec
  {
    match IndexOf(spec, '=')
    case Some(k) =>
      assert spec == spec[..k] + "=" + spec[k + 1..];
      Equals(spec[..k], spec[k + 1..])
    case None => NotNull(spec)
  }

  /** The spec that stands for a filter. */
  function Render(f: Filter): string
  {
    match f
    case Equals(column, value) => column + "=" + value
    case NotNull(column) => column
  }

  /** Rendering a parsed spec gives the spec back. */
  lemma RenderFilterOf(spec: string)
    ensures Render(FilterOf(spec)) == spec
  {
  }

  /** Parsing a rendered filter gives it back, for every filter a spec can
      express: no `=` in the column name, and none at all in a not-null test. */
  lemma FilterOfRender(f: Filter)
    requires '=' !in f.column
    ensures FilterOf(Render(f)) == f
  {
    match f
    case Equals(column, value) =>
      var spec := Render(f);
      assert spec[|column|] == '=';
      assert spec[..|column|] == column;
    case NotNull(column) =>
  }

  /** The filters of the `filter` argument: none when it is absent or empty. */
  function FiltersOf(filter: Option<string>): (fs: seq<Filter>)
    ensures filter.Some? && filter.value != [] ==> |fs| == |SplitOn(filter.value, ',')|
  {
    if filter.None? || filter.value == [] then []
    else
      var specs := SplitOn(filter.value, ',');
      seq(|specs|, i requires 0 <= i < |specs| => FilterOf(specs[i]))
  }

  /** The filter loop of `dump`: each comma-separated spec in turn. */
  method ParseFilters(filter: Option<string>) returns (filters: seq<Filter>)
    ensures filters == FiltersOf(filter)
  {
    filters := [];
    if filter.Some? && filter.value != [] {
      var specs := SplitOn(filter.value, ',');
      for i := 0 to |specs|
        invariant filters == seq(i, j requires 0 <= j < i => FilterOf(specs[j]))
      {
        filters := filters + [FilterOf(specs[i])];
      }
    }
  }

  function RenderAll(fs: seq<Filter>): (specs: seq<string>)
    ensures |specs| == |fs| && forall i | 0 <= i < |fs| :: specs[i] == Render(fs[i])
  {
    seq(|fs|, i requires 0 <= i < |fs| => Render(fs[i]))
  }

  /** Nothing of a non-empty filter argument is lost: rendering the filters
      and joining them with commas gives the argument back. */
  lemma FiltersOfRender(filter: string)
    requires filter != []
    ensures Join(RenderAll(FiltersOf(Some(filter))), ',') == filter
  {
    var specs := SplitOn(filter, ',');
    forall i | 0 <= i < |specs|
      ensures RenderAll(FiltersOf(Some(filter)))[i] == specs[i]
    {
      RenderFilterOf(specs[i]);
    }
    assert RenderAll(FiltersOf(Some(filter))) == specs;
    JoinSplitOn(filter, ',');
  }

  /** The `columns` argument as `to_dict` receives it. An absent or empty
      argument is falsy and is not split: absent asks for every column, and
      the empty string iterates as no column at all. */
  function ColumnsArg(columns: Option<string>): (r: Option<seq<string>>)
    ensures columns.None? <==> r.None?
    ensures columns == Some([]) ==> r == Some([])
    ensures r.Some? && columns.value != [] ==> Join(r.value, ',') == columns.value
  {
    if columns.None? then None
    else if columns.value == [] then Some([])
    else
      JoinSplitOn(columns.value, ',');
      Some(SplitOn(columns.value, ','))
  }

  /** What a run of the write loop produced: the records of the first rows
      in order, then either the count of rows written, which reached
      `limit`, or the error of the row that stopped it before `limit`. */
  predicate Emitted(loader: Loader, rows: seq<Fields>, columns: Option<seq<string>>, limit: nat,
                    written: seq<Fields>, r: Result<nat, EncodeError>)
    requires limit <= |rows|
  {
    && |written| <= limit
    && (forall i | 0 <= i < |written| :: ToDict(loader, rows[i], columns) == Success(written[i]))
    && (r.Success? ==> r.value == |written| == limit)
    && (r.Failure? ==> |written| < limit && ToDict(loader, rows[|written|], columns) == Failure(r.error))
  }

  /** How many rows the loop writes as written: it tests the count only
      after writing a row, so a cap of zero or less still lets one row out. */
  function RowLimitAsWritten(number: Option<int>, available: nat): (n: nat)
    ensures n <= available
    ensures number.Some? && available > 0 ==> n >= 1
  {
    if number.None? then available
    else if number.value < 1 then (if available == 0 then 0 else 1)
    else if number.value < available then number.value
    else available
  }

  /** The cap as intended: at most `number` rows, none when it is zero or less. */
  function RowLimit(number: Option<int>, available: nat): (n: nat)
    ensures n <= available
    ensures number.Some? ==> n <= if number.value < 0 then 0 else number.value
    ensures number.None? ==> n == available
    ensures number.Some? && number.value >= available ==> n == available
    ensures number.Some? && 0 <= number.value <= available ==> n == number.value
  {
    if number.None? then available
    else if number.value < 0 then 0
    else if number.value < available then number.value
    else available
  }

  /** Both caps agree whenever `number` is absent or positive. */
  lemma RowLimitsAgree(number: Option<int>, available: nat)
    requires number.None? || number.value >= 1
    ensures RowLimitAsWritten(number, available) == RowLimit(number, available)
  {
  }

  /** `dump --number 0` over a table with a row: one row as written, none intended. */
  lemma RowLimitDiscrepancy()
    ensures RowLimitAsWritten(Some(0), 1) == 1
    ensures RowLimit(Some(0), 1) == 0
  {
  }

  /** The write loop of `dump` as written: write the row, count it, then
      stop once the count reaches `number`. */
  method DumpAsWritten(loader: Loader, rows: seq<Fields>, columns: Option<string>, number: Option<int>)
    returns (written: seq<Fields>, r: Result<nat, EncodeError>)
    ensures Emitted(loader, rows, ColumnsArg(columns), RowLimitAsWritten(number, |rows|), written, r)
  {
    var cols := ColumnsArg(columns);
    ghost var limit := RowLimitAsWritten(number, |rows|);
    var count := 0;
    written := [];
    while count < |rows|
      invariant count == |written| <= limit
      invariant count == 0 || number.None? || count < number.value
      invariant forall i | 0 <= i < count :: ToDict(loader, rows[i], cols) == Success(written[i])
    {
      var record := ToDict(loader, rows[count], cols);
      if record.Failure? {
        return written, Failure(record.error);
      }
      written := written + [record.value];
      count := count + 1;
      if number.Some? && count >= number.value {
        break;
      }
    }
    r := Success(count);
  }

  /** The write loop with the cap tested before each row. */
  method DumpCapped(loader: Loader, rows: seq<Fields>, columns: Option<string>, number: Option<int>)
    returns (written: seq<Fields>, r: Result<nat, EncodeError>)
    ensures Emitted(loader, rows, ColumnsArg(columns), RowLimit(number, |rows|), written, r)
  {
    var cols := ColumnsArg(columns);
    ghost var limit := RowLimit(number, |rows|);
    var count := 0;
    written := [];
    while count < |rows| && (number.None? || count < number.value)
      invariant count == |written| <= limit
      invariant forall i | 0 <= i < count :: ToDict(loader, rows[i], cols) == Success(written[i])
    {
      var record := ToDict(loader, rows[count], cols);
      if record.Failure? {
        return written, Failure(record.error);
      }
      written := written + [record.value];
      count := count + 1;
    }
    r := Success(count);
  }
}
