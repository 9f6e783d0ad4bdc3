/** `TableLoader`: how `dump` and `load` turn the rows of one table into
    JSON-ready records and back. Date columns travel as `YYYY-MM-DD` text,
    every other column as it is. */
module TableLoader {
  import opened Wrappers
  import opened Values
  import opened Dates

  /** A column of the mapped table: its name and whether its type is `Date`. */
  datatype Column = Column(name: string, isDate: bool)

  /** The two encoders the loader files: `identity` and `v.isoformat()`. */
  datatype Encoder = IdentityEncoder | IsoFormatEncoder

  /** The two decoders the loader files: `identity` and `parse_date`. */
  datatype Decoder = IdentityDecoder | ParseDateDecoder

  /** The loader's state once built. Nothing changes it afterwards. */
  datatype Loader = Loader(columns: seq<string>, encoder: map<string, Encoder>, decoder: map<string, Decoder>)

  /** For each column name, whether the last column of that name is a date
      column: a later column of the same name overwrites the encoder and
      decoder an earlier one filed. */
  function DateColumns(table: seq<Column>): map<string, bool>
  {
    if table == [] then map[]
    else
      var last := table[|table| - 1];
      DateColumns(table[..|table| - 1])[last.name := last.isDate]
  }

  /** Every column name is filed, and a column no later column shares its
      name with decides its kind. */
  lemma {:induction false} DateColumnsFiles(table: seq<Column>, i: nat)
    requires i < |table|
    requires forall j | i < j < |table| :: table[j].name != table[i].name
    ensures table[i].name in DateColumns(table) && DateColumns(table)[table[i].name] == table[i].isDate
  {
    if i < |table| - 1 {
      var init := table[..|table| - 1];
      assert init[i] == table[i];
      DateColumnsFiles(init, i);
    }
  }

  /** Only column names are filed. */
  lemma {:induction false} DateColumnsKeys(table: seq<Column>)
    ensures forall name | name in DateColumns(table) :: exists i | 0 <= i < |table| :: table[i].name == name
  {
    if table != [] {
      var init := table[..|table| - 1];
      DateColumnsKeys(init);
      forall name | name in DateColumns(table)
        ensures exists i | 0 <= i < |table| :: table[i].name == name
      {
        if name != table[|table| - 1].name {
          assert name in DateColumns(init);
          var i :| 0 <= i < |init| && init[i].name == name;
          assert table[i] == init[i];
        }
      }
    }
  }

  function Names(table: seq<Column>): (names: seq<string>)
    ensures |names| == |table| && forall i | 0 <= i < |table| :: names[i] == table[i].name
  {
    if table == [] then [] else Names(table[..|table| - 1]) + [table[|table| - 1].name]
  }

  function EncoderFor(isDate: bool): Encoder
  {
    if isDate then IsoFormatEncoder else IdentityEncoder
  }

  function DecoderFor(isDate: bool): Decoder
  {
    if isDate then ParseDateDecoder else IdentityDecoder
  }

  function Encoders(kinds: map<string, bool>): map<string, Encoder>
  {
    map name | name in kinds :: EncoderFor(kinds[name])
  }

  function Decoders(kinds: map<string, bool>): map<string, Decoder>
  {
    map name | name in kinds :: DecoderFor(kinds[name])
  }

  /** The loader built for a table. */
  function LoaderFor(table: seq<Column>): Loader
  {
    Loader(Names(table), Encoders(DateColumns(table)), Decoders(DateColumns(table)))
  }

  /** Filing one more column updates both maps at that name only. */
  lemma FileColumn(kinds: map<string, bool>, name: string, isDate: bool)
    ensures Encoders(kinds[name := isDate]) == Encoders(kinds)[name := EncoderFor(isDate)]
    ensures Decoders(kinds[name := isDate]) == Decoders(kinds)[name := DecoderFor(isDate)]
  {
  }

  lemma DateColumnsStep(table: seq<Column>, i: nat)
    requires i < |table|
    ensures DateColumns(table[..i + 1]) == DateColumns(table[..i])[table[i].name := table[i].isDate]
    ensures Names(table[..i + 1]) == Names(table[..i]) + [table[i].name]
  {
    assert table[..i + 1][..i] == table[..i];
  }

  /** Encoder and decoder are filed for the same columns, and a column gets
      `isoformat` exactly when it gets `parse_date`. */
  predicate Paired(loader: Loader)
  {
    && loader.encoder.Keys == loader.decoder.Keys
    && forall c | c in loader.encoder :: loader.encoder[c].IsoFormatEncoder? <==> loader.decoder[c].ParseDateDecoder?
  }

  /** `TableLoader.__init__` once the model of the table is found: every
      column in table order, with `isoformat`/`parse_date` filed for date
      columns and `identity` for the rest. */
  method NewLoader(table: seq<Column>) returns (loader: Loader)
    ensures loader == LoaderFor(table) && Paired(loader)
  {
    var columns: seq<string> := [];
    var encoder: map<string, Encoder> := map[];
    var decoder: map<string, Decoder> := map[];
    ghost var kinds: map<string, bool> := map[];
    for i := 0 to |table|
      invariant columns == Names(table[..i]) && kinds == DateColumns(table[..i])
      invariant encoder == Encoders(kinds) && decoder == Decoders(kinds)
    {
      var col := table[i];
      DateColumnsStep(table, i);
      FileColumn(kinds, col.name, col.isDate);
      columns := columns + [col.name];
      kinds := kinds[col.name := col.isDate];
      if col.isDate {
        encoder := encoder[col.name := IsoFormatEncoder];
        decoder := decoder[col.name := ParseDateDecoder];
      } else {
        encoder := encoder[col.name := IdentityEncoder];
        decoder := decoder[col.name := IdentityDecoder];
      }
    }
    assert table[..|table|] == table;
    loader := Loader(columns, encoder, decoder);
  }

  /** Why `to_dict` raises. */
  datatype EncodeError =
    | UnknownColumn(column: string) // the `KeyError` of `self.encoder[col]`
    | NotADate(column: string)      // the `AttributeError` of `isoformat` on a non-date

  /** One value through its encoder. */
  function EncodeValue(enc: Encoder, v: Value): Option<Value>
  {
    match enc
    case IdentityEncoder => Some(v)
    case IsoFormatEncoder => if v.DateV? then Some(StrV(IsoFormat(v.date))) else None
  }

  /** The columns in order; the first that fails decides the error. */
  function EncodeColumns(loader: Loader, row: Fields, columns: seq<string>): Result<Fields, EncodeError>
  {
    if columns == [] then Success(map[])
    else
      var col := columns[|columns| - 1];
      match EncodeColumns(loader, row, columns[..|columns| - 1])
      case Failure(e) => Failure(e)
      case Success(m) =>
        if col !in loader.encoder then Failure(UnknownColumn(col))
        else match EncodeValue(loader.encoder[col], Get(row, col))
          case None => Failure(NotADate(col))
          case Some(v) => Success(m[col := v])
  }

  /** `to_dict(row, columns)`: the loader's own columns when none are given. */
  function ToDict(loader: Loader, row: Fields, columns: Option<seq<string>>): (r: Result<Fields, EncodeError>)
    ensures var asked := if columns.Some? then columns.value else loader.columns;
      && (r.Success? ==> r.value.Keys == set c | c in asked)
      && (r.Failure? ==> r.error.column in asked)
  {
    var asked := if columns.Some? then columns.value else loader.columns;
    EncodeColumnsSpec(loader, row, asked);
    EncodeColumns(loader, row, asked)
  }

  /** A column `to_dict` can write: filed, and holding a date if it is a date column. */
  predicate Encodable(loader: Loader, row: Fields, col: string)
  {
    col in loader.encoder && (loader.encoder[col].IsoFormatEncoder? ==> Get(row, col).DateV?)
  }

  /** Encoding succeeds exactly when every asked column is encodable; it then
      holds one entry per asked column, a date as its `isoformat` text and any
      other value unchanged. On failure the error names an asked column that
      is not encodable. */
  lemma {:induction false} EncodeColumnsSpec(loader: Loader, row: Fields, columns: seq<string>)
    ensures var r := EncodeColumns(loader, row, columns);
      && (r.Success? <==> forall c | c in columns :: Encodable(loader, row, c))
      && (r.Success? ==> r.value.Keys == (set c | c in columns) && forall c | c in r.value ::
            r.value[c] == if loader.encoder[c].IsoFormatEncoder? then StrV(IsoFormat(Get(row, c).date)) else Get(row, c))
      && (r.Failure? ==> r.error.column in columns && !Encodable(loader, row, r.error.column)
                         && (r.error.UnknownColumn? <==> r.error.column !in loader.encoder))
  {
    if columns != [] {
      var init, col := columns[..|columns| - 1], columns[|columns| - 1];
      assert columns == init + [col];
      assert forall c :: c in columns <==> c in init || c == col;
      EncodeColumnsSpec(loader, row, init);
      if EncodeColumns(loader, row, init).Success? && Encodable(loader, row, col) {
        assert EncodeColumns(loader, row, columns).Success?;
      }
    }
  }

  /** Why `decode_dict` raises. */
  datatype DecodeError =
    | UnknownField(column: string) // the `KeyError` of `self.decoder[col]`
    | NotAString(column: string)   // the `TypeError` of `parse_date` on a non-string
    | BadDate(column: string)      // the `ValueError` of `parse_date`

  /** One value through its decoder. */
  function DecodeValue(col: string, dec: Decoder, v: Value): Result<Value, DecodeError>
  {
    match dec
    case IdentityDecoder => Success(v)
    case ParseDateDecoder =>
      if !v.StrV? then Failure(NotAString(col))
      else match ParseDate(v.s)
        case None => Failure(BadDate(col))
        case Some(d) => Success(DateV(d))
  }

  function DecodeField(loader: Loader, encoded: Fields, col: string): Result<Value, DecodeError>
    requires col in encoded
  {
    if col !in loader.decoder then Failure(UnknownField(col))
    else DecodeValue(col, loader.decoder[col], encoded[col])
  }

  /** The errors of the fields that do not decode. */
  function DecodeErrors(loader: Loader, encoded: Fields): set<DecodeError>
  {
    set c | c in encoded && DecodeField(loader, encoded, c).Failure? :: DecodeField(loader, encoded, c).error
  }

  /** `decode_dict(encoded_row)`: every field through its column's decoder.
      A record with failing fields is refused with all of their errors. */
  function DecodeDict(loader: Loader, encoded: Fields): (r: Result<Fields, set<DecodeError>>)
    ensures r.Success? ==> r.value.Keys == encoded.Keys
    ensures r.Failure? ==> r.error != {}
    ensures r.Failure? ==> forall e | e in r.error :: e.column in encoded && DecodeField(loader, encoded, e.column) == Failure(e)
  {
    var errors := DecodeErrors(loader, encoded);
    if errors == {} then
      Success(map c | c in encoded :: if DecodeField(loader, encoded, c).Success? then DecodeField(loader, encoded, c).value else NoneV)
    else Failure(errors)
  }

  /** A field that decodes stands in the result; a field that does not is
      reported. */
  lemma DecodeDictFields(loader: Loader, encoded: Fields, c: string)
    requires c in encoded
    ensures var r := DecodeDict(loader, encoded);
      && (DecodeField(loader, encoded, c).Failure? ==> r.Failure? && DecodeField(loader, encoded, c).error in r.error)
      && (r.Success? ==> DecodeField(loader, encoded, c) == Success(r.value[c]))
  {
    if DecodeField(loader, encoded, c).Failure? {
      assert DecodeField(loader, encoded, c).error in DecodeErrors(loader, encoded);
    }
  }

  /** `decode_dict(to_dict(row, columns))` gives back the row's value in
      every asked column: dates survive the `YYYY-MM-DD` round trip and all
      other values pass through unchanged. */
  lemma DecodeToDict(loader: Loader, row: Fields, columns: seq<string>)
    requires Paired(loader)
    requires ToDict(loader, row, Some(columns)).Success?
    ensures DecodeDict(loader, ToDict(loader, row, Some(columns)).value)
            == Success(map c | c in columns :: Get(row, c))
  {
    var e := ToDict(loader, row, Some(columns)).value;
    EncodeColumnsSpec(loader, row, columns);
    forall c | c in e
      ensures DecodeField(loader, e, c) == Success(Get(row, c))
    {
      if loader.encoder[c].IsoFormatEncoder? {
        ParseIsoFormat(Get(row, c).date);
      }
    }
    assert DecodeErrors(loader, e) == {};
    var r := DecodeDict(loader, e);
    forall c | c in e
      ensures r.value[c] == Get(row, c)
    {
      DecodeDictFields(loader, e, c);
    }
    assert r.value == map c | c in columns :: Get(row, c);
  }
}
