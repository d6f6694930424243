/**
 The dashboard callbacks as pure functions of the normalised table and the
 dropdown selections: the dependent option list, its default value, the
 filtered data table and the histogram's data and title.
 */
module App {
  import opened Wrappers
  import opened Flags
  import opened Text
  import opened Ingest

  /** The exceptions a callback can raise. */
  datatype AppError = KeyError | IndexError | TypeError | UnboundLocalError

  /** The option lists of the dependent dropdown, per mode. */
  const FilterOptions: map<string, seq<string>> := map[
    "audience" := ["adults", "youth", "older_adults", "families"],
    "service" := [
      "sud_residential", "substance_use", "mental_health", "mental_health_and_sud", "housing",
      "mh_residential", "opioid", "crisis_services", "involuntary", "detox"]]

  /** One `{'label': ..., 'value': ...}` entry of a dropdown; `text` is the label. */
  datatype DropdownOption = DropdownOption(text: string, value: string)

  function OptionValues(options: seq<DropdownOption>): (vs: seq<string>)
    ensures |vs| == |options|
    ensures forall i :: 0 <= i < |options| ==> vs[i] == options[i].value
  {
    seq(|options|, i requires 0 <= i < |options| => options[i].value)
  }

  /** `decide_filter`: one option per entry of the mode's list, in list order,
      labelled by its own value; a cleared or unknown mode is a `KeyError`. */
  function DecideFilter(selection: Option<string>): (r: Result<seq<DropdownOption>, AppError>)
    ensures r.Success? <==> selection == Some("audience") || selection == Some("service")
    ensures r.Failure? ==> r.error == KeyError
    ensures r.Success? ==> OptionValues(r.value) == FilterOptions[selection.value]
    ensures r.Success? ==> forall o :: o in r.value ==> o.text == o.value
  {
    if selection.Some? && selection.value in FilterOptions then
      var names := FilterOptions[selection.value];
      Success(seq(|names|, i requires 0 <= i < |names| => DropdownOption(names[i], names[i])))
    else
      Failure(KeyError)
  }

  /** `set_filter_value`: the value of the first option; `IndexError` when there is none. */
  function SetFilterValue(options: seq<DropdownOption>): (r: Result<string, AppError>)
    ensures r.Success? <==> |options| > 0
    ensures r.Success? ==> r.value == options[0].value && r.value in OptionValues(options)
    ensures r.Failure? ==> r.error == IndexError
  {
    if |options| == 0 then Failure(IndexError) else Success(options[0].value)
  }

  /* ------------------------------------------------------------- data table */

  /** The two choices of the mode dropdown. */
  datatype Mode = AudienceMode | ServiceMode

  function ModeName(mode: Mode): string
  {
    match mode
    case AudienceMode => "audience"
    case ServiceMode => "service"
  }

  function ModeKind(mode: Mode): Kind
  {
    match mode
    case AudienceMode => AudienceKind
    case ServiceMode => ServiceKind
  }

  /** The column the mode names. */
  function Collection(row: Row, mode: Mode): seq<string>
  {
    match mode
    case AudienceMode => row.audience
    case ServiceMode => row.service
  }

  /** The row passes both filters of `update_table`: its zipcode equals the
      selected one, and its mode column contains the selected value (`None in
      list` is False). */
  predicate Selected(row: Row, zipcode: Option<string>, mode: Mode, value: Option<string>)
  {
    zipcode == Some(row.zipcode) && value.Some? && value.value in Collection(row, mode)
  }

  /** The rows of the table that pass both filters, in table order. */
  function Matching(table: seq<Row>, zipcode: Option<string>, mode: Mode, value: Option<string>): (rows: seq<Row>)
    ensures |rows| <= |table|
    ensures forall row :: row in rows <==> row in table && Selected(row, zipcode, mode, value)
  {
    if |table| == 0 then []
    else
      var last := table[|table| - 1];
      assert table == table[..|table| - 1] + [last];
      Matching(table[..|table| - 1], zipcode, mode, value) + (if Selected(last, zipcode, mode, value) then [last] else [])
  }

  /** A record of the data table as `to_dict("records")` gives it. */
  datatype DisplayRow = DisplayRow(
    provider: string,
    zipcode: string,
    audience: string,
    service: string,
    notes: Option<string>)

  /** A matching row rendered for display: list cells joined, empty notes as `None`. */
  function Display(row: Row): (d: DisplayRow)
    ensures d.provider == row.provider && d.zipcode == row.zipcode
    ensures d.notes.None? <==> row.notes == [] || row.notes == [""]
  {
    var notes := Join(row.notes);
    DisplayRow(row.provider, row.zipcode, Join(row.audience), Join(row.service),
      if notes == "" then None else Some(notes))
  }

  /** Each row rendered, in order. */
  function DisplayAll(rows: seq<Row>): (shown: seq<DisplayRow>)
    ensures |shown| == |rows|
    ensures forall d :: d in shown <==> exists row :: row in rows && d == Display(row)
  {
    if |rows| == 0 then []
    else
      var last := rows[|rows| - 1];
      assert rows == rows[..|rows| - 1] + [last];
      DisplayAll(rows[..|rows| - 1]) + [Display(last)]
  }

  /** The body of `update_table` once a mode is chosen: the rendered rows that
      pass both filters; empty when none does. */
  function FilterTable(table: seq<Row>, zipcode: Option<string>, mode: Mode, value: Option<string>): (shown: seq<DisplayRow>)
    ensures |shown| <= |table|
    ensures forall d :: d in shown <==>
      exists row :: row in table && Selected(row, zipcode, mode, value) && d == Display(row)
    ensures shown == [] <==> forall row :: row in table ==> !Selected(row, zipcode, mode, value)
    ensures forall d :: d in shown ==> zipcode == Some(d.zipcode)
  {
    var matched := Matching(table, zipcode, mode, value);
    if |matched| > 0 then
      assert matched[0] in matched;
      DisplayAll(matched)
    else
      []
  }

  /** `update_table`. The mode dropdown offers only the two modes, or `None`
      once cleared; indexing the frame by a cleared mode raises `KeyError`. */
  function UpdateTable(table: seq<Row>, zipcode: Option<string>, mode: Option<Mode>, value: Option<string>)
    : (r: Result<seq<DisplayRow>, AppError>)
    ensures r.Success? <==> mode.Some?
    ensures mode.None? ==> r == Failure(KeyError)
    ensures r.Success? ==> forall d :: d in r.value <==>
      exists row :: row in table && Selected(row, zipcode, mode.value, value) && d == Display(row)
    ensures r.Success? ==> (r.value == [] <==> forall row :: row in table ==> !Selected(row, zipcode, mode.value, value))
  {
    match mode
    case None => Failure(KeyError)
    case Some(m) => Success(FilterTable(table, zipcode, m, value))
  }

  /* -------------------------------------------------------------- histogram */

  /** The columns of the normalised table, which `explode` accepts. */
  const TableColumns: seq<string> := ["provider", "zipcode", "audience", "service", "notes"]

  function ParseMode(name: string): (mode: Option<Mode>)
    ensures mode.Some? <==> name == "audience" || name == "service"
    ensures mode.Some? ==> ModeName(mode.value) == name
  {
    if name == "audience" then Some(AudienceMode)
    else if name == "service" then Some(ServiceMode)
    else None
  }

  /** The histogram handed to the plotting library. */
  datatype Graph = Graph(title: string, column: string, rows: seq<Row>, x: seq<Option<string>>)

  /** The rows of one zipcode, in table order. */
  function ZipRows(table: seq<Row>, zipcode: string): (rows: seq<Row>)
    ensures |rows| <= |table|
    ensures forall row :: row in rows <==> row in table && row.zipcode == zipcode
  {
    if |table| == 0 then []
    else
      var last := table[|table| - 1];
      assert table == table[..|table| - 1] + [last];
      ZipRows(table[..|table| - 1], zipcode) + (if last.zipcode == zipcode then [last] else [])
  }

  /** Each element wrapped as a non-null cell. */
  function Somes(c: seq<string>): (xs: seq<Option<string>>)
    ensures |xs| == |c|
    ensures forall v :: Some(v) in xs <==> v in c
    ensures None !in xs
  {
    if |c| == 0 then []
    else
      assert c == c[..|c| - 1] + [c[|c| - 1]];
      Somes(c[..|c| - 1]) + [Some(c[|c| - 1])]
  }

  /** The values `explode` gives one row: one per element, or one NaN for an empty list. */
  function ExplodeRow(row: Row, mode: Mode): (xs: seq<Option<string>>)
    ensures |xs| > 0
    ensures forall v :: Some(v) in xs <==> v in Collection(row, mode)
  {
    var c := Collection(row, mode);
    if |c| == 0 then [None] else Somes(c)
  }

  /** The exploded mode column of `rows`, the histogram's x values. */
  function Explode(rows: seq<Row>, mode: Mode): (xs: seq<Option<string>>)
    ensures |xs| >= |rows|
    ensures forall v :: Some(v) in xs <==> exists row :: row in rows && v in Collection(row, mode)
    ensures (exists row :: row in rows && Collection(row, mode) == []) ==> None in xs
  {
    if |rows| == 0 then []
    else
      var last := rows[|rows| - 1];
      assert rows == rows[..|rows| - 1] + [last];
      Explode(rows[..|rows| - 1], mode) + ExplodeRow(last, mode)
  }

  function Title(mode: Mode, zipcode: string): string
  {
    "Distribution of providers per " + ModeName(mode) + " type in " + zipcode
  }

  /** `display_graph`. `explode` looks a cleared mode (`None`) up as a column
      label, so it raises `KeyError` for it as for any name that is not a
      column; a column other than the two modes leaves the title unbound; a
      cleared zipcode cannot be concatenated to the title. */
  function DisplayGraph(table: seq<Row>, zipcode: Option<string>, mode: Option<string>): (r: Result<Graph, AppError>)
    ensures r.Success? <==> zipcode.Some? && (mode == Some("audience") || mode == Some("service"))
    ensures mode.None? ==> r == Failure(KeyError)
    ensures mode.Some? && mode.value !in TableColumns ==> r == Failure(KeyError)
    ensures mode.Some? && mode.value in TableColumns && ParseMode(mode.value).None? ==> r == Failure(UnboundLocalError)
    ensures mode.Some? && ParseMode(mode.value).Some? && zipcode.None? ==> r == Failure(TypeError)
    ensures r.Success? ==> forall row :: row in r.value.rows <==> row in table && row.zipcode == zipcode.value
    ensures r.Success? ==> forall v :: Some(v) in r.value.x <==>
      exists row :: row in table && row.zipcode == zipcode.value && v in Collection(row, ParseMode(mode.value).value)
    ensures r.Success? ==> |r.value.title| >= |zipcode.value| && r.value.title[|r.value.title| - |zipcode.value|..] == zipcode.value
  {
    if mode.None? || mode.value !in TableColumns then Failure(KeyError)
    else
      match ParseMode(mode.value)
      case None => Failure(UnboundLocalError)
      case Some(m) =>
        if zipcode.None? then Failure(TypeError)
        else
          var rows := ZipRows(table, zipcode.value);
          Success(Graph(Title(m, zipcode.value), mode.value, rows, Explode(rows, m)))
  }
}
