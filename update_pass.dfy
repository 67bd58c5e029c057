/**
 * The crop-type update of a state's field shapefile from the per-year stats tables
 * exported by Earth Engine: the stats rows as pandas reads them, the check loop over
 * them, the coverage filter of the LandIQ tables, write_features, the overwrite clear,
 * and the order of the passes (CDL for most states; LandIQ then composite for CA).
 */
module UpdatePass {
  import opened Wrappers
  import opened Strings
  import opened FieldStore

  /** One value of a stats table as pandas hands it back from the CSV. */
  datatype Cell = IntCell(i: int) | FloatCell(r: real) | NaNCell | NoneCell | TextCell(s: string)

  /** The columns of one row (the OPENET_ID index column is not among them). */
  type Row = map<string, Cell>

  datatype StatsRow = StatsRow(id: string, cells: Row)

  /** A stats table: its rows in file order. */
  type StatsFile = seq<StatsRow>

  function CropField(y: int): string { "CROP_" + IntToString(y) }

  function SrcField(y: int): string { "CSRC_" + IntToString(y) }

  // ---------------------------------------------------------------------------
  // reading a row

  /** Python's int() of a float: truncation toward zero. */
  function Trunc(r: real): (t: int)
    ensures 0.0 <= r ==> t as real <= r < t as real + 1.0
    ensures r < 0.0 ==> t as real - 1.0 < r <= t as real
  {
    if r >= 0.0 then r.Floor else -((-r).Floor)
  }

  /** int(value), or None where it raises (NaN, None, text that is not an integer). */
  function CellInt(c: Cell): Option<int>
  {
    match c
    case IntCell(i) => Some(i)
    case FloatCell(r) => Some(Trunc(r))
    case NaNCell => None
    case NoneCell => None
    case TextCell(s) => PyInt(s)
  }

  /** new_crop_type: int(values['CROP_<y>']), 0 when the column is missing or int() raises. */
  function NewCode(row: Row, y: int): int
  {
    var f := CropField(y);
    if f in row && CellInt(row[f]).Some? then CellInt(row[f]).value else 0
  }

  /**
   * new_crop_src: values['CSRC_<y>'], '' when the column is missing. The source column
   * is taken to hold text; a float or NaN cell (an empty CSV cell) is read as ''.
   */
  function NewSource(row: Row, y: int): string
  {
    var f := SrcField(y);
    if f !in row then ""
    else match row[f]
      case TextCell(s) => s
      case IntCell(i) => IntToString(i)
      case _ => ""
  }

  // ---------------------------------------------------------------------------
  // write_features

  /** One feature of the loop in write_features. */
  function WriteFeature(f: Feature, stats: map<string, Row>, y: int, overwrite: bool): (g: Feature)
    ensures Untouched(f, g, {y})
    ensures Id(f).None? || Id(f).value !in stats ==> g == f
    ensures !overwrite && Code(f, y) > 0 ==> g == f
    ensures Id(f).Some? && Id(f).value in stats && NewCode(stats[Id(f).value], y) == 0 ==> g == f
    ensures Id(f).Some? && Id(f).value in stats && NewCode(stats[Id(f).value], y) != 0
            && (overwrite || Code(f, y) <= 0) ==>
              Code(g, y) == NewCode(stats[Id(f).value], y)
              && Source(g, y) == NewSource(stats[Id(f).value], y)
  {
    match Id(f)
    case None => f
    case Some(id) =>
      if id !in stats then f
      else
        var code := NewCode(stats[id], y);
        if code == 0 then f
        else if Code(f, y) > 0 && !overwrite then f
        else SetYear(f, y, code, NewSource(stats[id], y))
  }

  /** The whole layer after write_features(features=stats, year=y, overwrite). */
  function WriteAll(fs: seq<Feature>, stats: map<string, Row>, y: int, overwrite: bool): seq<Feature>
  {
    seq(|fs|, i requires 0 <= i < |fs| => WriteFeature(fs[i], stats, y, overwrite))
  }

  /** Running write_features a second time with the same table changes nothing more. */
  lemma WriteFeatureIdempotent(f: Feature, stats: map<string, Row>, y: int, overwrite: bool)
    ensures WriteFeature(WriteFeature(f, stats, y, overwrite), stats, y, overwrite)
         == WriteFeature(f, stats, y, overwrite)
  {
    var g := WriteFeature(f, stats, y, overwrite);
    if g != f {
      var id := Id(f).value;
      var code := NewCode(stats[id], y);
      var src := NewSource(stats[id], y);
      assert g == SetYear(f, y, code, src);
      assert SetYear(g, y, code, src) == g;
    }
  }

  /** write_features over the layer, feature by feature. */
  method WriteFeatures(layer: Layer, stats: map<string, Row>, y: int, overwrite: bool)
    modifies layer.features
    ensures layer.features[..] == WriteAll(old(layer.features[..]), stats, y, overwrite)
  {
    var i := 0;
    while i < layer.features.Length
      invariant 0 <= i <= layer.features.Length
      invariant forall k :: 0 <= k < i ==>
        layer.features[k] == WriteFeature(old(layer.features[k]), stats, y, overwrite)
      invariant forall k :: i <= k < layer.features.Length ==> layer.features[k] == old(layer.features[k])
    {
      layer.features[i] := WriteFeature(layer.features[i], stats, y, overwrite);
      i := i + 1;
    }
  }

  // ---------------------------------------------------------------------------
  // the overwrite clear

  /** Every feature with CROP_<y> = 0 and CSRC_<y> = '' for each requested year. */
  function ClearAll(fs: seq<Feature>, years: seq<int>): seq<Feature>
  {
    seq(|fs|, i requires 0 <= i < |fs| => SetYears(fs[i], years, 0, ""))
  }

  method ClearYears(layer: Layer, years: seq<int>)
    modifies layer.features
    ensures layer.features[..] == ClearAll(old(layer.features[..]), years)
  {
    WriteYearsAll(layer, years, 0, "");
  }

  /** The clear zeroes every requested year of every feature and nothing else. */
  lemma ClearAllEffect(fs: seq<Feature>, years: seq<int>)
    ensures |ClearAll(fs, years)| == |fs|
    ensures forall i :: 0 <= i < |fs| ==> Untouched(fs[i], ClearAll(fs, years)[i], set y | y in years)
    ensures forall i, y :: 0 <= i < |fs| && y in years ==>
      Code(ClearAll(fs, years)[i], y) == 0 && Source(ClearAll(fs, years)[i], y) == ""
  {
    forall i | 0 <= i < |fs| { SetYearsEffect(fs[i], years, 0, ""); }
  }

  // ---------------------------------------------------------------------------
  // the stats table as a dictionary keyed by OPENET_ID

  /** to_dict('index') refuses a table whose index repeats. */
  predicate DistinctIds(file: StatsFile) {
    forall i, j :: 0 <= i < j < |file| ==> file[i].id != file[j].id
  }

  /** The OPENET_IDs of a table's rows. */
  function Ids(file: StatsFile): set<string> {
    set k | 0 <= k < |file| :: file[k].id
  }

  lemma IdsSnoc(file: StatsFile)
    requires |file| > 0
    ensures Ids(file) == Ids(file[..|file| - 1]) + {file[|file| - 1].id}
  {
    var init := file[..|file| - 1];
    forall k | 0 <= k < |init| ensures init[k] == file[k] { }
  }

  /** A table with distinct ids keeps them distinct without its last row. */
  lemma DistinctInit(file: StatsFile)
    requires |file| > 0 && DistinctIds(file)
    ensures DistinctIds(file[..|file| - 1])
  {
    var init := file[..|file| - 1];
    forall i, j | 0 <= i < j < |init| ensures init[i].id != init[j].id {
      assert init[i] == file[i] && init[j] == file[j];
    }
  }

  /** Adding the last row of a table with distinct ids keeps every earlier row's entry. */
  lemma IndexSnoc(m0: map<string, Row>, file: StatsFile)
    requires |file| > 0 && DistinctIds(file)
    requires forall k :: 0 <= k < |file| - 1 ==> file[k].id in m0 && m0[file[k].id] == file[k].cells
    ensures forall k :: 0 <= k < |file| ==>
      m0[file[|file| - 1].id := file[|file| - 1].cells][file[k].id] == file[k].cells
  {
  }

  /** update_df.to_dict('index'): each OPENET_ID to the columns of its row. */
  function Index(file: StatsFile): (m: map<string, Row>)
    ensures m.Keys == Ids(file)
    ensures DistinctIds(file) ==> forall k :: 0 <= k < |file| ==> m[file[k].id] == file[k].cells
    decreases |file|
  {
    if |file| == 0 then map[]
    else
      var init := file[..|file| - 1];
      var m0 := Index(init);
      IdsSnoc(file);
      assert DistinctIds(file) ==> forall k :: 0 <= k < |file| ==>
        m0[file[|file| - 1].id := file[|file| - 1].cells][file[k].id] == file[k].cells
      by {
        if DistinctIds(file) {
          DistinctInit(file);
          assert forall k :: 0 <= k < |init| ==> init[k] == file[k];
          IndexSnoc(m0, file);
        }
      }
      m0[file[|file| - 1].id := file[|file| - 1].cells]
  }

  // ---------------------------------------------------------------------------
  // the check loop over the rows of a CDL or composite table

  /** ftr['CROP_<y>'] == 0 in Python: an integer or float zero, never text or NaN. */
  predicate IsZero(c: Cell) {
    c == IntCell(0) || c == FloatCell(0.0)
  }

  /**
   * The check loop as written: a missing CROP_<y> column raises KeyError; a row whose
   * value is None or 0 has its OPENET_ID read for the log message, which raises
   * KeyError when the row has no such column; a None value then waits on input('ENTER').
   */
  function CheckRowsAsWritten(file: StatsFile, y: int): (r: Result<()>)
    ensures r.Ok? ==> forall k :: 0 <= k < |file| ==> CropField(y) in file[k].cells
    ensures r.Ok? ==> forall k :: 0 <= k < |file| ==>
      file[k].cells[CropField(y)] != NoneCell
      && (IsZero(file[k].cells[CropField(y)]) ==> "OPENET_ID" in file[k].cells)
    decreases |file|
  {
    if |file| == 0 then Ok(())
    else
      var c := CropField(y);
      var cells := file[0].cells;
      if c !in cells then Err(KeyError(c))
      else if cells[c] == NoneCell || IsZero(cells[c]) then
        if "OPENET_ID" !in cells then Err(KeyError("OPENET_ID"))
        else if cells[c] == NoneCell then Err(Prompt("crop types is None"))
        else CheckRowsAsWritten(file[1..], y)
      else CheckRowsAsWritten(file[1..], y)
  }

  /**
   * The check loop with the log message naming the row by its dictionary key: a
   * missing CROP_<y> column raises KeyError, a None value stops at the prompt, and a
   * zero value is only logged.
   */
  function CheckRows(file: StatsFile, y: int): (r: Result<()>)
    ensures r.Ok? <==> forall k :: 0 <= k < |file| ==>
      CropField(y) in file[k].cells && file[k].cells[CropField(y)] != NoneCell
    ensures r.Err? ==> r.error == KeyError(CropField(y)) || r.error.Prompt?
    decreases |file|
  {
    if |file| == 0 then Ok(())
    else
      var c := CropField(y);
      var cells := file[0].cells;
      if c !in cells then Err(KeyError(c))
      else if cells[c] == NoneCell then Err(Prompt("crop types is None"))
      else
        var rest := CheckRows(file[1..], y);
        assert forall k :: 1 <= k < |file| ==> file[k] == file[1..][k - 1];
        rest
  }

  /** The check as written stops on every table the corrected check stops on. */
  lemma CheckRowsAsWrittenStricter(file: StatsFile, y: int)
    ensures CheckRowsAsWritten(file, y).Ok? ==> CheckRows(file, y).Ok?
  {
  }

  /** A single row coded 0 (index column dropped, as read from CSV) stops the pass as written. */
  lemma ZeroRowStopsAsWritten()
    ensures CheckRowsAsWritten([StatsRow("CA_1", map[CropField(2020) := IntCell(0)])], 2020)
         == Err(KeyError("OPENET_ID"))
    ensures CheckRows([StatsRow("CA_1", map[CropField(2020) := IntCell(0)])], 2020) == Ok(())
  {
    var file := [StatsRow("CA_1", map[CropField(2020) := IntCell(0)])];
    assert CropField(2020)[0] == 'C';
    assert file[1..] == [];
  }

  /**
   * Which row check a CDL or composite pass runs: the loop as written, whose log message
   * raises on every zero row, or the intended one that only logs it.
   */
  datatype RowCheck = AsWritten | Intended

  function RowsChecked(check: RowCheck, file: StatsFile, y: int): Result<()> {
    if check == AsWritten then CheckRowsAsWritten(file, y) else CheckRows(file, y)
  }

  // ---------------------------------------------------------------------------
  // the LandIQ coverage filter

  /** v['PIXEL_COUNT'] / total >= 0.50, or the exception it raises. */
  function CountRatio(cells: Row, total: real): Result<bool>
    requires total > 0.0
  {
    if "PIXEL_COUNT" !in cells then Err(KeyError("PIXEL_COUNT"))
    else match cells["PIXEL_COUNT"]
      case IntCell(n) => Ok(n as real / total >= 0.5)
      case FloatCell(n) => Ok(n / total >= 0.5)
      case NaNCell => Ok(false)
      case NoneCell => Err(TypeError("unsupported operand type(s) for /"))
      case TextCell(_) => Err(TypeError("unsupported operand type(s) for /"))
  }

  /** (v['PIXEL_TOTAL'] > 0) and (v['PIXEL_COUNT'] / v['PIXEL_TOTAL']) >= 0.50, short-circuit. */
  function Covered(cells: Row): Result<bool>
  {
    if "PIXEL_TOTAL" !in cells then Err(KeyError("PIXEL_TOTAL"))
    else match cells["PIXEL_TOTAL"]
      case IntCell(t) => if t > 0 then CountRatio(cells, t as real) else Ok(false)
      case FloatCell(t) => if t > 0.0 then CountRatio(cells, t) else Ok(false)
      case NaNCell => Ok(false)
      case NoneCell => Err(TypeError("'>' not supported"))
      case TextCell(_) => Err(TypeError("'>' not supported"))
  }

  /** With integer pixel counts the test is total > 0 and 2 * count >= total. */
  lemma CoveredIntegers(cells: Row, n: int, t: int)
    requires "PIXEL_COUNT" in cells && cells["PIXEL_COUNT"] == IntCell(n)
    requires "PIXEL_TOTAL" in cells && cells["PIXEL_TOTAL"] == IntCell(t)
    ensures Covered(cells) == Ok(t > 0 && 2 * n >= t)
  {
    if t > 0 { HalfRatio(n, t); }
  }

  /** count / total >= 0.5 over integers is 2 * count >= total. */
  lemma HalfRatio(n: int, t: int)
    requires t > 0
    ensures n as real / t as real >= 0.5 <==> 2 * n >= t
  {
    var q := n as real / t as real;
    assert q * t as real == n as real;
    ScaleOrder(q, 0.5, t as real);
  }

  lemma ScaleOrder(a: real, b: real, c: real)
    requires c > 0.0
    ensures a >= b <==> a * c >= b * c
  {
    if a >= b { assert (a - b) * c >= 0.0; } else { assert (b - a) * c > 0.0; }
  }

  /** The dict comprehension keeping the rows with at least half LandIQ coverage. */
  function Coverage(file: StatsFile): (r: Result<StatsFile>)
    ensures r.Ok? <==> forall k :: 0 <= k < |file| ==> Covered(file[k].cells).Ok?
    ensures r.Ok? ==> forall x :: x in r.value <==> x in file && Covered(x.cells) == Ok(true)
    decreases |file|
  {
    if |file| == 0 then Ok([])
    else
      match Covered(file[0].cells)
      case Err(e) => Err(e)
      case Ok(keep) =>
        match Coverage(file[1..])
        case Err(e) =>
          assert exists k :: 1 <= k < |file| && !Covered(file[k].cells).Ok? by {
            var k :| 0 <= k < |file[1..]| && !Covered(file[1..][k].cells).Ok?;
            assert file[k + 1] == file[1..][k];
          }
          Err(e)
        case Ok(rest) =>
          assert forall k :: 1 <= k < |file| ==> file[k] == file[1..][k - 1];
          assert forall x :: x in file <==> x == file[0] || x in file[1..];
          Ok(if keep then [file[0]] + rest else rest)
  }

  // ---------------------------------------------------------------------------
  // one year of a pass, and a pass over a year list

  /**
   * The three passes over a state's shapefile: CDL stats (every state but CA), LandIQ
   * stats (CA, 2009 on, coverage-filtered) and LandIQ/CDL composite stats (CA, 2008 on,
   * never overwriting).
   */
  datatype Pass = CdlPass | LandIqPass | CompositePass

  predicate Skipped(p: Pass, y: int) {
    match p
    case CdlPass => false
    case LandIqPass => y < 2009
    case CompositePass => y < 2008
  }

  /** The overwrite argument the pass hands to write_features. */
  function WriteOverwrite(p: Pass, overwrite: bool): bool {
    p != CompositePass && overwrite
  }

  /**
   * The table one year of a pass writes from: None when the year is skipped or its
   * stats file does not exist, the error that stops the script otherwise.
   */
  function YearInput(p: Pass, y: int, files: map<int, StatsFile>, check: RowCheck)
    : (r: Result<Option<map<string, Row>>>)
    ensures r == Ok(None) <==> Skipped(p, y) || y !in files
    ensures r.Err? && p == LandIqPass ==> DistinctIds(files[y]) ==> !Coverage(files[y]).Ok?
    ensures r.Err? && p != LandIqPass ==> DistinctIds(files[y]) ==> !RowsChecked(check, files[y], y).Ok?
  {
    if Skipped(p, y) || y !in files then Ok(None)
    else
      var file := files[y];
      if !DistinctIds(file) then Err(ValueError("DataFrame index must be unique for orient='index'"))
      else if p == LandIqPass then
        match Coverage(file)
        case Err(e) => Err(e)
        case Ok(kept) => Ok(Some(Index(kept)))
      else
        match RowsChecked(check, file, y)
        case Err(e) => Err(e)
        case Ok(_) => Ok(Some(Index(file)))
  }

  /** The layer after one year of a pass, or the error raised before anything was written. */
  function Step(p: Pass, fs: seq<Feature>, y: int, files: map<int, StatsFile>, overwrite: bool, check: RowCheck)
    : Result<seq<Feature>>
  {
    match YearInput(p, y, files, check)
    case Err(e) => Err(e)
    case Ok(None) => Ok(fs)
    case Ok(Some(stats)) => Ok(WriteAll(fs, stats, y, WriteOverwrite(p, overwrite)))
  }

  /** A pass over the years in order; an error ends it with the layer as written so far. */
  function Run(p: Pass, fs: seq<Feature>, years: seq<int>, files: map<int, StatsFile>, overwrite: bool,
               check: RowCheck): Outcome
    decreases |years|
  {
    if |years| == 0 then Outcome(None, fs)
    else
      match Step(p, fs, years[0], files, overwrite, check)
      case Err(e) => Outcome(Some(e), fs)
      case Ok(gs) => Run(p, gs, years[1..], files, overwrite, check)
  }

  /** A pass with the layer as a Layer: the loop over years calling write_features. */
  method RunPass(layer: Layer, p: Pass, years: seq<int>, files: map<int, StatsFile>, overwrite: bool,
                 check: RowCheck) returns (err: Option<Error>)
    modifies layer.features
    ensures Outcome(err, layer.features[..]) == Run(p, old(layer.features[..]), years, files, overwrite, check)
  {
    ghost var start := layer.features[..];
    var k := 0;
    while k < |years|
      invariant 0 <= k <= |years|
      invariant Run(p, start, years, files, overwrite, check)
        == Run(p, layer.features[..], years[k..], files, overwrite, check)
    {
      assert years[k..][1..] == years[k + 1..];
      var input := YearInput(p, years[k], files, check);
      if input.Err? {
        return Some(input.error);
      }
      if input.value.Some? {
        WriteFeatures(layer, input.value.value, years[k], WriteOverwrite(p, overwrite));
      }
      k := k + 1;
    }
    assert years[k..] == [];
    return None;
  }

  /** The update of a state other than CA: the clear when overwriting, then the CDL pass. */
  function StateUpdate(fs: seq<Feature>, years: seq<int>, stateYears: seq<int>,
                       files: map<int, StatsFile>, overwrite: bool, check: RowCheck): Outcome
  {
    Run(CdlPass, if overwrite then ClearAll(fs, years) else fs, stateYears, files, overwrite, check)
  }

  /** The CA update: the clear when overwriting, the LandIQ pass, then the composite pass. */
  function CaliforniaUpdate(fs: seq<Feature>, years: seq<int>, landIq: map<int, StatsFile>,
                            composite: map<int, StatsFile>, overwrite: bool, check: RowCheck): Outcome
  {
    var start := if overwrite then ClearAll(fs, years) else fs;
    var first := Run(LandIqPass, start, years, landIq, overwrite, check);
    if first.error.Some? then first else Run(CompositePass, first.features, years, composite, overwrite, check)
  }

  method UpdateState(layer: Layer, years: seq<int>, stateYears: seq<int>,
                     files: map<int, StatsFile>, overwrite: bool, check: RowCheck) returns (err: Option<Error>)
    modifies layer.features
    ensures Outcome(err, layer.features[..])
      == StateUpdate(old(layer.features[..]), years, stateYears, files, overwrite, check)
  {
    if overwrite {
      ClearYears(layer, years);
    }
    err := RunPass(layer, CdlPass, stateYears, files, overwrite, check);
  }

  method UpdateCalifornia(layer: Layer, years: seq<int>, landIq: map<int, StatsFile>,
                          composite: map<int, StatsFile>, overwrite: bool, check: RowCheck)
    returns (err: Option<Error>)
    modifies layer.features
    ensures Outcome(err, layer.features[..])
      == CaliforniaUpdate(old(layer.features[..]), years, landIq, composite, overwrite, check)
  {
    if overwrite {
      ClearYears(layer, years);
    }
    err := RunPass(layer, LandIqPass, years, landIq, overwrite, check);
    if err.None? {
      err := RunPass(layer, CompositePass, years, composite, overwrite, check);
    }
  }

  // ---------------------------------------------------------------------------
  // what a pass can change

  /** A pass keeps the number of features and changes only the years it runs over. */
  lemma {:induction false} RunUntouched(p: Pass, fs: seq<Feature>, years: seq<int>,
                                        files: map<int, StatsFile>, overwrite: bool, check: RowCheck)
    ensures |Run(p, fs, years, files, overwrite, check).features| == |fs|
    ensures forall i :: 0 <= i < |fs| ==>
      Untouched(fs[i], Run(p, fs, years, files, overwrite, check).features[i], set y | y in years)
    decreases |years|
  {
    if |years| > 0 {
      var step := Step(p, fs, years[0], files, overwrite, check);
      if step.Ok? {
        var gs := step.value;
        RunUntouched(p, gs, years[1..], files, overwrite, check);
        var r := Run(p, gs, years[1..], files, overwrite, check).features;
        forall i | 0 <= i < |fs|
          ensures Untouched(fs[i], r[i], set y | y in years)
        {
          assert Untouched(fs[i], gs[i], {years[0]});
          assert Untouched(gs[i], r[i], set y | y in years[1..]);
          forall z | z !in (set y | y in years)
            ensures Code(r[i], z) == Code(fs[i], z) && Source(r[i], z) == Source(fs[i], z)
          {
            assert z != years[0] && z !in years[1..];
          }
        }
      }
    }
  }

  /** The composite pass never replaces a positive code, nor the source beside it. */
  lemma {:induction false} CompositeKeepsPositive(fs: seq<Feature>, years: seq<int>,
                                                  files: map<int, StatsFile>, overwrite: bool, check: RowCheck)
    ensures |Run(CompositePass, fs, years, files, overwrite, check).features| == |fs|
    ensures forall i, y :: 0 <= i < |fs| && Code(fs[i], y) > 0 ==>
      Code(Run(CompositePass, fs, years, files, overwrite, check).features[i], y) == Code(fs[i], y)
      && Source(Run(CompositePass, fs, years, files, overwrite, check).features[i], y) == Source(fs[i], y)
    decreases |years|
  {
    if |years| > 0 {
      var step := Step(CompositePass, fs, years[0], files, overwrite, check);
      if step.Ok? {
        var gs := step.value;
        CompositeKeepsPositive(gs, years[1..], files, overwrite, check);
        forall i, y | 0 <= i < |fs| && Code(fs[i], y) > 0
          ensures Code(gs[i], y) == Code(fs[i], y) && Source(gs[i], y) == Source(fs[i], y)
        {
        }
      }
    }
  }

  /** In the CA update, what the LandIQ pass wrote survives the composite pass. */
  lemma LandIqWins(fs: seq<Feature>, years: seq<int>, landIq: map<int, StatsFile>,
                   composite: map<int, StatsFile>, overwrite: bool, check: RowCheck)
    ensures var start := if overwrite then ClearAll(fs, years) else fs;
      var first := Run(LandIqPass, start, years, landIq, overwrite, check);
      var final := CaliforniaUpdate(fs, years, landIq, composite, overwrite, check);
      |first.features| == |final.features|
      && forall i, y :: 0 <= i < |first.features| && Code(first.features[i], y) > 0 ==>
        Code(final.features[i], y) == Code(first.features[i], y)
        && Source(final.features[i], y) == Source(first.features[i], y)
  {
    var start := if overwrite then ClearAll(fs, years) else fs;
    var first := Run(LandIqPass, start, years, landIq, overwrite, check);
    CompositeKeepsPositive(first.features, years, composite, overwrite, check);
  }

  /** A state's update changes the requested years and no other year of any feature. */
  lemma StateUpdateUntouched(fs: seq<Feature>, years: seq<int>, stateYears: seq<int>,
                             files: map<int, StatsFile>, overwrite: bool, check: RowCheck)
    requires forall y :: y in stateYears ==> y in years
    ensures |StateUpdate(fs, years, stateYears, files, overwrite, check).features| == |fs|
    ensures forall i :: 0 <= i < |fs| ==>
      Untouched(fs[i], StateUpdate(fs, years, stateYears, files, overwrite, check).features[i], set y | y in years)
  {
    var start := if overwrite then ClearAll(fs, years) else fs;
    ClearAllEffect(fs, years);
    RunUntouched(CdlPass, start, stateYears, files, overwrite, check);
    var r := Run(CdlPass, start, stateYears, files, overwrite, check).features;
    forall i | 0 <= i < |fs|
      ensures Untouched(fs[i], r[i], set y | y in years)
    {
      forall z | z !in (set y | y in years)
        ensures Code(r[i], z) == Code(fs[i], z) && Source(r[i], z) == Source(fs[i], z)
      {
        assert z !in stateYears;
      }
    }
  }

  // ---------------------------------------------------------------------------
  // the pass as written against the intended pass

  /** A year the as-written check lets through reads the same table under the intended check. */
  lemma YearInputAgrees(p: Pass, y: int, files: map<int, StatsFile>)
    ensures YearInput(p, y, files, AsWritten).Ok? ==>
      YearInput(p, y, files, Intended) == YearInput(p, y, files, AsWritten)
  {
    if y in files { CheckRowsAsWrittenStricter(files[y], y); }
  }

  /** A pass as written that raises nothing is the intended pass: the bug only stops it early. */
  lemma {:induction false} RunAgrees(p: Pass, fs: seq<Feature>, years: seq<int>,
                                     files: map<int, StatsFile>, overwrite: bool)
    ensures Run(p, fs, years, files, overwrite, AsWritten).error.None? ==>
      Run(p, fs, years, files, overwrite, Intended) == Run(p, fs, years, files, overwrite, AsWritten)
    decreases |years|
  {
    if |years| > 0 {
      YearInputAgrees(p, years[0], files);
      var step := Step(p, fs, years[0], files, overwrite, AsWritten);
      if step.Ok? {
        RunAgrees(p, step.value, years[1..], files, overwrite);
      }
    }
  }

  /**
   * One CDL year whose only row is coded 0: as written the pass raises KeyError('OPENET_ID')
   * and leaves the layer as it was; the intended pass raises nothing.
   */
  lemma ZeroRowPassStops(fs: seq<Feature>, overwrite: bool)
    ensures var files := map[2020 := [StatsRow("CA_1", map[CropField(2020) := IntCell(0)])]];
      && Run(CdlPass, fs, [2020], files, overwrite, AsWritten) == Outcome(Some(KeyError("OPENET_ID")), fs)
      && Run(CdlPass, fs, [2020], files, overwrite, Intended).error == None
  {
    var file := [StatsRow("CA_1", map[CropField(2020) := IntCell(0)])];
    var files := map[2020 := file];
    ZeroRowStopsAsWritten();
    assert DistinctIds(file);
    assert [2020][1..] == [];
  }
}
