/**
 * The California LandIQ conversion: per year the source projection, the remap table and
 * the attribute fields, the CDL code of each source field (dropping fields whose crop is
 * not in the table), and the 30 m output grids the fields are rasterized onto.
 */
module California {
  import opened Wrappers
  import opened Strings
  import opened Tiles

  /** The LandIQ years the script converts when none are given. */
  const DefaultYears: seq<int> := [2014, 2016, 2018, 2019, 2020, 2021, 2022, 2023]

  function RunYears(given: seq<int>): seq<int> {
    if |given| == 0 then DefaultYears else given
  }

  /** The membership test at the top of the year loop. */
  function CheckYear(year: int, years: seq<int>): (r: Result<int>)
    ensures r.Ok? <==> year in years
  {
    if year !in years then Err(ValueError("unsupported year " + IntToString(year))) else Ok(year)
  }

  /** The loop runs over the list it tests against, so the test never raises. */
  lemma CheckYearNeverRaises(given: seq<int>, k: int)
    requires 0 <= k < |RunYears(given)|
    ensures CheckYear(RunYears(given)[k], RunYears(given)).Ok?
  {
    assert RunYears(given)[k] in RunYears(given);
  }

  /** The EPSG code of the year's source shapefile. */
  function Epsg(year: int): Result<int>
  {
    if year == 2019 || year == 2020 || year == 2021 || year == 2023 then Ok(4269)
    else if year == 2022 then Ok(3310)
    else if year == 2014 || year == 2016 || year == 2018 then Ok(3857)
    else Err(ValueError("no default EPSG code for year " + IntToString(year)))
  }

  /** Exactly the default years have a projection; NAD83 from 2019 except the 2022 Albers year. */
  lemma EpsgSpec(year: int)
    ensures Epsg(year).Ok? <==> year in DefaultYears
    ensures Epsg(year).Ok? && year < 2019 ==> Epsg(year).value == 3857
    ensures Epsg(year).Ok? && year >= 2019 ==> Epsg(year).value == if year == 2022 then 3310 else 4269
  {
  }

  /** The two remap tables: one for 2014, one shared by 2016 through 2023. */
  datatype RemapTableName = Table2014 | Table2016To2023

  function RemapTableOf(year: int): (r: RemapTableName)
    ensures r == Table2014 <==> year == 2014
  {
    if year == 2014 then Table2014 else Table2016To2023
  }

  /** The attribute holding the crop type, and the one holding the main crop if any. */
  datatype FieldChoice = FieldChoice(cropField: string, mainField: Option<string>)

  function FieldsOf(year: int): FieldChoice {
    if 2019 <= year <= 2023 then FieldChoice("CROPTYP2", Some("MAIN_CROP"))
    else if year == 2016 || year == 2018 then FieldChoice("CROPTYP2", None)
    else FieldChoice("Crop" + IntToString(year), None)
  }

  /**
   * Among the default years, every year but 2014 reads CROPTYP2, 2014 reads Crop2014, and
   * MAIN_CROP is read from 2019 on.
   */
  lemma FieldsSpec(year: int)
    requires year in DefaultYears
    ensures FieldsOf(year).cropField == if year == 2014 then "Crop2014" else "CROPTYP2"
    ensures FieldsOf(year).mainField.Some? <==> year >= 2019
    ensures FieldsOf(year).mainField.Some? ==> FieldsOf(year).mainField.value == "MAIN_CROP"
  {
  }

  // ---------------------------------------------------------------------------
  // the CDL code of a source field

  /** A source field: its id, its geometry (an opaque handle) and its non-null attributes. */
  datatype SourceFeature = SourceFeature(fid: int, geom: int, attrs: map<string, string>)

  /** GetField: None for a null (or absent) attribute. */
  function FieldValue(f: SourceFeature, name: string): Option<string> {
    if name in f.attrs then Some(f.attrs[name]) else None
  }

  /** Python truthiness of a text attribute. */
  predicate Truthy(v: Option<string>) {
    v.Some? && v.value != ""
  }

  /** The table key used: a usable MAIN_CROP, otherwise the crop type. */
  function CodeKey(cropType: Option<string>, mainCrop: Option<string>): Option<string> {
    if Truthy(mainCrop) && mainCrop.value != "****" then mainCrop else cropType
  }

  /** The remapped code, or None where the lookup raises KeyError and the field is dropped. */
  function CdlCode(remap: map<string, int>, cropType: Option<string>, mainCrop: Option<string>): Option<int> {
    var key := CodeKey(cropType, mainCrop);
    if key.Some? && key.value in remap then Some(remap[key.value]) else None
  }

  /**
   * A main crop that is set and not '****' decides the code, with no fallback to the crop
   * type when it is missing from the table; otherwise the crop type decides; every code
   * is a value of the table.
   */
  lemma CdlCodeSpec(remap: map<string, int>, cropType: Option<string>, mainCrop: Option<string>)
    ensures CdlCode(remap, cropType, mainCrop).Some? ==> CdlCode(remap, cropType, mainCrop).value in remap.Values
    ensures Truthy(mainCrop) && mainCrop.value != "****" ==>
      CdlCode(remap, cropType, mainCrop) == if mainCrop.value in remap then Some(remap[mainCrop.value]) else None
    ensures !(Truthy(mainCrop) && mainCrop.value != "****") ==>
      CdlCode(remap, cropType, mainCrop) ==
        if cropType.Some? && cropType.value in remap then Some(remap[cropType.value]) else None
  {
  }

  /** The code a field gets in a year, reading the year's fields. */
  function FeatureCode(f: SourceFeature, year: int, remap: map<string, int>): Option<int> {
    var fields := FieldsOf(year);
    var mainCrop := if fields.mainField.Some? then FieldValue(f, fields.mainField.value) else None;
    CdlCode(remap, FieldValue(f, fields.cropField), mainCrop)
  }

  /** A rasterizable field: its geometry and its CDL code. */
  datatype CodedFeature = CodedFeature(geom: int, cdl: int)

  /** The coded fields of the source, in order, without the dropped ones. */
  function Coded(src: seq<SourceFeature>, year: int, remap: map<string, int>): seq<CodedFeature>
    decreases |src|
  {
    if |src| == 0 then []
    else
      var last := src[|src| - 1];
      var c := FeatureCode(last, year, remap);
      Coded(src[..|src| - 1], year, remap) + (if c.Some? then [CodedFeature(last.geom, c.value)] else [])
  }

  /**
   * Exactly the fields with a code are kept, each as its geometry and code, and every
   * code comes from the table.
   */
  lemma {:induction false} CodedSpec(src: seq<SourceFeature>, year: int, remap: map<string, int>)
    ensures |Coded(src, year, remap)| <= |src|
    ensures forall c :: c in Coded(src, year, remap) <==>
      exists f :: f in src && FeatureCode(f, year, remap) == Some(c.cdl) && f.geom == c.geom
    decreases |src|
  {
    if |src| > 0 {
      var init := src[..|src| - 1];
      var last := src[|src| - 1];
      CodedSpec(init, year, remap);
      assert src == init + [last];
      forall c ensures c in Coded(src, year, remap) <==>
        exists f :: f in src && FeatureCode(f, year, remap) == Some(c.cdl) && f.geom == c.geom
      {
        if exists f :: f in src && FeatureCode(f, year, remap) == Some(c.cdl) && f.geom == c.geom {
          var f :| f in src && FeatureCode(f, year, remap) == Some(c.cdl) && f.geom == c.geom;
          if f != last { assert f in init; }
        }
        if c in Coded(init, year, remap) {
          var f :| f in init && FeatureCode(f, year, remap) == Some(c.cdl) && f.geom == c.geom;
          assert f in src;
        }
      }
    }
  }

  /** The positions in src of the fields Coded keeps, in order. */
  function CodedPositions(src: seq<SourceFeature>, year: int, remap: map<string, int>): seq<int>
    decreases |src|
  {
    if |src| == 0 then []
    else
      CodedPositions(src[..|src| - 1], year, remap)
      + (if FeatureCode(src[|src| - 1], year, remap).Some? then [|src| - 1] else [])
  }

  /**
   * Coded is the order-preserving filter-map of the source: its k-th entry is the field at
   * the k-th position with a code, the positions increase, and every field with a code
   * has its position among them. Rasterising burns in this order, so of two overlapping
   * fields the later one wins.
   */
  lemma CodedOrder(src: seq<SourceFeature>, year: int, remap: map<string, int>)
    ensures var c, pos := Coded(src, year, remap), CodedPositions(src, year, remap);
      && |pos| == |c|
      && (forall k :: 0 <= k < |pos| ==>
            (0 <= pos[k] < |src| && FeatureCode(src[pos[k]], year, remap).Some?
             && c[k] == CodedFeature(src[pos[k]].geom, FeatureCode(src[pos[k]], year, remap).value)))
      && (forall j, k :: 0 <= j < k < |pos| ==> pos[j] < pos[k])
      && (forall i :: 0 <= i < |src| && FeatureCode(src[i], year, remap).Some? ==> i in pos)
  {
    CodedEntries(src, year, remap);
    PositionsIncrease(src, year, remap);
    PositionsComplete(src, year, remap);
  }

  lemma {:induction false} PositionsIncrease(src: seq<SourceFeature>, year: int, remap: map<string, int>)
    ensures var pos := CodedPositions(src, year, remap);
      && (forall k :: 0 <= k < |pos| ==> 0 <= pos[k] < |src|)
      && (forall j, k :: 0 <= j < k < |pos| ==> pos[j] < pos[k])
    decreases |src|
  {
    if |src| > 0 {
      var n := |src| - 1;
      PositionsIncrease(src[..n], year, remap);
      assert forall k :: 0 <= k < |CodedPositions(src[..n], year, remap)| ==>
        CodedPositions(src[..n], year, remap)[k] < |src[..n]|;
      var pos0 := CodedPositions(src[..n], year, remap);
      var pos := CodedPositions(src, year, remap);
      assert |src[..n]| == n;
      assert forall k :: 0 <= k < |pos0| ==> 0 <= pos0[k] < n;
      assert forall k :: 0 <= k < |pos0| ==> pos[k] == pos0[k];
      assert |pos| == |pos0| || (|pos| == |pos0| + 1 && pos[|pos0|] == n);
      forall j, k | 0 <= j < k < |pos| ensures pos[j] < pos[k] {
        if k < |pos0| { assert pos0[j] < pos0[k]; }
      }
    }
  }

  lemma {:induction false} CodedEntries(src: seq<SourceFeature>, year: int, remap: map<string, int>)
    ensures var c, pos := Coded(src, year, remap), CodedPositions(src, year, remap);
      && |pos| == |c|
      && (forall k :: 0 <= k < |pos| ==>
            (0 <= pos[k] < |src| && FeatureCode(src[pos[k]], year, remap).Some?
             && c[k] == CodedFeature(src[pos[k]].geom, FeatureCode(src[pos[k]], year, remap).value)))
    decreases |src|
  {
    if |src| > 0 {
      var n := |src| - 1;
      var init := src[..n];
      CodedEntries(init, year, remap);
      assert forall i :: 0 <= i < n ==> init[i] == src[i];
    }
  }

  lemma {:induction false} PositionsComplete(src: seq<SourceFeature>, year: int, remap: map<string, int>)
    ensures forall i :: 0 <= i < |src| && FeatureCode(src[i], year, remap).Some? ==>
      i in CodedPositions(src, year, remap)
    decreases |src|
  {
    if |src| > 0 {
      var n := |src| - 1;
      var init := src[..n];
      PositionsComplete(init, year, remap);
      assert forall i :: 0 <= i < n ==> init[i] == src[i];
    }
  }

  /** The loop that reads the source layer into src_features. */
  method ReadSourceFeatures(src: seq<SourceFeature>, year: int, remap: map<string, int>)
    returns (out: seq<CodedFeature>)
    ensures out == Coded(src, year, remap)
  {
    out := [];
    var k := 0;
    while k < |src|
      invariant 0 <= k <= |src|
      invariant out == Coded(src[..k], year, remap)
    {
      assert src[..k + 1][..k] == src[..k];
      var code := FeatureCode(src[k], year, remap);
      if code.Some? {
        out := out + [CodedFeature(src[k].geom, code.value)];
      }
      k := k + 1;
    }
    assert src[..k] == src;
  }

  // ---------------------------------------------------------------------------
  // the output grids

  const CellSize: int := 30

  /** math.floor((v - snap) / 30) * 30 + snap. */
  function FloorSnap(v: int, snap: int): int {
    ((v - snap) / CellSize) * CellSize + snap
  }

  /** math.ceil((v - snap) / 30) * 30 + snap. */
  function CeilSnap(v: int, snap: int): int {
    -((snap - v) / CellSize) * CellSize + snap
  }

  /** The floor snap is the grid line at or below v, the ceil snap the one at or above. */
  lemma SnapBounds(v: int, snap: int)
    ensures FloorSnap(v, snap) <= v < FloorSnap(v, snap) + CellSize
    ensures CeilSnap(v, snap) - CellSize < v <= CeilSnap(v, snap)
    ensures (FloorSnap(v, snap) - snap) % CellSize == 0
    ensures (CeilSnap(v, snap) - snap) % CellSize == 0
  {
    var q := (v - snap) / CellSize;
    assert v - snap == q * CellSize + (v - snap) % CellSize;
    var p := (snap - v) / CellSize;
    assert snap - v == p * CellSize + (snap - v) % CellSize;
  }

  /** A snapped output raster: its extent, column and row counts and geo transform. */
  datatype Grid = Grid(extent: seq<int>, cols: int, rows: int, geo: seq<int>)

  function SnapGrid(extent: seq<int>, snap: int): Grid
    requires |extent| == 4
  {
    var e := [FloorSnap(extent[0], snap), FloorSnap(extent[1], snap),
              CeilSnap(extent[2], snap), CeilSnap(extent[3], snap)];
    Grid(e, TruncDiv(e[2] - e[0], CellSize), TruncDiv(e[3] - e[1], CellSize),
         [e[0], CellSize, 0, e[3], 0, -CellSize])
  }

  /**
   * The snapped extent lies on the grid, contains the original one and exceeds it by
   * less than a cell on each side; the columns and rows tile it exactly.
   */
  lemma SnapGridSpec(extent: seq<int>, snap: int)
    requires |extent| == 4
    requires extent[0] <= extent[2] && extent[1] <= extent[3]
    ensures
      var g := SnapGrid(extent, snap);
      && |g.extent| == 4
      && g.extent[0] <= extent[0] < g.extent[0] + CellSize
      && g.extent[1] <= extent[1] < g.extent[1] + CellSize
      && g.extent[2] - CellSize < extent[2] <= g.extent[2]
      && g.extent[3] - CellSize < extent[3] <= g.extent[3]
      && (forall k :: 0 <= k < 4 ==> (g.extent[k] - snap) % CellSize == 0)
      && 0 <= g.cols && g.cols * CellSize == g.extent[2] - g.extent[0]
      && 0 <= g.rows && g.rows * CellSize == g.extent[3] - g.extent[1]
      && g.geo == [g.extent[0], CellSize, 0, g.extent[3], 0, -CellSize]
  {
    SnapBounds(extent[0], snap);
    SnapBounds(extent[1], snap);
    SnapBounds(extent[2], snap);
    SnapBounds(extent[3], snap);
    var g := SnapGrid(extent, snap);
    ExactQuotient(g.extent[2] - g.extent[0], (g.extent[2] - snap) / CellSize - (g.extent[0] - snap) / CellSize);
    ExactQuotient(g.extent[3] - g.extent[1], (g.extent[3] - snap) / CellSize - (g.extent[1] - snap) / CellSize);
  }

  /** A non-negative multiple of the cell size divides exactly. */
  lemma ExactQuotient(d: int, q: int)
    requires d == q * CellSize && d >= 0
    ensures TruncDiv(d, CellSize) == q && q >= 0
  {
  }

  /** The statewide grid (California Albers) snaps to a 0, 0 corner. */
  function StateGrid(extent: seq<int>): Grid
    requires |extent| == 4
  {
    SnapGrid(extent, 0)
  }

  /** The UTM zone grids snap to the Landsat grid, offset by 15 m. */
  function UtmGrid(extent: seq<int>): Grid
    requires |extent| == 4
  {
    SnapGrid(extent, 15)
  }
}
