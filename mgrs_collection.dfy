/**
 * The MGRS crop-type image collection: for each tile and year, the ordered stack of bands
 * (a fully masked base, the field codes, LandIQ and California CDL on the California
 * tiles, a state CDL before 2008, the CONUS CDL), the image properties naming the sources,
 * the first-non-null reduction masked to the tile, and when a tile-year is rebuilt.
 */
module MgrsCollection {
  import opened Wrappers
  import opened Strings
  import opened Remap
  import opened Pixels
  import opened ExportSelect

  const LandIqColl: string := "projects/earthengine-legacy/assets/projects/openet/crop_type/land_iq"
  const LegacyPrefix: string := "projects/earthengine-legacy/assets/"
  const ExportColl: string := "projects/openet/crop_type/v2022a"

  /** The tiles that cover California. */
  predicate IsCaTile(tile: string) {
    tile == "10S" || tile == "10T" || tile == "11S"
  }

  /** The years with a LandIQ image of their own in this collection. */
  const LandIqRawYears: seq<int> := [2014, 2016, 2018]

  function LandIqYearImage(year: int, remapped: bool, mask8287: bool): ImageRef {
    ImageRef(LandIqColl, IntToString(year), remapped, mask8287)
  }

  /** The LandIQ band of a California tile; None adds no band; the prompt stops the run. */
  function LandIqBand(year: int): Result<Option<ImageRef>>
  {
    if year in LandIqRawYears then Ok(Some(LandIqYearImage(year, false, false)))
    else if year < 2009 then Ok(None)
    else if 2009 <= year <= 2013 then Ok(Some(LandIqYearImage(2014, true, true)))
    else if year == 2015 then Ok(Some(LandIqYearImage(2014, true, false)))
    else if year == 2017 then Ok(Some(LandIqYearImage(2016, true, false)))
    else if year > 2018 then Ok(Some(LandIqYearImage(2018, true, false)))
    else Err(Prompt("unexpected year: " + IntToString(year)))
  }

  /**
   * The prompt is unreachable and no band is added before 2009. From 2014 on a tile reads
   * the latest LandIQ image not after the year; 2009-2013 read 2014 with the urban and
   * wetland codes masked; every year without its own image is remapped.
   */
  lemma LandIqBandSpec(year: int)
    ensures LandIqBand(year).Ok?
    ensures LandIqBand(year).value.None? <==> year < 2009
    ensures year >= 2014 ==> LandIqBand(year).value.Some?
    ensures year >= 2014 ==>
      exists r :: LatestAtMost(LandIqRawYears, year, r) && LandIqBand(year).value.value.name == IntToString(r)
    ensures 2009 <= year < 2014 ==> LandIqBand(year).value == Some(LandIqYearImage(2014, true, true))
    ensures LandIqBand(year).value.Some? ==>
      (LandIqBand(year).value.value.remapped <==> year !in LandIqRawYears)
      && (LandIqBand(year).value.value.mask8287 <==> year < 2014)
  {
    if year >= 2014 {
      var r := if year in LandIqRawYears then year else if year > 2018 then 2018 else year - 1;
      assert LatestAtMost(LandIqRawYears, year, r);
    }
  }

  /** The California CDL year: 2008 before 2008, the last CDL year after it. */
  function CdlCaYear(year: int, cdlYearMax: int): (r: int)
    ensures year < 2008 ==> r == 2008
    ensures year >= 2008 ==> r == if year > cdlYearMax then cdlYearMax else year
  {
    if year < 2008 then 2008 else if year > cdlYearMax then cdlYearMax else year
  }

  /** The California CDL band image, always remapped (and clipped to the state). */
  function CdlCaImage(year: int, cdlYearMax: int): ImageRef {
    CdlYearImage(CdlCaYear(year, cdlYearMax), true)
  }

  /** The Python values the 2005 test compares: a str or a list. */
  datatype PyValue = PyStr(s: string) | PyList(items: seq<PyValue>)

  /** Python's `x in l`: some element equals x; a list never equals a str. */
  predicate PyIn(x: PyValue, l: seq<PyValue>) {
    exists k :: 0 <= k < |l| && l[k] == x
  }

  /** The test at line 354 as written: the whole tile-argument list against two tile codes. */
  predicate UseSplit2005(year: int, tilesArg: seq<string>) {
    year == 2005 && !PyIn(PyList(seq(|tilesArg|, k requires 0 <= k < |tilesArg| => PyStr(tilesArg[k]))),
                          [PyStr("11T"), PyStr("12T")])
  }

  /** The name of the pre-2008 state CDL image. */
  function StateImageName(year: int, tilesArg: seq<string>): string {
    if UseSplit2005(year, tilesArg) then "2005a"
    else if year == 2007 then "2007a"
    else IntToString(year)
  }

  /** A list of tiles is never one of the two codes, so 2005 always reads 2005a. */
  lemma State2005Always(tilesArg: seq<string>)
    ensures UseSplit2005(2005, tilesArg)
    ensures StateImageName(2005, tilesArg) == "2005a"
  {
  }

  /** The CONUS CDL band: the last year remapped after it, 2008 remapped before 2008. */
  function ConusImage(year: int, cdlYearMax: int): ImageRef {
    if year > cdlYearMax then CdlYearImage(cdlYearMax, true)
    else if year < 2008 then CdlYearImage(2008, true)
    else CdlYearImage(year, false)
  }

  /** Only a year the CDL covers in full reads its own CONUS image as it is. */
  lemma ConusSpec(year: int, cdlYearMax: int)
    ensures !ConusImage(year, cdlYearMax).remapped <==> 2008 <= year <= cdlYearMax
    ensures ConusImage(year, cdlYearMax).name ==
      IntToString(if year > cdlYearMax then cdlYearMax else if year < 2008 then 2008 else year)
  {
  }

  // ---------------------------------------------------------------------------
  // the band stack

  datatype BandSource =
    | MaskedBase                          // mgrs_mask_img.updateMask(0)
    | FieldCodes                          // the rasterized CROP_<year> of fields with a code > 0
    | Asset(img: ImageRef, clipCa: bool)  // an image, clipped to California when clipCa

  datatype Band = Band(name: string, source: BandSource)

  /** An image property: text, or (for cdl_ca_img_id) the image object itself. */
  datatype Property = Text(s: string) | ImageValue(img: ImageRef)

  datatype Plan = Plan(bands: seq<Band>, props: map<string, Property>)

  /** The bands and source properties of one tile-year. */
  function PlanOf(tile: string, year: int, cdlYearMax: int, tilesArg: seq<string>): Result<Plan>
  {
    var landiq := if IsCaTile(tile) then LandIqBand(year) else Ok(None);
    if landiq.Err? then Err(landiq.error)
    else
      var lq := if landiq.value.Some? then [Band("landiq", Asset(landiq.value.value, false))] else [];
      var ca := if IsCaTile(tile) then [Band("cdl_ca_img", Asset(CdlCaImage(year, cdlYearMax), true))] else [];
      var stateImg := ImageRef(CdlColl, StateImageName(year, tilesArg), false, false);
      var st := if year < 2008 then [Band("cdl_state_img", Asset(stateImg, false))] else [];
      var conus := ConusImage(year, cdlYearMax);
      var bands := [Band("mask", MaskedBase), Band("fields", FieldCodes)] + lq + ca + st
        + [Band("cdl_conus_img", Asset(conus, false))];
      var p0 := map["mgrs_tile" := Text(tile)];
      var p1 := if landiq.value.Some? then p0["landiq_img_id" := Text(Id(landiq.value.value))] else p0;
      var p2 := if IsCaTile(tile) then p1["cdl_ca_img_id" := ImageValue(CdlCaImage(year, cdlYearMax))] else p1;
      var p3 := if year < 2008 then p2["cdl_state_img_id" := Text(Id(stateImg))] else p2;
      Ok(Plan(bands, p3["cdl_img_id" := Text(Id(conus))]))
  }

  /** The loop body that adds the bands and sets the properties one source at a time. */
  method BuildPlan(tile: string, year: int, cdlYearMax: int, tilesArg: seq<string>) returns (r: Result<Plan>)
    ensures r == PlanOf(tile, year, cdlYearMax, tilesArg)
  {
    var props: map<string, Property> := map["mgrs_tile" := Text(tile)];
    var bands: seq<Band> := [Band("mask", MaskedBase)];
    bands := bands + [Band("fields", FieldCodes)];
    if IsCaTile(tile) {
      var landiq := LandIqBand(year);
      if landiq.Err? {
        return Err(landiq.error);
      }
      if landiq.value.Some? {
        bands := bands + [Band("landiq", Asset(landiq.value.value, false))];
        props := props["landiq_img_id" := Text(Id(landiq.value.value))];
      }
    }
    if IsCaTile(tile) {
      var cdlCa := CdlCaImage(year, cdlYearMax);
      bands := bands + [Band("cdl_ca_img", Asset(cdlCa, true))];
      props := props["cdl_ca_img_id" := ImageValue(cdlCa)];
    }
    if year < 2008 {
      var stateImg := ImageRef(CdlColl, StateImageName(year, tilesArg), false, false);
      bands := bands + [Band("cdl_state_img", Asset(stateImg, false))];
      props := props["cdl_state_img_id" := Text(Id(stateImg))];
    }
    var conus := ConusImage(year, cdlYearMax);
    bands := bands + [Band("cdl_conus_img", Asset(conus, false))];
    props := props["cdl_img_id" := Text(Id(conus))];
    r := Ok(Plan(bands, props));
    assert bands == PlanOf(tile, year, cdlYearMax, tilesArg).value.bands;
    assert props == PlanOf(tile, year, cdlYearMax, tilesArg).value.props;
  }

  function Names(bands: seq<Band>): seq<string> {
    seq(|bands|, k requires 0 <= k < |bands| => bands[k].name)
  }

  /** The band names of a plan, in stacking order. */
  function PlanNames(tile: string, year: int): seq<string> {
    ["mask", "fields"] + (if IsCaTile(tile) && year >= 2009 then ["landiq"] else [])
    + (if IsCaTile(tile) then ["cdl_ca_img"] else []) + (if year < 2008 then ["cdl_state_img"] else [])
    + ["cdl_conus_img"]
  }

  lemma PlanNamesOf(tile: string, year: int, cdlYearMax: int, tilesArg: seq<string>)
    ensures PlanOf(tile, year, cdlYearMax, tilesArg).Ok?
    ensures Names(PlanOf(tile, year, cdlYearMax, tilesArg).value.bands) == PlanNames(tile, year)
  {
    if IsCaTile(tile) { LandIqBandSpec(year); }
    var p := PlanOf(tile, year, cdlYearMax, tilesArg).value;
    var names := PlanNames(tile, year);
    assert |Names(p.bands)| == |names|;
    forall k | 0 <= k < |names| ensures Names(p.bands)[k] == names[k] {
    }
  }

  lemma PlanProps(tile: string, year: int, cdlYearMax: int, tilesArg: seq<string>)
    ensures PlanOf(tile, year, cdlYearMax, tilesArg).Ok?
    ensures
      var p := PlanOf(tile, year, cdlYearMax, tilesArg).value;
      && ("landiq_img_id" in p.props <==> IsCaTile(tile) && year >= 2009)
      && ("cdl_state_img_id" in p.props <==> year < 2008)
      && (IsCaTile(tile) ==> p.props["cdl_ca_img_id"] == ImageValue(CdlCaImage(year, cdlYearMax)))
      && p.props["cdl_img_id"] == Text(Id(ConusImage(year, cdlYearMax)))
  {
    if IsCaTile(tile) { LandIqBandSpec(year); }
  }

  /**
   * The stack is the masked base, the fields, then LandIQ (California tiles from 2009),
   * the California CDL (California tiles), the state CDL (before 2008) and last the CONUS
   * CDL; cdl_ca_img_id holds the image rather than its id.
   */
  lemma PlanSpec(tile: string, year: int, cdlYearMax: int, tilesArg: seq<string>)
    ensures PlanOf(tile, year, cdlYearMax, tilesArg).Ok?
    ensures
      var p := PlanOf(tile, year, cdlYearMax, tilesArg).value;
      && Names(p.bands) == PlanNames(tile, year)
      && p.bands[0].source == MaskedBase && p.bands[1].source == FieldCodes
      && p.bands[|p.bands| - 1].source == Asset(ConusImage(year, cdlYearMax), false)
      && ("landiq_img_id" in p.props <==> IsCaTile(tile) && year >= 2009)
      && ("cdl_state_img_id" in p.props <==> year < 2008)
      && (IsCaTile(tile) ==> p.props["cdl_ca_img_id"] == ImageValue(CdlCaImage(year, cdlYearMax)))
      && p.props["cdl_img_id"] == Text(Id(ConusImage(year, cdlYearMax)))
  {
    PlanNamesOf(tile, year, cdlYearMax, tilesArg);
    PlanProps(tile, year, cdlYearMax, tilesArg);
    PlanBands(tile, year, cdlYearMax, tilesArg);
  }

  // ---------------------------------------------------------------------------
  // the per-pixel reduction

  /**
   * What the sources hold at one pixel: the code of the field that covers it, the raw
   * value of each asset id, whether it lies inside California, and the tile mask.
   */
  datatype PixelInputs = PixelInputs(fieldCode: Option<int>, raw: map<string, Pixel>, inCa: bool, tileMask: Pixel)

  function RawAt(env: PixelInputs, id: string): Pixel {
    if id in env.raw then env.raw[id] else None
  }

  /** The value one band has at the pixel. */
  function BandValue(b: Band, env: PixelInputs, total: map<int, int>): Pixel {
    match b.source
    case MaskedBase => None
    case FieldCodes => if env.fieldCode.Some? && env.fieldCode.value > 0 then env.fieldCode else None
    case Asset(img, clipCa) => if clipCa && !env.inCa then None else ImagePixel(img, total, RawAt(env, Id(img)))
  }

  function BandValues(bands: seq<Band>, env: PixelInputs, total: map<int, int>): seq<Pixel> {
    seq(|bands|, k requires 0 <= k < |bands| => BandValue(bands[k], env, total))
  }

  /** The output pixel: the first band with a value, masked to the tile. */
  function Output(bands: seq<Band>, env: PixelInputs, total: map<int, int>): Pixel {
    UpdateMask(FirstNonNull(BandValues(bands, env, total)), env.tileMask)
  }

  /** The bands the pixel rules below rely on: the base, the fields, LandIQ third, CONUS last. */
  lemma PlanBands(tile: string, year: int, cdlYearMax: int, tilesArg: seq<string>)
    ensures PlanOf(tile, year, cdlYearMax, tilesArg).Ok?
    ensures
      var bands := PlanOf(tile, year, cdlYearMax, tilesArg).value.bands;
      && 3 <= |bands|
      && bands[0] == Band("mask", MaskedBase)
      && bands[1] == Band("fields", FieldCodes)
      && (IsCaTile(tile) && year >= 2009 ==> bands[2] == Band("landiq", Asset(LandIqBand(year).value.value, false)))
      && bands[|bands| - 1] == Band("cdl_conus_img", Asset(ConusImage(year, cdlYearMax), false))
  {
    if IsCaTile(tile) { LandIqBandSpec(year); }
  }

  /** Inside the tile mask a field with a positive code decides the pixel. */
  lemma FieldsDecide(tile: string, year: int, cdlYearMax: int, tilesArg: seq<string>,
                     env: PixelInputs, total: map<int, int>)
    requires env.tileMask.Some? && env.tileMask.value != 0
    requires env.fieldCode.Some? && env.fieldCode.value > 0
    ensures Output(PlanOf(tile, year, cdlYearMax, tilesArg).value.bands, env, total) == env.fieldCode
  {
    PlanBands(tile, year, cdlYearMax, tilesArg);
    var vs := BandValues(PlanOf(tile, year, cdlYearMax, tilesArg).value.bands, env, total);
    assert vs[0] == None;
    assert vs[1] == env.fieldCode;
    FirstNonNullAt(vs, 1);
  }

  /** Without a field, a California tile from 2009 takes LandIQ where LandIQ has a value. */
  lemma LandIqDecides(tile: string, year: int, cdlYearMax: int, tilesArg: seq<string>,
                      env: PixelInputs, total: map<int, int>)
    requires env.tileMask.Some? && env.tileMask.value != 0
    requires !(env.fieldCode.Some? && env.fieldCode.value > 0)
    requires IsCaTile(tile) && year >= 2009
    requires LandIqBand(year).Ok? && LandIqBand(year).value.Some?
    requires ImagePixel(LandIqBand(year).value.value, total, RawAt(env, Id(LandIqBand(year).value.value))).Some?
    ensures Output(PlanOf(tile, year, cdlYearMax, tilesArg).value.bands, env, total)
      == ImagePixel(LandIqBand(year).value.value, total, RawAt(env, Id(LandIqBand(year).value.value)))
  {
    PlanBands(tile, year, cdlYearMax, tilesArg);
    var vs := BandValues(PlanOf(tile, year, cdlYearMax, tilesArg).value.bands, env, total);
    assert vs[0] == None;
    assert vs[1] == None;
    FirstNonNullAt(vs, 2);
  }

  /** Where no band before it has a value, the pixel is the CONUS CDL's, masked to the tile. */
  lemma ConusFallback(tile: string, year: int, cdlYearMax: int, tilesArg: seq<string>,
                      env: PixelInputs, total: map<int, int>)
    requires
      var bands := PlanOf(tile, year, cdlYearMax, tilesArg).value.bands;
      forall k :: 0 <= k < |bands| - 1 ==> BandValue(bands[k], env, total).None?
    ensures Output(PlanOf(tile, year, cdlYearMax, tilesArg).value.bands, env, total)
      == UpdateMask(ImagePixel(ConusImage(year, cdlYearMax), total, RawAt(env, Id(ConusImage(year, cdlYearMax)))),
                    env.tileMask)
  {
    PlanBands(tile, year, cdlYearMax, tilesArg);
    var bands := PlanOf(tile, year, cdlYearMax, tilesArg).value.bands;
    var vs := BandValues(bands, env, total);
    var n := |vs| - 1;
    assert forall k :: 0 <= k < n ==> vs[k] == BandValue(bands[k], env, total);
    if vs[n].Some? { FirstNonNullAt(vs, n); }
  }

  // ---------------------------------------------------------------------------
  // ids and the skip rule

  function ImageId(tile: string, year: int): string {
    tile + "_" + IntToString(year) + "0101"
  }

  function ExportIdOf(tile: string, year: int): string {
    "crop_type_" + ImageId(tile, year)
  }

  function AssetId(tile: string, year: int): string {
    LegacyPrefix + ExportColl + "/" + ImageId(tile, year)
  }

  /** asset_id without the legacy prefix. */
  function ShortId(tile: string, year: int): (r: string)
    ensures AssetId(tile, year) == LegacyPrefix + r
  {
    ConcatRegroup(LegacyPrefix, ExportColl, "/", ImageId(tile, year));
    ExportColl + "/" + ImageId(tile, year)
  }

  /** Two years of one tile never share an export id. */
  lemma ExportIdsDistinct(tile: string, y1: int, y2: int)
    requires y1 != y2
    ensures ExportIdOf(tile, y1) != ExportIdOf(tile, y2)
  {
    var p := "crop_type_" + tile + "_";
    assert ExportIdOf(tile, y1) == p + IntToString(y1) + "0101";
    assert ExportIdOf(tile, y2) == p + IntToString(y2) + "0101";
    if ExportIdOf(tile, y1) == ExportIdOf(tile, y2) {
      var a := p + IntToString(y1) + "0101";
      var b := p + IntToString(y2) + "0101";
      assert |IntToString(y1)| == |IntToString(y2)|;
      assert a[|p|..|a| - 4] == IntToString(y1);
      assert b[|p|..|b| - 4] == IntToString(y2);
      IntToStringInjective(y1, y2);
    }
  }

  /** What the script does for one tile-year. */
  datatype TileAction = SkipYear | Build(cancel: bool, delete: bool)

  function TileYearAction(exportId: string, assetId: string, shortId: string,
                          tasks: set<string>, assets: set<string>, overwrite: bool): TileAction
  {
    if overwrite then Build(exportId in tasks, assetId in assets || shortId in assets)
    else if exportId in tasks then SkipYear
    else if assetId in assets || shortId in assets then SkipYear
    else Build(false, false)
  }

  /**
   * A year is skipped exactly when overwrite is off and its task or its asset (under
   * either id) exists; a built year first cancels its task and deletes its asset, so it
   * never runs beside or over an earlier one.
   */
  lemma TileYearActionSpec(exportId: string, assetId: string, shortId: string,
                           tasks: set<string>, assets: set<string>, overwrite: bool)
    ensures TileYearAction(exportId, assetId, shortId, tasks, assets, overwrite) == SkipYear <==>
      !overwrite && (exportId in tasks || assetId in assets || shortId in assets)
    ensures TileYearAction(exportId, assetId, shortId, tasks, assets, overwrite).Build? ==>
      (TileYearAction(exportId, assetId, shortId, tasks, assets, overwrite).cancel <==> exportId in tasks)
      && (TileYearAction(exportId, assetId, shortId, tasks, assets, overwrite).delete <==>
          assetId in assets || shortId in assets)
  {
  }
}
