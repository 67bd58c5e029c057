/**
 * The field-statistics export script: which CDL, NLCD and LandIQ image each year and state
 * reads, what provenance text the exported CSRC column carries, the per-pixel rules
 * applied before the zonal mode, and when an export is skipped or resubmitted.
 */
module ExportSelect {
  import opened Wrappers
  import opened Strings
  import opened Remap
  import opened Pixels
  import opened CdlYears

  const CdlColl: string := "USDA/NASS/CDL"
  const CaColl: string := "projects/openet/assets/crop_type/california"
  const CdlYearMin: int := 1997
  const CdlYearMax: int := 2024

  /**
   * An image read by the script: the asset collection and name (its id is coll/name),
   * whether its values go through the completed remap, and whether raw 82/87 are masked.
   */
  datatype ImageRef = ImageRef(coll: string, name: string, remapped: bool, mask8287: bool)

  function Id(img: ImageRef): string {
    img.coll + "/" + img.name
  }

  /** The CSRC text of an image: its id, with the remap note when it is remapped. */
  function Provenance(img: ImageRef): (r: string)
    ensures StartsWith(r, Id(img))
    ensures img.remapped ==> r == Id(img) + Note
    ensures !img.remapped ==> r == Id(img)
  {
    if img.remapped then Id(img) + Note else Id(img)
  }

  /** The pixel an image yields for the raw asset value. */
  function ImagePixel(img: ImageRef, total: map<int, int>, raw: Pixel): (r: Pixel)
    ensures !img.remapped && !img.mask8287 ==> r == raw
    ensures img.mask8287 && (raw == Some(82) || raw == Some(87)) ==> r.None?
    ensures raw.None? ==> r.None?
  {
    var v := if img.remapped then Apply(total, raw) else raw;
    if img.mask8287 && (raw == Some(82) || raw == Some(87)) then None else v
  }

  function Clamp(y: int, lo: int, hi: int): (r: int)
    requires lo <= hi
    ensures lo <= r <= hi
    ensures lo <= y <= hi ==> r == y
    ensures y < lo ==> r == lo
    ensures y > hi ==> r == hi
  {
    if y < lo then lo else if y > hi then hi else y
  }

  // ---------------------------------------------------------------------------
  // CDL for the states other than California

  /** The remapped CDL image of a year, named by the year. */
  function CdlYearImage(year: int, remapped: bool): ImageRef {
    ImageRef(CdlColl, IntToString(year), remapped, false)
  }

  /** The CDL image a state's year reads; stateYears is cdl_state_years[state]. */
  function CdlImage(year: int, state: string, stateYears: seq<int>): Result<ImageRef>
  {
    if year > CdlYearMax then Ok(CdlYearImage(CdlYearMax, true))
    else if year < CdlYearMin && year !in stateYears then Ok(CdlYearImage(CdlYearMin, true))
    else if year == 2005 then
      if state == "ID" then Err(Raised("ID 2005 CDL image should not be used"))
      else if state == "MS" then Ok(ImageRef(CdlColl, "2005b", false, false))
      else Ok(ImageRef(CdlColl, "2005a", false, false))
    else if year == 2007 then
      if state == "CA" then Err(Raised("CA 2007b CDL image should not be used"))
      else Ok(ImageRef(CdlColl, "2007a", false, false))
    else Ok(CdlYearImage(year, false))
  }

  /** Years after the last CDL read its last image, remapped, with the note. */
  lemma CdlAfterMax(year: int, state: string, stateYears: seq<int>)
    requires year > CdlYearMax
    ensures CdlImage(year, state, stateYears) == Ok(CdlYearImage(CdlYearMax, true))
    ensures Provenance(CdlImage(year, state, stateYears).value) == CdlColl + "/" + IntToString(CdlYearMax) + Note
  {
  }

  /** Every year from 2008 through the last CDL reads the state's own image, raw. */
  lemma CdlOwnYear(year: int, state: string, stateYears: seq<int>)
    requires 2008 <= year <= CdlYearMax
    ensures CdlImage(year, state, stateYears) == Ok(CdlYearImage(year, false))
    ensures Provenance(CdlImage(year, state, stateYears).value) == CdlColl + "/" + IntToString(year)
  {
  }

  /** The split 2005 and 2007 images: ID 2005 and CA 2007 raise; MS reads 2005b. */
  lemma CdlSplitYears(state: string, stateYears: seq<int>)
    ensures CdlImage(2005, state, stateYears).Err? <==> state == "ID"
    ensures state == "MS" ==> CdlImage(2005, state, stateYears) == Ok(ImageRef(CdlColl, "2005b", false, false))
    ensures state != "MS" && state != "ID" ==>
      CdlImage(2005, state, stateYears) == Ok(ImageRef(CdlColl, "2005a", false, false))
    ensures CdlImage(2007, state, stateYears).Err? <==> state == "CA"
    ensures state != "CA" ==> CdlImage(2007, state, stateYears) == Ok(ImageRef(CdlColl, "2007a", false, false))
  {
  }

  /**
   * The two raises cannot fire: a year reaches the selection only when cdl_state_years
   * lists it for the state, the 2005 table has no ID, and California is not in this loop.
   */
  lemma CdlNeverRaises(year: int, state: string, states: seq<string>, years: seq<int>)
    requires year in StateYears(years, state, states)
    requires state != "CA"
    ensures CdlImage(year, state, StateYears(years, state, states)).Ok?
  {
    StateYearsMembers(years, state, states);
    if year == 2005 {
      assert EarlyStates(2005).value == ["AR", "IA", "IL", "IN", "MO", "MS", "ND", "NE", "WI"];
    }
  }

  /** A state's CDL pixel: the image pixel, 81 masked, then 176 to 37 under NLCD 81/82. */
  function CdlPixel(img: ImageRef, total: map<int, int>, raw: Pixel, nlcd: Pixel): Pixel {
    Replace176(Mask81(ImagePixel(img, total, raw)), nlcd)
  }

  /** On a raw CDL image the pixel is the CDL code except for the two rules. */
  lemma CdlPixelRaw(img: ImageRef, total: map<int, int>, raw: Pixel, nlcd: Pixel)
    requires !img.remapped && !img.mask8287
    ensures CdlPixel(img, total, raw, nlcd).None? <==> raw.None? || raw == Some(81)
    ensures raw == Some(176) && (nlcd == Some(81) || nlcd == Some(82)) ==>
      CdlPixel(img, total, raw, nlcd) == Some(37)
    ensures raw != Some(81) && raw != Some(176) ==> CdlPixel(img, total, raw, nlcd) == raw
  {
  }

  // ---------------------------------------------------------------------------
  // NLCD

  /** nlcd_img_ids, by the release each year reads. */
  const NlcdReleases: map<int, int> := map[
    2021 := 2021, 2020 := 2019, 2019 := 2019, 2018 := 2019, 2017 := 2016, 2016 := 2016,
    2015 := 2016, 2014 := 2013, 2013 := 2013, 2012 := 2011, 2011 := 2011, 2010 := 2011,
    2009 := 2008, 2008 := 2008, 2007 := 2006, 2006 := 2006, 2005 := 2004, 2004 := 2004,
    2003 := 2004, 2002 := 2001, 2001 := 2001]

  /** The NLCD land-cover releases. */
  const NlcdReleaseYears: set<int> := {2001, 2004, 2006, 2008, 2011, 2013, 2016, 2019, 2021}

  /** The asset id of an NLCD release. */
  function NlcdId(release: int): string {
    "USGS/NLCD_RELEASES/" + (if release == 2021 then "2021_REL" else "2019_REL") + "/NLCD/"
      + IntToString(release)
  }

  /** The table's keys run from 2001 through 2021, so its min and max are those years. */
  lemma NlcdKeys(y: int)
    ensures y in NlcdReleases <==> 2001 <= y <= 2021
  {
  }

  /** The year clamped to the table's first and last keys. */
  function NlcdYear(year: int): (r: int)
    ensures r in NlcdReleases
    ensures 2001 <= year <= 2021 ==> r == year
    ensures year < 2001 ==> r == 2001
    ensures year > 2021 ==> r == 2021
  {
    var r := Clamp(year, 2001, 2021);
    NlcdKeys(r);
    r
  }

  /** The NLCD image a year reads. */
  function NlcdImage(year: int): string {
    NlcdId(NlcdReleases[NlcdYear(year)])
  }

  function Dist(a: int, b: int): nat {
    if a < b then b - a else a - b
  }

  /** Each table year reads the nearest release, the earlier one when two are as near. */
  lemma NlcdNearest(y: int, q: int)
    requires y in NlcdReleases
    requires q in NlcdReleaseYears
    ensures NlcdReleases[y] in NlcdReleaseYears
    ensures Dist(y, NlcdReleases[y]) < Dist(y, q)
      || (Dist(y, NlcdReleases[y]) == Dist(y, q) && NlcdReleases[y] <= q)
  {
    NlcdKeys(y);
  }

  /** The releases are exactly the table's values. */
  lemma NlcdValues()
    ensures NlcdReleases.Values == NlcdReleaseYears
  {
    assert NlcdReleases[2001] == 2001 && NlcdReleases[2004] == 2004 && NlcdReleases[2006] == 2006;
    assert NlcdReleases[2008] == 2008 && NlcdReleases[2011] == 2011 && NlcdReleases[2013] == 2013;
    assert NlcdReleases[2016] == 2016 && NlcdReleases[2019] == 2019 && NlcdReleases[2021] == 2021;
  }

  // ---------------------------------------------------------------------------
  // California LandIQ

  /** The years with a LandIQ image of their own. */
  const CaRawYears: seq<int> := [2014, 2016, 2018, 2019, 2020, 2021, 2022, 2023]

  function CaImage(year: int, remapped: bool, mask8287: bool): ImageRef {
    ImageRef(CaColl, IntToString(year), remapped, mask8287)
  }

  /** The LandIQ image of the statewide export; None is a skipped year. */
  function LandIqImage(year: int): Result<Option<ImageRef>>
  {
    if year < 2009 then Ok(None)
    else if year in CaRawYears then Ok(Some(CaImage(year, false, false)))
    else if year > 2023 then Ok(Some(CaImage(2023, true, false)))
    else if year == 2015 || year == 2017 then Ok(Some(CaImage(year - 1, true, false)))
    else if year < 2009 then Ok(None)
    else if 2009 <= year <= 2013 then Ok(Some(CaImage(2014, true, true)))
    else Err(Raised("unexpected California (LandIQ) year: " + IntToString(year)))
  }

  /** The latest of the years in s that is at most y. */
  predicate LatestAtMost(s: seq<int>, y: int, r: int) {
    r in s && r <= y && forall q :: q in s && q <= y ==> q <= r
  }

  /**
   * The LandIQ export never raises and skips exactly the years before 2009. From 2014 on
   * a year reads the latest LandIQ image not after it; earlier years read 2014 with the
   * urban and wetland codes masked. The image is remapped, and the provenance carries
   * the note, exactly when the year has no image of its own.
   */
  lemma LandIqSpec(year: int)
    ensures LandIqImage(year).Ok?
    ensures LandIqImage(year).value.None? <==> year < 2009
    ensures LandIqImage(year).value.Some? ==> LandIqImage(year).value.value.coll == CaColl
    ensures year >= 2014 ==> LandIqImage(year).value.Some?
    ensures year >= 2014 ==>
      exists r :: LatestAtMost(CaRawYears, year, r) && LandIqImage(year).value.value.name == IntToString(r)
    ensures 2009 <= year < 2014 ==> LandIqImage(year).value == Some(CaImage(2014, true, true))
    ensures LandIqImage(year).value.Some? ==>
      (LandIqImage(year).value.value.remapped <==> year !in CaRawYears)
      && (LandIqImage(year).value.value.mask8287 <==> year < 2014)
      && (Provenance(LandIqImage(year).value.value) == Id(LandIqImage(year).value.value) <==> year in CaRawYears)
  {
    if year >= 2014 {
      var r := if year in CaRawYears then year else if year > 2023 then 2023 else year - 1;
      assert LatestAtMost(CaRawYears, year, r);
    }
  }

  // ---------------------------------------------------------------------------
  // California LandIQ/CDL composite

  /** The LandIQ image of the composite; None where no branch assigns ca_img. */
  function CompositeCaImage(year: int): Option<ImageRef>
  {
    if year in CaRawYears then Some(CaImage(year, false, false))
    else if year > 2023 then Some(CaImage(2023, true, false))
    else if year == 2015 || year == 2017 then Some(CaImage(year - 1, true, false))
    else if year < 2014 then Some(CaImage(2014, true, true))
    else None
  }

  /** The CDL image of the composite: the year clamped to the CDL years, always remapped. */
  function CompositeCdlImage(year: int): (r: ImageRef)
    ensures r.remapped && !r.mask8287
    ensures r == CdlYearImage(Clamp(year, CdlYearMin, CdlYearMax), true)
  {
    CdlYearImage(Clamp(year, CdlYearMin, CdlYearMax), true)
  }

  /** The composite always has a LandIQ image, the same one the statewide export reads. */
  lemma CompositeCaTotal(year: int)
    ensures CompositeCaImage(year).Some?
    ensures year >= 2009 ==> LandIqImage(year) == Ok(CompositeCaImage(year))
  {
  }

  /** The composite's CDL pixel: 81 masked, then the remap, then 176 to 37. */
  function CompositeCdlPixel(total: map<int, int>, raw: Pixel, nlcd: Pixel): Pixel {
    Replace176(Apply(total, Mask81(raw)), nlcd)
  }

  /** The composite pixel: CDL alone before 2009, else LandIQ first, then CDL. */
  function CompositePixel(year: int, ca: ImageRef, total: map<int, int>, caRaw: Pixel, cdlRaw: Pixel, nlcd: Pixel): Pixel
  {
    var cdl := CompositeCdlPixel(total, cdlRaw, nlcd);
    if year < 2009 then FirstNonNull([cdl]) else FirstNonNull([ImagePixel(ca, total, caRaw), cdl])
  }

  /** LandIQ takes precedence where it has a value; CDL fills the rest and the early years. */
  lemma CompositePrecedence(year: int, ca: ImageRef, total: map<int, int>, caRaw: Pixel, cdlRaw: Pixel, nlcd: Pixel)
    ensures year >= 2009 && ImagePixel(ca, total, caRaw).Some? ==>
      CompositePixel(year, ca, total, caRaw, cdlRaw, nlcd) == ImagePixel(ca, total, caRaw)
    ensures year < 2009 || ImagePixel(ca, total, caRaw).None? ==>
      CompositePixel(year, ca, total, caRaw, cdlRaw, nlcd) == CompositeCdlPixel(total, cdlRaw, nlcd)
  {
    var cdl := CompositeCdlPixel(total, cdlRaw, nlcd);
    var p := ImagePixel(ca, total, caRaw);
    assert [p, cdl] == [p] + [cdl];
    FirstNonNullPrefix([p], [cdl]);
    FirstNonNullPrefix([cdl], []);
    assert [cdl] + [] == [cdl];
  }

  /** The composite masks 81 before the remap; the state export after a remap. They agree
   * when the remap table neither lists 81 nor maps into it. */
  lemma CompositeCdlAgrees(t: Table, total: map<int, int>, year: int, raw: Pixel, nlcd: Pixel)
    requires Completes(total, t)
    requires 81 !in t && forall c :: c in t ==> t[c] != 81
    ensures CompositeCdlPixel(total, raw, nlcd) == CdlPixel(CdlYearImage(year, true), total, raw, nlcd)
  {
    MaskOrdersAgree(t, total, raw);
  }

  /** The composite's CSRC text. */
  function CompositeSource(year: int, ca: ImageRef, cdl: ImageRef): string {
    if year < 2009 then Id(cdl) + Note
    else "CA" + LastSegment(Id(ca), '/') + " CDL" + LastSegment(Id(cdl), '/') + " composite" + Note
  }

  /** The last path segment of an image named by a number is that number. */
  lemma NumberedId(img: ImageRef, n: int)
    requires img.name == IntToString(n)
    ensures LastSegment(Id(img), '/') == img.name
  {
    IntToStringChars(n);
    assert Id(img) == img.coll + ['/'] + img.name;
    LastSegmentOf(img.coll, '/', img.name);
  }

  /** From 2009 the provenance names the LandIQ and the CDL year: 'CA<y> CDL<y> composite - ...'. */
  lemma CompositeSourceForm(year: int, ca: ImageRef, cdl: ImageRef, a: int, b: int)
    requires year >= 2009
    requires ca.name == IntToString(a) && cdl.name == IntToString(b)
    ensures CompositeSource(year, ca, cdl) ==
      "CA" + IntToString(a) + " CDL" + IntToString(b) + " composite - remapped annual crops"
  {
    NumberedId(ca, a);
    NumberedId(cdl, b);
  }

  /** Before 2009 the provenance is the CDL id with the note. */
  lemma CompositeSourceEarly(year: int, ca: ImageRef)
    requires year < 2009
    ensures CompositeSource(year, ca, CompositeCdlImage(year)) == Provenance(CompositeCdlImage(year))
  {
  }

  // ---------------------------------------------------------------------------
  // export ids and the skip rule

  /** The export description, lower-cased: '<state>_<kind>_<year>'. */
  function ExportId(state: string, kind: string, year: int): string {
    Lower(state + "_" + kind + "_" + IntToString(year))
  }

  /** Two years of one state and kind never share an export id. */
  lemma ExportIdsDistinct(state: string, kind: string, y1: int, y2: int)
    requires y1 != y2
    ensures ExportId(state, kind, y1) != ExportId(state, kind, y2)
  {
    var p := state + "_" + kind + "_";
    LowerNumber(p, y1);
    LowerNumber(p, y2);
    if ExportId(state, kind, y1) == ExportId(state, kind, y2) {
      var a := Lower(p) + IntToString(y1);
      var b := Lower(p) + IntToString(y2);
      assert a[|Lower(p)|..] == IntToString(y1);
      assert b[|Lower(p)|..] == IntToString(y2);
      IntToStringInjective(y1, y2);
    }
  }

  /** What the script does for one export: skip it, or submit it after cancelling a running task. */
  datatype Action = Skip | Submit(cancel: bool)

  /** The skip rule: overwrite cancels a running task; otherwise a task or a CSV skips. */
  function ExportAction(id: string, tasks: set<string>, files: set<string>, overwrite: bool): Action
  {
    if overwrite then Submit(id in tasks)
    else if id in tasks || id + ".csv" in files then Skip
    else Submit(false)
  }

  /**
   * An export is skipped exactly when overwrite is off and its task or its CSV exists;
   * a submitted export never runs beside an earlier task of the same id.
   */
  lemma ExportActionSpec(id: string, tasks: set<string>, files: set<string>, overwrite: bool)
    ensures ExportAction(id, tasks, files, overwrite) == Skip <==>
      !overwrite && (id in tasks || id + ".csv" in files)
    ensures ExportAction(id, tasks, files, overwrite).Submit? && id in tasks ==>
      ExportAction(id, tasks, files, overwrite).cancel
    ensures ExportAction(id, tasks, files, overwrite).Submit? && ExportAction(id, tasks, files, overwrite).cancel ==>
      id in tasks
  {
  }
}
