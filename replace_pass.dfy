/**
 * The repair of known bad crop types in three regions: New Mexico fields in HUC 14
 * take their 2011 code for 2008-2010, San Luis Valley fields in Colorado take a 2009
 * code derived from 2008 and 2010, and every Mexico field is set to the default code
 * 47 for 1997-2023.
 */
module ReplacePass {
  import opened Wrappers
  import opened Strings
  import opened Remap
  import opened FieldStore
  import opened Args

  /** The years the NM rule rewrites: range(2008, 2011). */
  const NmYears: seq<int> := [2008, 2009, 2010]

  /** The provenance texts of the two copies: f'CROP_{src_year}' with 2011, f'CROP_{tgt_year + 1}' with 2010. */
  const NmSource: string := "CROP_2011"
  const CoSource: string := "CROP_2010"

  /** The code and provenance of a code copied under the given text: remapped when the table lists it. */
  function Copied(c: int, text: string, remap: Table): (int, string)
  {
    if c in remap then (remap[c], text + Note) else (c, text)
  }

  // ---------------------------------------------------------------------------
  // New Mexico

  /** The watershed attribute and the HUC prefixes the NM and CO rules test. */
  const HucAttr: string := "HUC12"
  const NmHuc: string := "14"
  const CoHucs: seq<string> := ["130100", "130201"]

  predicate NmQualifies(f: Feature) {
    StartsWith(AttrText(f, HucAttr), NmHuc) && Code(f, 2011) != 0
  }

  function NmFeature(f: Feature, remap: Table): Feature
  {
    if !NmQualifies(f) then f
    else
      var (code, src) := Copied(Code(f, 2011), NmSource, remap);
      SetYears(f, NmYears, code, src)
  }

  /**
   * Only HUC 14 fields with a 2011 code change; all three years 2008-2010 then hold the
   * 2011 code (remapped, with the note, when the table lists it) whatever they held,
   * and nothing else changes.
   */
  lemma NmSpec(f: Feature, remap: Table)
    ensures var g := NmFeature(f, remap);
      Untouched(f, g, {2008, 2009, 2010})
      && (!NmQualifies(f) ==> g == f)
      && (NmQualifies(f) ==> forall y :: 2008 <= y <= 2010 ==>
        var c := Code(f, 2011);
        (c in remap ==> Code(g, y) == remap[c] && Source(g, y) == NmSource + Note)
        && (c !in remap ==> Code(g, y) == c && Source(g, y) == NmSource))
  {
    var (code, src) := Copied(Code(f, 2011), NmSource, remap);
    SetYearsEffect(f, NmYears, code, src);
    assert (set y | y in NmYears) == {2008, 2009, 2010};
  }

  /** Running the NM rule again changes nothing: it reads 2011 and writes only 2008-2010. */
  lemma NmIdempotent(f: Feature, remap: Table)
    ensures NmFeature(NmFeature(f, remap), remap) == NmFeature(f, remap)
  {
    var g := NmFeature(f, remap);
    if NmQualifies(f) {
      var (code, src) := Copied(Code(f, 2011), NmSource, remap);
      SetYearsEffect(f, NmYears, code, src);
      assert (set y | y in NmYears) == {2008, 2009, 2010};
      assert NmQualifies(g);
      SetYearsIdempotent(f, NmYears, code, src);
    }
  }

  method NmOverride(layer: Layer, remap: Table)
    modifies layer.features
    ensures forall i :: 0 <= i < layer.features.Length ==>
      layer.features[i] == NmFeature(old(layer.features[i]), remap)
  {
    var i := 0;
    while i < layer.features.Length
      invariant 0 <= i <= layer.features.Length
      invariant forall k :: 0 <= k < i ==> layer.features[k] == NmFeature(old(layer.features[k]), remap)
      invariant forall k :: i <= k < layer.features.Length ==> layer.features[k] == old(layer.features[k])
    {
      var g := NmWrite(layer.features[i], remap);
      layer.features[i] := g;
      i := i + 1;
    }
  }

  /** The body of the NM loop for one feature: the qualifying test, then the SetField calls. */
  method NmWrite(f: Feature, remap: Table) returns (g: Feature)
    ensures g == NmFeature(f, remap)
  {
    g := f;
    if NmQualifies(f) {
      var (code, src) := Copied(Code(f, 2011), NmSource, remap);
      g := WriteYears(f, NmYears, code, src);
    }
  }

  // ---------------------------------------------------------------------------
  // Colorado

  predicate CoQualifies(f: Feature) {
    var huc := AttrText(f, HucAttr);
    StartsWith(huc, CoHucs[0]) || StartsWith(huc, CoHucs[1])
  }

  /** The 2009 value from the 2008 (before) and 2010 (after) codes, or None to leave it. */
  function CoValue(before: int, after: int, remap: Table): Option<(int, string)>
  {
    if after > 0 && before == after then Some((after, CoSource))
    else if after in remap then Some((remap[after], CoSource + Note))
    else if after > 0 then Some((after, CoSource))
    else None
  }

  function CoFeature(f: Feature, remap: Table): Feature
  {
    if !CoQualifies(f) then f
    else
      match CoValue(Code(f, 2008), Code(f, 2010), remap)
      case None => f
      case Some((code, src)) => SetYear(f, 2009, code, src)
  }

  /**
   * The CO rule writes only 2009 of San Luis Valley fields: a matching 2008/2010
   * crop is kept as is, otherwise the 2010 code is remapped when listed, used as is
   * when positive, and the field is left alone when it has no 2010 code at all.
   */
  lemma CoSpec(f: Feature, remap: Table)
    ensures var g := CoFeature(f, remap);
      var before := Code(f, 2008);
      var after := Code(f, 2010);
      Untouched(f, g, {2009})
      && (!CoQualifies(f) ==> g == f)
      && (CoQualifies(f) && after > 0 && before == after ==>
            Code(g, 2009) == after && Source(g, 2009) == CoSource)
      && (CoQualifies(f) && !(after > 0 && before == after) && after in remap ==>
            Code(g, 2009) == remap[after] && Source(g, 2009) == CoSource + Note)
      && (CoQualifies(f) && !(after > 0 && before == after) && after !in remap && after > 0 ==>
            Code(g, 2009) == after && Source(g, 2009) == CoSource)
      && (after <= 0 && after !in remap ==> g == f)
  {
  }

  /** Running the CO rule again changes nothing: it reads 2008 and 2010 and writes 2009. */
  lemma CoIdempotent(f: Feature, remap: Table)
    ensures CoFeature(CoFeature(f, remap), remap) == CoFeature(f, remap)
  {
    var g := CoFeature(f, remap);
    if g != f {
      var v := CoValue(Code(f, 2008), Code(f, 2010), remap).value;
      assert g == SetYear(f, 2009, v.0, v.1);
      assert SetYear(g, 2009, v.0, v.1) == g;
    }
  }

  method CoOverride(layer: Layer, remap: Table)
    modifies layer.features
    ensures forall i :: 0 <= i < layer.features.Length ==>
      layer.features[i] == CoFeature(old(layer.features[i]), remap)
  {
    var i := 0;
    while i < layer.features.Length
      invariant 0 <= i <= layer.features.Length
      invariant forall k :: 0 <= k < i ==> layer.features[k] == CoFeature(old(layer.features[k]), remap)
      invariant forall k :: i <= k < layer.features.Length ==> layer.features[k] == old(layer.features[k])
    {
      var f := layer.features[i];
      if CoQualifies(f) {
        var v := CoValue(Code(f, 2008), Code(f, 2010), remap);
        if v.Some? {
          layer.features[i] := SetYear(f, 2009, v.value.0, v.value.1);
        }
      }
      i := i + 1;
    }
  }

  // ---------------------------------------------------------------------------
  // Mexico

  /** range(1997, 2024). */
  function MxYears(): seq<int> { Range(1997, 2023) }

  function MxFeature(f: Feature): Feature
  {
    SetYears(f, MxYears(), 47, "DEFAULT")
  }

  /** Every Mexico field holds 47 / 'DEFAULT' for 1997-2023, and applying the rule twice is applying it once. */
  lemma MxSpec(f: Feature)
    ensures Untouched(f, MxFeature(f), set y | y in MxYears())
    ensures forall y :: y in MxYears() <==> 1997 <= y <= 2023
    ensures forall y :: 1997 <= y <= 2023 ==> Code(MxFeature(f), y) == 47 && Source(MxFeature(f), y) == "DEFAULT"
    ensures MxFeature(MxFeature(f)) == MxFeature(f)
  {
    var ys := MxYears();
    SetYearsEffect(f, ys, 47, "DEFAULT");
    forall y | 1997 <= y <= 2023 ensures y in ys { assert ys[y - 1997] == y; }
    SetYearsIdempotent(f, ys, 47, "DEFAULT");
  }

  method MxOverride(layer: Layer)
    modifies layer.features
    ensures forall i :: 0 <= i < layer.features.Length ==> layer.features[i] == MxFeature(old(layer.features[i]))
  {
    WriteYearsAll(layer, MxYears(), 47, "DEFAULT");
  }

  // ---------------------------------------------------------------------------
  // main

  /** The regions the state argument selects: 'ALL' is CO, NM and MX. */
  function Regions(args: seq<string>): seq<string>
  {
    ParseStates(args, ReplaceStates)
  }

  lemma AllRegions()
    ensures "NM" in Regions(["ALL"]) && "CO" in Regions(["ALL"]) && "MX" in Regions(["ALL"])
  {
  }

  /** Each selected region's rule over its own shapefile, NM first, then CO, then MX. */
  method Replace(args: seq<string>, nm: Layer, co: Layer, mx: Layer, remap: Table)
    requires nm.features != co.features && nm.features != mx.features && co.features != mx.features
    modifies nm.features, co.features, mx.features
    ensures forall i :: 0 <= i < nm.features.Length ==>
      nm.features[i] == if "NM" in Regions(args) then NmFeature(old(nm.features[i]), remap) else old(nm.features[i])
    ensures forall i :: 0 <= i < co.features.Length ==>
      co.features[i] == if "CO" in Regions(args) then CoFeature(old(co.features[i]), remap) else old(co.features[i])
    ensures forall i :: 0 <= i < mx.features.Length ==>
      mx.features[i] == if "MX" in Regions(args) then MxFeature(old(mx.features[i])) else old(mx.features[i])
  {
    var regions := Regions(args);
    if "NM" in regions { NmOverride(nm, remap); }
    if "CO" in regions { CoOverride(co, remap); }
    if "MX" in regions { MxOverride(mx); }
  }
}
