/**
 * The field shapefile the field scripts update in place: one record per field polygon
 * with a CROP_<year> integer code and a CSRC_<year> provenance text per year, plus a
 * handful of text attributes (OPENET_ID, HUC12, STATE, ...).
 */
module FieldStore {
  import opened Wrappers

  /**
   * One field's attribute values. codes[y] is CROP_<y>, sources[y] is CSRC_<y>, attrs the
   * other text attributes by field name. A missing key is a null field. GetFieldAsInteger
   * reads a null code as 0, which Code follows; GetField gives None for a null code or
   * source, on which the scripts raise, while Code and Source read 0 and ''. The crop
   * fields are never null once the preprocessing step has set their defaults.
   */
  datatype Feature = Feature(attrs: map<string, string>, codes: map<int, int>, sources: map<int, string>)

  /** GetField('OPENET_ID'). */
  function Id(f: Feature): Option<string> {
    if "OPENET_ID" in f.attrs then Some(f.attrs["OPENET_ID"]) else None
  }

  /** str(GetField(name)): the text, or 'None' for a null field. */
  function AttrText(f: Feature, name: string): string {
    if name in f.attrs then f.attrs[name] else "None"
  }

  /** GetFieldAsInteger('CROP_<y>'): 0 for a null code. */
  function Code(f: Feature, y: int): int {
    if y in f.codes then f.codes[y] else 0
  }

  /** GetField('CSRC_<y>'), with '' for a null source where GetField gives None. */
  function Source(f: Feature, y: int): string {
    if y in f.sources then f.sources[y] else ""
  }

  /** SetField('CROP_<y>', code) and SetField('CSRC_<y>', src). */
  function SetYear(f: Feature, y: int, code: int, src: string): Feature {
    f.(codes := f.codes[y := code], sources := f.sources[y := src])
  }

  /** g differs from f at most in the CROP/CSRC values of the years in ys. */
  ghost predicate Untouched(f: Feature, g: Feature, ys: set<int>) {
    g.attrs == f.attrs
    && forall z :: z !in ys ==> Code(g, z) == Code(f, z) && Source(g, z) == Source(f, z)
  }

  /** The same value written into CROP/CSRC for each year of ys in turn. */
  function SetYears(f: Feature, ys: seq<int>, code: int, src: string): Feature
    decreases |ys|
  {
    if |ys| == 0 then f else SetYears(SetYear(f, ys[0], code, src), ys[1..], code, src)
  }

  /** Writing a run of years sets each of them and leaves every other value alone. */
  lemma {:induction false} SetYearsEffect(f: Feature, ys: seq<int>, code: int, src: string)
    ensures Untouched(f, SetYears(f, ys, code, src), set y | y in ys)
    ensures forall y :: y in ys ==>
      Code(SetYears(f, ys, code, src), y) == code && Source(SetYears(f, ys, code, src), y) == src
    decreases |ys|
  {
    if |ys| > 0 {
      SetYearsEffect(SetYear(f, ys[0], code, src), ys[1..], code, src);
      assert forall y :: y in ys ==> y == ys[0] || y in ys[1..];
    }
  }

  /** The result depends on f only outside the written years: SetYears as a map override. */
  lemma {:induction false} SetYearsOverride(f: Feature, ys: seq<int>, code: int, src: string)
    ensures SetYears(f, ys, code, src) ==
      f.(codes := f.codes + (map y | y in ys :: code), sources := f.sources + (map y | y in ys :: src))
    decreases |ys|
  {
    if |ys| > 0 {
      var g := SetYear(f, ys[0], code, src);
      SetYearsOverride(g, ys[1..], code, src);
      OverrideFirst(f.codes, ys, code);
      OverrideFirst(f.sources, ys, src);
    }
  }

  lemma OverrideFirst<V>(m: map<int, V>, ys: seq<int>, v: V)
    requires |ys| > 0
    ensures m[ys[0] := v] + (map y | y in ys[1..] :: v) == m + (map y | y in ys :: v)
  {
    var a := m[ys[0] := v] + (map y | y in ys[1..] :: v);
    var b := m + (map y | y in ys :: v);
    assert forall y :: y in ys <==> y == ys[0] || y in ys[1..];
    assert a.Keys == b.Keys;
    forall k | k in a ensures a[k] == b[k] {
    }
  }

  /** The inner loop of the scripts that SetField each year of a run in turn. */
  method WriteYears(f: Feature, ys: seq<int>, code: int, src: string) returns (g: Feature)
    ensures g == SetYears(f, ys, code, src)
  {
    g := f;
    var j := 0;
    while j < |ys|
      invariant 0 <= j <= |ys|
      invariant SetYears(g, ys[j..], code, src) == SetYears(f, ys, code, src)
    {
      assert ys[j..][1..] == ys[j + 1..];
      g := SetYear(g, ys[j], code, src);
      j := j + 1;
    }
    assert ys[j..] == [];
  }

  /** The same run of years written into every feature of the layer. */
  method WriteYearsAll(layer: Layer, ys: seq<int>, code: int, src: string)
    modifies layer.features
    ensures forall i :: 0 <= i < layer.features.Length ==>
      layer.features[i] == SetYears(old(layer.features[i]), ys, code, src)
  {
    var i := 0;
    while i < layer.features.Length
      invariant 0 <= i <= layer.features.Length
      invariant forall k :: 0 <= k < i ==> layer.features[k] == SetYears(old(layer.features[k]), ys, code, src)
      invariant forall k :: i <= k < layer.features.Length ==> layer.features[k] == old(layer.features[k])
    {
      var g := WriteYears(layer.features[i], ys, code, src);
      layer.features[i] := g;
      i := i + 1;
    }
  }

  /** Writing the same run of years twice is writing it once. */
  lemma SetYearsIdempotent(f: Feature, ys: seq<int>, code: int, src: string)
    ensures SetYears(SetYears(f, ys, code, src), ys, code, src) == SetYears(f, ys, code, src)
  {
    var g := SetYears(f, ys, code, src);
    SetYearsOverride(f, ys, code, src);
    SetYearsOverride(g, ys, code, src);
    assert g.codes + (map y | y in ys :: code) == g.codes;
    assert g.sources + (map y | y in ys :: src) == g.sources;
  }

  /** The error that ended a script, if any, and the layer as it was left. */
  datatype Outcome = Outcome(error: Option<Error>, features: seq<Feature>)

  /** The shapefile layer: its features, updated in place and written back with SetFeature. */
  class Layer {
    const features: array<Feature>

    constructor (fs: seq<Feature>)
      ensures fresh(features) && features[..] == fs
    {
      features := new Feature[|fs|](i => if 0 <= i < |fs| then fs[i] else Feature(map[], map[], map[]));
    }
  }
}
