/**
 * The field-shapefile preprocessing of one state: deleting stale crop, CDL and geometry
 * fields, putting the id fields first, adding the ancillary and the missing crop-year
 * fields with their defaults, sorting the crop-year fields, and checking the field ids.
 */
module Preprocess {
  import opened Wrappers
  import opened Strings

  /** re.match(prefix + '\d{4}', name): the prefix and four digits at the start of the name. */
  predicate MatchesYearField(name: string, prefix: string) {
    |name| >= |prefix| + 4 && StartsWith(name, prefix) && AllDigits(name[|prefix|..|prefix| + 4])
  }

  /** A crop type or crop source field, CROP_dddd or CSRC_dddd. */
  predicate IsCropField(name: string) {
    MatchesYearField(name, "CROP_") || MatchesYearField(name, "CSRC_")
  }

  /** The area, length, score and bookkeeping fields an overwrite removes. */
  const DeleteFields: seq<string> := [
    "fid", "layer", "path", "Shape_length", "Shape_area", "Acres",
    "Shape_Leng", "Shape_Area", "PP_Score", "PXL_COUNT", "PP",
    "SHAPE_LENG", "SHAPE_AREA", "PP_SCORE", "PIXELCOUNT", "STATE"]

  predicate Deleted(name: string) {
    IsCropField(name) || MatchesYearField(name, "CDL_") || name in DeleteFields
  }

  /** The fields left after the deletions, in their order. */
  function Kept(fields: seq<string>): seq<string>
    decreases |fields|
  {
    if |fields| == 0 then []
    else (if Deleted(fields[0]) then [] else [fields[0]]) + Kept(fields[1..])
  }

  /** Exactly the unmarked fields survive, and no more of them than there were. */
  lemma {:induction false} KeptSpec(fields: seq<string>)
    ensures |Kept(fields)| <= |fields|
    ensures forall f :: f in Kept(fields) <==> f in fields && !Deleted(f)
    decreases |fields|
  {
    if |fields| > 0 {
      KeptSpec(fields[1..]);
      assert forall f :: f in fields <==> f == fields[0] || f in fields[1..];
    }
  }

  /** A field value: null, an integer or a string. */
  datatype Value = Null | IntVal(i: int) | StrVal(s: string)

  /** The value a feature holds for a field: null where it holds none. */
  function Lookup(m: map<string, Value>, name: string): Value {
    if name in m then m[name] else Null
  }

  /** Setting a value; setting null removes it. */
  function Put(m: map<string, Value>, name: string, v: Value): (r: map<string, Value>)
    ensures Lookup(r, name) == v
    ensures forall x :: x != name ==> Lookup(r, x) == Lookup(m, x)
  {
    if v.Null? then m - {name} else m[name := v]
  }

  /** Setting one value for several fields in turn. */
  function PutAll(m: map<string, Value>, names: seq<string>, v: Value): map<string, Value>
    decreases |names|
  {
    if |names| == 0 then m else Put(PutAll(m, names[..|names| - 1], v), names[|names| - 1], v)
  }

  /** After setting the fields, each of them holds the value and every other field is as before. */
  lemma {:induction false} LookupPutAll(m: map<string, Value>, names: seq<string>, v: Value, x: string)
    ensures Lookup(PutAll(m, names, v), x) == if x in names then v else Lookup(m, x)
    decreases |names|
  {
    if |names| > 0 {
      var init := names[..|names| - 1];
      LookupPutAll(m, init, v, x);
      assert names == init + [names[|names| - 1]];
    }
  }

  function Permuted(fields: seq<string>, index: seq<int>): seq<string>
    requires forall k :: 0 <= k < |index| ==> 0 <= index[k] < |fields|
  {
    seq(|index|, k requires 0 <= k < |index| => fields[index[k]])
  }

  /** A shapefile layer: its field names in order and the values of its features by field name. */
  class Layer {
    var fields: seq<string>
    var features: seq<map<string, Value>>

    constructor (fields0: seq<string>, features0: seq<map<string, Value>>)
      ensures fields == fields0 && features == features0
    {
      fields := fields0;
      features := features0;
    }

    method DeleteField(i: int)
      requires 0 <= i < |fields|
      modifies this
      ensures fields == old(fields)[..i] + old(fields)[i + 1..]
      ensures features == old(features)
    {
      fields := fields[..i] + fields[i + 1..];
    }

    /** ReorderFields: the field at new position k is the one that was at index[k]. */
    method ReorderFields(index: seq<int>)
      requires forall k :: 0 <= k < |index| ==> 0 <= index[k] < |fields|
      modifies this
      ensures fields == Permuted(old(fields), index)
      ensures features == old(features)
    {
      fields := Permuted(fields, index);
    }

    /** CreateField: a new field, null on every feature. */
    method CreateField(name: string)
      modifies this
      ensures fields == old(fields) + [name]
      ensures features == seq(|old(features)|, k requires 0 <= k < |old(features)| => Put(old(features)[k], name, Null))
    {
      fields := fields + [name];
      var fs := features;
      features := seq(|fs|, k requires 0 <= k < |fs| => Put(fs[k], name, Null));
    }

    method SetField(k: int, name: string, v: Value)
      requires 0 <= k < |features|
      modifies this
      ensures fields == old(fields)
      ensures features == old(features)[k := Put(old(features)[k], name, v)]
    {
      features := features[k := Put(features[k], name, v)];
    }

    /** A new field set to v on every feature, the loop over the layer that follows CreateField. */
    method AddField(name: string, v: Value)
      modifies this
      ensures fields == old(fields) + [name]
      ensures features == seq(|old(features)|, k requires 0 <= k < |old(features)| => Put(old(features)[k], name, v))
    {
      CreateField(name);
      if v != Null {
        var base := features;
        var k := 0;
        while k < |features|
          invariant |features| == |base| && fields == old(fields) + [name]
          invariant 0 <= k <= |features|
          invariant forall j :: 0 <= j < k ==> features[j] == Put(base[j], name, v)
          invariant forall j :: k <= j < |features| ==> features[j] == base[j]
        {
          SetField(k, name, v);
          k := k + 1;
        }
        forall j | 0 <= j < |features| ensures features[j] == Put(old(features)[j], name, v) {
          assert base[j] == Put(old(features)[j], name, Null);
          assert Put(base[j], name, v) == Put(old(features)[j], name, v);
        }
      }
    }
  }

  // ---------------------------------------------------------------------------
  // deleting fields

  /** The overwrite pass: every marked field is deleted, walking the fields from the last. */
  method DeleteMarked(layer: Layer)
    modifies layer
    ensures layer.fields == Kept(old(layer.fields))
    ensures layer.features == old(layer.features)
  {
    var snapshot := layer.fields;
    var i := |snapshot|;
    while i > 0
      invariant 0 <= i <= |snapshot|
      invariant layer.fields == snapshot[..i] + Kept(snapshot[i..])
      invariant layer.features == old(layer.features)
    {
      i := i - 1;
      KeptStep(snapshot, i);
      if Deleted(snapshot[i]) {
        layer.DeleteField(i);
      }
    }
    assert snapshot[..0] == [];
    assert snapshot[0..] == snapshot;
  }

  /** One step of the backward walk: field i goes when it is marked and stays otherwise. */
  lemma KeptStep(s: seq<string>, i: int)
    requires 0 <= i < |s|
    ensures var f := s[..i + 1] + Kept(s[i + 1..]);
      && i < |f|
      && (Deleted(s[i]) ==> f[..i] + f[i + 1..] == s[..i] + Kept(s[i..]))
      && (!Deleted(s[i]) ==> f == s[..i] + Kept(s[i..]))
  {
    KeptAt(s, i);
    assert s[..i + 1] == s[..i] + [s[i]];
    DropMiddle(s[..i], s[i], Kept(s[i + 1..]));
  }

  /** Kept of a suffix, one field at a time. */
  lemma KeptAt(s: seq<string>, i: int)
    requires 0 <= i < |s|
    ensures Kept(s[i..]) == (if Deleted(s[i]) then [] else [s[i]]) + Kept(s[i + 1..])
  {
    assert s[i..][1..] == s[i + 1..];
  }

  /** Removing the middle element of front + [x] + rest at position |front|. */
  lemma DropMiddle<T>(front: seq<T>, x: T, rest: seq<T>)
    ensures var f := front + [x] + rest;
      && f[..|front|] == front && f[|front| + 1..] == rest
      && f == front + ([x] + rest)
  {
  }

  // ---------------------------------------------------------------------------
  // the id fields first

  predicate NoDup(s: seq<string>) {
    forall i, j :: 0 <= i < j < |s| ==> s[i] != s[j]
  }

  /** set(a) == set(b). */
  predicate SameSet(a: seq<string>, b: seq<string>) {
    (forall k :: 0 <= k < |a| ==> a[k] in b) && (forall k :: 0 <= k < |b| ==> b[k] in a)
  }

  /** OPENET_ID, then whichever of the other id fields the layer has, in this order. */
  function IdOrder(fields: seq<string>): seq<string> {
    ["OPENET_ID"]
    + (if "SOURCECODE" in fields then ["SOURCECODE"] else [])
    + (if "MOD_DATE" in fields then ["MOD_DATE"] else [])
    + (if "FIPS" in fields then ["FIPS"] else [])
    + (if "HUC12" in fields then ["HUC12"] else [])
    + (if "MGRS_TILE" in fields then ["MGRS_TILE"] else [])
  }

  /** list.index: the first position of x. */
  function IndexOf(s: seq<string>, x: string): (r: int)
    requires x in s
    ensures 0 <= r < |s| && s[r] == x && x !in s[..r]
    decreases |s|
  {
    if s[0] == x then 0
    else
      var r := 1 + IndexOf(s[1..], x);
      assert s[..r] == [s[0]] + s[1..][..r - 1];
      r
  }

  /** [fields.index(f) for f in names]. */
  function Positions(fields: seq<string>, names: seq<string>): (r: seq<int>)
    requires forall k :: 0 <= k < |names| ==> names[k] in fields
    ensures |r| == |names|
    ensures forall k :: 0 <= k < |r| ==> 0 <= r[k] < |fields| && fields[r[k]] == names[k]
  {
    seq(|names|, k requires 0 <= k < |names| => IndexOf(fields, names[k]))
  }

  datatype OrderDecision = NoIdField | InOrder | Inconsistent | Reorder(index: seq<int>)

  function DecideOrder(fields: seq<string>): OrderDecision {
    if "OPENET_ID" !in fields then NoIdField
    else
      var r := IdOrder(fields);
      if r == fields then InOrder
      else if !SameSet(r, fields) then Inconsistent
      else Reorder(Positions(fields, r))
  }

  /** The id-field step of the overwrite pass; a state whose fields do not fit is skipped. */
  method ReorderIdFields(layer: Layer) returns (d: OrderDecision)
    modifies layer
    ensures d == DecideOrder(old(layer.fields))
    ensures layer.fields == if d.Reorder? then IdOrder(old(layer.fields)) else old(layer.fields)
    ensures layer.features == old(layer.features)
  {
    d := DecideOrder(layer.fields);
    if d.Reorder? {
      var r := IdOrder(layer.fields);
      layer.ReorderFields(d.index);
      assert layer.fields == r;
    }
  }

  predicate IsPermutation(index: seq<int>, n: int) {
    && |index| == n
    && (forall k :: 0 <= k < |index| ==> 0 <= index[k] < n)
    && (forall i, j :: 0 <= i < j < |index| ==> index[i] != index[j])
  }

  function SetOf(s: seq<string>): set<string> {
    set x | x in s
  }

  /** A list without repeats has as many distinct elements as entries. */
  lemma {:induction false} SetOfNoDup(s: seq<string>)
    requires NoDup(s)
    ensures |SetOf(s)| == |s|
    decreases |s|
  {
    if |s| > 0 {
      var init := s[..|s| - 1];
      var last := s[|s| - 1];
      assert NoDup(init);
      SetOfNoDup(init);
      assert SetOf(s) == SetOf(init) + {last};
      assert last !in SetOf(init);
    }
  }

  lemma IdOrderNoDup(fields: seq<string>)
    ensures NoDup(IdOrder(fields))
  {
    var r := IdOrder(fields);
    forall i, j | 0 <= i < j < |r| ensures r[i] != r[j] {
    }
  }

  /**
   * A layer without OPENET_ID is skipped, so is one whose fields are not exactly the id
   * fields; otherwise the fields are reordered only when out of order, by a permutation
   * that puts them in the id order.
   */
  lemma DecideOrderSpec(fields: seq<string>)
    requires NoDup(fields)
    ensures DecideOrder(fields) == NoIdField <==> "OPENET_ID" !in fields
    ensures DecideOrder(fields) == Inconsistent <==> "OPENET_ID" in fields && !SameSet(IdOrder(fields), fields)
    ensures DecideOrder(fields) == InOrder <==> "OPENET_ID" in fields && fields == IdOrder(fields)
    ensures DecideOrder(fields).Reorder? ==>
      && IsPermutation(DecideOrder(fields).index, |fields|)
      && Permuted(fields, DecideOrder(fields).index) == IdOrder(fields)
      && fields != IdOrder(fields)
  {
    var r := IdOrder(fields);
    if DecideOrder(fields).Reorder? {
      IdOrderNoDup(fields);
      PositionsPermutation(fields, r);
    }
    if fields == r {
      assert "OPENET_ID" in fields;
    }
  }

  /** The positions of a distinct reordering of distinct fields form a permutation onto it. */
  lemma PositionsPermutation(fields: seq<string>, r: seq<string>)
    requires NoDup(fields) && NoDup(r) && SameSet(r, fields)
    ensures IsPermutation(Positions(fields, r), |fields|)
    ensures Permuted(fields, Positions(fields, r)) == r
  {
    SetOfNoDup(r);
    SetOfNoDup(fields);
    assert SetOf(r) == SetOf(fields);
    var index := Positions(fields, r);
    forall i, j | 0 <= i < j < |index| ensures index[i] != index[j] {
      assert fields[index[i]] == r[i] && fields[index[j]] == r[j];
    }
    assert Permuted(fields, index) == r;
  }

  // ---------------------------------------------------------------------------
  // new fields

  /** The names not yet among the existing fields, in order. */
  function Missing(names: seq<string>, existing: seq<string>): seq<string>
    decreases |names|
  {
    if |names| == 0 then []
    else
      var last := names[|names| - 1];
      Missing(names[..|names| - 1], existing) + (if last in existing then [] else [last])
  }

  lemma {:induction false} MissingSpec(names: seq<string>, existing: seq<string>)
    ensures forall x :: x in Missing(names, existing) <==> x in names && x !in existing
    decreases |names|
  {
    if |names| > 0 {
      var init := names[..|names| - 1];
      MissingSpec(init, existing);
      assert names == init + [names[|names| - 1]];
    }
  }

  lemma MissingSnoc(names: seq<string>, x: string, existing: seq<string>)
    ensures Missing(names + [x], existing) == Missing(names, existing) + (if x in existing then [] else [x])
  {
    assert (names + [x])[..|names|] == names;
  }

  const AncillaryFields: seq<string> := ["FIPS", "HUC12", "MGRS_TILE", "MOD_DATE", "SOURCECODE", "STATE"]

  /** What a new ancillary field is set to: today's date, the upper-cased state, else null. */
  function AncillaryValue(name: string, state: string, today: string): Value {
    if name == "MOD_DATE" then StrVal(today)
    else if name == "STATE" then StrVal(Upper(state))
    else Null
  }

  /** A feature after the given ancillary fields were added. */
  function WithAncillary(m: map<string, Value>, names: seq<string>, state: string, today: string): map<string, Value>
    decreases |names|
  {
    if |names| == 0 then m
    else
      var last := names[|names| - 1];
      Put(WithAncillary(m, names[..|names| - 1], state, today), last, AncillaryValue(last, state, today))
  }

  /** An added ancillary field holds its value on the feature; every other field is as before. */
  lemma {:induction false} LookupAncillary(m: map<string, Value>, names: seq<string>, state: string, today: string, x: string)
    ensures Lookup(WithAncillary(m, names, state, today), x) ==
      if x in names then AncillaryValue(x, state, today) else Lookup(m, x)
    decreases |names|
  {
    if |names| > 0 {
      var init := names[..|names| - 1];
      LookupAncillary(m, init, state, today, x);
      assert names == init + [names[|names| - 1]];
    }
  }

  /** The loop that adds each missing ancillary field and fills it on every feature. */
  method AddAncillaryFields(layer: Layer, state: string, today: string)
    modifies layer
    ensures layer.fields == old(layer.fields) + Missing(AncillaryFields, old(layer.fields))
    ensures |layer.features| == |old(layer.features)|
    ensures forall k :: 0 <= k < |layer.features| ==>
      layer.features[k] == WithAncillary(old(layer.features)[k], Missing(AncillaryFields, old(layer.fields)), state, today)
  {
    AddFieldsFrom(layer, AncillaryFields, state, today);
  }

  /** The loop over a list of ancillary names, adding each one the layer lacks. */
  method AddFieldsFrom(layer: Layer, names: seq<string>, state: string, today: string)
    modifies layer
    ensures layer.fields == old(layer.fields) + Missing(names, old(layer.fields))
    ensures |layer.features| == |old(layer.features)|
    ensures forall k :: 0 <= k < |layer.features| ==>
      layer.features[k] == WithAncillary(old(layer.features)[k], Missing(names, old(layer.fields)), state, today)
  {
    var existing := layer.fields;
    var i := 0;
    while i < |names|
      invariant 0 <= i <= |names|
      invariant layer.fields == existing + Missing(names[..i], existing)
      invariant |layer.features| == |old(layer.features)|
      invariant forall k :: 0 <= k < |layer.features| ==>
        layer.features[k] == WithAncillary(old(layer.features)[k], Missing(names[..i], existing), state, today)
    {
      var name := names[i];
      assert names[..i + 1] == names[..i] + [name];
      MissingSnoc(names[..i], name, existing);
      var added := Missing(names[..i], existing);
      var before := layer.features;
      if name !in existing {
        layer.AddField(name, AncillaryValue(name, state, today));
        forall k | 0 <= k < |layer.features|
          ensures layer.features[k] == WithAncillary(old(layer.features)[k], added + [name], state, today)
        {
          assert (added + [name])[..|added|] == added;
          assert layer.features[k] == Put(before[k], name, AncillaryValue(name, state, today));
          assert before[k] == WithAncillary(old(layer.features)[k], added, state, today);
        }
      } else {
        assert added + [] == added;
      }
      i := i + 1;
    }
    assert names[..i] == names;
  }

  /** A layer without a STATE field gets one holding the upper-cased state on every feature. */
  lemma StateFieldSet(existing: seq<string>, m: map<string, Value>, state: string, today: string)
    requires "STATE" !in existing
    ensures Lookup(WithAncillary(m, Missing(AncillaryFields, existing), state, today), "STATE") == StrVal(Upper(state))
  {
    MissingSpec(AncillaryFields, existing);
    LookupAncillary(m, Missing(AncillaryFields, existing), state, today, "STATE");
  }

  /** A field the layer already has keeps its values. */
  lemma ExistingUntouched(existing: seq<string>, m: map<string, Value>, state: string, today: string, x: string)
    requires x in existing
    ensures Lookup(WithAncillary(m, Missing(AncillaryFields, existing), state, today), x) == Lookup(m, x)
  {
    MissingSpec(AncillaryFields, existing);
    LookupAncillary(m, Missing(AncillaryFields, existing), state, today, x);
  }

  function CropTypeNames(years: seq<int>): seq<string> {
    seq(|years|, k requires 0 <= k < |years| => "CROP_" + IntToString(years[k]))
  }

  function CropSrcNames(years: seq<int>): seq<string> {
    seq(|years|, k requires 0 <= k < |years| => "CSRC_" + IntToString(years[k]))
  }

  /** The value of a field after the new crop fields were set: '' for sources, 0 for types. */
  function CropDefault(x: string, newTypes: seq<string>, newSrcs: seq<string>, m: map<string, Value>): Value {
    if x in newSrcs then StrVal("") else if x in newTypes then IntVal(0) else Lookup(m, x)
  }

  /**
   * The crop-field pass: create the missing type fields, then the missing source fields,
   * then set each new field on every feature (0 for a type, '' for a source).
   */
  method AddCropFields(layer: Layer, years: seq<int>) returns (newTypes: seq<string>, newSrcs: seq<string>)
    modifies layer
    ensures newTypes == Missing(CropTypeNames(years), old(layer.fields))
    ensures newSrcs == Missing(CropSrcNames(years), old(layer.fields))
    ensures layer.fields == old(layer.fields) + newTypes + newSrcs
    ensures |layer.features| == |old(layer.features)|
    ensures forall k, x :: 0 <= k < |layer.features| ==>
      Lookup(layer.features[k], x) == CropDefault(x, newTypes, newSrcs, old(layer.features)[k])
  {
    newTypes := Missing(CropTypeNames(years), layer.fields);
    newSrcs := Missing(CropSrcNames(years), layer.fields);
    AddDefaultFields(layer, newTypes, newSrcs);
  }

  /** Appends the new type fields, then the new source fields, and sets their defaults on every feature. */
  method AddDefaultFields(layer: Layer, newTypes: seq<string>, newSrcs: seq<string>)
    modifies layer
    ensures layer.fields == old(layer.fields) + newTypes + newSrcs
    ensures |layer.features| == |old(layer.features)|
    ensures forall k, x :: 0 <= k < |layer.features| ==>
      Lookup(layer.features[k], x) == CropDefault(x, newTypes, newSrcs, old(layer.features)[k])
  {
    var base := layer.features;
    CreateFields(layer, newTypes);
    ghost var typed := layer.features;
    CreateFields(layer, newSrcs);
    assert forall j, x :: 0 <= j < |layer.features| ==>
      Lookup(layer.features[j], x) == if x in newSrcs || x in newTypes then Null else Lookup(base[j], x)
    by {
      forall j, x | 0 <= j < |layer.features|
        ensures Lookup(layer.features[j], x) == if x in newSrcs || x in newTypes then Null else Lookup(base[j], x)
      {
        assert j < |typed|;
        assert Lookup(layer.features[j], x) == if x in newSrcs then Null else Lookup(typed[j], x);
        assert Lookup(typed[j], x) == if x in newTypes then Null else Lookup(base[j], x);
      }
    }
    var k := 0;
    while k < |layer.features|
      invariant 0 <= k <= |layer.features| == |base|
      invariant layer.fields == old(layer.fields) + newTypes + newSrcs
      invariant forall j, x :: 0 <= j < k ==> Lookup(layer.features[j], x) == CropDefault(x, newTypes, newSrcs, base[j])
      invariant forall j, x :: k <= j < |layer.features| ==>
        Lookup(layer.features[j], x) == if x in newSrcs || x in newTypes then Null else Lookup(base[j], x)
    {
      SetDefaults(layer, k, newTypes, newSrcs, base[k]);
      k := k + 1;
    }
  }

  /** The CreateField loop over a list of names: each is appended and null on every feature. */
  method CreateFields(layer: Layer, names: seq<string>)
    modifies layer
    ensures layer.fields == old(layer.fields) + names
    ensures |layer.features| == |old(layer.features)|
    ensures forall k, x :: 0 <= k < |layer.features| ==>
      Lookup(layer.features[k], x) == if x in names then Null else Lookup(old(layer.features)[k], x)
  {
    var i := 0;
    while i < |names|
      invariant 0 <= i <= |names|
      invariant layer.fields == old(layer.fields) + names[..i]
      invariant |layer.features| == |old(layer.features)|
      invariant forall k, x :: 0 <= k < |layer.features| ==>
        Lookup(layer.features[k], x) == if x in names[..i] then Null else Lookup(old(layer.features)[k], x)
    {
      assert names[..i + 1] == names[..i] + [names[i]];
      layer.CreateField(names[i]);
      i := i + 1;
    }
    assert names[..i] == names;
  }

  /** The inner loops for one feature: its new type fields to 0, then its new source fields to ''. */
  method SetDefaults(layer: Layer, k: int, newTypes: seq<string>, newSrcs: seq<string>, ghost m: map<string, Value>)
    requires 0 <= k < |layer.features|
    requires forall x :: Lookup(layer.features[k], x) == if x in newSrcs || x in newTypes then Null else Lookup(m, x)
    modifies layer
    ensures layer.fields == old(layer.fields)
    ensures |layer.features| == |old(layer.features)|
    ensures forall j :: 0 <= j < |layer.features| && j != k ==> layer.features[j] == old(layer.features)[j]
    ensures forall x :: Lookup(layer.features[k], x) == CropDefault(x, newTypes, newSrcs, m)
  {
    var j := 0;
    while j < |newTypes|
      invariant 0 <= j <= |newTypes|
      invariant layer.fields == old(layer.fields) && |layer.features| == |old(layer.features)|
      invariant forall i :: 0 <= i < |layer.features| && i != k ==> layer.features[i] == old(layer.features)[i]
      invariant forall x :: Lookup(layer.features[k], x) == (
                  if x in newTypes[..j] then IntVal(0)
                  else if x in newSrcs || x in newTypes then Null else Lookup(m, x))
    {
      assert newTypes[..j + 1] == newTypes[..j] + [newTypes[j]];
      layer.SetField(k, newTypes[j], IntVal(0));
      j := j + 1;
    }
    assert newTypes[..j] == newTypes;
    j := 0;
    while j < |newSrcs|
      invariant 0 <= j <= |newSrcs|
      invariant layer.fields == old(layer.fields) && |layer.features| == |old(layer.features)|
      invariant forall i :: 0 <= i < |layer.features| && i != k ==> layer.features[i] == old(layer.features)[i]
      invariant forall x :: Lookup(layer.features[k], x) == (
                  if x in newSrcs[..j] then StrVal("")
                  else if x in newTypes then IntVal(0)
                  else if x in newSrcs then Null else Lookup(m, x))
    {
      assert newSrcs[..j + 1] == newSrcs[..j] + [newSrcs[j]];
      layer.SetField(k, newSrcs[j], StrVal(""));
      j := j + 1;
    }
    assert newSrcs[..j] == newSrcs;
  }

  /**
   * After the crop-field pass every requested year has both fields; a field that existed
   * keeps its value, a new type field is 0 and a new source field is ''.
   */
  lemma CropFieldsAfter(years: seq<int>, existing: seq<string>, m: map<string, Value>, y: int)
    requires y in years
    ensures
      var t := "CROP_" + IntToString(y);
      var c := "CSRC_" + IntToString(y);
      var newTypes := Missing(CropTypeNames(years), existing);
      var newSrcs := Missing(CropSrcNames(years), existing);
      && t in existing + newTypes + newSrcs
      && c in existing + newTypes + newSrcs
      && CropDefault(t, newTypes, newSrcs, m) == (if t in existing then Lookup(m, t) else IntVal(0))
      && CropDefault(c, newTypes, newSrcs, m) == (if c in existing then Lookup(m, c) else StrVal(""))
  {
    var t := "CROP_" + IntToString(y);
    var c := "CSRC_" + IntToString(y);
    var newTypes := Missing(CropTypeNames(years), existing);
    var newSrcs := Missing(CropSrcNames(years), existing);
    var k :| 0 <= k < |years| && years[k] == y;
    assert CropTypeNames(years)[k] == t;
    assert CropSrcNames(years)[k] == c;
    TypeNotSource(years, t);
    SourceNotType(years, c);
    DefaultsAfter(CropTypeNames(years), CropSrcNames(years), existing, m, t, c);
  }

  /** The defaults of a requested type field t and source field c, over any name lists. */
  lemma DefaultsAfter(types: seq<string>, srcs: seq<string>, existing: seq<string>,
                      m: map<string, Value>, t: string, c: string)
    requires t in types && t !in srcs && c in srcs && c !in types
    ensures
      var newTypes := Missing(types, existing);
      var newSrcs := Missing(srcs, existing);
      && t in existing + newTypes + newSrcs
      && c in existing + newTypes + newSrcs
      && CropDefault(t, newTypes, newSrcs, m) == (if t in existing then Lookup(m, t) else IntVal(0))
      && CropDefault(c, newTypes, newSrcs, m) == (if c in existing then Lookup(m, c) else StrVal(""))
  {
    MissingSpec(types, existing);
    MissingSpec(srcs, existing);
  }

  lemma TypeNotSource(years: seq<int>, t: string)
    requires |t| >= 2 && t[1] == 'R'
    ensures t !in CropSrcNames(years)
  {
    forall k | 0 <= k < |years| ensures CropSrcNames(years)[k] != t {
      assert CropSrcNames(years)[k][1] == 'S';
    }
  }

  lemma SourceNotType(years: seq<int>, c: string)
    requires |c| >= 2 && c[1] == 'S'
    ensures c !in CropTypeNames(years)
  {
    forall k | 0 <= k < |years| ensures CropTypeNames(years)[k] != c {
      assert CropTypeNames(years)[k][1] == 'R';
    }
  }

  // ---------------------------------------------------------------------------
  // sorting the crop fields

  /** The crop fields among the first n, in order (crop_fields at the sort check). */
  function CropFieldsUpTo(fields: seq<string>, n: int): seq<string>
    requires 0 <= n <= |fields|
  {
    if n == 0 then [] else CropFieldsUpTo(fields, n - 1) + (if IsCropField(fields[n - 1]) then [fields[n - 1]] else [])
  }

  /** The other fields among the first n, in order. */
  function OtherFieldsUpTo(fields: seq<string>, n: int): seq<string>
    requires 0 <= n <= |fields|
  {
    if n == 0 then [] else OtherFieldsUpTo(fields, n - 1) + (if IsCropField(fields[n - 1]) then [] else [fields[n - 1]])
  }

  /** The positions of the other fields among the first n. */
  function OtherPositionsUpTo(fields: seq<string>, n: int): seq<int>
    requires 0 <= n <= |fields|
  {
    if n == 0 then [] else OtherPositionsUpTo(fields, n - 1) + (if IsCropField(fields[n - 1]) then [] else [n - 1])
  }

  function CropFields(fields: seq<string>): seq<string> { CropFieldsUpTo(fields, |fields|) }
  function OtherFields(fields: seq<string>): seq<string> { OtherFieldsUpTo(fields, |fields|) }

  /** The layer is reordered only when its crop fields are not already sorted. */
  predicate NeedsCropSort(fields: seq<string>) {
    CropFields(fields) != Sort(CropFields(fields))
  }

  /** How the first n fields split into crop and other fields. */
  lemma {:induction false} SplitUpTo(fields: seq<string>, n: int)
    requires 0 <= n <= |fields|
    ensures |OtherPositionsUpTo(fields, n)| == |OtherFieldsUpTo(fields, n)|
    ensures |OtherFieldsUpTo(fields, n)| + |CropFieldsUpTo(fields, n)| == n
    ensures forall k :: 0 <= k < |OtherPositionsUpTo(fields, n)| ==>
      0 <= OtherPositionsUpTo(fields, n)[k] < n
      && fields[OtherPositionsUpTo(fields, n)[k]] == OtherFieldsUpTo(fields, n)[k]
      && !IsCropField(fields[OtherPositionsUpTo(fields, n)[k]])
    ensures forall i, j :: 0 <= i < j < |OtherPositionsUpTo(fields, n)| ==>
      OtherPositionsUpTo(fields, n)[i] < OtherPositionsUpTo(fields, n)[j]
    ensures forall x :: x in CropFieldsUpTo(fields, n) ==> x in fields[..n] && IsCropField(x)
    ensures NoDup(fields) ==> NoDup(CropFieldsUpTo(fields, n))
  {
    if n > 0 {
      SplitUpTo(fields, n - 1);
      assert fields[..n] == fields[..n - 1] + [fields[n - 1]];
      if NoDup(fields) {
        var c := CropFieldsUpTo(fields, n);
        forall i, j | 0 <= i < j < |c| ensures c[i] != c[j] {
          if j == |c| - 1 && IsCropField(fields[n - 1]) {
            assert c[i] in CropFieldsUpTo(fields, n - 1);
            assert c[i] in fields[..n - 1];
          }
        }
      }
    }
  }

  /** The new position list: the other fields in order, then the crop fields by name. */
  function CropIndex(fields: seq<string>): (r: seq<int>)
    ensures |r| == |fields|
    ensures forall k :: 0 <= k < |r| ==> 0 <= r[k] < |fields|
  {
    var sorted := Sort(CropFields(fields));
    SortedMembers(fields);
    SplitCounts(fields);
    SortLength(CropFields(fields), Identity);
    OtherPositionsUpTo(fields, |fields|) + Positions(fields, sorted)
  }

  /** The other positions lie in range, and with the crop fields they account for every field. */
  lemma SplitCounts(fields: seq<string>)
    ensures |OtherPositionsUpTo(fields, |fields|)| + |CropFields(fields)| == |fields|
    ensures forall k :: 0 <= k < |OtherPositionsUpTo(fields, |fields|)| ==>
      0 <= OtherPositionsUpTo(fields, |fields|)[k] < |fields|
  {
    SplitUpTo(fields, |fields|);
  }

  /** Every sorted crop field is a field of the layer. */
  lemma SortedMembers(fields: seq<string>)
    ensures forall k :: 0 <= k < |Sort(CropFields(fields))| ==> Sort(CropFields(fields))[k] in fields
  {
    SplitUpTo(fields, |fields|);
    var sorted := Sort(CropFields(fields));
    forall k | 0 <= k < |sorted| ensures sorted[k] in fields {
      assert sorted[k] in multiset(sorted);
      assert sorted[k] in CropFields(fields);
      assert fields[..|fields|] == fields;
    }
  }

  /** The loops that build field_index, the other positions and then one per sorted crop field. */
  method BuildCropIndex(fields: seq<string>) returns (index: seq<int>)
    ensures index == CropIndex(fields)
  {
    index := [];
    var i := 0;
    while i < |fields|
      invariant 0 <= i <= |fields|
      invariant index == OtherPositionsUpTo(fields, i)
    {
      if !IsCropField(fields[i]) {
        index := index + [i];
      }
      i := i + 1;
    }
    SortedMembers(fields);
    var sorted := Sort(CropFields(fields));
    var others := index;
    var j := 0;
    while j < |sorted|
      invariant 0 <= j <= |sorted|
      invariant index == others + Positions(fields, sorted[..j])
    {
      assert Positions(fields, sorted[..j + 1]) == Positions(fields, sorted[..j]) + [IndexOf(fields, sorted[j])];
      index := index + [IndexOf(fields, sorted[j])];
      j := j + 1;
    }
    assert sorted[..j] == sorted;
  }

  /** A list without repeats holds each value at most once. */
  lemma {:induction false} NoDupCount(a: seq<string>, x: string)
    requires NoDup(a)
    ensures multiset(a)[x] <= 1
    decreases |a|
  {
    if |a| > 0 {
      var init := a[..|a| - 1];
      assert a == init + [a[|a| - 1]];
      assert NoDup(init);
      NoDupCount(init, x);
      if x == a[|a| - 1] {
        assert x !in init;
      }
    }
  }

  /** A rearrangement of a list without repeats has none either. */
  lemma NoDupPermutation(a: seq<string>, b: seq<string>)
    requires NoDup(a) && multiset(a) == multiset(b)
    ensures NoDup(b)
  {
    forall i, j | 0 <= i < j < |b| ensures b[i] != b[j] {
      if b[i] == b[j] {
        assert b == b[..j] + b[j..];
        assert b[i] in b[..j];
        assert b[j] in b[j..];
        assert multiset(b)[b[i]] == multiset(b[..j])[b[i]] + multiset(b[j..])[b[i]];
        NoDupCount(a, b[i]);
      }
    }
  }

  /** The reordered layer has the other fields in their order, then the crop fields sorted. */
  lemma CropIndexFields(fields: seq<string>)
    ensures Permuted(fields, CropIndex(fields)) == OtherFields(fields) + Sort(CropFields(fields))
  {
    SortedMembers(fields);
    var others := OtherPositionsUpTo(fields, |fields|);
    var sorted := Sort(CropFields(fields));
    var crops := Positions(fields, sorted);
    OthersPermuted(fields);
    PermutedAppend(fields, others, crops);
    assert Permuted(fields, crops) == sorted;
  }

  /** The other positions pick out exactly the other fields. */
  lemma OthersPermuted(fields: seq<string>)
    ensures forall k :: 0 <= k < |OtherPositionsUpTo(fields, |fields|)| ==>
      0 <= OtherPositionsUpTo(fields, |fields|)[k] < |fields|
    ensures Permuted(fields, OtherPositionsUpTo(fields, |fields|)) == OtherFields(fields)
  {
    SplitUpTo(fields, |fields|);
  }

  /** Picking by two position lists one after the other is picking by their concatenation. */
  lemma PermutedAppend(fields: seq<string>, a: seq<int>, b: seq<int>)
    requires forall k :: 0 <= k < |a| ==> 0 <= a[k] < |fields|
    requires forall k :: 0 <= k < |b| ==> 0 <= b[k] < |fields|
    ensures Permuted(fields, a + b) == Permuted(fields, a) + Permuted(fields, b)
  {
    var p := Permuted(fields, a + b);
    var q := Permuted(fields, a) + Permuted(fields, b);
    forall k | 0 <= k < |p| ensures p[k] == q[k] {
      if k >= |a| { assert (a + b)[k] == b[k - |a|]; }
    }
  }

  /** Sorted crop fields of a layer without repeated names land on distinct positions. */
  lemma CropIndexDistinct(fields: seq<string>)
    requires NoDup(fields)
    ensures forall i, j :: 0 <= i < j < |CropIndex(fields)| ==> CropIndex(fields)[i] != CropIndex(fields)[j]
  {
    SplitUpTo(fields, |fields|);
    SortedMembers(fields);
    var others := OtherPositionsUpTo(fields, |fields|);
    var sorted := Sort(CropFields(fields));
    var crops := Positions(fields, sorted);
    var index := CropIndex(fields);
    assert index == others + crops;
    NoDupPermutation(CropFields(fields), sorted);
    forall k | 0 <= k < |sorted| ensures IsCropField(fields[crops[k]]) {
      assert sorted[k] in multiset(sorted);
      assert sorted[k] in CropFields(fields);
    }
    forall i, j | 0 <= i < j < |index| ensures index[i] != index[j] {
      if j < |others| {
      } else if i < |others| {
        assert !IsCropField(fields[others[i]]);
        assert IsCropField(fields[crops[j - |others|]]);
      } else {
        assert fields[crops[i - |others|]] == sorted[i - |others|];
        assert fields[crops[j - |others|]] == sorted[j - |others|];
      }
    }
  }

  /**
   * For a layer whose field names are distinct, the new position list is a permutation
   * that moves the other fields to the front in their order and then the crop fields
   * sorted by name.
   */
  lemma CropIndexSpec(fields: seq<string>)
    requires NoDup(fields)
    ensures IsPermutation(CropIndex(fields), |fields|)
    ensures Permuted(fields, CropIndex(fields)) == OtherFields(fields) + Sort(CropFields(fields))
  {
    CropIndexDistinct(fields);
    CropIndexFields(fields);
  }

  /** The crop-field check and reorder: applied only when the crop fields are out of order. */
  method SortCropFields(layer: Layer) returns (reordered: bool)
    modifies layer
    ensures reordered == NeedsCropSort(old(layer.fields))
    ensures reordered ==> layer.fields == Permuted(old(layer.fields), CropIndex(old(layer.fields)))
    ensures !reordered ==> layer.fields == old(layer.fields)
    ensures layer.features == old(layer.features)
  {
    reordered := CropFields(layer.fields) != Sort(CropFields(layer.fields));
    if reordered {
      var index := BuildCropIndex(layer.fields);
      layer.ReorderFields(index);
    }
  }

  lemma {:induction false} CropFieldsNone(s: seq<string>, n: int)
    requires 0 <= n <= |s|
    requires forall k :: 0 <= k < n ==> !IsCropField(s[k])
    ensures CropFieldsUpTo(s, n) == []
  {
    if n > 0 {
      CropFieldsNone(s, n - 1);
      assert !IsCropField(s[n - 1]);
      assert CropFieldsUpTo(s, n) == CropFieldsUpTo(s, n - 1) + [];
    }
  }

  lemma {:induction false} CropFieldsAll(s: seq<string>, n: int)
    requires 0 <= n <= |s|
    requires forall k :: 0 <= k < n ==> IsCropField(s[k])
    ensures CropFieldsUpTo(s, n) == s[..n]
  {
    if n > 0 {
      CropFieldsAll(s, n - 1);
      assert s[..n] == s[..n - 1] + [s[n - 1]];
    }
  }

  /** Crop fields of a concatenation: those of the first part, then those of the second. */
  lemma {:induction false} CropFieldsAppend(a: seq<string>, b: seq<string>, m: int)
    requires 0 <= m <= |b|
    ensures CropFieldsUpTo(a + b, |a| + m) == CropFields(a) + CropFieldsUpTo(b, m)
  {
    if m == 0 {
      CropFieldsPrefix(a + b, a, |a|);
    } else {
      CropFieldsAppend(a, b, m - 1);
      assert (a + b)[|a| + m - 1] == b[m - 1];
    }
  }

  lemma {:induction false} CropFieldsPrefix(s: seq<string>, t: seq<string>, n: int)
    requires 0 <= n <= |s| && n <= |t|
    requires s[..n] == t[..n]
    ensures CropFieldsUpTo(s, n) == CropFieldsUpTo(t, n)
  {
    if n > 0 {
      assert s[n - 1] == s[..n][n - 1] == t[..n][n - 1] == t[n - 1];
      assert s[..n - 1] == s[..n][..n - 1];
      assert t[..n - 1] == t[..n][..n - 1];
      CropFieldsPrefix(s, t, n - 1);
    }
  }

  lemma OthersNotCrop(fields: seq<string>)
    ensures forall k :: 0 <= k < |OtherFields(fields)| ==> !IsCropField(OtherFields(fields)[k])
  {
    SplitUpTo(fields, |fields|);
    var o := OtherFields(fields);
    forall k | 0 <= k < |o| ensures !IsCropField(o[k]) {
      assert o[k] == fields[OtherPositionsUpTo(fields, |fields|)[k]];
    }
  }

  lemma SortedAreCrop(fields: seq<string>)
    ensures forall k :: 0 <= k < |Sort(CropFields(fields))| ==> IsCropField(Sort(CropFields(fields))[k])
  {
    SplitUpTo(fields, |fields|);
    var c := Sort(CropFields(fields));
    forall k | 0 <= k < |c| ensures IsCropField(c[k]) {
      assert c[k] in multiset(c);
      assert c[k] in CropFields(fields);
    }
  }

  /** After the reorder the crop fields are sorted, so a second run leaves the layer alone. */
  lemma CropSortSettles(fields: seq<string>)
    ensures !NeedsCropSort(OtherFields(fields) + Sort(CropFields(fields)))
  {
    var o := OtherFields(fields);
    var c := Sort(CropFields(fields));
    OthersNotCrop(fields);
    SortedAreCrop(fields);
    CropFieldsOfSplit(o, c);
    SortOfSorted(c, Identity);
  }

  /** Other fields followed by crop fields: the crop fields are the second part. */
  lemma CropFieldsOfSplit(o: seq<string>, c: seq<string>)
    requires forall k :: 0 <= k < |o| ==> !IsCropField(o[k])
    requires forall k :: 0 <= k < |c| ==> IsCropField(c[k])
    ensures CropFields(o + c) == c
  {
    CropFieldsNone(o, |o|);
    CropFieldsAll(c, |c|);
    assert c[..|c|] == c;
    CropFieldsAppend(o, c, |c|);
  }

  // ---------------------------------------------------------------------------
  // the id check

  /** The positions without an id, as the FIDs reported missing. */
  function MissingIds(ids: seq<Value>): seq<int>
    decreases |ids|
  {
    if |ids| == 0 then []
    else MissingIds(ids[..|ids| - 1]) + (if ids[|ids| - 1].Null? then [|ids| - 1] else [])
  }

  /** The ids reported as duplicates: each repeat of an id seen earlier. */
  function DuplicateIds(ids: seq<Value>): seq<Value>
    decreases |ids|
  {
    if |ids| == 0 then []
    else
      var last := ids[|ids| - 1];
      DuplicateIds(ids[..|ids| - 1]) + (if !last.Null? && last in ids[..|ids| - 1] then [last] else [])
  }

  /** The set of distinct ids present. */
  function IdSet(ids: seq<Value>): set<Value> {
    set k | 0 <= k < |ids| && !ids[k].Null? :: ids[k]
  }

  /** What one more feature adds to the id set and to the two reports. */
  lemma IdStep(ids: seq<Value>, k: int)
    requires 0 <= k < |ids|
    ensures var p, q := ids[..k + 1], ids[..k];
      && IdSet(p) == IdSet(q) + (if ids[k].Null? then {} else {ids[k]})
      && MissingIds(p) == MissingIds(q) + (if ids[k].Null? then [k] else [])
      && DuplicateIds(p) == DuplicateIds(q) + (if !ids[k].Null? && ids[k] in IdSet(q) then [ids[k]] else [])
  {
    var p, q := ids[..k + 1], ids[..k];
    assert p[..k] == q;
    assert IdSet(p) == IdSet(q) + (if ids[k].Null? then {} else {ids[k]});
    if !ids[k].Null? {
      if ids[k] in IdSet(q) {
        var j :| 0 <= j < k && !q[j].Null? && q[j] == ids[k];
        assert ids[k] in q;
      } else {
        assert ids[k] !in q;
      }
    }
  }

  /** The loop over the layer's features that reports missing and repeated ids. */
  method CheckIds(ids: seq<Value>) returns (seen: set<Value>, missing: seq<int>, duplicates: seq<Value>)
    ensures seen == IdSet(ids)
    ensures missing == MissingIds(ids)
    ensures duplicates == DuplicateIds(ids)
  {
    seen := {};
    missing := [];
    duplicates := [];
    var k := 0;
    while k < |ids|
      invariant 0 <= k <= |ids|
      invariant seen == IdSet(ids[..k])
      invariant missing == MissingIds(ids[..k])
      invariant duplicates == DuplicateIds(ids[..k])
    {
      IdStep(ids, k);
      if ids[k].Null? {
        missing := missing + [k];
      } else if ids[k] in seen {
        duplicates := duplicates + [ids[k]];
      } else {
        seen := seen + {ids[k]};
      }
      k := k + 1;
    }
    assert ids[..k] == ids;
  }

  /** Nothing is reported exactly when every feature has an id and no two share one. */
  lemma {:induction false} CleanIds(ids: seq<Value>)
    ensures MissingIds(ids) == [] && DuplicateIds(ids) == [] <==>
      (forall k :: 0 <= k < |ids| ==> !ids[k].Null?) && (forall i, j :: 0 <= i < j < |ids| ==> ids[i] != ids[j])
    decreases |ids|
  {
    if |ids| > 0 {
      var init := ids[..|ids| - 1];
      CleanIds(init);
      CleanStep(ids);
    }
  }

  /** A list is clean when its last id is set and new and the ids before it are clean. */
  lemma CleanStep(ids: seq<Value>)
    requires |ids| > 0
    ensures var init, last := ids[..|ids| - 1], ids[|ids| - 1];
      ((forall k :: 0 <= k < |ids| ==> !ids[k].Null?) && (forall i, j :: 0 <= i < j < |ids| ==> ids[i] != ids[j]))
      <==>
      ((forall k :: 0 <= k < |init| ==> !init[k].Null?) && (forall i, j :: 0 <= i < j < |init| ==> init[i] != init[j])
       && !last.Null? && last !in init)
  {
    var init, last := ids[..|ids| - 1], ids[|ids| - 1];
    var n := |ids| - 1;
    assert forall k :: 0 <= k < n ==> init[k] == ids[k];
    if (forall i, j :: 0 <= i < j < |ids| ==> ids[i] != ids[j]) {
      forall k | 0 <= k < n ensures init[k] != last {
        assert ids[k] != ids[n];
      }
    }
    if last !in init && (forall i, j :: 0 <= i < j < |init| ==> init[i] != init[j]) {
      forall i, j | 0 <= i < j < |ids| ensures ids[i] != ids[j] {
        if j == n { assert ids[i] == init[i]; }
        else { assert ids[i] == init[i] && ids[j] == init[j]; }
      }
    }
  }
}
