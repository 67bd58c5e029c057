/**
 * The backward fill of missing crop types: for each (source year, target year) pair,
 * newest first, a field with no code in the target year takes the code of the source
 * year, with a provenance string naming the year copied and the remap note when an
 * annual crop was folded into the generic code. With overwrite, values that an earlier
 * fill copied are cleared first.
 */
module FillPass {
  import opened Wrappers
  import opened Strings
  import opened Remap
  import opened FieldStore

  /** 'CROP_<y>': the provenance of a value copied from year y. */
  function CopiedFrom(y: int): string { "CROP_" + IntToString(y) }

  /** cdl_annual_remap_years: [2023], then [y + 1, y] for y from 2007 down to 1997. */
  method BuildFillPairs() returns (pairs: seq<seq<int>>)
    ensures |pairs| == 12
    ensures pairs[0] == [2023]
    ensures forall k :: 1 <= k < 12 ==> pairs[k] == [2009 - k, 2008 - k]
  {
    pairs := [];
    pairs := pairs + [[2023]];
    var year := 2007;
    while year >= 1997
      invariant 1996 <= year <= 2007
      invariant |pairs| == 2008 - year
      invariant pairs[0] == [2023]
      invariant forall k :: 1 <= k < |pairs| ==> pairs[k] == [2009 - k, 2008 - k]
    {
      pairs := pairs + [[year + 1, year]];
      year := year - 1;
    }
  }

  /** `for src_year, tgt_year in pairs`: unpacking a list into two names. */
  function Unpack(pair: seq<int>): (r: Result<(int, int)>)
    ensures r.Ok? <==> |pair| == 2
    ensures r.Ok? ==> r.value == (pair[0], pair[1])
  {
    if |pair| < 2 then Err(ValueError("not enough values to unpack (expected 2)"))
    else if |pair| > 2 then Err(ValueError("too many values to unpack (expected 2)"))
    else Ok((pair[0], pair[1]))
  }

  predicate WellFormed(pairs: seq<seq<int>>) {
    forall k :: 0 <= k < |pairs| ==> |pairs[k]| == 2
  }

  // ---------------------------------------------------------------------------
  // the clear of filled values

  /** One pair of the clear: a set target whose source starts with 'CROP_<src>' is reset. */
  function ClearPair(f: Feature, src: int, tgt: int): (g: Feature)
    ensures Untouched(f, g, {tgt})
    ensures g != f ==> Code(f, tgt) != 0 && StartsWith(Source(f, tgt), CopiedFrom(src))
    ensures Code(f, tgt) != 0 && StartsWith(Source(f, tgt), CopiedFrom(src)) ==>
      Code(g, tgt) == 0 && Source(g, tgt) == ""
  {
    if Code(f, tgt) == 0 then f
    else if StartsWith(Source(f, tgt), CopiedFrom(src)) then SetYear(f, tgt, 0, "")
    else f
  }

  /** The clear loop over the pairs for one feature, or the unpacking error. */
  function ClearFeature(f: Feature, pairs: seq<seq<int>>): (r: Result<Feature>)
    ensures r.Ok? <==> WellFormed(pairs)
    ensures r.Ok? ==> Untouched(f, r.value, set k | 0 <= k < |pairs| :: pairs[k][1])
    decreases |pairs|
  {
    if |pairs| == 0 then Ok(f)
    else
      match Unpack(pairs[0])
      case Err(e) => Err(e)
      case Ok((src, tgt)) =>
        var rest := ClearFeature(ClearPair(f, src, tgt), pairs[1..]);
        assert forall k :: 1 <= k < |pairs| ==> pairs[k] == pairs[1..][k - 1];
        assert WellFormed(pairs) <==> WellFormed(pairs[1..]);
        if rest.Ok? then
          assert (set k | 0 <= k < |pairs| :: pairs[k][1])
              == {tgt} + (set k | 0 <= k < |pairs[1..]| :: pairs[1..][k][1]) by {
            forall k | 1 <= k < |pairs| ensures pairs[k][1] == pairs[1..][k - 1][1] { }
          }
          rest
        else rest
  }

  /**
   * The clear loop over the layer: a malformed pair raises in the first feature, before
   * that feature is written back, so the layer is left as it was.
   */
  method ClearFilled(layer: Layer, pairs: seq<seq<int>>) returns (err: Option<Error>)
    modifies layer.features
    ensures err.Some? <==> layer.features.Length > 0 && !WellFormed(pairs)
    ensures err.Some? ==> layer.features[..] == old(layer.features[..])
    ensures err.Some? ==> err == Some(ClearFeature(old(layer.features[0]), pairs).error)
    ensures err.None? ==> forall i :: 0 <= i < layer.features.Length ==>
      ClearFeature(old(layer.features[i]), pairs) == Ok(layer.features[i])
  {
    var i := 0;
    while i < layer.features.Length
      invariant 0 <= i <= layer.features.Length
      invariant i > 0 ==> WellFormed(pairs)
      invariant forall k :: 0 <= k < i ==> ClearFeature(old(layer.features[k]), pairs) == Ok(layer.features[k])
      invariant forall k :: i <= k < layer.features.Length ==> layer.features[k] == old(layer.features[k])
    {
      var r := ClearPairs(layer.features[i], pairs);
      if r.Err? {
        return Some(r.error);
      }
      layer.features[i] := r.value;
      i := i + 1;
    }
    return None;
  }

  /** The inner loop for one feature: unpack each pair, then clear its target. */
  method ClearPairs(f: Feature, pairs: seq<seq<int>>) returns (r: Result<Feature>)
    ensures r == ClearFeature(f, pairs)
  {
    var g := f;
    var j := 0;
    while j < |pairs|
      invariant 0 <= j <= |pairs|
      invariant ClearFeature(g, pairs[j..]) == ClearFeature(f, pairs)
    {
      assert pairs[j..][1..] == pairs[j + 1..];
      var pair := Unpack(pairs[j]);
      if pair.Err? {
        return Err(pair.error);
      }
      g := ClearPair(g, pair.value.0, pair.value.1);
      j := j + 1;
    }
    assert pairs[j..] == [];
    return Ok(g);
  }

  // ---------------------------------------------------------------------------
  // one pair of the fill

  /** The target provenance before the remap rule: a copy's provenance passes through. */
  function FillSource(s: string, src: int): string
  {
    if StartsWith(s, "CROP_") then s
    else if Contains(s, NoteText) then CopiedFrom(src) + Note
    else CopiedFrom(src)
  }

  /** The fill of CROP_<tgt> / CSRC_<tgt> of one feature from its year src. */
  function FillFeature(f: Feature, src: int, tgt: int, remap: Table, overwrite: bool): Feature
  {
    var c := Code(f, src);
    if c == 0 then f
    else if Code(f, tgt) > 0 && !overwrite then f
    else
      var ts := FillSource(Source(f, src), src);
      if !Contains(ts, NoteText) && c in remap then SetYear(f, tgt, remap[c], ts + Note)
      else SetYear(f, tgt, c, ts)
  }

  lemma NoteInNote(s: string)
    ensures Contains(s + Note, NoteText)
  {
    assert s + Note == (s + " - ") + NoteText;
    ContainsSuffix(s + " - ", NoteText);
  }

  /** 'CROP_<y>' never holds the note: it has no 'r' in it. */
  lemma CopiedFromPlain(y: int)
    ensures !Contains(CopiedFrom(y), NoteText)
  {
    IntToStringChars(y);
    assert forall k :: 5 <= k < |CopiedFrom(y)| ==> CopiedFrom(y)[k] == IntToString(y)[k - 5];
    MissingFirstChar(CopiedFrom(y), NoteText);
  }

  /** The passed-through provenance carries the note exactly when the source's does. */
  lemma FillSourceNote(s: string, src: int)
    ensures Contains(FillSource(s, src), NoteText) <==> Contains(s, NoteText)
    ensures StartsWith(FillSource(s, src), "CROP_")
  {
    if !StartsWith(s, "CROP_") {
      CopiedFromPlain(src);
      if Contains(s, NoteText) { NoteInNote(CopiedFrom(src)); }
    }
  }

  /**
   * What one fill step does: nothing for an unset source or a set target without
   * overwrite; otherwise only the target year is written, with a provenance that
   * starts with 'CROP_', that carries the note iff the source's did or the code is a
   * remap key, and that gains it at most once, together with remap[c] exactly when
   * the note was added.
   */
  lemma FillFeatureSpec(f: Feature, src: int, tgt: int, remap: Table, overwrite: bool)
    ensures var g := FillFeature(f, src, tgt, remap, overwrite);
      Untouched(f, g, {tgt})
      && (Code(f, src) == 0 ==> g == f)
      && (Code(f, tgt) > 0 && !overwrite ==> g == f)
      && (Code(f, src) != 0 && (Code(f, tgt) <= 0 || overwrite) ==>
        var s := Source(f, src);
        var c := Code(f, src);
        var added := c in remap && !Contains(s, NoteText);
        StartsWith(Source(g, tgt), "CROP_")
        && (Contains(Source(g, tgt), NoteText) <==> Contains(s, NoteText) || c in remap)
        && Code(g, tgt) == (if added then remap[c] else c)
        && Source(g, tgt) == (if StartsWith(s, "CROP_") then s else
                                if Contains(s, NoteText) then CopiedFrom(src) + Note else CopiedFrom(src))
                             + (if added then Note else ""))
  {
    var g := FillFeature(f, src, tgt, remap, overwrite);
    var s := Source(f, src);
    var c := Code(f, src);
    if c != 0 && (Code(f, tgt) <= 0 || overwrite) {
      var ts := FillSource(s, src);
      FillSourceNote(s, src);
      if !Contains(ts, NoteText) && c in remap {
        NoteInNote(ts);
        assert Source(g, tgt) == ts + Note;
        assert (ts + Note)[..5] == ts[..5];
      }
    }
  }

  /** A flattened chain: a 2005 value copied from 2008 is not cleared by the (2006, 2005) pair. */
  lemma ClearMissesFlattenedChain(f: Feature)
    requires Code(f, 2005) == 1 && Source(f, 2005) == "CROP_2008"
    ensures ClearPair(f, 2006, 2005) == f
  {
    assert CopiedFrom(2006) == "CROP_2006";
    assert "CROP_2008"[..9][8] != "CROP_2006"[8];
  }

  // ---------------------------------------------------------------------------
  // the fill over the pairs and the whole run for a state

  /** One pair of the fill over every feature of the layer. */
  function FillAll(fs: seq<Feature>, src: int, tgt: int, remap: Table, overwrite: bool): seq<Feature>
  {
    seq(|fs|, i requires 0 <= i < |fs| => FillFeature(fs[i], src, tgt, remap, overwrite))
  }

  /** The pairs in order; a malformed pair raises before its pass writes anything. */
  function FillRun(fs: seq<Feature>, pairs: seq<seq<int>>, remap: Table, overwrite: bool): (r: Outcome)
    ensures r.error.Some? <==> !WellFormed(pairs)
    decreases |pairs|
  {
    if |pairs| == 0 then Outcome(None, fs)
    else
      match Unpack(pairs[0])
      case Err(e) => Outcome(Some(e), fs)
      case Ok((src, tgt)) =>
        assert forall k :: 1 <= k < |pairs| ==> pairs[k] == pairs[1..][k - 1];
        FillRun(FillAll(fs, src, tgt, remap, overwrite), pairs[1..], remap, overwrite)
  }

  /** Every feature after the clear loop, when it runs through. */
  function ClearedAll(fs: seq<Feature>, pairs: seq<seq<int>>): seq<Feature>
    requires WellFormed(pairs) || |fs| == 0
  {
    seq(|fs|, i requires 0 <= i < |fs| => ClearFeature(fs[i], pairs).value)
  }

  /** A state: the clear when overwriting, then the fill. */
  function FillState(fs: seq<Feature>, pairs: seq<seq<int>>, remap: Table, overwrite: bool): Outcome
  {
    if overwrite && |fs| > 0 && !WellFormed(pairs) then Outcome(Some(ClearFeature(fs[0], pairs).error), fs)
    else FillRun(if overwrite then ClearedAll(fs, pairs) else fs, pairs, remap, overwrite)
  }

  /** One pair of the fill: the loop over the layer's features. */
  method FillPair(layer: Layer, src: int, tgt: int, remap: Table, overwrite: bool)
    modifies layer.features
    ensures layer.features[..] == FillAll(old(layer.features[..]), src, tgt, remap, overwrite)
  {
    var i := 0;
    while i < layer.features.Length
      invariant 0 <= i <= layer.features.Length
      invariant forall k :: 0 <= k < i ==>
        layer.features[k] == FillFeature(old(layer.features[k]), src, tgt, remap, overwrite)
      invariant forall k :: i <= k < layer.features.Length ==> layer.features[k] == old(layer.features[k])
    {
      layer.features[i] := FillFeature(layer.features[i], src, tgt, remap, overwrite);
      i := i + 1;
    }
  }

  /** The fill of one state's shapefile. */
  method FillLayer(layer: Layer, pairs: seq<seq<int>>, remap: Table, overwrite: bool)
    returns (err: Option<Error>)
    modifies layer.features
    ensures Outcome(err, layer.features[..]) == FillState(old(layer.features[..]), pairs, remap, overwrite)
  {
    if overwrite {
      err := ClearFilled(layer, pairs);
      if err.Some? {
        assert ClearFeature(old(layer.features[0]), pairs).Err?;
        return;
      }
      assert layer.features[..] == ClearedAll(old(layer.features[..]), pairs);
    }
    ghost var start := layer.features[..];
    var k := 0;
    while k < |pairs|
      invariant 0 <= k <= |pairs|
      invariant FillRun(start, pairs, remap, overwrite) == FillRun(layer.features[..], pairs[k..], remap, overwrite)
    {
      assert pairs[k..][1..] == pairs[k + 1..];
      var pair := Unpack(pairs[k]);
      if pair.Err? {
        return Some(pair.error);
      }
      FillPair(layer, pair.value.0, pair.value.1, remap, overwrite);
      k := k + 1;
    }
    assert pairs[k..] == [];
    return None;
  }

  /** The pair list as built starts with [2023], so every state stops at once, unchanged. */
  lemma SourcePairsRaise(fs: seq<Feature>, pairs: seq<seq<int>>, remap: Table, overwrite: bool)
    requires |pairs| > 0 && pairs[0] == [2023]
    ensures FillState(fs, pairs, remap, overwrite)
         == Outcome(Some(ValueError("not enough values to unpack (expected 2)")), fs)
  {
    assert !WellFormed(pairs);
  }
}
