/**
 * Per-pixel rules shared by the export and the image-collection scripts. A pixel of an
 * Earth Engine image is a value or masked (None).
 */
module Pixels {
  import opened Wrappers
  import opened Remap

  type Pixel = Option<int>

  /** img.updateMask(img.neq(81)): the CDL cloud/no-data code 81 becomes masked. */
  function Mask81(v: Pixel): (r: Pixel)
    ensures r != Some(81)
    ensures v != Some(81) ==> r == v
  {
    if v == Some(81) then None else v
  }

  /** img.updateMask(m): kept where the mask is present and non-zero. */
  function UpdateMask(v: Pixel, m: Pixel): (r: Pixel)
    ensures r.Some? <==> v.Some? && m.Some? && m.value != 0
    ensures r.Some? ==> r == v
  {
    if m.Some? && m.value != 0 then v else None
  }

  /**
   * cdl.where(cdl.eq(176).And(nlcd.eq(81).Or(nlcd.eq(82))), 37): grassland/pasture under
   * NLCD pasture or cultivated crops becomes 37. A masked test leaves the input as it is.
   */
  function Replace176(v: Pixel, nlcd: Pixel): (r: Pixel)
    ensures r.Some? <==> v.Some?
    ensures r == Some(37) || r == v
    ensures r != v <==> v == Some(176) && (nlcd == Some(81) || nlcd == Some(82))
  {
    if v == Some(176) && nlcd.Some? && (nlcd.value == 81 || nlcd.value == 82) then Some(37) else v
  }

  /** ee.Reducer.firstNonNull() over the bands in order. */
  function FirstNonNull(bands: seq<Pixel>): (r: Pixel)
    ensures r.Some? <==> exists k :: 0 <= k < |bands| && bands[k].Some?
    ensures r.Some? ==>
      exists k :: 0 <= k < |bands| && bands[k] == r && forall j :: 0 <= j < k ==> bands[j].None?
    decreases |bands|
  {
    if |bands| == 0 then None
    else if bands[0].Some? then bands[0]
    else
      var r := FirstNonNull(bands[1..]);
      assert forall k :: 1 <= k < |bands| ==> bands[k] == bands[1..][k - 1];
      if r.Some? then
        ghost var k :| 0 <= k < |bands[1..]| && bands[1..][k] == r && forall j :: 0 <= j < k ==> bands[1..][j].None?;
        assert bands[k + 1] == r;
        r
      else r
  }

  /** A band before all others that has a value decides the pixel. */
  lemma {:induction false} FirstNonNullPrefix(front: seq<Pixel>, back: seq<Pixel>)
    ensures (forall k :: 0 <= k < |front| ==> front[k].None?) ==>
      FirstNonNull(front + back) == FirstNonNull(back)
    ensures FirstNonNull(front).Some? ==> FirstNonNull(front + back) == FirstNonNull(front)
    decreases |front|
  {
    if |front| > 0 {
      assert (front + back)[0] == front[0];
      assert (front + back)[1..] == front[1..] + back;
      FirstNonNullPrefix(front[1..], back);
      if front[0].None? {
        assert FirstNonNull(front) == FirstNonNull(front[1..]);
        assert FirstNonNull(front + back) == FirstNonNull(front[1..] + back);
      }
      if forall k :: 0 <= k < |front| ==> front[k].None? {
        assert front[0].None?;
        assert forall k :: 0 <= k < |front[1..]| ==> front[1..][k] == front[k + 1];
        assert FirstNonNull(front[1..] + back) == FirstNonNull(back);
      }
    } else {
      assert front + back == back;
    }
  }

  /** A band with a value after bands that have none decides the pixel. */
  lemma FirstNonNullAt(bands: seq<Pixel>, i: int)
    requires 0 <= i < |bands| && bands[i].Some?
    requires forall j :: 0 <= j < i ==> bands[j].None?
    ensures FirstNonNull(bands) == bands[i]
  {
    assert FirstNonNull(bands).Some?;
    var k :| 0 <= k < |bands| && bands[k] == FirstNonNull(bands) && forall j :: 0 <= j < k ==> bands[j].None?;
  }

  /**
   * The composite masks 81 before the remap and the state export after it. The two
   * orders agree when the table neither maps into 81 nor lists 81 itself.
   */
  lemma MaskOrdersAgree(t: Table, total: map<int, int>, v: Pixel)
    requires Completes(total, t)
    requires 81 !in t && forall c :: c in t ==> t[c] != 81
    ensures Mask81(Apply(total, v)) == Apply(total, Mask81(v))
  {
    if v.Some? {
      var c := v.value;
      if c in t {
        assert c in total;
        assert total[c] == t[c];
      }
    }
  }

  /** A table that sends some code to 81 makes the two orders differ at that code. */
  lemma MaskOrdersDiffer(t: Table, total: map<int, int>, c: int)
    requires Completes(total, t)
    requires c in t && t[c] == 81 && c != 81
    ensures Mask81(Apply(total, Some(c))) == None
    ensures Apply(total, Mask81(Some(c))) == Some(81)
  {
  }
}
