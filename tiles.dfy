/**
 * The MGRS tile export records both tile scripts build from the tile collection's
 * properties: projection, extent, 30 m geo transform, shape, pixel budget and UTM zone,
 * in a list sorted by the tile code.
 */
module Tiles {
  import opened Wrappers
  import opened Strings

  /** The properties of one MGRS tile feature, with the extent already passed through int(). */
  datatype TileInfo = TileInfo(mgrs: string, epsg: int, xmin: int, ymin: int, xmax: int, ymax: int)

  /** One entry of the export list. */
  datatype TileRecord = TileRecord(
    crs: string, extent: seq<int>, geo: seq<int>, geoStr: string, index: string,
    maxpixels: int, shape: seq<int>, shapeStr: string, utm: int)

  /** int(a / b) for a positive b: the quotient truncated toward zero. */
  function TruncDiv(a: int, b: int): int
    requires b > 0
  {
    if a >= 0 then a / b else -((-a) / b)
  }

  /** Truncation rounds the magnitude down: |q| whole b's fit in |a|, one more does not. */
  lemma TruncDivBounds(a: int, b: int)
    requires b > 0
    ensures a >= 0 ==> 0 <= TruncDiv(a, b) && Area(TruncDiv(a, b), b) <= a < Area(TruncDiv(a, b) + 1, b)
    ensures a < 0 ==> TruncDiv(a, b) <= 0 && Area(-TruncDiv(a, b), b) <= -a < Area(-TruncDiv(a, b) + 1, b)
  {
    var n := if a >= 0 then a else -a;
    var q := n / b;
    assert n == q * b + n % b;
    assert (q + 1) * b == q * b + b;
  }

  /** The pixel count of a cols x rows grid. */
  function Area(cols: int, rows: int): int {
    cols * rows
  }

  /** Python's ','.join(map(str, xs)). */
  function JoinInts(xs: seq<int>): string {
    Join(seq(|xs|, k requires 0 <= k < |xs| => IntToString(xs[k])), ",")
  }

  /** The code the UTM zone is read from: the first two characters, as mgrs_id[:2]. */
  function ZoneText(index: string): (r: string)
    ensures |r| == if |index| < 2 then |index| else 2
    ensures StartsWith(index, r)
  {
    if |index| < 2 then index else index[..2]
  }

  /**
   * [e0, e2, e1, e3]: swap_ul_lr on a tile extent, and the conversion of an OGR envelope
   * (minx, maxx, miny, maxy) to a GDAL extent (xmin, ymin, xmax, ymax).
   */
  function Swap(e: seq<int>): (r: seq<int>)
    requires |e| == 4
    ensures |r| == 4
  {
    [e[0], e[2], e[1], e[3]]
  }

  /** Swapping twice restores the extent. */
  lemma SwapInvolution(e: seq<int>)
    requires |e| == 4
    ensures Swap(Swap(e)) == e
  {
  }

  /**
   * The export record of one tile; pad is the extra pixel the shapefile script adds to
   * maxpixels. int() of a zone that is not a number raises ValueError.
   */
  function TileRecordOf(t: TileInfo, cell: int, pad: int): Result<TileRecord>
    requires cell > 0
  {
    var utm := PyInt(ZoneText(Upper(t.mgrs)));
    if utm.None? then Err(ValueError("invalid literal for int() with base 10: " + ZoneText(Upper(t.mgrs))))
    else Ok(RecordOf(t, cell, pad, utm.value))
  }

  /** The fields of a tile's record once its zone number is known. */
  function RecordOf(t: TileInfo, cell: int, pad: int, utm: int): TileRecord
    requires cell > 0
  {
    var geo := [cell, 0, t.xmin, 0, -cell, t.ymax];
    var shape := [TruncDiv(t.xmax - t.xmin, cell), TruncDiv(t.ymax - t.ymin, cell)];
    TileRecord(
      "EPSG:" + IntToString(t.epsg), [t.xmin, t.ymin, t.xmax, t.ymax], geo,
      "[" + JoinInts(geo) + "]", Upper(t.mgrs), Area(shape[0], shape[1]) + pad, shape,
      IntToString(shape[0]) + "x" + IntToString(shape[1]), utm)
  }

  /**
   * A record lays a whole number of cells over the extent from its upper-left corner:
   * the shape is the number of full cells that fit (when max >= min), the pixel budget
   * is their product plus the pad, and the zone is the tile code's leading number.
   */
  lemma TileRecordSpec(t: TileInfo, cell: int, pad: int)
    requires cell > 0
    ensures TileRecordOf(t, cell, pad).Err? <==> PyInt(ZoneText(Upper(t.mgrs))).None?
    ensures TileRecordOf(t, cell, pad).Ok? ==>
      var r := TileRecordOf(t, cell, pad).value;
      && r.index == Upper(t.mgrs)
      && Some(r.utm) == PyInt(ZoneText(r.index))
      && r.crs == "EPSG:" + IntToString(t.epsg)
      && r.geo == [cell, 0, t.xmin, 0, -cell, t.ymax]
      && r.extent == [t.xmin, t.ymin, t.xmax, t.ymax]
      && |r.shape| == 2
      && r.maxpixels == Area(r.shape[0], r.shape[1]) + pad
      && r.shape == [TruncDiv(t.xmax - t.xmin, cell), TruncDiv(t.ymax - t.ymin, cell)]
  {
    var zone := PyInt(ZoneText(Upper(t.mgrs)));
    if zone.Some? {
      RecordOfSpec(t, cell, pad, zone.value);
    }
  }

  lemma RecordOfSpec(t: TileInfo, cell: int, pad: int, utm: int)
    requires cell > 0
    ensures var r := RecordOf(t, cell, pad, utm);
      && r.index == Upper(t.mgrs)
      && r.utm == utm
      && r.crs == "EPSG:" + IntToString(t.epsg)
      && r.geo == [cell, 0, t.xmin, 0, -cell, t.ymax]
      && r.extent == [t.xmin, t.ymin, t.xmax, t.ymax]
      && |r.shape| == 2
      && r.maxpixels == Area(r.shape[0], r.shape[1]) + pad
      && r.shape == [TruncDiv(t.xmax - t.xmin, cell), TruncDiv(t.ymax - t.ymin, cell)]
  {
  }

  /** A tile code whose first two characters spell a number has that number as its zone. */
  lemma ZoneOfCode(t: TileInfo, cell: int, pad: int, zone: int)
    requires cell > 0
    requires ZoneText(Upper(t.mgrs)) == IntToString(zone)
    ensures TileRecordOf(t, cell, pad).Ok?
    ensures TileRecordOf(t, cell, pad).value.utm == zone
  {
    PyIntOfIntToString(zone);
  }

  /**
   * The user filters on the tile collection: a tile in the skip list is dropped, and when
   * tiles are given a tile is kept only if its code starts with one of them, upper-cased.
   */
  predicate Wanted(t: TileInfo, skip: seq<string>, tiles: seq<string>) {
    t.mgrs !in skip && (|tiles| == 0 || exists k :: 0 <= k < |tiles| && StartsWith(t.mgrs, Upper(tiles[k])))
  }

  /** The tiles the filters keep, in collection order. */
  function FilterTiles(infos: seq<TileInfo>, skip: seq<string>, tiles: seq<string>): (r: seq<TileInfo>)
    ensures |r| <= |infos|
    ensures forall t :: t in r <==> t in infos && Wanted(t, skip, tiles)
    decreases |infos|
  {
    if |infos| == 0 then []
    else
      var rest := FilterTiles(infos[1..], skip, tiles);
      assert forall t :: t in infos <==> t == infos[0] || t in infos[1..];
      if Wanted(infos[0], skip, tiles) then [infos[0]] + rest else rest
  }

  /** The values of a list of results, or the first error among them. */
  function Collect<T>(rs: seq<Result<T>>): (r: Result<seq<T>>)
    ensures r.Ok? ==> |r.value| == |rs| && forall k :: 0 <= k < |rs| ==> rs[k] == Ok(r.value[k])
    ensures r.Ok? <==> forall k :: 0 <= k < |rs| ==> rs[k].Ok?
    decreases |rs|
  {
    if |rs| == 0 then Ok([])
    else if rs[0].Err? then Err(rs[0].error)
    else
      var rest := Collect(rs[1..]);
      if rest.Err? then rest
      else
        assert forall k :: 1 <= k < |rs| ==> rs[k] == rs[1..][k - 1];
        Ok([rs[0].value] + rest.value)
  }

  /** Collecting a list extended by one result. */
  lemma {:induction false} CollectSnoc<T>(rs: seq<Result<T>>, x: Result<T>)
    ensures Collect(rs + [x]) ==
      (if Collect(rs).Err? then Collect(rs)
       else if x.Err? then Err(x.error)
       else Ok(Collect(rs).value + [x.value]))
    decreases |rs|
  {
    if |rs| == 0 {
      assert rs + [x] == [x];
      assert [x][1..] == [];
      if x.Ok? { assert [x.value] + [] == [] + [x.value]; }
    } else {
      assert (rs + [x])[0] == rs[0];
      assert (rs + [x])[1..] == rs[1..] + [x];
      CollectSnoc(rs[1..], x);
      if rs[0].Ok? && Collect(rs[1..]).Ok? && x.Ok? {
        assert [rs[0].value] + (Collect(rs[1..]).value + [x.value])
          == ([rs[0].value] + Collect(rs[1..]).value) + [x.value];
      }
    }
  }

  /** The record of each tile, in collection order. */
  function RecordResults(infos: seq<TileInfo>, cell: int, pad: int): seq<Result<TileRecord>>
    requires cell > 0
  {
    seq(|infos|, k requires 0 <= k < |infos| => TileRecordOf(infos[k], cell, pad))
  }

  /** The records of the tiles in collection order; the first bad zone raises. */
  function Records(infos: seq<TileInfo>, cell: int, pad: int): (r: Result<seq<TileRecord>>)
    requires cell > 0
    ensures r.Ok? ==> |r.value| == |infos|
    ensures r.Ok? ==> forall k :: 0 <= k < |infos| ==> TileRecordOf(infos[k], cell, pad) == Ok(r.value[k])
    ensures r.Ok? <==> forall k :: 0 <= k < |infos| ==> TileRecordOf(infos[k], cell, pad).Ok?
  {
    Collect(RecordResults(infos, cell, pad))
  }

  function IndexKey(r: TileRecord): string { r.index }

  /** A record per tile, then sorted(tiles_list, key=index). */
  function ExportList(infos: seq<TileInfo>, cell: int, pad: int): Result<seq<TileRecord>>
    requires cell > 0
  {
    var r := Records(infos, cell, pad);
    if r.Err? then r else Ok(SortBy(r.value, IndexKey))
  }

  /** The loop that appends each result's value to a list, stopping at the first error. */
  method AppendValues<T>(rs: seq<Result<T>>) returns (r: Result<seq<T>>)
    ensures r == Collect(rs)
  {
    var list: seq<T> := [];
    var k := 0;
    while k < |rs|
      invariant 0 <= k <= |rs|
      invariant Collect(rs[..k]) == Ok(list)
    {
      CollectSnoc(rs[..k], rs[k]);
      assert rs[..k + 1] == rs[..k] + [rs[k]];
      if rs[k].Err? {
        ErrorStops(rs, k + 1);
        return Err(rs[k].error);
      }
      list := list + [rs[k].value];
      k := k + 1;
    }
    assert rs[..k] == rs;
    r := Ok(list);
  }

  /** The loop that appends each tile's record to tiles_list, then the sort. */
  method BuildExportList(infos: seq<TileInfo>, cell: int, pad: int) returns (r: Result<seq<TileRecord>>)
    requires cell > 0
    ensures r == ExportList(infos, cell, pad)
    ensures r.Ok? ==> SortedBy(r.value, IndexKey) && |r.value| == |infos|
  {
    var rs := RecordResults(infos, cell, pad);
    var c := AppendValues(rs);
    assert Records(infos, cell, pad) == c;
    if c.Err? {
      return c;
    }
    SortLength(c.value, IndexKey);
    r := Ok(SortBy(c.value, IndexKey));
  }

  /** Once a prefix of the results holds an error, the whole list collects to that error. */
  lemma {:induction false} ErrorStops<T>(rs: seq<Result<T>>, k: nat)
    requires k <= |rs|
    requires Collect(rs[..k]).Err?
    ensures Collect(rs) == Collect(rs[..k])
    decreases |rs| - k
  {
    if k < |rs| {
      CollectSnoc(rs[..k], rs[k]);
      assert rs[..k + 1] == rs[..k] + [rs[k]];
      ErrorStops(rs, k + 1);
    } else {
      assert rs[..k] == rs;
    }
  }

  /** The export list holds exactly the tiles' records, in index order. */
  lemma ExportListSpec(infos: seq<TileInfo>, cell: int, pad: int)
    requires cell > 0
    ensures ExportList(infos, cell, pad).Ok? <==> Records(infos, cell, pad).Ok?
    ensures ExportList(infos, cell, pad).Ok? ==>
      multiset(ExportList(infos, cell, pad).value) == multiset(Records(infos, cell, pad).value)
      && SortedBy(ExportList(infos, cell, pad).value, IndexKey)
  {
  }

  /** A value in the sorted collection of a result list is the value of one of the results. */
  lemma CollectedMember<T>(rs: seq<Result<T>>, key: T -> string, x: T)
    requires Collect(rs).Ok? && x in SortBy(Collect(rs).value, key)
    ensures exists k :: 0 <= k < |rs| && rs[k] == Ok(x)
  {
    var vs := Collect(rs).value;
    assert x in multiset(vs);
    var k :| 0 <= k < |vs| && vs[k] == x;
    assert rs[k] == Ok(x);
  }

  /** Every exported record is the record of one of the tiles. */
  lemma ExportListMembers(infos: seq<TileInfo>, cell: int, pad: int)
    requires cell > 0
    ensures ExportList(infos, cell, pad).Ok? ==>
      forall r :: r in ExportList(infos, cell, pad).value ==>
        exists k :: 0 <= k < |infos| && TileRecordOf(infos[k], cell, pad) == Ok(r)
  {
    var rs := RecordResults(infos, cell, pad);
    assert Records(infos, cell, pad) == Collect(rs);
    if Collect(rs).Ok? {
      assert ExportList(infos, cell, pad).value == SortBy(Collect(rs).value, IndexKey);
      forall r | r in SortBy(Collect(rs).value, IndexKey)
        ensures exists k :: 0 <= k < |infos| && TileRecordOf(infos[k], cell, pad) == Ok(r)
      {
        CollectedMember(rs, IndexKey, r);
        var k :| 0 <= k < |rs| && rs[k] == Ok(r);
        assert TileRecordOf(infos[k], cell, pad) == Ok(r);
      }
    }
  }

  /** Every exported record has a two-cell shape and a budget of its pixel count plus the pad. */
  lemma ExportListBudget(infos: seq<TileInfo>, cell: int, pad: int)
    requires cell > 0
    ensures ExportList(infos, cell, pad).Ok? ==>
      forall r :: r in ExportList(infos, cell, pad).value ==>
        |r.shape| == 2 && r.maxpixels == Area(r.shape[0], r.shape[1]) + pad
  {
    ExportListMembers(infos, cell, pad);
    if ExportList(infos, cell, pad).Ok? {
      forall r | r in ExportList(infos, cell, pad).value
        ensures |r.shape| == 2 && r.maxpixels == Area(r.shape[0], r.shape[1]) + pad
      {
        var k :| 0 <= k < |infos| && TileRecordOf(infos[k], cell, pad) == Ok(r);
        TileRecordSpec(infos[k], cell, pad);
      }
    }
  }
}
