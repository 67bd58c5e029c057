/**
 * The shapefile tile script: its year and tile arguments, the log line that joins the
 * integer years, its export list (one extra pixel in each budget) and the extent polygon.
 */
module MgrsShapefile {
  import opened Wrappers
  import opened Strings
  import opened Args
  import opened Tiles

  /** The years with a full CONUS CDL this script restricts itself to. */
  const YearMin: int := 2008
  const YearMax: int := 2020

  function ShapefileYears(given: Option<seq<int>>): seq<int> {
    SelectYears(given, YearMin, YearMax)
  }

  /** With no year argument the script runs 2008 through 2020. */
  lemma DefaultYears()
    ensures ShapefileYears(None) == Range(2008, 2020)
    ensures |ShapefileYears(None)| == 13
  {
  }

  /** ', '.join(years) on the list of ints: empty joins to '', an int in it raises. */
  function JoinYears(years: seq<int>): (r: Result<string>)
  {
    if |years| == 0 then Ok("")
    else Err(TypeError("sequence item 0: expected str instance, int found"))
  }

  /** A year the script keeps: inside its range and requested, or any when none was given. */
  predicate Requested(given: Option<seq<int>>, y: int) {
    YearMin <= y <= YearMax && (given.None? || y in given.value)
  }

  /**
   * The years log line raises whenever any year survives the filter, and so on every
   * run without a year argument.
   */
  lemma YearsLogRaises(given: Option<seq<int>>)
    ensures JoinYears(ShapefileYears(given)).Err? <==> exists y :: Requested(given, y)
    ensures JoinYears(ShapefileYears(None)).Err?
  {
    SelectYearsSpec(given, YearMin, YearMax);
    var ys := ShapefileYears(given);
    if |ys| > 0 {
      assert ys[0] in ys;
      assert Requested(given, ys[0]);
    }
    if exists y :: Requested(given, y) {
      var y :| Requested(given, y);
      assert y in ys;
    }
    DefaultYears();
  }

  /** The tile records of the shapefile script: 30 m cells, one extra pixel of budget. */
  function ShapefileTiles(infos: seq<TileInfo>, skip: seq<string>, tilesArg: seq<string>): Result<seq<TileRecord>>
  {
    ExportList(FilterTiles(infos, skip, ParseTiles(tilesArg)), 30, 1)
  }

  /**
   * Every record is of a wanted tile, the list is sorted by index, and each budget is one
   * more than the tile's pixel count.
   */
  lemma ShapefileTilesSpec(infos: seq<TileInfo>, skip: seq<string>, tilesArg: seq<string>)
    ensures ShapefileTiles(infos, skip, tilesArg).Ok? ==>
      var rs := ShapefileTiles(infos, skip, tilesArg).value;
      && SortedBy(rs, IndexKey)
      && (forall r :: r in rs ==>
            exists t :: t in infos && Wanted(t, skip, ParseTiles(tilesArg)) && TileRecordOf(t, 30, 1) == Ok(r))
      && forall r :: r in rs ==> |r.shape| == 2 && r.maxpixels == Area(r.shape[0], r.shape[1]) + 1
  {
    var kept := FilterTiles(infos, skip, ParseTiles(tilesArg));
    ExportListSpec(kept, 30, 1);
    ExportListMembers(kept, 30, 1);
    ExportListBudget(kept, 30, 1);
    if ExportList(kept, 30, 1).Ok? {
      forall r | r in ExportList(kept, 30, 1).value
        ensures exists t :: t in infos && Wanted(t, skip, ParseTiles(tilesArg)) && TileRecordOf(t, 30, 1) == Ok(r)
      {
        var k :| 0 <= k < |kept| && TileRecordOf(kept[k], 30, 1) == Ok(r);
        assert kept[k] in kept;
      }
    }
  }

  // ---------------------------------------------------------------------------
  // extent_geom

  datatype Point = Point(x: int, y: int)

  /** An OGR linear ring being built point by point. */
  class Ring {
    var points: seq<Point>

    constructor ()
      ensures points == []
    {
      points := [];
    }

    method AddPoint(x: int, y: int)
      modifies this
      ensures points == old(points) + [Point(x, y)]
    {
      points := points + [Point(x, y)];
    }

    /** CloseRings: repeat the first point unless the ring already ends on it. */
    method CloseRings()
      modifies this
      ensures |old(points)| > 0 && old(points)[0] != old(points)[|old(points)| - 1] ==>
        points == old(points) + [old(points)[0]]
      ensures !(|old(points)| > 0 && old(points)[0] != old(points)[|old(points)| - 1]) ==>
        points == old(points)
    {
      if |points| > 0 && points[0] != points[|points| - 1] {
        points := points + [points[0]];
      }
    }
  }

  /**
   * The polygon of an extent (xmin, ymin, xmax, ymax), after the optional swap: one ring
   * through the upper-left, upper-right, lower-right and lower-left corners, closed by
   * repeating the upper-left corner unless the extent has no height.
   */
  method ExtentGeom(extent: seq<int>, swapUlLr: bool) returns (polygon: seq<seq<Point>>)
    requires |extent| == 4
    ensures
      var e := if swapUlLr then Swap(extent) else extent;
      var ul := Point(e[0], e[3]);
      && |polygon| == 1 && |polygon[0]| >= 4
      && (e[1] != e[3] ==>
          polygon[0] == [ul, Point(e[2], e[3]), Point(e[2], e[1]), Point(e[0], e[1]), ul])
      && polygon[0][0] == polygon[0][|polygon[0]| - 1]
  {
    var e := extent;
    if swapUlLr {
      e := [e[0], e[2], e[1], e[3]];
    }
    var ring := new Ring();
    ring.AddPoint(e[0], e[3]);
    ring.AddPoint(e[2], e[3]);
    ring.AddPoint(e[2], e[1]);
    ring.AddPoint(e[0], e[1]);
    var ul := Point(e[0], e[3]);
    assert ring.points == [ul, Point(e[2], e[3]), Point(e[2], e[1]), Point(e[0], e[1])];
    ring.CloseRings();
    assert e == if swapUlLr then Swap(extent) else extent;
    polygon := [ring.points];
  }
}
