/**
 * One call of lib.js `buildElevationProfile`, end to end: the zoom
 * default, the grid of Terrain-RGB tiles it fetches, and how the tiles
 * delivered by the fetch loop drive the completion counter of the merge.
 */
module Pipeline {
  import opened Outcomes
  import opened Text
  import opened Grid
  import opened Fetch
  import opened Assembly

  // ---------------------------------------------------------------------
  // The zoom default

  /**
   * `if (!opts.zoom) opts.zoom = view.zoom`: a missing zoom and zoom 0 are
   * both falsy and give way to the zoom of the 1920x1080 viewport that
   * fits the extent; any other zoom is kept.
   */
  function ResolveZoom(zoom: Option<int>, viewportZoom: int): (z: int)
    ensures z == viewportZoom || (zoom.Some? && z == zoom.value)
    ensures z != viewportZoom ==> zoom.Some? && zoom.value != 0
    ensures zoom.Some? && zoom.value != 0 ==> z == zoom.value
  {
    match zoom
    case None => viewportZoom
    case Some(requested) => if requested == 0 then viewportZoom else requested
  }

  /**
   * The resolved zoom is written back into the options, so a second run
   * with the same options keeps it, whatever the viewport says then
   * (unless it was 0 again, which is still falsy).
   */
  lemma ZoomWrittenBack(zoom: Option<int>, viewportZoom: int, laterViewportZoom: int)
    requires ResolveZoom(zoom, viewportZoom) != 0
    ensures ResolveZoom(Some(ResolveZoom(zoom, viewportZoom)), laterViewportZoom) == ResolveZoom(zoom, viewportZoom)
  {
  }

  // ---------------------------------------------------------------------
  // The tiles of one run

  /**
   * `new Tiles(opts.extent, opts.zoom, <Terrain-RGB template + token>)`:
   * the padded grid at the resolved zoom, every tile still without an
   * image, each with the Terrain-RGB URL of its own coordinates.
   */
  method PlanTiles(range: TileRange, zoom: Option<int>, viewportZoom: int, accessToken: string)
    returns (collection: seq<Tile>)
    ensures |collection| == Columns(range) * Rows(range)
    ensures forall k :: 0 <= k < |collection| ==>
              && collection[k].x == range.minX - 1 + k / Rows(range)
              && collection[k].y == range.minY - 1 + k % Rows(range)
              && collection[k].z == ResolveZoom(zoom, viewportZoom)
              && collection[k].image.None?
    ensures forall k :: 0 <= k < |collection| ==>
              TileUrl(collection[k])
              == TerrainHost() + IntToString(collection[k].z) + "/" + IntToString(collection[k].x) + "/" +
                 IntToString(collection[k].y) + ".pngraw?access_token=" + accessToken
  {
    var z := ResolveZoom(zoom, viewportZoom);
    collection := BuildTiles(range, z, TerrainTemplate(accessToken));
    forall k | 0 <= k < |collection|
      ensures TileUrl(collection[k])
              == TerrainHost() + IntToString(collection[k].z) + "/" + IntToString(collection[k].x) + "/" +
                 IntToString(collection[k].y) + ".pngraw?access_token=" + accessToken
    {
      TerrainTileUrl(accessToken, collection[k].x, collection[k].y, z);
    }
  }

  // ---------------------------------------------------------------------
  // Fetching drives the merge

  /** The tile indices the conversion callbacks belong to, in arrival order. */
  function ConvertedTiles(conversions: seq<Conversion>): (r: seq<int>)
    ensures |r| == |conversions|
    ensures forall k :: 0 <= k < |r| ==> r[k] == conversions[k].tile
  {
    if |conversions| == 0 then [] else [conversions[0].tile as int] + ConvertedTiles(conversions[1..])
  }

  /**
   * Each delivered tile is converted once, in any order. The merge is then
   * launched (and the directory removed and the caller called back) exactly
   * when every tile of the collection was fetched, which is exactly when
   * the fetch loop reaches its `onEnd` line; a tile whose reads never succeed keeps
   * the caller waiting forever.
   */
  lemma MergeIffAllFetched(collection: seq<Tile>, outcomes: seq<ReadOutcome>, conversions: seq<Conversion>)
    requires |collection| > 0
    requires multiset(ConvertedTiles(conversions)) == multiset(Delivered(Run(collection, 0, outcomes)))
    ensures MergeDue(|collection|, conversions) <==> Successes(outcomes) >= |collection|
    ensures MergeDue(|collection|, conversions) <==> End in Run(collection, 0, outcomes)
  {
    var delivered := Delivered(Run(collection, 0, outcomes));
    RunDeliversInOrder(collection, 0, outcomes);
    RangeLength(0, Min(|collection|, Successes(outcomes)));
    assert |conversions| == |ConvertedTiles(conversions)| == |multiset(ConvertedTiles(conversions))|;
    assert |multiset(delivered)| == |delivered|;
    RunEnds(collection, 0, outcomes);
  }
}
