/**
 * The tile grid of one run (the `Tiles` constructor of tile.js): every tile
 * of the range reported for the extent, padded by one tile below the
 * minimum on each axis, listed x-major with y inner.
 */
module Grid {
  import opened Outcomes
  import opened Images
  import IndexMath

  /**
   * The tile-index range that SphericalMercator's `xyz` reports for an
   * extent at a zoom; it is an input of the model.
   */
  datatype TileRange = TileRange(minX: int, minY: int, maxX: int, maxY: int)

  /** One slippy-map tile and the image fetched for it, if any. */
  datatype Tile = Tile(x: int, y: int, z: int, urlTemplate: string, image: Option<Image>)

  /** A tile as the constructor creates it: no image yet. */
  function NewTile(x: int, y: int, z: int, urlTemplate: string): Tile {
    Tile(x, y, z, urlTemplate, None)
  }

  /** Number of x values the outer loop visits: `minX-1` up to, but excluding, `maxX+1`. */
  function Columns(range: TileRange): nat {
    if range.maxX + 1 > range.minX - 1 then range.maxX - range.minX + 2 else 0
  }

  /** Number of y values the inner loop visits per column. */
  function Rows(range: TileRange): nat {
    if range.maxY + 1 > range.minY - 1 then range.maxY - range.minY + 2 else 0
  }

  /**
   * `collection` is the grid of `range`: position `k` holds the tile in
   * column `k / Rows` and row `k % Rows` of the padded range.
   */
  ghost predicate IsGrid(collection: seq<Tile>, range: TileRange, zoom: int, urlTemplate: string) {
    && |collection| == Columns(range) * Rows(range)
    && forall k :: 0 <= k < |collection| ==>
         collection[k] == NewTile(range.minX - 1 + k / Rows(range), range.minY - 1 + k % Rows(range), zoom, urlTemplate)
  }

  /** The `Tiles` constructor: the two nested loops that fill `collection`. */
  method BuildTiles(range: TileRange, zoom: int, urlTemplate: string) returns (collection: seq<Tile>)
    ensures |collection| == Columns(range) * Rows(range)
    ensures forall k :: 0 <= k < |collection| ==>
              collection[k] == NewTile(range.minX - 1 + k / Rows(range), range.minY - 1 + k % Rows(range), zoom, urlTemplate)
  {
    var ny := Rows(range);
    var x0, y0 := range.minX - 1, range.minY - 1;
    collection := [];
    var x := x0;
    while x < range.maxX + 1
      invariant x0 <= x && (x - x0 <= Columns(range))
      invariant |collection| == (x - x0) * ny
      invariant forall k :: 0 <= k < |collection| ==>
                  collection[k] == NewTile(x0 + k / ny, y0 + k % ny, zoom, urlTemplate)
    {
      var y := y0;
      while y < range.maxY + 1
        invariant y0 <= y && y - y0 <= ny
        invariant |collection| == (x - x0) * ny + (y - y0)
        invariant forall k :: 0 <= k < |collection| ==>
                    collection[k] == NewTile(x0 + k / ny, y0 + k % ny, zoom, urlTemplate)
      {
        IndexMath.DivModUnique(|collection|, ny, x - x0, y - y0);
        collection := collection + [NewTile(x, y, zoom, urlTemplate)];
        y := y + 1;
      }
      x := x + 1;
    }
  }

  /** Every tile of the grid lies in the padded range, at the run's zoom and URL template. */
  lemma GridTileInRange(collection: seq<Tile>, range: TileRange, zoom: int, urlTemplate: string, k: int)
    requires IsGrid(collection, range, zoom, urlTemplate)
    requires 0 <= k < |collection|
    ensures range.minX - 1 <= collection[k].x <= range.maxX
    ensures range.minY - 1 <= collection[k].y <= range.maxY
    ensures collection[k] == NewTile(collection[k].x, collection[k].y, zoom, urlTemplate)
  {
    var ny := Rows(range);
    assert ny > 0;
    assert k / ny < Columns(range) by {
      if k / ny >= Columns(range) {
        IndexMath.MulMonotone(Columns(range), k / ny, ny);
        assert false;
      }
    }
  }

  /** Every tile of the padded range, at the run's zoom and URL template, is in the grid. */
  lemma GridCoversRange(collection: seq<Tile>, range: TileRange, zoom: int, urlTemplate: string, x: int, y: int)
    requires IsGrid(collection, range, zoom, urlTemplate)
    requires range.minX - 1 <= x <= range.maxX && range.minY - 1 <= y <= range.maxY
    ensures NewTile(x, y, zoom, urlTemplate) in collection
  {
    var ny := Rows(range);
    var i, j := x - (range.minX - 1), y - (range.minY - 1);
    IndexMath.PositionBelow(i, j, Columns(range), ny);
    IndexMath.DivModUnique(i * ny + j, ny, i, j);
    assert collection[i * ny + j] == NewTile(x, y, zoom, urlTemplate);
  }

  /**
   * Membership in the grid: exactly the tiles with x in `minX-1 ..= maxX`
   * and y in `minY-1 ..= maxY`, all at the run's zoom and URL template.
   */
  lemma GridMembership(collection: seq<Tile>, range: TileRange, zoom: int, urlTemplate: string, t: Tile)
    requires IsGrid(collection, range, zoom, urlTemplate)
    ensures t in collection <==>
              && range.minX - 1 <= t.x <= range.maxX
              && range.minY - 1 <= t.y <= range.maxY
              && t == NewTile(t.x, t.y, zoom, urlTemplate)
  {
    if t in collection {
      var k :| 0 <= k < |collection| && collection[k] == t;
      GridTileInRange(collection, range, zoom, urlTemplate, k);
    }
    if && range.minX - 1 <= t.x <= range.maxX
       && range.minY - 1 <= t.y <= range.maxY
       && t == NewTile(t.x, t.y, zoom, urlTemplate)
    {
      GridCoversRange(collection, range, zoom, urlTemplate, t.x, t.y);
    }
  }

  /**
   * Size of the grid: `(maxX-minX+2) * (maxY-minY+2)` tiles, so at least
   * four whenever the range is non-empty on both axes, and `collection[0]`
   * exists.
   */
  lemma GridSize(collection: seq<Tile>, range: TileRange, zoom: int, urlTemplate: string)
    requires IsGrid(collection, range, zoom, urlTemplate)
    requires range.minX <= range.maxX && range.minY <= range.maxY
    ensures |collection| == (range.maxX - range.minX + 2) * (range.maxY - range.minY + 2)
    ensures |collection| >= 4
  {
    IndexMath.MulMonotone(2, range.maxX - range.minX + 2, range.maxY - range.minY + 2);
    IndexMath.MulMonotone(2, range.maxY - range.minY + 2, 2);
  }

  /**
   * The grid is listed x-major with y inner: positions in increasing order
   * carry strictly increasing `(x, y)` pairs, so no `(x, y)` repeats.
   */
  lemma GridOrder(collection: seq<Tile>, range: TileRange, zoom: int, urlTemplate: string, i: int, j: int)
    requires IsGrid(collection, range, zoom, urlTemplate)
    requires 0 <= i < j < |collection|
    ensures collection[i].x < collection[j].x || (collection[i].x == collection[j].x && collection[i].y < collection[j].y)
    ensures (collection[i].x, collection[i].y) != (collection[j].x, collection[j].y)
  {
    IndexMath.PositionOrder(i, j, Rows(range));
  }
}
