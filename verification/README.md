# Terrain-RGB elevation profile builder, modelled in Dafny

The system builds an elevation GeoTIFF for a geographic extent. It:

1. picks a zoom level, defaulting to the one that fits the extent into a 1920x1080 viewport;
2. lists the slippy-map tiles that cover the extent, padded by one tile;
3. fetches each tile's Mapbox Terrain-RGB image, one tile after the other, retrying a tile until its read succeeds;
4. decodes every pixel into a point (longitude, latitude, elevation);
5. writes each tile's points to a comma-separated point file, sorts it, and turns it into a one-tile raster with an external tool;
6. counts finished conversions and, when all tiles are counted, merges the rasters into the output file, deletes the working directory and calls back.

The model covers the two core files, `tile.js` and `lib.js`, as pure functions over immutable data. Each module follows one part of the program:

| module | file | what it models |
|---|---|---|
| `Outcomes` | outcomes.dfy | `Option` and `Result`, for missing values and error paths |
| `Text` | text.dfy | `indexOf`, string `replace` (first occurrence only), the decimal rendering of an integer, `join` with its inverse `split` |
| `IndexMath` | index_math.dfy | division and remainder facts behind the x-major enumeration |
| `Images` | images.dfy | a decoded image as a column grid of RGBA bytes |
| `Grid` | grid.dfy | the `Tiles` constructor: the padded grid of tiles |
| `Fetch` | fetch.dfy | `Tile.fetch` (URL templating, image assignment) and the `fetchTiles` retry loop as an event trace |
| `Terrain` | terrain.dfy | `convertTileImageToElevation`: the Terrain-RGB law, the pixel placement, the x-major walk |
| `PointFiles` | point_files.dfy | fields and header line, simple-mode rows, the `sort -k2 -k1` order, per-tile file names |
| `Assembly` | assembly.dfy | the `out_file` extension rule, the completion counter, the merge, directory removal and final callback |
| `Pipeline` | pipeline.dfy | the zoom default, the tiles of one run, and the link from fetching to merging |

Some inputs come from code outside this model. They are parameters of the model:

- the tile range from SphericalMercator's `xyz`;
- the viewport zoom from geo-viewport;
- each tile's bounds from `bbox`;
- the outcome of each `Jimp.read`;
- the order in which conversion commands finish.

A few behaviours of the code are worth stating plainly:

- **Padding.** The grid loops run `x` from `minX - 1` while `x < maxX + 1`, and `y` the same way (tile.js:59-60). The padding is one tile before the range only: tiles x 5..6 give columns 4..6. See `Grid.GridSize`.
- **Sort order.** The sort command orders by column 2 (latitude), then column 1 (longitude) (lib.js:144).
- **White pixel.** RGB (255, 255, 255) decodes to 1667721.5 m, that is 16677215 dm (lib.js:42). See `Terrain.ElevationExtremes`.
- **Final callback.** The callback is called with no error argument, even when the merge command fails (lib.js:182).
- **No end callback.** In lib.js the `},` on line 190 closes the conversion callback, so the "Finished fetching tiles" function (lib.js:191-193) is passed as a third argument to `convertTileImageToElevation`, which ignores it. `fetchTiles` is called with `forEach` only, and its `onEnd && onEnd()` line (tile.js:86) does nothing in this pipeline.
- **Extent.** No extent is checked. Whether an extent yields a usable tile range is decided by `xyz`, which is an input here. A range with `maxX < minX - 1` or `maxY < minY - 1` yields an empty grid, and `fetchTiles` then calls `fetch` on the undefined `collection[0]`, which throws (tile.js:72-75). A range inverted by exactly one still yields one padded column or row.

## Model

| member | source | states |
|---|---|---|
| Text.IndexOf | lib.js:163 | `indexOf` gives -1 exactly when the pattern occurs nowhere; otherwise it gives an index where it occurs, with no occurrence before it |
| Text.ReplaceFirstAt | tile.js:29-32 | `replace` with a string pattern changes exactly the first occurrence and keeps the text on both sides |
| Text.ReplaceFirstAbsent | tile.js:29-32 | `replace` leaves a string without the pattern unchanged |
| Text.ReplaceFirstSplit | tile.js:29-32 | when the text before a pattern cannot hold it, `replace` swaps exactly that occurrence |
| Text.ParseIntToString | tile.js:30-32 | the decimal text of a tile number reads back as the same number |
| Text.IntToStringInjective | lib.js:130 | two numbers have the same decimal text exactly when they are equal |
| Text.IntToStringCharset | lib.js:130 | a rendered number holds only digits and `-`, so never `_`, `{` or `,` |
| Text.SplitJoin | lib.js:132 | joining parts free of the separator is undone by splitting at it |
| Grid.BuildTiles | tile.js:59-66 | the nested loops yield `Columns * Rows` tiles; position `k` is column `minX - 1 + k / Rows` and row `minY - 1 + k % Rows`, at the run's zoom and template, with no image |
| Grid.GridTileInRange | tile.js:59-63 | every tile lies in `[minX - 1, maxX] x [minY - 1, maxY]` |
| Grid.GridCoversRange | tile.js:59-63 | every coordinate pair of the padded range appears in the collection |
| Grid.GridMembership | tile.js:59-66 | a tile is in the collection exactly when its coordinates lie in the padded range and it carries the run's zoom and template with no image |
| Grid.GridSize | tile.js:59-60 | a non-empty range gives `(maxX - minX + 2) * (maxY - minY + 2)` tiles, at least four |
| Grid.GridOrder | tile.js:59-66 | tiles come x-major: earlier positions have a smaller column, or the same column and a smaller row, and no pair repeats |
| Fetch.FillTemplateSplit | tile.js:29-32 | for a template `A{z}B{x}C{y}D` with no `{` before each placeholder, the three replacements give `A z B x C y D` |
| Fetch.TileUrlSubstitutes | tile.js:29-32 | for a template with `{z}`, `{x}`, `{y}` in that order and no `{` before them, a tile's URL is the template with its decimal zoom, column and row in place of the placeholders |
| Fetch.TileUrlComplete | tile.js:29-32 | for a template with `{z}`, `{x}`, `{y}` in that order and no other `{`, no placeholder is left in the URL |
| Fetch.TerrainTileUrl | lib.js:92 | the Terrain-RGB URL of tile `(x, y, z)` is `.../mapbox.terrain-rgb/z/x/y.pngraw?access_token=` followed by the token, kept verbatim |
| Fetch.FetchTile | tile.js:36-45 | a successful read stores the image in the tile and passes it on; a failed read leaves the tile unchanged and passes the error on; coordinates and template never change |
| Fetch.FetchTiles | tile.js:72-75 | an empty collection throws before any read |
| Fetch.RunDeliversInOrder | tile.js:75-88 | `forEach` sees the tiles in collection order from the start index, once per successful read, up to the end of the collection |
| Fetch.RunEnds | tile.js:83-87 | the `onEnd` line is reached exactly when the reads succeed once for every remaining tile; it is then the last event and happens once |
| Fetch.RunStepShape | tile.js:75-84 | every `forEach` call directly follows the successful fetch of the same tile and hands over that tile with its image set; a failed attempt is followed only by another attempt at the same index |
| Terrain.ElevationLaw | lib.js:42 | the decimetre elevation is `-10000 + (R * 65536 + G * 256 + B) * 0.1` metres, and alpha plays no part |
| Terrain.ElevationExtremes | lib.js:42 | black decodes to -10000 m, white to 1667721.5 m, and every colour falls between |
| Terrain.ElevationMonotone | lib.js:42 | elevation rises strictly with the packed 24-bit value, in both directions |
| Terrain.EncodeElevation | lib.js:42 | the inverse of the law: decoding the colour it gives yields the elevation back, and the colour is opaque |
| Terrain.EncodeDecode | lib.js:42 | decoding a colour and encoding the elevation gives back its RGB channels |
| Terrain.ElevationInjective | lib.js:42 | two colours decode to the same elevation exactly when their RGB agree |
| Terrain.OriginIsNorthWest | lib.js:31-38 | pixel (0, 0) sits at `(min_lng, max_lat)` |
| Terrain.CoordinatesInBounds | lib.js:26-38 | every longitude lies in `[min_lng, max_lng)` and every latitude in `(min_lat, max_lat]` |
| Terrain.CoordinatesStrict | lib.js:37-38 | longitude grows strictly with the column and latitude falls strictly with the row, in both directions |
| Terrain.DecodeTile | lib.js:34-63 | the walk emits `width * height` samples; sample `k` is pixel `(k / height, k % height)` with its colour, coordinates and elevation |
| Terrain.DecodingCoversPixel | lib.js:35-40 | every pixel appears in the decoding, at position `x * height + y` |
| Terrain.DecodingDistinct | lib.js:35-61 | no pixel appears twice; with proper bounds, no two samples share a position on Earth |
| PointFiles.SimpleHeader | lib.js:132 | the simple-mode header line is `x,y,z` and a newline |
| PointFiles.FieldsHaveNoComma | lib.js:94-115 | no field name holds the `,` the header is joined with |
| PointFiles.HeaderNamesFields | lib.js:94-132 | there are 3 fields in simple mode and 12 otherwise, and the header line, split at `,`, gives the field list back |
| PointFiles.PointFileRowOfPixel | lib.js:34-59 | the point file of a tile's decoding has the `x,y,z` header and one row per pixel; the row at `x * height + y` holds pixel `(x, y)`'s longitude `min_lng + x * lngStep`, latitude `max_lat - y * latStep` and decoded elevation |
| PointFiles.Insert | lib.js:144 | inserting a row into sorted rows keeps them sorted and adds exactly that row |
| PointFiles.SortRows | lib.js:144 | the sorted rows are in `(y, x)` order and are a permutation of the input |
| PointFiles.SortRowsSorted | lib.js:143-144 | sorting rows that are already in order changes nothing |
| PointFiles.SortRowsIdempotent | lib.js:143-144 | sorting the sorted file again gives the same file |
| PointFiles.SortedFile | lib.js:143-144 | the sorted file keeps the header line and holds the same rows in `(y, x)` order |
| PointFiles.NameFieldsInjective | lib.js:130 | a name `prefix + Z_X_Y + suffix` determines the three numbers |
| PointFiles.PointFileNameInjective | lib.js:130 | point-file names are equal exactly when the tiles' `(z, x, y)` are equal |
| PointFiles.AsWrittenNamesCollide | lib.js:138-139 | as written, two tiles share their sorted-file and raster names exactly when they share zoom and row |
| PointFiles.AsWrittenTiffCollision | lib.js:139 | tiles (1, 1, 2) and (2, 1, 2) both write `2_2_1.tif` |
| PointFiles.CorrectedNamesInjective | lib.js:138-139 | with `(z, x, y)`, sorted-file and raster names are equal exactly when the tiles are |
| Assembly.TiffHoldsTif | lib.js:163 | a name holding `.tiff` also holds `.tif` |
| Assembly.OutFileAsWrittenRule | lib.js:163-165 | as written, the name is kept exactly when it holds `.tiff`; otherwise `.tif` is appended, even after an existing `.tif` |
| Assembly.OutFileAsWrittenExamples | lib.js:163-165 | as written, `a` gives `a.tif`, `a.tif` gives `a.tif.tif`, and `a.tiff` is kept |
| Assembly.OutFileRule | lib.js:163-165 | corrected: a name holding `.tif` is kept, any other gains `.tif`; the result always holds `.tif`, and applying the rule twice changes nothing more |
| Assembly.CountFromCounts | lib.js:158-161 | every conversion callback bumps the counter once, failed or not; the merge starts once if the counter reaches the tile count and never otherwise |
| Assembly.MergeFollowsLastCount | lib.js:158-172 | the merge starts right after the callback that brings the counter to the tile count |
| Assembly.RunCompletesOnce | lib.js:158-183 | there is exactly one merge, one directory removal and one final callback when every tile was counted, and none of them otherwise; the merge writes to the given name; the trace ends with the merge's exit, then the removal, then the callback with no error |
| Assembly.AssembleMergeTarget | lib.js:163-171 | as written, a finished run merges into the caller's name with `.tif` appended unless it holds `.tiff`, so `<id>.tif` becomes `<id>.tif.tif` |
| Assembly.AssembleCorrectedMergeTarget | lib.js:163-171 | with the corrected rule, a finished run merges into the caller's name when it holds `.tif`, and into the name plus `.tif` otherwise |
| Assembly.AssembleOrderIndependent | lib.js:150-161 | only the number of finished conversions matters, not their order, their tiles or their exit status |
| Pipeline.ResolveZoom | lib.js:87-90 | a missing zoom and zoom 0 are replaced by the viewport zoom; any other zoom is kept |
| Pipeline.ZoomWrittenBack | lib.js:87-90 | the resolved zoom is written back into the options, so a second run keeps it whatever the viewport says |
| Pipeline.PlanTiles | lib.js:92 | the run's tiles form the padded grid at the resolved zoom, have no image yet, and each has the Terrain-RGB URL of its own coordinates |
| Pipeline.MergeIffAllFetched | lib.js:124-161 | with one conversion per delivered tile, the merge happens exactly when every tile was fetched, that is, exactly when the fetch loop reaches the `onEnd` line |

## Left out

- `server.js`, `workers.js`, `main.js`, `logger.js`: the HTTP front end, the job pool, the command line and logging are not part of this model.
- SphericalMercator's `xyz` and `bbox`, and geo-viewport's `viewport`: their Mercator math is foreign code, so the tile range, the tile bounds and the viewport zoom are inputs.
- `Jimp.read` and `Jimp.intToRGBA`: network access and PNG decoding are foreign code. A read is an input outcome, and an image is its RGBA pixel grid.
- File-system effects: creating and removing the working directory, writing streams, and `deleteFolderRecursive`. The removal is an action in the trace, not a file operation.
- The shell commands `head`, `tail`, `sort`, `gdal_translate` and `gdalwarp` are external tools. The sort is modelled by its key order and each command by its exit callback.
- The random working-directory name (`randomstring`): a source of randomness; names are taken relative to any directory.
- Concurrency: conversion callbacks arrive in any order. This is modelled as an arbitrary sequence, and `Assembly.AssembleOrderIndependent` shows the order does not matter.
- Terrain.ElevationLaw: states the law over exact decimetres and reals. The source computes `* 0.1` in IEEE doubles, so a printed elevation may differ from the exact value in its last digits.
- Full-mode rows: `PointFiles.PointFile` builds simple-mode rows only. Full-mode rows read `this.x`, `this.y` and `this.z` inside a plain function call, which are not the tile's coordinates. json2csv's number formatting is also left out.
- PointFiles.SortRows: rows equal on both keys stay in input order, while `sort` breaks such ties by comparing whole lines. Decoded rows of one tile never tie (`Terrain.DecodingDistinct`). The numeric parsing `sort -n` does on text is taken as exact comparison of the values.
- Text.IntToString: renders integers only. Tile coordinates and zooms are integers; JavaScript's rendering of fractions and exponents is not modelled.
- Pipeline.ResolveZoom: treats only a missing zoom and 0 as falsy. Other falsy JavaScript values, such as `NaN` or an empty string, are not modelled.
- Full-mode header: `Fields(false)` is modelled, but the rows of a full-mode file are not (see `PointFiles.PointFile`).
- Fetch.TileUrlSubstitutes: proved only for templates holding `{z}`, `{x}` and `{y}` in that order with no `{` before them. Other orders and repeated placeholders are not covered. The template the pipeline uses (lib.js:92) is covered by `Fetch.TerrainTileUrl`.
- Fetch.TileUrlComplete: proved only for templates holding `{z}`, `{x}` and `{y}` in that order and no other `{`.
- Text.ReplaceFirst: inserts the replacement literally. JavaScript expands `$&`, `$$`, `` $` `` and `$'` in a replacement, so the model requires a replacement without `$`. The only replacements passed are decimal integers, which never hold `$` (`Text.IntToStringCharset`).
- Text.IndexOf: counts characters, where JavaScript counts UTF-16 code units. The core only compares the result with -1 (lib.js:163), and that comparison does not depend on the unit.
- Logging of fetch and command errors is left out: it does not change control flow.

## Findings

| source | as written | input that shows it | evidently intended | confidence | as-written member | corrected member |
|---|---|---|---|---|---|---|
| lib.js:138-139 | the sorted-file and raster names are formatted from `tile.z, tile.z, tile.y` | tiles (x=1, y=1, z=2) and (x=2, y=1, z=2) both write `dir/2_2_1.tif` and `dir/2_2_1_SORTED.xyz`, so one overwrites the other before the merge | format from `tile.z, tile.x, tile.y`, as the point-file name on line 130 does | not executed | PointFiles.AsWrittenTiffCollision | PointFiles.CorrectedNamesInjective |
| lib.js:163 | `.tif` is appended when the name lacks `.tif` OR lacks `.tiff` | `out_file = "a.tif"` becomes `a.tif.tif` | append only when the name holds neither (`&&`) | not executed | Assembly.OutFileAsWrittenExamples | Assembly.OutFileRule |

`Assembly.Assemble` merges into the name the rule as written produces; `Assembly.AssembleCorrected` is the same run with the corrected rule.
