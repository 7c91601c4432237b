/**
 * The per-tile files of a run (lib.js): the field list and header line, the
 * rows written in simple mode, the row order the `sort -n -t ',' -k2 -k1`
 * step imposes on the sorted copy, and the names the files are given.
 */
module PointFiles {
  import opened Text
  import opened Grid
  import opened Terrain
  import opened Images

  // ---------------------------------------------------------------------
  // Fields and header

  /** The full field list of a point file. */
  const FullFields: seq<string> := [
    "tile_x", "tile_y", "tile_z", "pixel_x", "pixel_y", "pixel_r", "pixel_g", "pixel_b",
    "pixel_a", "longitude", "latitude", "elevation"]

  /** The fields written: `x,y,z` in simple mode, the full list otherwise. */
  function Fields(simple: bool): seq<string> {
    if simple then ["x", "y", "z"] else FullFields
  }

  /** The first line of a point file: the fields joined by `,`, then a newline. */
  function HeaderLine(fields: seq<string>): string {
    Join(fields, ',') + "\n"
  }

  /** The simple-mode header line is `x,y,z` and a newline. */
  lemma SimpleHeader()
    ensures HeaderLine(Fields(true)) == "x,y,z\n"
  {
    assert ["x", "y", "z"][1..] == ["y", "z"];
    assert ["y", "z"][1..] == ["z"];
  }

  /** No field name holds the `,` the header is joined with. */
  lemma FieldsHaveNoComma(simple: bool, k: int)
    requires 0 <= k < |Fields(simple)|
    ensures ',' !in Fields(simple)[k]
  {
    if simple {
      assert ',' !in "x" && ',' !in "y" && ',' !in "z";
    } else if k < 3 {
      assert ',' !in "tile_x" && ',' !in "tile_y" && ',' !in "tile_z";
    } else if k < 6 {
      assert ',' !in "pixel_x" && ',' !in "pixel_y" && ',' !in "pixel_r";
    } else if k < 9 {
      assert ',' !in "pixel_g" && ',' !in "pixel_b" && ',' !in "pixel_a";
    } else {
      assert ',' !in "longitude" && ',' !in "latitude" && ',' !in "elevation";
    }
  }

  /**
   * The header line names the fields: without its newline, splitting it at
   * `,` gives back the field list (three fields in simple mode, twelve
   * otherwise).
   */
  lemma HeaderNamesFields(simple: bool)
    ensures |Fields(simple)| == (if simple then 3 else 12)
    ensures var h := HeaderLine(Fields(simple)); Split(h[..|h| - 1], ',') == Fields(simple)
  {
    var fields := Fields(simple);
    var h := HeaderLine(fields);
    assert h[..|h| - 1] == Join(fields, ',');
    forall k | 0 <= k < |fields| ensures ',' !in fields[k] {
      FieldsHaveNoComma(simple, k);
    }
    SplitJoin(fields, ',');
  }

  // ---------------------------------------------------------------------
  // Rows

  /** One data row of a simple-mode point file: the `x`, `y`, `z` columns. */
  datatype PointRow = PointRow(x: real, y: real, z: int)

  /** The simple-mode row of a sample: longitude, latitude, elevation (decimetres). */
  function SimpleRow(s: Sample): PointRow {
    PointRow(s.longitude, s.latitude, s.elevationDm)
  }

  /** A point file in simple mode: its header line and its data rows in order. */
  datatype PointTable = PointTable(header: string, rows: seq<PointRow>)

  /** The point file written for a tile's samples, in the order they were decoded. */
  function PointFile(data: seq<Sample>): PointTable {
    PointTable(HeaderLine(Fields(true)), seq(|data|, k requires 0 <= k < |data| => SimpleRow(data[k])))
  }

  /**
   * The point file of a tile's decoding: the `x,y,z` header, one row per
   * pixel, and at position `x * height + y` the longitude, latitude and
   * elevation of pixel `(x, y)`.
   */
  lemma PointFileRowOfPixel(data: seq<Sample>, img: Image, b: Bounds, x: nat, y: nat)
    requires img.Valid() && IsDecoding(data, img, b)
    requires x < img.width && y < img.height
    ensures PointFile(data).header == "x,y,z\n"
    ensures |PointFile(data).rows| == img.width * img.height
    ensures x * img.height + y < |PointFile(data).rows|
    ensures PointFile(data).rows[x * img.height + y]
         == PointRow(Longitude(b, img.width, x), Latitude(b, img.height, y), ElevationDm(img.PixelAt(x, y)))
  {
    SimpleHeader();
    DecodingCoversPixel(data, img, b, x, y);
  }

  // ---------------------------------------------------------------------
  // The sort step

  /** `sort -n -k2 -k1` order: by the second column (y), then by the first (x). */
  predicate RowLeq(a: PointRow, b: PointRow) {
    a.y < b.y || (a.y == b.y && a.x <= b.x)
  }

  /** Rows in non-decreasing `(y, x)` order. */
  ghost predicate Sorted(rows: seq<PointRow>) {
    forall i, j :: 0 <= i < j < |rows| ==> RowLeq(rows[i], rows[j])
  }

  /** Places `r` before the first row it does not exceed. */
  function Insert(r: PointRow, rows: seq<PointRow>): (res: seq<PointRow>)
    requires Sorted(rows)
    ensures Sorted(res)
    ensures multiset(res) == multiset(rows) + multiset{r}
    ensures |res| > 0 && (res[0] == r || (|rows| > 0 && res[0] == rows[0]))
  {
    if |rows| == 0 then [r]
    else if RowLeq(r, rows[0]) then
      assert forall j :: 0 <= j < |rows| ==> RowLeq(r, rows[j]);
      SortedCons(r, rows);
      [r] + rows
    else
      var tail := Insert(r, rows[1..]);
      assert rows == [rows[0]] + rows[1..];
      BoundedBelow(rows[0], r, rows[1..], tail);
      SortedCons(rows[0], tail);
      [rows[0]] + tail
  }

  /** A sorted list stays sorted with a row in front that is no greater than any of it. */
  lemma SortedCons(b: PointRow, rows: seq<PointRow>)
    requires Sorted(rows)
    requires forall j :: 0 <= j < |rows| ==> RowLeq(b, rows[j])
    ensures Sorted([b] + rows)
  {
    var res := [b] + rows;
    forall i, j | 0 <= i < j < |res| ensures RowLeq(res[i], res[j]) {
      assert res[j] == rows[j - 1];
      if i > 0 {
        assert res[i] == rows[i - 1];
      }
    }
  }

  /** A row no greater than `r` and than every row of `rows` is no greater than any of their rearrangements. */
  lemma BoundedBelow(b: PointRow, r: PointRow, rows: seq<PointRow>, res: seq<PointRow>)
    requires RowLeq(b, r)
    requires forall j :: 0 <= j < |rows| ==> RowLeq(b, rows[j])
    requires multiset(res) == multiset(rows) + multiset{r}
    ensures forall j :: 0 <= j < |res| ==> RowLeq(b, res[j])
  {
    forall j | 0 <= j < |res| ensures RowLeq(b, res[j]) {
      assert res[j] in multiset(res);
      if res[j] != r {
        assert res[j] in multiset(rows);
        var i :| 0 <= i < |rows| && rows[i] == res[j];
      }
    }
  }

  /**
   * The data rows of the sorted file: the same rows as the point file,
   * rearranged into `(y, x)` order.
   */
  function SortRows(rows: seq<PointRow>): (res: seq<PointRow>)
    ensures Sorted(res)
    ensures multiset(res) == multiset(rows)
  {
    if |rows| == 0 then []
    else
      assert rows == [rows[0]] + rows[1..];
      Insert(rows[0], SortRows(rows[1..]))
  }

  /** Inserting a row that precedes an already sorted list puts it in front. */
  lemma InsertFront(r: PointRow, rows: seq<PointRow>)
    requires Sorted(rows) && (|rows| > 0 ==> RowLeq(r, rows[0]))
    ensures Insert(r, rows) == [r] + rows
  {
  }

  /** Sorting an already sorted list changes nothing. */
  lemma {:induction false} SortRowsSorted(rows: seq<PointRow>)
    requires Sorted(rows)
    ensures SortRows(rows) == rows
  {
    if |rows| > 0 {
      assert rows == [rows[0]] + rows[1..];
      assert Sorted(rows[1..]) by {
        forall i, j | 0 <= i < j < |rows[1..]| ensures RowLeq(rows[1..][i], rows[1..][j]) {
          assert rows[1..][i] == rows[i + 1] && rows[1..][j] == rows[j + 1];
        }
      }
      SortRowsSorted(rows[1..]);
      InsertFront(rows[0], rows[1..]);
    }
  }

  /** Sorting is idempotent: re-sorting the sorted file gives the same file. */
  lemma SortRowsIdempotent(rows: seq<PointRow>)
    ensures SortRows(SortRows(rows)) == SortRows(rows)
  {
    SortRowsSorted(SortRows(rows));
  }

  /** The sorted file: the point file's header line, then its data rows sorted. */
  function SortedFile(t: PointTable): (s: PointTable)
    ensures s.header == t.header
    ensures Sorted(s.rows) && multiset(s.rows) == multiset(t.rows)
  {
    PointTable(t.header, SortRows(t.rows))
  }

  // ---------------------------------------------------------------------
  // File names

  /** `dir/z_x_y.xyz`, the point file of a tile. */
  function PointFileName(dir: string, t: Tile): string {
    dir + "/" + IntToString(t.z) + "_" + IntToString(t.x) + "_" + IntToString(t.y) + ".xyz"
  }

  /** The sorted file's name as lib.js formats it: from `(z, z, y)`. */
  function SortedFileNameAsWritten(dir: string, t: Tile): string {
    dir + "/" + IntToString(t.z) + "_" + IntToString(t.z) + "_" + IntToString(t.y) + "_SORTED.xyz"
  }

  /** The single-tile raster's name as lib.js formats it: from `(z, z, y)`. */
  function TiffFileNameAsWritten(dir: string, t: Tile): string {
    dir + "/" + IntToString(t.z) + "_" + IntToString(t.z) + "_" + IntToString(t.y) + ".tif"
  }

  /** The sorted file's name formatted from `(z, x, y)`. */
  function SortedFileName(dir: string, t: Tile): string {
    dir + "/" + IntToString(t.z) + "_" + IntToString(t.x) + "_" + IntToString(t.y) + "_SORTED.xyz"
  }

  /** The single-tile raster's name formatted from `(z, x, y)`. */
  function TiffFileName(dir: string, t: Tile): string {
    dir + "/" + IntToString(t.z) + "_" + IntToString(t.x) + "_" + IntToString(t.y) + ".tif"
  }

  /** Two strings cut at their first separator agree piece by piece. */
  lemma CutAtSeparator(a1: string, b1: string, a2: string, b2: string, sep: char)
    requires sep !in a1 && sep !in a2
    requires a1 + [sep] + b1 == a2 + [sep] + b2
    ensures a1 == a2 && b1 == b2
  {
    IndexOfSplit(a1, [sep], b1);
    IndexOfSplit(a2, [sep], b2);
    var s := a1 + [sep] + b1;
    assert s[..|a1|] == a1 && s[|a1| + 1..] == b1;
    assert (a2 + [sep] + b2)[..|a2|] == a2 && (a2 + [sep] + b2)[|a2| + 1..] == b2;
  }

  /** Text between a fixed prefix and a fixed suffix is determined by the whole. */
  lemma CutBetween(prefix: string, m1: string, m2: string, suffix: string)
    requires prefix + m1 + suffix == prefix + m2 + suffix
    ensures m1 == m2
  {
    var n1, n2 := prefix + m1 + suffix, prefix + m2 + suffix;
    assert m1 == n1[|prefix|..|prefix| + |m1|];
    assert m2 == n2[|prefix|..|prefix| + |m2|];
  }

  /** `Z_X_Y` with no `_` inside `Z` and `X` determines its three pieces. */
  lemma CutThree(z1: string, x1: string, y1: string, z2: string, x2: string, y2: string)
    requires '_' !in z1 && '_' !in x1 && '_' !in z2 && '_' !in x2
    requires z1 + "_" + x1 + "_" + y1 == z2 + "_" + x2 + "_" + y2
    ensures z1 == z2 && x1 == x2 && y1 == y2
  {
    assert z1 + "_" + x1 + "_" + y1 == z1 + ['_'] + (x1 + ['_'] + y1);
    assert z2 + "_" + x2 + "_" + y2 == z2 + ['_'] + (x2 + ['_'] + y2);
    CutAtSeparator(z1, x1 + ['_'] + y1, z2, x2 + ['_'] + y2, '_');
    CutAtSeparator(x1, y1, x2, y2, '_');
  }

  /**
   * `prefix + Z + "_" + X + "_" + Y + suffix` determines the three numbers:
   * rendered integers hold no `_`.
   */
  lemma NameFieldsInjective(prefix: string, suffix: string, z1: int, x1: int, y1: int, z2: int, x2: int, y2: int)
    requires prefix + IntToString(z1) + "_" + IntToString(x1) + "_" + IntToString(y1) + suffix
          == prefix + IntToString(z2) + "_" + IntToString(x2) + "_" + IntToString(y2) + suffix
    ensures z1 == z2 && x1 == x2 && y1 == y2
  {
    var Z1, X1, Y1 := IntToString(z1), IntToString(x1), IntToString(y1);
    var Z2, X2, Y2 := IntToString(z2), IntToString(x2), IntToString(y2);
    GroupName(prefix, Z1, X1, Y1, suffix);
    GroupName(prefix, Z2, X2, Y2, suffix);
    CutBetween(prefix, Z1 + "_" + X1 + "_" + Y1, Z2 + "_" + X2 + "_" + Y2, suffix);
    IntToStringCharset(z1, '_');
    IntToStringCharset(z2, '_');
    IntToStringCharset(x1, '_');
    IntToStringCharset(x2, '_');
    CutThree(Z1, X1, Y1, Z2, X2, Y2);
    IntToStringInjective(z1, z2);
    IntToStringInjective(x1, x2);
    IntToStringInjective(y1, y2);
  }

  lemma GroupName(prefix: string, z: string, x: string, y: string, suffix: string)
    ensures prefix + z + "_" + x + "_" + y + suffix == prefix + (z + "_" + x + "_" + y) + suffix
  {
  }

  /** Point-file names are unique per tile: they differ whenever `(z, x, y)` differs. */
  lemma PointFileNameInjective(dir: string, t1: Tile, t2: Tile)
    ensures PointFileName(dir, t1) == PointFileName(dir, t2) <==> (t1.z, t1.x, t1.y) == (t2.z, t2.x, t2.y)
  {
    if PointFileName(dir, t1) == PointFileName(dir, t2) {
      NameFieldsInjective(dir + "/", ".xyz", t1.z, t1.x, t1.y, t2.z, t2.x, t2.y);
    }
  }

  /**
   * As written, the raster and sorted-file names ignore the column: two
   * tiles get the same names exactly when they share zoom and row.
   */
  lemma AsWrittenNamesCollide(dir: string, t1: Tile, t2: Tile)
    ensures TiffFileNameAsWritten(dir, t1) == TiffFileNameAsWritten(dir, t2) <==> t1.z == t2.z && t1.y == t2.y
    ensures SortedFileNameAsWritten(dir, t1) == SortedFileNameAsWritten(dir, t2) <==> t1.z == t2.z && t1.y == t2.y
  {
    if TiffFileNameAsWritten(dir, t1) == TiffFileNameAsWritten(dir, t2) {
      NameFieldsInjective(dir + "/", ".tif", t1.z, t1.z, t1.y, t2.z, t2.z, t2.y);
    }
    if SortedFileNameAsWritten(dir, t1) == SortedFileNameAsWritten(dir, t2) {
      NameFieldsInjective(dir + "/", "_SORTED.xyz", t1.z, t1.z, t1.y, t2.z, t2.z, t2.y);
    }
  }

  /**
   * A concrete collision: tiles (x=1, y=1, z=2) and (x=2, y=1, z=2) of one
   * grid both write `dir/2_2_1.tif`.
   */
  lemma AsWrittenTiffCollision(dir: string, tpl: string)
    ensures NewTile(1, 1, 2, tpl) != NewTile(2, 1, 2, tpl)
    ensures TiffFileNameAsWritten(dir, NewTile(1, 1, 2, tpl)) == TiffFileNameAsWritten(dir, NewTile(2, 1, 2, tpl))
  {
    AsWrittenNamesCollide(dir, NewTile(1, 1, 2, tpl), NewTile(2, 1, 2, tpl));
  }

  /** With `(z, x, y)` formatting, raster and sorted-file names are unique per tile. */
  lemma CorrectedNamesInjective(dir: string, t1: Tile, t2: Tile)
    ensures TiffFileName(dir, t1) == TiffFileName(dir, t2) <==> (t1.z, t1.x, t1.y) == (t2.z, t2.x, t2.y)
    ensures SortedFileName(dir, t1) == SortedFileName(dir, t2) <==> (t1.z, t1.x, t1.y) == (t2.z, t2.x, t2.y)
  {
    if TiffFileName(dir, t1) == TiffFileName(dir, t2) {
      NameFieldsInjective(dir + "/", ".tif", t1.z, t1.x, t1.y, t2.z, t2.x, t2.y);
    }
    if SortedFileName(dir, t1) == SortedFileName(dir, t2) {
      NameFieldsInjective(dir + "/", "_SORTED.xyz", t1.z, t1.x, t1.y, t2.z, t2.x, t2.y);
    }
  }
}
