/**
 * Decoding a fetched tile (`convertTileImageToElevation` in lib.js): one
 * sample per pixel, walked column by column, each placed by linear
 * interpolation inside the tile's geographic bounds and given the
 * elevation of Mapbox's Terrain-RGB encoding.
 */
module Terrain {
  import opened Images
  import IndexMath

  // ---------------------------------------------------------------------
  // The Terrain-RGB law

  /** The 24-bit value carried by the red, green and blue channels. */
  function Packed(c: Rgba): nat {
    c.r * 65536 + c.g * 256 + c.b
  }

  /**
   * Elevation in decimetres, exactly: `-10000 + packed * 0.1` metres is
   * `packed - 100000` decimetres. Alpha plays no part.
   */
  function ElevationDm(c: Rgba): int {
    Packed(c) - 100000
  }

  /** The same elevation in metres. */
  function ElevationMetres(c: Rgba): real {
    ElevationDm(c) as real / 10.0
  }

  /** The decimetre value is the source's formula in metres, whatever the alpha channel holds. */
  lemma ElevationLaw(c: Rgba, alpha: Byte)
    ensures ElevationMetres(c) == -10000.0 + (c.r * 65536 + c.g * 256 + c.b) as real * 0.1
    ensures ElevationDm(c.(a := alpha)) == ElevationDm(c)
  {
  }

  /** Black decodes to -10000 m and white to 1667721.5 m, the ends of the range. */
  lemma ElevationExtremes(c: Rgba)
    ensures ElevationDm(Rgba(0, 0, 0, c.a)) == -100000
    ensures ElevationMetres(Rgba(255, 255, 255, c.a)) == 1667721.5
    ensures -100000 <= ElevationDm(c) <= 16677215
  {
    assert Packed(c) <= 255 * 65536 + 255 * 256 + 255;
  }

  /** Elevation rises strictly with the 24-bit value. */
  lemma ElevationMonotone(c: Rgba, d: Rgba)
    ensures Packed(c) < Packed(d) <==> ElevationDm(c) < ElevationDm(d)
  {
  }

  /**
   * The inverse of the law: the opaque colour whose red, green and blue
   * decode to a decimetre elevation in range.
   */
  function EncodeElevation(dm: int): (c: Rgba)
    requires -100000 <= dm <= 16677215
    ensures ElevationDm(c) == dm
    ensures c.a == 255
  {
    var v := dm + 100000;
    var hi := v / 256;
    assert v == hi * 256 + v % 256;
    assert hi == (hi / 256) * 256 + hi % 256;
    assert v / 65536 == hi / 256 by {
      IndexMath.DivModUnique(v, 65536, hi / 256, (hi % 256) * 256 + v % 256);
    }
    Rgba(v / 65536, (v / 256) % 256, v % 256, 255)
  }

  /** Decoding then encoding gives back the colour channels: the law is injective on RGB. */
  lemma EncodeDecode(c: Rgba)
    ensures EncodeElevation(ElevationDm(c)) == c.(a := 255)
  {
    var v := Packed(c);
    assert v == (c.r * 256 + c.g) * 256 + c.b;
    IndexMath.DivModUnique(v, 256, c.r * 256 + c.g, c.b);
    IndexMath.DivModUnique(c.r * 256 + c.g, 256, c.r, c.g);
    IndexMath.DivModUnique(v, 65536, c.r, c.g * 256 + c.b);
    ElevationExtremes(c);
  }

  /** Two colours decode to the same elevation exactly when their red, green and blue agree. */
  lemma ElevationInjective(c: Rgba, d: Rgba)
    ensures ElevationDm(c) == ElevationDm(d) <==> (c.r, c.g, c.b) == (d.r, d.g, d.b)
  {
    EncodeDecode(c);
    EncodeDecode(d);
  }

  // ---------------------------------------------------------------------
  // Placing pixels

  /**
   * A tile's bounds `[min_lng, min_lat, max_lng, max_lat]` as
   * SphericalMercator's `bbox` reports them; an input of the model.
   */
  datatype Bounds = Bounds(minLng: real, minLat: real, maxLng: real, maxLat: real) {
    predicate Proper() {
      minLng < maxLng && minLat < maxLat
    }
  }

  /** Longitude of pixel column `x` of `width`: `min_lng + x * lngStep`. */
  function Longitude(b: Bounds, width: nat, x: nat): real
    requires width > 0
  {
    b.minLng + x as real * ((b.maxLng - b.minLng) / width as real)
  }

  /** Latitude of pixel row `y` of `height`: `max_lat - y * latStep`. */
  function Latitude(b: Bounds, height: nat, y: nat): real
    requires height > 0
  {
    b.maxLat - y as real * ((b.maxLat - b.minLat) / height as real)
  }

  /** Pixel (0, 0) sits at the tile's north-west corner. */
  lemma OriginIsNorthWest(b: Bounds, width: nat, height: nat)
    requires width > 0 && height > 0
    ensures Longitude(b, width, 0) == b.minLng && Latitude(b, height, 0) == b.maxLat
  {
  }

  lemma StepBelowSpan(lo: real, hi: real, n: nat, i: nat)
    requires lo < hi && i < n
    ensures 0.0 <= i as real * ((hi - lo) / n as real) < hi - lo
  {
    var step := (hi - lo) / n as real;
    assert step > 0.0;
    assert n as real * step == hi - lo;
    assert i as real * step < n as real * step;
  }

  /**
   * Every longitude lies in `[min_lng, max_lng)` and every latitude in
   * `(min_lat, max_lat]`.
   */
  lemma CoordinatesInBounds(b: Bounds, width: nat, height: nat, x: nat, y: nat)
    requires b.Proper() && x < width && y < height
    ensures b.minLng <= Longitude(b, width, x) < b.maxLng
    ensures b.minLat < Latitude(b, height, y) <= b.maxLat
  {
    StepBelowSpan(b.minLng, b.maxLng, width, x);
    StepBelowSpan(b.minLat, b.maxLat, height, y);
  }

  /** Longitude grows strictly with the column and latitude falls strictly with the row. */
  lemma CoordinatesStrict(b: Bounds, width: nat, height: nat, x1: nat, x2: nat, y1: nat, y2: nat)
    requires b.Proper() && width > 0 && height > 0
    ensures x1 < x2 <==> Longitude(b, width, x1) < Longitude(b, width, x2)
    ensures y1 < y2 <==> Latitude(b, height, y1) > Latitude(b, height, y2)
  {
    var ls := (b.maxLng - b.minLng) / width as real;
    var ts := (b.maxLat - b.minLat) / height as real;
    assert ls > 0.0 && ts > 0.0;
    if x1 < x2 {
      assert x1 as real * ls < x2 as real * ls;
    } else {
      assert x2 as real * ls <= x1 as real * ls;
    }
    if y1 < y2 {
      assert y1 as real * ts < y2 as real * ts;
    } else {
      assert y2 as real * ts <= y1 as real * ts;
    }
  }

  // ---------------------------------------------------------------------
  // The pixel walk

  /** One decoded pixel: where it is in the tile, its colour, where it is on Earth, its elevation. */
  datatype Sample = Sample(pixelX: nat, pixelY: nat, color: Rgba, longitude: real, latitude: real, elevationDm: int)

  /** The sample the walk emits for pixel `(x, y)`. */
  function SampleAt(img: Image, b: Bounds, x: nat, y: nat): Sample
    requires img.Valid() && x < img.width && y < img.height
  {
    var c := img.PixelAt(x, y);
    Sample(x, y, c, Longitude(b, img.width, x), Latitude(b, img.height, y), ElevationDm(c))
  }

  /** Position `k` of `data` holds the sample of pixel `(k / height, k % height)`. */
  ghost predicate IsSampleOf(data: seq<Sample>, img: Image, b: Bounds, k: int)
    requires img.Valid() && 0 <= k < |data|
  {
    img.height > 0 && k / img.height < img.width && data[k] == SampleAt(img, b, k / img.height, k % img.height)
  }

  /**
   * The nested walk: x outer, y inner, one sample per pixel; row `k` is
   * pixel `(k / height, k % height)`.
   */
  method DecodeTile(img: Image, b: Bounds) returns (data: seq<Sample>)
    requires img.Valid()
    ensures |data| == img.width * img.height
    ensures forall k :: 0 <= k < |data| ==>
              k / img.height < img.width && data[k] == SampleAt(img, b, k / img.height, k % img.height)
  {
    var w, h := img.width, img.height;
    data := [];
    var x := 0;
    while x < w
      invariant x <= w
      invariant |data| == x * h
      invariant forall k :: 0 <= k < |data| ==> IsSampleOf(data, img, b, k)
    {
      var y := 0;
      while y < h
        invariant y <= h
        invariant |data| == x * h + y
        invariant forall k :: 0 <= k < |data| ==> IsSampleOf(data, img, b, k)
      {
        IndexMath.DivModUnique(|data|, h, x, y);
        ghost var before := data;
        data := data + [SampleAt(img, b, x, y)];
        forall k | 0 <= k < |data| ensures IsSampleOf(data, img, b, k) {
          if k < |before| {
            assert IsSampleOf(before, img, b, k);
            assert data[k] == before[k];
          }
        }
        y := y + 1;
      }
      x := x + 1;
    }
    forall k | 0 <= k < |data|
      ensures k / h < w && data[k] == SampleAt(img, b, k / h, k % h)
    {
      assert IsSampleOf(data, img, b, k);
    }
  }

  /**
   * `data` is the decoding of `img` within `b`: the shape `DecodeTile`
   * promises.
   */
  ghost predicate IsDecoding(data: seq<Sample>, img: Image, b: Bounds)
    requires img.Valid()
  {
    && |data| == img.width * img.height
    && forall k :: 0 <= k < |data| ==>
         k / img.height < img.width && data[k] == SampleAt(img, b, k / img.height, k % img.height)
  }

  /** Each pixel of the image appears in the decoding, at position `x * height + y`. */
  lemma DecodingCoversPixel(data: seq<Sample>, img: Image, b: Bounds, x: nat, y: nat)
    requires img.Valid() && IsDecoding(data, img, b)
    requires x < img.width && y < img.height
    ensures x * img.height + y < |data| && data[x * img.height + y] == SampleAt(img, b, x, y)
  {
    IndexMath.PositionBelow(x, y, img.width, img.height);
    IndexMath.DivModUnique(x * img.height + y, img.height, x, y);
  }

  /**
   * No pixel appears twice, and with proper bounds no two samples share a
   * position on Earth.
   */
  lemma DecodingDistinct(data: seq<Sample>, img: Image, b: Bounds, i: nat, j: nat)
    requires img.Valid() && IsDecoding(data, img, b)
    requires i < j < |data|
    ensures (data[i].pixelX, data[i].pixelY) != (data[j].pixelX, data[j].pixelY)
    ensures b.Proper() ==> (data[i].longitude, data[i].latitude) != (data[j].longitude, data[j].latitude)
  {
    IndexMath.PositionOrder(i, j, img.height);
    if b.Proper() {
      CoordinatesStrict(b, img.width, img.height, data[i].pixelX, data[j].pixelX, data[i].pixelY, data[j].pixelY);
    }
  }
}
