/**
 * Fetching the grid (tile.js `Tile.prototype.fetch` and
 * `Tiles.prototype.fetchTiles`). The network read is an input: each attempt
 * consumes the next element of a sequence of read outcomes, and the run is
 * observed as a trace of events.
 */
module Fetch {
  import opened Outcomes
  import opened Text
  import opened Images
  import opened Grid

  // ---------------------------------------------------------------------
  // URL templating

  /**
   * `template.replace('{z}', z).replace('{x}', x).replace('{y}', y)`: the
   * first `{z}`, then the first `{x}`, then the first `{y}` replaced.
   */
  function FillTemplate(template: string, z: string, x: string, y: string): string
    requires '$' !in z && '$' !in x && '$' !in y
  {
    ReplaceFirst(ReplaceFirst(ReplaceFirst(template, "{z}", z), "{x}", x), "{y}", y)
  }

  /** The URL a tile is read from: its template filled with its zoom, column and row. */
  function TileUrl(t: Tile): string {
    IntToStringCharset(t.z, '$');
    IntToStringCharset(t.x, '$');
    IntToStringCharset(t.y, '$');
    FillTemplate(t.urlTemplate, IntToString(t.z), IntToString(t.x), IntToString(t.y))
  }

  /**
   * For a template `A{z}B{x}C{y}D` whose text before each placeholder holds
   * no `{` (and replacement texts without `{`), each placeholder is replaced
   * once and every other character is kept.
   */
  lemma FillTemplateSplit(template: string, a: string, b: string, c: string, d: string, z: string, x: string, y: string)
    requires template == a + "{z}" + b + "{x}" + c + "{y}" + d
    requires '$' !in z && '$' !in x && '$' !in y
    requires '{' !in a && '{' !in b && '{' !in c && '{' !in z && '{' !in x
    ensures FillTemplate(template, z, x, y) == a + z + b + x + c + y + d
  {
    var q2 := c + "{y}" + d;
    var q1 := b + "{x}" + q2;
    Regroup(a, "{z}", b, "{x}", q2);
    SubstituteStep(template, a, "{z}", q1, z);
    var p2 := a + z + b;
    Regroup(a, z, b, "{x}", q2);
    SubstituteStep(a + z + q1, p2, "{x}", q2, x);
    var p3 := p2 + x + c;
    Regroup(p2, x, c, "{y}", d);
    SubstituteStep(p2 + x + q2, p3, "{y}", d, y);
    Regroup(p2, x, c, y, d);
  }

  /** Concatenation regrouped: `a + u + (b + v + q)` as `(a + u + b) + v + q`. */
  lemma Regroup(a: string, u: string, b: string, v: string, q: string)
    ensures a + u + (b + v + q) == (a + u + b) + v + q
  {
  }

  /**
   * A tile's URL for a template `A{z}B{x}C{y}D` without `{` before its
   * placeholders: the decimal zoom, column and row in place of the three
   * placeholders, every other character kept.
   */
  lemma TileUrlSubstitutes(a: string, b: string, c: string, d: string, t: Tile)
    requires t.urlTemplate == a + "{z}" + b + "{x}" + c + "{y}" + d
    requires '{' !in a && '{' !in b && '{' !in c
    ensures TileUrl(t) == a + IntToString(t.z) + b + IntToString(t.x) + c + IntToString(t.y) + d
  {
    IntToStringCharset(t.z, '{');
    IntToStringCharset(t.x, '{');
    IntToStringCharset(t.z, '$');
    IntToStringCharset(t.x, '$');
    IntToStringCharset(t.y, '$');
    FillTemplateSplit(t.urlTemplate, a, b, c, d, IntToString(t.z), IntToString(t.x), IntToString(t.y));
  }

  /** With no `{` outside the three placeholders, no placeholder is left in the URL. */
  lemma TileUrlComplete(a: string, b: string, c: string, d: string, t: Tile)
    requires t.urlTemplate == a + "{z}" + b + "{x}" + c + "{y}" + d
    requires '{' !in a && '{' !in b && '{' !in c && '{' !in d
    ensures '{' !in TileUrl(t)
  {
    TileUrlSubstitutes(a, b, c, d, t);
    IntToStringCharset(t.z, '{');
    IntToStringCharset(t.x, '{');
    IntToStringCharset(t.y, '{');
  }

  /** One substitution, stated on a string split around the pattern's first occurrence. */
  lemma SubstituteStep(s: string, p: string, pat: string, q: string, rep: string)
    requires s == p + pat + q
    requires '$' !in rep
    requires |pat| > 0 && pat[0] !in p
    ensures ReplaceFirst(s, pat, rep) == p + rep + q
  {
    ReplaceFirstSplit(p, pat, q, rep);
  }

  /**
   * The part of the Terrain-RGB tile URL before the first placeholder,
   * `https://api.mapbox.com/v4/mapbox.terrain-rgb/`. It is written in short
   * pieces because the solver checks a character's absence from a short
   * literal cheaply and from the whole one only at great cost.
   */
  function TerrainHost(): string {
    "https://" + "api.mapbox" + ".com/v4/" + "mapbox." + "terrain-" + "rgb/"
  }

  lemma TerrainHostHasNoBrace()
    ensures '{' !in TerrainHost()
  {
    assert '{' !in "https://" && '{' !in "api.mapbox" && '{' !in ".com/v4/";
    assert '{' !in "mapbox." && '{' !in "terrain-" && '{' !in "rgb/";
  }

  /** The Terrain-RGB tile source the pipeline reads from (lib.js), for an access token. */
  function TerrainTemplate(accessToken: string): string {
    TerrainHost() + "{z}" + "/" + "{x}" + "/" + "{y}" + ".pngraw?access_token=" + accessToken
  }

  /**
   * The URL of a Terrain-RGB tile: `.../{z}/{x}/{y}.pngraw?access_token=`
   * with the numbers filled in and the token kept verbatim, whatever it holds.
   */
  lemma TerrainTileUrl(accessToken: string, x: int, y: int, z: int)
    ensures TileUrl(NewTile(x, y, z, TerrainTemplate(accessToken)))
         == TerrainHost() + IntToString(z) + "/" + IntToString(x) + "/" +
            IntToString(y) + ".pngraw?access_token=" + accessToken
  {
    var a := TerrainHost();
    var d := ".pngraw?access_token=" + accessToken;
    var t := NewTile(x, y, z, TerrainTemplate(accessToken));
    assert t.urlTemplate == a + "{z}" + "/" + "{x}" + "/" + "{y}" + d;
    TerrainHostHasNoBrace();
    TileUrlSubstitutes(a, "/", "/", d, t);
  }

  // ---------------------------------------------------------------------
  // One fetch

  /** The error `Jimp.read` reports (network failure or undecodable payload). */
  datatype ReadError = ReadError(message: string)

  /** What one read of a tile URL yields. */
  type ReadOutcome = Result<Image, ReadError>

  /** The tile after `fetch` and the arguments its callback receives. */
  datatype FetchReply = FetchReply(tile: Tile, callback: ReadOutcome)

  /**
   * `Tile.prototype.fetch`: the callback receives the read's outcome; the
   * tile's image is set only when the read succeeded, and an error leaves
   * the tile untouched.
   */
  function FetchTile(t: Tile, read: ReadOutcome): (r: FetchReply)
    ensures r.callback == read
    ensures r.tile.x == t.x && r.tile.y == t.y && r.tile.z == t.z && r.tile.urlTemplate == t.urlTemplate
    ensures r.tile.image.Some? <==> read.Success? || t.image.Some?
    ensures read.Success? ==> r.tile.image == Some(read.value)
    ensures read.Failure? ==> r.tile == t
  {
    match read
    case Success(image) => FetchReply(t.(image := Some(image)), read)
    case Failure(_) => FetchReply(t, read)
  }

  // ---------------------------------------------------------------------
  // The sequential fetch loop

  /** What the fetch loop does, in order. */
  datatype Event =
    | Attempt(index: nat, ok: bool)    // `tile.fetch` of `collection[index]` and whether it succeeded
    | Deliver(index: nat, tile: Tile)  // `forEach(null, tile)`
    | End                              // the `onEnd && onEnd()` line after the last tile

  /**
   * Thrown when `fetchTiles` runs on an empty collection: `collection[0]`
   * is `undefined`, and calling `fetch` on it fails.
   */
  datatype TypeError = UndefinedTile

  /** The number of successful reads among `outcomes`. */
  function Successes(outcomes: seq<ReadOutcome>): nat {
    if |outcomes| == 0 then 0
    else (if outcomes[0].Success? then 1 else 0) + Successes(outcomes[1..])
  }

  /**
   * The loop from index `idx` on: every outcome is one attempt at the
   * current index; a success delivers the tile and advances, an error
   * retries the same index; the `onEnd` line follows the delivery of the last tile.
   * When the outcomes run out first, the trace stops there.
   */
  function Run(collection: seq<Tile>, idx: nat, outcomes: seq<ReadOutcome>): seq<Event>
    requires idx < |collection|
    decreases |outcomes|
  {
    if |outcomes| == 0 then []
    else
      var reply := FetchTile(collection[idx], outcomes[0]);
      if reply.callback.Failure? then
        [Attempt(idx, false)] + Run(collection, idx, outcomes[1..])
      else
        [Attempt(idx, true), Deliver(idx, reply.tile)] +
        (if idx + 1 < |collection| then Run(collection, idx + 1, outcomes[1..]) else [End])
  }

  /**
   * `fetchTiles(forEach, onEnd)` started at index 0; on an empty collection
   * `collection[0]` is undefined and calling `fetch` on it throws before any read.
   */
  function FetchTiles(collection: seq<Tile>, outcomes: seq<ReadOutcome>): (r: Result<seq<Event>, TypeError>)
    ensures r.Failure? <==> |collection| == 0
  {
    if |collection| == 0 then Failure(UndefinedTile) else Success(Run(collection, 0, outcomes))
  }

  /** The indices `lo, lo+1, ..., hi-1`. */
  function Range(lo: int, hi: int): seq<int>
    decreases hi - lo
  {
    if lo >= hi then [] else [lo] + Range(lo + 1, hi)
  }

  lemma {:induction false} RangeLength(lo: int, hi: int)
    ensures |Range(lo, hi)| == if lo >= hi then 0 else hi - lo
    decreases hi - lo
  {
    if lo < hi {
      RangeLength(lo + 1, hi);
    }
  }

  lemma RangeCons(lo: int, hi: int)
    requires lo < hi
    ensures Range(lo, hi) == [lo] + Range(lo + 1, hi)
  {
  }

  /** A sequence that is `lo` followed by `Range(lo + 1, hi)` is `Range(lo, hi)`. */
  lemma ConsRange(lo: int, hi: int, d: seq<int>, next: seq<int>)
    requires lo < hi && d == [lo] + next && next == Range(lo + 1, hi)
    ensures d == Range(lo, hi)
  {
    RangeCons(lo, hi);
  }

  function Min(a: int, b: int): int {
    if a <= b then a else b
  }

  /** The indices `forEach` is called with, in call order. */
  function Delivered(trace: seq<Event>): seq<int> {
    if |trace| == 0 then []
    else (if trace[0].Deliver? then [trace[0].index as int] else []) + Delivered(trace[1..])
  }

  lemma {:induction false} DeliveredAppend(a: seq<Event>, b: seq<Event>)
    ensures Delivered(a + b) == Delivered(a) + Delivered(b)
  {
    if |a| > 0 {
      assert (a + b)[0] == a[0];
      assert (a + b)[1..] == a[1..] + b;
      var head := if a[0].Deliver? then [a[0].index as int] else [];
      DeliveredAppend(a[1..], b);
      calc {
        Delivered(a + b);
        head + Delivered((a + b)[1..]);
        head + Delivered(a[1..] + b);
        head + (Delivered(a[1..]) + Delivered(b));
        (head + Delivered(a[1..])) + Delivered(b);
        Delivered(a) + Delivered(b);
      }
    } else {
      assert a + b == b;
    }
  }

  /**
   * `forEach` is called once per tile, in collection order, starting at
   * `idx`: as many tiles as there were successful reads, up to the end of
   * the collection.
   */
  lemma {:induction false} RunDeliversInOrder(collection: seq<Tile>, idx: nat, outcomes: seq<ReadOutcome>)
    requires idx < |collection|
    ensures Delivered(Run(collection, idx, outcomes))
         == Range(idx, idx + Min(|collection| - idx, Successes(outcomes)))
    decreases |outcomes|, 1
  {
    if |outcomes| == 0 {
      assert Range(idx, idx) == [];
    } else if outcomes[0].Failure? {
      DeliversAfterFailure(collection, idx, outcomes);
    } else {
      DeliversAfterSuccess(collection, idx, outcomes);
    }
  }

  /** The induction step after a failed read: the same index is tried again. */
  lemma {:induction false} DeliversAfterFailure(collection: seq<Tile>, idx: nat, outcomes: seq<ReadOutcome>)
    requires idx < |collection| && |outcomes| > 0 && outcomes[0].Failure?
    ensures Delivered(Run(collection, idx, outcomes))
         == Range(idx, idx + Min(|collection| - idx, Successes(outcomes)))
    decreases |outcomes|, 0
  {
    DeliveredStep(collection, idx, outcomes);
    RunDeliversInOrder(collection, idx, outcomes[1..]);
  }

  /** The induction step after a successful read: that index, then the rest from the next one. */
  lemma {:induction false} DeliversAfterSuccess(collection: seq<Tile>, idx: nat, outcomes: seq<ReadOutcome>)
    requires idx < |collection| && |outcomes| > 0 && outcomes[0].Success?
    ensures Delivered(Run(collection, idx, outcomes))
         == Range(idx, idx + Min(|collection| - idx, Successes(outcomes)))
    decreases |outcomes|, 0
  {
    var rest := outcomes[1..];
    DeliveredStep(collection, idx, outcomes);
    MinStep(|collection| - idx, Successes(rest));
    var hi := idx + Min(|collection| - idx, Successes(outcomes));
    var next := if idx + 1 < |collection| then Delivered(Run(collection, idx + 1, rest)) else [];
    if idx + 1 < |collection| {
      RunDeliversInOrder(collection, idx + 1, rest);
    } else {
      assert Range(idx + 1, hi) == [];
    }
    ConsRange(idx, hi, Delivered(Run(collection, idx, outcomes)), next);
  }

  /** Taking one from both sides of a minimum. */
  lemma MinStep(n: nat, s: nat)
    requires n > 0
    ensures Min(n, 1 + s) == 1 + Min(n - 1, s)
  {
  }

  /** One step of the loop, seen through `Delivered`: a success contributes its index. */
  lemma DeliveredStep(collection: seq<Tile>, idx: nat, outcomes: seq<ReadOutcome>)
    requires idx < |collection| && |outcomes| > 0
    ensures outcomes[0].Failure? ==>
              && Successes(outcomes) == Successes(outcomes[1..])
              && Delivered(Run(collection, idx, outcomes)) == Delivered(Run(collection, idx, outcomes[1..]))
    ensures outcomes[0].Success? ==>
              && Successes(outcomes) == 1 + Successes(outcomes[1..])
              && Delivered(Run(collection, idx, outcomes))
                 == [idx as int] + (if idx + 1 < |collection| then Delivered(Run(collection, idx + 1, outcomes[1..])) else [])
  {
    var rest := outcomes[1..];
    var reply := FetchTile(collection[idx], outcomes[0]);
    if outcomes[0].Failure? {
      DeliveredAppend([Attempt(idx, false)], Run(collection, idx, rest));
    } else {
      var tail := if idx + 1 < |collection| then Run(collection, idx + 1, rest) else [End];
      DeliveredAppend([Attempt(idx, true), Deliver(idx, reply.tile)], tail);
      assert Delivered([Attempt(idx, true), Deliver(idx, reply.tile)]) == [idx];
    }
  }

  /**
   * `onEnd` is reached exactly when the reads succeed once for every
   * remaining tile; it is then the last event and occurs only once. A tile
   * whose reads keep failing therefore keeps `onEnd` from ever running.
   */
  lemma {:induction false} RunEnds(collection: seq<Tile>, idx: nat, outcomes: seq<ReadOutcome>)
    requires idx < |collection|
    ensures End in Run(collection, idx, outcomes) <==> Successes(outcomes) >= |collection| - idx
    ensures End in Run(collection, idx, outcomes) ==>
              var t := Run(collection, idx, outcomes);
              t[|t| - 1] == End && forall j :: 0 <= j < |t| - 1 ==> t[j] != End
    decreases |outcomes|
  {
    if |outcomes| > 0 {
      var rest := outcomes[1..];
      if outcomes[0].Failure? {
        RunEnds(collection, idx, rest);
      } else if idx + 1 < |collection| {
        RunEnds(collection, idx + 1, rest);
      }
    }
  }

  /**
   * Every `forEach` call directly follows the successful fetch of the same
   * tile and hands over that tile with its image set; every failed attempt
   * is followed, if by anything, by another attempt at the same index.
   */
  lemma {:induction false} RunStepShape(collection: seq<Tile>, idx: nat, outcomes: seq<ReadOutcome>, j: nat)
    requires idx < |collection|
    requires j < |Run(collection, idx, outcomes)|
    ensures var t := Run(collection, idx, outcomes);
            !t[j].End? ==> idx <= t[j].index < |collection|
    ensures var t := Run(collection, idx, outcomes);
            t[j].Deliver? ==>
              && j > 0 && t[j - 1] == Attempt(t[j].index, true)
              && t[j].tile == collection[t[j].index].(image := t[j].tile.image)
              && t[j].tile.image.Some?
    ensures var t := Run(collection, idx, outcomes);
            t[j].Attempt? && !t[j].ok && j + 1 < |t| ==>
              t[j + 1].Attempt? && t[j + 1].index == t[j].index
    decreases |outcomes|
  {
    var t := Run(collection, idx, outcomes);
    var rest := outcomes[1..];
    if outcomes[0].Failure? {
      if j > 0 {
        RunStepShape(collection, idx, rest, j - 1);
      } else if 1 < |t| {
        assert t[1] == Run(collection, idx, rest)[0];
      }
    } else if j >= 2 && idx + 1 < |collection| {
      RunStepShape(collection, idx + 1, rest, j - 2);
      if j == 2 {
        assert t[j] == Run(collection, idx + 1, rest)[0];
      }
    }
  }
}
