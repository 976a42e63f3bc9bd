/** Tiling of a convolution by channels and, within every channel tile, by stripes of rows with a halo. */
module ConvTiling {
  import opened Basics

  // -------------------------------------------------------------------------
  // Convolutions

  /** A convolution with stride 1 along the rows: what a channel computes for a row depends on its weights, its scale and
      bias, and a window of `halo` rows on either side, in which rows outside of the image are missing. */
  datatype Conv<!W, !B, !R, !O> =
    Conv(kernel: (W, seq<B>, seq<Option<R>>) -> O, weights: seq<W>, scaleBias: seq<B>, items: nat, halo: nat)
  {
    ghost predicate Valid() {
      |scaleBias| == items * |weights|
    }
  }

  function Window<R>(rows: seq<R>, y: int, halo: nat): seq<Option<R>> {
    seq(2 * halo + 1, k => var r := y - halo + k; if 0 <= r < |rows| then Some(rows[r]) else None)
  }

  lemma ItemsInRange(items: nat, c: nat, n: nat)
    requires c < n
    ensures items * c <= items * (c + 1) <= items * n
  {}

  /** The scale and bias items of a channel. */
  function BiasOf<B>(scaleBias: seq<B>, items: nat, c: nat, channels: nat): seq<B>
    requires |scaleBias| == items * channels && c < channels
  {
    ItemsInRange(items, c, channels);
    scaleBias[items * c..items * (c + 1)]
  }

  function OutRow<W, B, R, O>(conv: Conv<W, B, R, O>, c: nat, rows: seq<R>, y: int): O
    requires conv.Valid() && c < |conv.weights|
  {
    conv.kernel(conv.weights[c], BiasOf(conv.scaleBias, conv.items, c, |conv.weights|), Window(rows, y, conv.halo))
  }

  /** The output, channel by channel and row by row; it has as many rows as the input. */
  function Convolve<W, B, R, O>(conv: Conv<W, B, R, O>, rows: seq<R>): seq<seq<O>>
    requires conv.Valid()
  {
    seq(|conv.weights|, c requires 0 <= c < |conv.weights| => seq(|rows|, y => OutRow(conv, c, rows, y)))
  }

  // -------------------------------------------------------------------------
  // Tiles of a convolution

  lemma ItemsAdd(items: nat, c: nat, d: nat)
    ensures items * (c + d) == items * c + items * d
  {}

  function BiasSlice<B>(scaleBias: seq<B>, items: nat, first: nat, count: nat, channels: nat): (r: seq<B>)
    requires |scaleBias| == items * channels && first + count <= channels
    ensures |r| == items * count
  {
    ItemsAdd(items, first, count);
    ItemsAdd(items, first + count, channels - (first + count));
    scaleBias[items * first..items * first + items * count]
  }

  /** The convolution of some of the channels. */
  function Channels<W, B, R, O>(conv: Conv<W, B, R, O>, first: nat, count: nat): (r: Conv<W, B, R, O>)
    requires conv.Valid() && first + count <= |conv.weights|
    ensures r.Valid()
  {
    Conv(conv.kernel, conv.weights[first..first + count],
         BiasSlice(conv.scaleBias, conv.items, first, count, |conv.weights|), conv.items, conv.halo)
  }

  lemma ChannelBias<B>(scaleBias: seq<B>, items: nat, first: nat, count: nat, channels: nat, c: nat)
    requires |scaleBias| == items * channels && first + count <= channels && c < count
    ensures BiasOf(BiasSlice(scaleBias, items, first, count, channels), items, c, count) ==
              BiasOf(scaleBias, items, first + c, channels)
  {
    ItemsInRange(items, c, count);
    ItemsAdd(items, first, c);
    ItemsAdd(items, first, c + 1);
    ItemsAdd(items, first, count);
    ItemsAdd(items, first + count, channels - (first + count));
    SliceOfSlice(scaleBias, items * first, items * first + items * count, items * c, items * (c + 1));
  }

  lemma SliceOfSlice<T>(s: seq<T>, a: int, b: int, c: int, d: int)
    requires 0 <= a <= b <= |s| && 0 <= c <= d <= b - a
    ensures s[a..b][c..d] == s[a + c..a + d]
  {
    forall k | 0 <= k < d - c ensures s[a..b][c..d][k] == s[a + c..a + d][k] {}
  }

  /** A channel of a tile is the channel of the convolution it was taken from. */
  lemma ChannelRow<W, B, R, O>(conv: Conv<W, B, R, O>, first: nat, count: nat, c: nat, rows: seq<R>, y: int)
    requires conv.Valid() && first + count <= |conv.weights| && c < count
    ensures OutRow(Channels(conv, first, count), c, rows, y) == OutRow(conv, first + c, rows, y)
  {
    hide BiasOf;
    hide BiasSlice;
    hide Window;
    ChannelBias(conv.scaleBias, conv.items, first, count, |conv.weights|, c);
  }

  /** A stripe with enough rows around it has the windows of the whole image. */
  lemma StripeWindow<R>(rows: seq<R>, from: nat, to: nat, y: int, halo: nat)
    requires from <= y < to <= |rows|
    requires from == 0 || halo <= y - from
    requires to == |rows| || y + halo < to
    ensures Window(rows[from..to], y - from, halo) == Window(rows, y, halo)
  {}

  // -------------------------------------------------------------------------
  // Stripes

  /** The number of stripes the next channel tile starts from: it grows by one whenever there is a remainder. */
  ghost function StripesAt(height: nat, stripes: nat, i: nat): (n: nat)
    requires stripes > 0
    ensures n >= stripes
  {
    if i == 0 then stripes
    else
      var n := StripesAt(height, stripes, i - 1);
      n + if height % n > 0 then 1 else 0
  }

  /** The count grows, one by one, until it divides the height without remainder, and stays there. */
  lemma {:induction false} StripesSettle(height: nat, stripes: nat, i: nat)
    requires stripes > 0
    ensures var n := StripesAt(height, stripes, i);
            && n <= stripes + i
            && (forall k :: stripes <= k < n ==> height % k != 0)
            && (n == stripes + i || height % n == 0)
    decreases i
  {
    if i > 0 { StripesSettle(height, stripes, i - 1); }
  }

  /** All stripes and their halo lie in the image: there is one stripe only, or none is smaller than the halo. */
  ghost predicate StripesFit(height: nat, halo: nat, n: nat)
    requires n > 0
  {
    n == 1 || (halo <= height / n && (height % n == 0 || halo <= height % n))
  }

  datatype Stripe = Stripe(top: int, height: int, padTop: int, padBottom: int)

  /** Stripe `s` of `total`, of `fixed` rows or, if it is the last and there is a remainder, of that many. */
  function StripeOf(s: nat, total: nat, fixed: nat, remainder: nat, halo: nat): Stripe {
    Stripe(s * fixed, if s == total - 1 && remainder > 0 then remainder else fixed,
           if s > 0 then halo else 0, if s < total - 1 then halo else 0)
  }

  ghost predicate InImage(t: Stripe, height: nat) {
    0 <= t.top - t.padTop && t.top + t.height + t.padBottom <= height
  }

  lemma Divided(height: nat, n: nat)
    requires n > 0
    ensures height == (height / n) * n + height % n && 0 <= height % n < n
  {}

  /** Where a stripe ends: at the beginning of the next, or at the end of the image. */
  lemma StripeEnds(height: nat, n: nat, s: nat)
    requires n > 0 && s < n + if height % n > 0 then 1 else 0
    ensures var fixed, rem := height / n, height % n;
            var total := n + if rem > 0 then 1 else 0;
            var t := StripeOf(s, total, fixed, rem, 0);
            && t.height >= 0 && t.top >= 0 && t.top + t.height == (if s == total - 1 then height else (s + 1) * fixed)
            && (s < total - 1 ==> t.height == fixed)
  {
    Divided(height, n);
    var fixed := height / n;
    assert (s + 1) * fixed == s * fixed + fixed;
    assert n * fixed == fixed * n;
    assert s * fixed >= 0;
  }

  /** The rows of a stripe and its halo, from what is known of its end and of the stripes around it. */
  lemma StripeInImage(height: nat, halo: nat, n: nat, s: nat)
    requires n > 0 && s < n + if height % n > 0 then 1 else 0
    ensures var fixed, rem := height / n, height % n;
            var total := n + if rem > 0 then 1 else 0;
            InImage(StripeOf(s, total, fixed, rem, halo), height) <==>
              (s > 0 ==> halo <= s * fixed) && (s < total - 1 ==> (s + 1) * fixed + halo <= height)
  {
    StripeEnds(height, n, s);
  }

  lemma Times(a: nat, b: nat, x: nat)
    ensures a <= b ==> a * x <= b * x
    ensures (a + 1) * x == a * x + x
  {}

  lemma FitsIfLarge(height: nat, halo: nat, n: nat, s: nat)
    requires n > 0 && StripesFit(height, halo, n) && s < n + if height % n > 0 then 1 else 0
    ensures var fixed, rem := height / n, height % n;
            InImage(StripeOf(s, n + if rem > 0 then 1 else 0, fixed, rem, halo), height)
  {
    Divided(height, n);
    StripeInImage(height, halo, n, s);
    hide StripeOf;
    hide InImage;
    RoomForHalo(height, halo, n, s, height / n, height % n);
  }

  /** The stripes above and below a stripe are at least as high as the halo. */
  lemma RoomForHalo(height: nat, halo: nat, n: nat, s: nat, fixed: nat, rem: nat)
    requires n > 0 && height == fixed * n + rem && s < n + if rem > 0 then 1 else 0
    requires n == 1 || (halo <= fixed && (rem == 0 || halo <= rem))
    requires n == 1 ==> rem == 0
    ensures s > 0 ==> halo <= s * fixed
    ensures s < n - 1 || (s < n && rem > 0) ==> (s + 1) * fixed + halo <= height
  {
    Times(1, s, fixed);
    if rem > 0 {
      Times(s + 1, n, fixed);
    } else {
      Times(s + 1, n - 1, fixed);
      Times(n - 1, n, fixed);
    }
  }

  lemma LargeIfFits(height: nat, halo: nat, n: nat)
    requires n > 1
    requires var fixed, rem := height / n, height % n;
             var total := n + if rem > 0 then 1 else 0;
             InImage(StripeOf(1, total, fixed, rem, halo), height)
                 && InImage(StripeOf(total - 2, total, fixed, rem, halo), height)
    ensures StripesFit(height, halo, n)
  {
    var fixed, rem := height / n, height % n;
    var total := n + if rem > 0 then 1 else 0;
    Divided(height, n);
    StripeInImage(height, halo, n, 1);
    StripeInImage(height, halo, n, total - 2);
    Times(n - 1, n, fixed);
  }

  /** The slices of a channel tile are inside the image exactly when no stripe is smaller than the halo. */
  lemma WhenStripesFit(height: nat, halo: nat, n: nat)
    requires n > 0
    ensures var fixed, rem := height / n, height % n;
            var total := n + if rem > 0 then 1 else 0;
            StripesFit(height, halo, n) <==> forall s: nat :: s < total ==>
                InImage(StripeOf(s, total, fixed, rem, halo), height)
  {
    var fixed, rem := height / n, height % n;
    var total := n + if rem > 0 then 1 else 0;
    if StripesFit(height, halo, n) {
      forall s: nat | s < total ensures InImage(StripeOf(s, total, fixed, rem, halo), height) {
        FitsIfLarge(height, halo, n, s);
      }
    } else if forall s: nat :: s < total ==> InImage(StripeOf(s, total, fixed, rem, halo), height) {
      LargeIfFits(height, halo, n);
    }
  }

  // -------------------------------------------------------------------------
  // The output

  /** The output tensor while it is put together, channel by channel and row by row. */
  type Output<!O> = seq<seq<Option<O>>>

  /** A rectangle of the output. */
  datatype Tile = Tile(channel: int, channels: int, top: int, rows: int)

  predicate InTile(t: Tile, c: int, y: int) {
    t.channel <= c < t.channel + t.channels && t.top <= y < t.top + t.rows
  }

  /** All rows of the channels before `c0`, and the first `y1` rows of those before `c1`. */
  predicate Done(c: int, y: int, c0: int, c1: int, y1: int) {
    c < c0 || (c < c1 && y < y1)
  }

  ghost predicate Sized<O>(out: Output<O>, channels: nat, height: nat) {
    |out| == channels && forall c :: 0 <= c < channels ==> |out[c]| == height
  }

  /** The part that is done is what the convolution computes, the rest has not been written. */
  ghost predicate Filled<W, B, R, O>(conv: Conv<W, B, R, O>, rows: seq<R>, out: Output<O>, c0: int, c1: int, y1: int)
    requires conv.Valid()
  {
    && Sized(out, |conv.weights|, |rows|)
    && forall c, y :: 0 <= c < |conv.weights| && 0 <= y < |rows| ==>
         out[c][y] == if Done(c, y, c0, c1, y1) then Some(OutRow(conv, c, rows, y)) else None
  }

  ghost predicate Covered(tiles: seq<Tile>, c: int, y: int) {
    exists k :: 0 <= k < |tiles| && InTile(tiles[k], c, y)
  }

  ghost predicate Disjoint(tiles: seq<Tile>) {
    forall k, l, c, y :: 0 <= k < l < |tiles| && InTile(tiles[k], c, y) ==> !InTile(tiles[l], c, y)
  }

  /** Every cell that is done is in exactly one tile, and the others are in none. */
  ghost predicate Partition(tiles: seq<Tile>, channels: nat, height: nat, c0: int, c1: int, y1: int) {
    && (forall c, y :: Covered(tiles, c, y) <==> 0 <= c < channels && 0 <= y < height && Done(c, y, c0, c1, y1))
    && Disjoint(tiles)
  }

  function Inserted<O>(out: Output<O>, tile: seq<seq<O>>, t: Tile, height: nat): Output<O>
    requires Sized(out, |out|, height) && 0 <= t.channel && |tile| == t.channels && t.channel + t.channels <= |out|
    requires 0 <= t.top && 0 <= t.rows && t.top + t.rows <= height && forall c :: 0 <= c < |tile| ==> |tile[c]| == t.rows
  {
    seq(|out|, c requires 0 <= c < |out| =>
      seq(height, y requires 0 <= y < height =>
        if InTile(t, c, y) then Some(tile[c - t.channel][y - t.top]) else out[c][y]))
  }

  /** The rows of a stripe are those of the image, whatever was computed for its halo. */
  lemma StripeRow<W, B, R, O>(
      conv: Conv<W, B, R, O>, rows: seq<R>, first: nat, count: nat, n: nat, s: nat, c: nat, r: nat)
    requires conv.Valid() && first + count <= |conv.weights| && c < count && n > 0
    requires s < n + if |rows| % n > 0 then 1 else 0
    requires var t := StripeOf(s, n + if |rows| % n > 0 then 1 else 0, |rows| / n, |rows| % n, conv.halo);
             InImage(t, |rows|) && r < t.height
    ensures var t := StripeOf(s, n + if |rows| % n > 0 then 1 else 0, |rows| / n, |rows| % n, conv.halo);
            && 0 <= t.top + r < |rows|
            && OutRow(Channels(conv, first, count), c, rows[t.top - t.padTop..t.top + t.height + t.padBottom], t.padTop + r)
               == OutRow(conv, first + c, rows, t.top + r)
  {
    var total := n + if |rows| % n > 0 then 1 else 0;
    var t := StripeOf(s, total, |rows| / n, |rows| % n, conv.halo);
    StripeEnds(|rows|, n, s);
    var from, to := t.top - t.padTop, t.top + t.height + t.padBottom;
    ChannelRow(conv, first, count, c, rows[from..to], t.padTop + r);
    StripeWindow(rows, from, to, t.top + r, conv.halo);
  }

  /** The tile of a stripe: it is convolved with its halo, which is then cut off. */
  method StripeTile<W, B, R, O>(
      conv: Conv<W, B, R, O>, rows: seq<R>, first: nat, count: nat, ghost n: nat, ghost s: nat, t: Stripe)
          returns (tile: seq<seq<O>>)
    requires conv.Valid() && first + count <= |conv.weights| && n > 0 && s < n + if |rows| % n > 0 then 1 else 0
    requires t == StripeOf(s, n + if |rows| % n > 0 then 1 else 0, |rows| / n, |rows| % n, conv.halo)
    requires InImage(t, |rows|) && t.height >= 0
    ensures |tile| == count && forall c :: 0 <= c < count ==> |tile[c]| == t.height
    ensures forall c, r :: 0 <= c < count && 0 <= r < t.height ==> tile[c][r] == OutRow(conv, first + c, rows, t.top + r)
  {
    ghost var total := n + if |rows| % n > 0 then 1 else 0;
    ghost var fixed, remainder := |rows| / n, |rows| % n;
    var part := rows[t.top - t.padTop..t.top + t.height + t.padBottom];
    StripeHeight(t, total, s, fixed, remainder, conv.halo);
    var padded := Convolve(Channels(conv, first, count), part);
    PaddedRows(conv, first, count, part);
    hide Convolve;
    tile := seq(count, c requires 0 <= c < count => padded[c][t.padTop..t.padTop + t.height]);
    forall c, r | 0 <= c < count && 0 <= r < t.height ensures tile[c][r] == OutRow(conv, first + c, rows, t.top + r) {
      hide OutRow;
      hide Channels;
      StripeRow(conv, rows, first, count, n, s, c, r);
    }
  }

  lemma StripeHeight(t: Stripe, total: nat, s: nat, fixed: nat, remainder: nat, halo: nat)
    requires t == StripeOf(s, total, fixed, remainder, halo)
    ensures t.padTop >= 0 && t.padBottom >= 0 && t.height >= 0
  {}

  lemma PaddedRows<W, B, R, O>(conv: Conv<W, B, R, O>, first: nat, count: nat, part: seq<R>)
    requires conv.Valid() && first + count <= |conv.weights|
    ensures var padded := Convolve(Channels(conv, first, count), part);
            && |padded| == count
            && forall c :: 0 <= c < count ==>
                 |padded[c]| == |part|
                 && forall y :: 0 <= y < |part| ==> padded[c][y] == OutRow(Channels(conv, first, count), c, part, y)
  {
    hide OutRow;
  }

  lemma InsertFills<W, B, R, O>(
      conv: Conv<W, B, R, O>, rows: seq<R>, out: Output<O>, tile: seq<seq<O>>, t: Tile)
    requires conv.Valid() && Filled(conv, rows, out, t.channel, t.channel + t.channels, t.top)
    requires 0 <= t.channel && |tile| == t.channels && t.channel + t.channels <= |conv.weights|
    requires 0 <= t.top && 0 <= t.rows && t.top + t.rows <= |rows| && forall c :: 0 <= c < |tile| ==> |tile[c]| == t.rows
    requires forall c, r :: 0 <= c < t.channels && 0 <= r < t.rows ==>
              tile[c][r] == OutRow(conv, t.channel + c, rows, t.top + r)
    ensures Filled(conv, rows, Inserted(out, tile, t, |rows|), t.channel, t.channel + t.channels, t.top + t.rows)
  {
    hide OutRow;
    var more := Inserted(out, tile, t, |rows|);
    forall c, y | 0 <= c < |conv.weights| && 0 <= y < |rows|
      ensures more[c][y] == if Done(c, y, t.channel, t.channel + t.channels, t.top + t.rows)
                then Some(OutRow(conv, c, rows, y)) else None
    {
      if InTile(t, c, y) {
        assert tile[c - t.channel][y - t.top] == OutRow(conv, t.channel + (c - t.channel), rows, t.top + (y - t.top));
      }
    }
  }

  lemma InsertPartitions(tiles: seq<Tile>, channels: nat, height: nat, t: Tile)
    requires Partition(tiles, channels, height, t.channel, t.channel + t.channels, t.top)
    requires 0 <= t.channel && 0 <= t.channels && t.channel + t.channels <= channels && 0 <= t.top && 0 <= t.rows
    requires t.top + t.rows <= height
    ensures Partition(tiles + [t], channels, height, t.channel, t.channel + t.channels, t.top + t.rows)
  {
    forall c, y ensures Covered(tiles + [t], c, y) <==> Covered(tiles, c, y) || InTile(t, c, y) { CoveredMore(tiles, t, c, y); }
    forall c, y | InTile(t, c, y) ensures !Covered(tiles, c, y) {}
    DisjointMore(tiles, t);
    hide Covered;
    hide Disjoint;
  }

  lemma CoveredMore(tiles: seq<Tile>, t: Tile, c: int, y: int)
    ensures Covered(tiles + [t], c, y) <==> Covered(tiles, c, y) || InTile(t, c, y)
  {
    hide InTile;
    var more := tiles + [t];
    assert more[|tiles|] == t;
    if k :| 0 <= k < |tiles| && InTile(tiles[k], c, y) { assert InTile(more[k], c, y); }
  }

  lemma DisjointMore(tiles: seq<Tile>, t: Tile)
    requires Disjoint(tiles) && forall c, y :: InTile(t, c, y) ==> !Covered(tiles, c, y)
    ensures Disjoint(tiles + [t])
  {
    hide InTile;
    var more := tiles + [t];
    forall k, l, c, y | 0 <= k < l < |more| && InTile(more[k], c, y) ensures !InTile(more[l], c, y) {
      assert more[k] == tiles[k];
      if l < |tiles| { assert more[l] == tiles[l]; }
    }
  }

  /** The rows of the first `s` of `total` stripes. */
  function RowsBefore(height: nat, n: nat, s: nat, total: nat): nat
    requires n > 0
  {
    if s == total then height else s * (height / n)
  }

  lemma StripePlace(height: nat, halo: nat, n: nat, s: nat)
    requires n > 0 && s < n + if height % n > 0 then 1 else 0
    ensures var total := n + if height % n > 0 then 1 else 0;
            var t := StripeOf(s, total, height / n, height % n, halo);
            && t.height >= 0 && t.top == RowsBefore(height, n, s, total) && t.top + t.height <= height
            && t.top + t.height == RowsBefore(height, n, s + 1, total)
  {
    StripeEnds(height, n, s);
    Divided(height, n);
    Times(s + 1, n, height / n);
  }

  /** Computes a stripe and inserts it into the output. */
  method PlaceStripe<W, B, R, O>(
      conv: Conv<W, B, R, O>, rows: seq<R>, first: nat, count: nat, ghost n: nat, ghost s: nat, t: Stripe, out0: Output<O>, tiles0: seq<Tile>)
    returns (out: Output<O>, tiles: seq<Tile>)
    requires conv.Valid() && first + count <= |conv.weights| && n > 0 && s < n + if |rows| % n > 0 then 1 else 0
    requires t == StripeOf(s, n + if |rows| % n > 0 then 1 else 0, |rows| / n, |rows| % n, conv.halo)
    requires InImage(t, |rows|) && t.height >= 0 && t.top >= 0 && t.top + t.height <= |rows|
    requires Filled(conv, rows, out0, first, first + count, t.top)
    requires Partition(tiles0, |conv.weights|, |rows|, first, first + count, t.top)
    ensures Filled(conv, rows, out, first, first + count, t.top + t.height)
    ensures Partition(tiles, |conv.weights|, |rows|, first, first + count, t.top + t.height)
    ensures tiles == tiles0 + [Tile(first, count, t.top, t.height)]
  {
    var tile := StripeTile(conv, rows, first, count, n, s, t);
    var place := Tile(first, count, t.top, t.height);
    FilledIsSized(conv, rows, out0, first, first + count, t.top);
    hide Filled;
    hide Partition;
    hide StripeOf;
    InsertFills(conv, rows, out0, tile, place);
    InsertPartitions(tiles0, |conv.weights|, |rows|, place);
    out := Inserted(out0, tile, place, |rows|);
    tiles := tiles0 + [place];
  }

  /** A tile of some channels has the rows of an equal part of the image, or of what remains. */
  predicate StripeTileOf(t: Tile, height: nat, first: int, count: int, n: nat)
    requires n > 0
  {
    t.channel == first && t.channels == count && (t.rows == height / n || t.rows == height % n)
  }

  /** The tiles after `tiles0`. */
  ghost predicate StripeTilesFrom(tiles0: seq<Tile>, tiles: seq<Tile>, height: nat, first: int, count: int, n: nat)
    requires n > 0
  {
    tiles0 <= tiles && forall k :: |tiles0| <= k < |tiles| ==> StripeTileOf(tiles[k], height, first, count, n)
  }

  lemma MoreStripeTiles(tiles0: seq<Tile>, tiles: seq<Tile>, t: Tile, height: nat, first: int, count: int, n: nat)
    requires n > 0 && StripeTilesFrom(tiles0, tiles, height, first, count, n) && StripeTileOf(t, height, first, count, n)
    ensures StripeTilesFrom(tiles0, tiles + [t], height, first, count, n)
  {}

  lemma NoStripeTiles(tiles: seq<Tile>, height: nat, first: int, count: int, n: nat)
    requires n > 0
    ensures StripeTilesFrom(tiles, tiles, height, first, count, n)
  {}

  lemma StripeRows(height: nat, n: nat, s: nat, first: nat, count: nat, t: Stripe, halo: nat)
    requires n > 0 && t == StripeOf(s, n + if height % n > 0 then 1 else 0, height / n, height % n, halo)
    ensures StripeTileOf(Tile(first, count, t.top, t.height), height, first, count, n)
  {}

  /** A tile as it was asked for: no more channels than may be in a tile, and the rows of a stripe of its channel tile. */
  ghost predicate AsAsked(t: Tile, height: nat, maxChannels: nat, stripes0: nat)
    requires stripes0 > 0
  {
    exists i: nat :: t.channel == i * maxChannels && t.channels <= maxChannels
                     && StripeTileOf(t, height, i * maxChannels, t.channels, StripesAt(height, stripes0, i))
  }

  lemma {:induction false} AllAsAsked(tiles0: seq<Tile>, tiles: seq<Tile>, height: nat, maxChannels: nat, stripes0: nat, i: nat, count: nat)
    requires stripes0 > 0 && count <= maxChannels
    requires forall k :: 0 <= k < |tiles0| ==> AsAsked(tiles0[k], height, maxChannels, stripes0)
    requires StripeTilesFrom(tiles0, tiles, height, i * maxChannels, count, StripesAt(height, stripes0, i))
    ensures forall k :: 0 <= k < |tiles| ==> AsAsked(tiles[k], height, maxChannels, stripes0)
  {
    hide StripesAt;
    forall k | 0 <= k < |tiles| ensures AsAsked(tiles[k], height, maxChannels, stripes0) {
      if k < |tiles0| { assert tiles[k] == tiles0[k]; }
    }
  }

  /** Takes the next stripe. Fails if its slice is not in the image. */
  method NextStripe<W, B, R, O>(
      conv: Conv<W, B, R, O>, rows: seq<R>, first: nat, count: nat, n: nat, s: nat, stripes: nat, fixed: nat, remainder: nat,
      out0: Output<O>, tiles0: seq<Tile>)
    returns (ok: bool, out: Output<O>, tiles: seq<Tile>)
    requires conv.Valid() && first + count <= |conv.weights| && n > 0
    requires remainder == |rows| % n && fixed == |rows| / n && stripes == n + (if remainder > 0 then 1 else 0) && s < stripes
    requires Filled(conv, rows, out0, first, first + count, RowsBefore(|rows|, n, s, stripes))
    requires Partition(tiles0, |conv.weights|, |rows|, first, first + count, RowsBefore(|rows|, n, s, stripes))
    ensures ok <==> InImage(StripeOf(s, stripes, fixed, remainder, conv.halo), |rows|)
    ensures ok ==> Filled(conv, rows, out, first, first + count, RowsBefore(|rows|, n, s + 1, stripes))
    ensures ok ==> Partition(tiles, |conv.weights|, |rows|, first, first + count, RowsBefore(|rows|, n, s + 1, stripes))
    ensures ok ==> exists t: Tile :: tiles == tiles0 + [t] && StripeTileOf(t, |rows|, first, count, n)
  {
    hide Filled;
    hide Partition;
    hide RowsBefore;
    hide StripeTileOf;
    out, tiles := out0, tiles0;
    var t := StripeOf(s, stripes, fixed, remainder, conv.halo);
    StripeRows(|rows|, n, s, first, count, t, conv.halo);
    StripePlace(|rows|, conv.halo, n, s);
    hide StripeOf;
    ok := 0 <= t.top - t.padTop && t.top + t.height + t.padBottom <= |rows|;
    if ok {
      out, tiles := PlaceStripe(conv, rows, first, count, n, s, t, out, tiles);
    }
  }

  lemma OneOutside(height: nat, halo: nat, n: nat, s: nat, total: nat, fixed: nat, remainder: nat)
    requires n > 0 && fixed == height / n && remainder == height % n && total == n + if remainder > 0 then 1 else 0
    requires s < total && !InImage(StripeOf(s, total, fixed, remainder, halo), height)
    ensures !StripesFit(height, halo, n)
  {
    hide StripesFit;
    hide InImage;
    hide StripeOf;
    if StripesFit(height, halo, n) { FitsIfLarge(height, halo, n, s); }
  }

  /** The stripes of one channel tile. Fails if a slice is not in the image. */
  method TileChannels<W, B, R, O>(
      conv: Conv<W, B, R, O>, rows: seq<R>, first: nat, count: nat, n: nat, out0: Output<O>, tiles0: seq<Tile>)
    returns (ok: bool, out: Output<O>, tiles: seq<Tile>, stripes: nat)
    requires conv.Valid() && first + count <= |conv.weights| && n > 0
    requires Filled(conv, rows, out0, first, first + count, 0)
    requires Partition(tiles0, |conv.weights|, |rows|, first, first + count, 0)
    ensures ok <==> StripesFit(|rows|, conv.halo, n)
    ensures ok ==> Filled(conv, rows, out, first, first + count, |rows|)
    ensures ok ==> Partition(tiles, |conv.weights|, |rows|, first, first + count, |rows|)
    ensures stripes == n + if |rows| % n > 0 then 1 else 0
    ensures ok ==> |tiles| == |tiles0| + stripes && StripeTilesFrom(tiles0, tiles, |rows|, first, count, n)
  {
    hide StripeTilesFrom;
    hide StripeTileOf;
    hide Filled;
    hide Partition;
    hide StripesFit;
    hide StripeOf;
    hide InImage;
    var height := |rows|;
    var remainder, fixed := height % n, height / n;
    stripes := n;
    if remainder > 0 {
      stripes := stripes + 1;
    }
    out, tiles := out0, tiles0;
    NoStripeTiles(tiles0, height, first, count, n);
    WhenStripesFit(height, conv.halo, n);
    assert RowsBefore(height, n, 0, stripes) == 0 && RowsBefore(height, n, stripes, stripes) == height;
    hide RowsBefore;
    for s := 0 to stripes
      invariant forall r: nat :: r < s ==> InImage(StripeOf(r, stripes, fixed, remainder, conv.halo), height)
      invariant Filled(conv, rows, out, first, first + count, RowsBefore(height, n, s, stripes))
      invariant Partition(tiles, |conv.weights|, height, first, first + count, RowsBefore(height, n, s, stripes))
      invariant |tiles| == |tiles0| + s && StripeTilesFrom(tiles0, tiles, height, first, count, n)
    {
      ghost var before := tiles;
      ok, out, tiles := NextStripe(conv, rows, first, count, n, s, stripes, fixed, remainder, out, tiles);
      if !ok {
        OneOutside(height, conv.halo, n, s, stripes, fixed, remainder);
        return;
      }
      ghost var t: Tile :| tiles == before + [t] && StripeTileOf(t, height, first, count, n);
      MoreStripeTiles(tiles0, before, t, height, first, count, n);
    }
    ok := true;
  }

  lemma FilledIsSized<W, B, R, O>(conv: Conv<W, B, R, O>, rows: seq<R>, out: Output<O>, c0: int, c1: int, y1: int)
    requires conv.Valid() && Filled(conv, rows, out, c0, c1, y1)
    ensures Sized(out, |conv.weights|, |rows|)
  {}

  function CeilDiv(a: nat, b: nat): nat
    requires b > 0
  {
    a / b + if a % b > 0 then 1 else 0
  }

  /** The first channel of tile `i`. */
  function TileStart(i: nat, size: nat, channels: nat): nat {
    if i * size < channels then i * size else channels
  }

  lemma ChannelTile(channels: nat, size: nat, i: nat)
    requires size > 0 && i <= CeilDiv(channels, size)
    ensures var total := CeilDiv(channels, size);
            var count := if i == total - 1 && channels % size > 0 then channels % size else size;
            && (i < total ==>
                  TileStart(i, size, channels) == i * size && i * size + count == TileStart(i + 1, size, channels))
            && (i < total ==> i * size + count <= channels)
            && (i == total ==> TileStart(i, size, channels) == channels)
    ensures TileStart(0, size, channels) == 0
  {
    Divided(channels, size);
    Times(i, channels / size, size);
    Times(i + 1, channels / size, size);
    Times(channels / size, i, size);
  }

  lemma NextChannels<W, B, R, O>(
      conv: Conv<W, B, R, O>, rows: seq<R>, out: Output<O>, tiles: seq<Tile>, first: nat, count: nat)
    requires conv.Valid() && Filled(conv, rows, out, first, first, |rows|)
    requires Partition(tiles, |conv.weights|, |rows|, first, first, |rows|)
    ensures Filled(conv, rows, out, first, first + count, 0)
    ensures Partition(tiles, |conv.weights|, |rows|, first, first + count, 0)
  {
    hide OutRow;
    hide Sized;
    hide Covered;
    hide Disjoint;
  }

  lemma ChannelsDone<W, B, R, O>(
      conv: Conv<W, B, R, O>, rows: seq<R>, out: Output<O>, tiles: seq<Tile>, first: nat, count: nat)
    requires conv.Valid() && Filled(conv, rows, out, first, first + count, |rows|)
    requires Partition(tiles, |conv.weights|, |rows|, first, first + count, |rows|)
    ensures Filled(conv, rows, out, first + count, first + count, |rows|)
    ensures Partition(tiles, |conv.weights|, |rows|, first + count, first + count, |rows|)
  {
    hide OutRow;
    hide Sized;
    hide Covered;
    hide Disjoint;
  }

  lemma Start<W, B, R, O>(conv: Conv<W, B, R, O>, rows: seq<R>, out: Output<O>)
    requires conv.Valid() && Sized(out, |conv.weights|, |rows|)
    requires forall c, y :: 0 <= c < |conv.weights| && 0 <= y < |rows| ==> out[c][y] == None
    ensures Filled(conv, rows, out, 0, 0, |rows|) && Partition([], |conv.weights|, |rows|, 0, 0, |rows|)
  {}

  lemma FilledAll<W, B, R, O>(conv: Conv<W, B, R, O>, rows: seq<R>, out: Output<O>)
    requires conv.Valid() && Filled(conv, rows, out, |conv.weights|, |conv.weights|, |rows|)
    ensures Sized(out, |conv.weights|, |rows|)
    ensures forall c, y :: 0 <= c < |conv.weights| && 0 <= y < |rows| ==> out[c][y] == Some(Convolve(conv, rows)[c][y])
  {
    hide OutRow;
  }

  /** Tiles a convolution by channels and stripes; every channel tile starts from the number of stripes the one before it
      ended with. It succeeds exactly if no stripe is ever smaller than the halo, and then the output is that of the whole
      convolution, put together from tiles that cover it without overlap. */
  method TileConvolution<W, B, R, O>(conv: Conv<W, B, R, O>, rows: seq<R>, maxChannels: nat, stripes0: nat)
    returns (ok: bool, out: Output<O>, tiles: seq<Tile>)
    requires conv.Valid() && maxChannels > 0 && stripes0 > 0
    ensures ok <==> forall i: nat :: i < CeilDiv(|conv.weights|, maxChannels) ==>
                      StripesFit(|rows|, conv.halo, StripesAt(|rows|, stripes0, i))
    ensures ok ==> Sized(out, |conv.weights|, |rows|)
                   && forall c, y :: 0 <= c < |conv.weights| && 0 <= y < |rows| ==>
                     out[c][y] == Some(Convolve(conv, rows)[c][y])
    ensures ok ==> Partition(tiles, |conv.weights|, |rows|, |conv.weights|, |conv.weights|, |rows|)
    ensures ok ==> forall k :: 0 <= k < |tiles| ==> AsAsked(tiles[k], |rows|, maxChannels, stripes0)
  {
    hide AsAsked;
    hide StripeTilesFrom;
    hide StripesFit;
    hide Partition;
    hide Filled;
    hide OutRow;
    hide Convolve;
    hide TileStart;
    var channels, height := |conv.weights|, |rows|;
    var full, remaining := channels / maxChannels, channels % maxChannels;
    var total := full + if remaining > 0 then 1 else 0;
    out := seq(channels, _ => seq(height, _ => None));
    tiles := [];
    var stripes := stripes0;
    Start(conv, rows, out);
    ChannelTile(channels, maxChannels, 0);
    for i := 0 to total
      invariant stripes == StripesAt(height, stripes0, i) > 0
      invariant forall j: nat :: j < i ==> StripesFit(height, conv.halo, StripesAt(height, stripes0, j))
      invariant Filled(conv, rows, out, TileStart(i, maxChannels, channels), TileStart(i, maxChannels, channels), height)
      invariant Partition(tiles, channels, height, TileStart(i, maxChannels, channels), TileStart(i, maxChannels, channels), height)
      invariant forall k :: 0 <= k < |tiles| ==> AsAsked(tiles[k], height, maxChannels, stripes0)
    {
      var count := maxChannels;
      if i == total - 1 && remaining > 0 {
        count := remaining;
      }
      ChannelTile(channels, maxChannels, i);
      NextChannels(conv, rows, out, tiles, i * maxChannels, count);
      ghost var before := tiles;
      ok, out, tiles, stripes := TileChannels(conv, rows, i * maxChannels, count, stripes, out, tiles);
      if !ok {
        return;
      }
      AllAsAsked(before, tiles, height, maxChannels, stripes0, i, count);
      ChannelsDone(conv, rows, out, tiles, i * maxChannels, count);
    }
    ok := true;
    ChannelTile(channels, maxChannels, total);
    FilledAll(conv, rows, out);
  }
}
