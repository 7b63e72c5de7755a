/**
 * The decoded image (`RgbaImage`): a width, a height and the pixels row by
 * row from the top, and the vertical flip that both the reader (`flipv`)
 * and the writer (`rows().rev()`) apply.
 */
module Rasters {
  import opened Bytes
  import opened Formats
  import opened PixelCodec

  datatype Raster = Raster(width: u32, height: u32, pixels: seq<Rgba>)
  {
    /** The image crate's invariant: exactly one pixel per cell. */
    predicate Valid()
    {
      |pixels| == RowStart(width, height)
    }
  }

  /** Row `y` of a valid image lies inside its pixels. */
  lemma {:induction false} RowInside(r: Raster, y: nat)
    requires r.Valid() && y < r.height
    ensures RowStart(r.width, y) + r.width <= |r.pixels|
  {
    RowStartMonotone(r.width, y, r.height);
  }

  /** The pixel in column `x` of row `y`, rows counted from the top. */
  function PixelAt(r: Raster, x: nat, y: nat): Rgba
    requires r.Valid() && x < r.width && y < r.height
  {
    RowInside(r, y);
    r.pixels[RowStart(r.width, y) + x]
  }

  /** Row `y`, as `rows()` yields it. */
  function Row(r: Raster, y: nat): (row: seq<Rgba>)
    requires r.Valid() && y < r.height
    ensures |row| == r.width as int
  {
    RowInside(r, y);
    r.pixels[RowStart(r.width, y) .. RowStart(r.width, y) + r.width]
  }

  /** The bottom `k` rows, bottom row first: what `rows().rev()` yields first. */
  function FlipRows(r: Raster, k: nat): (ps: seq<Rgba>)
    requires r.Valid() && k <= r.height
    ensures |ps| == RowStart(r.width, k)
  {
    if k == 0 then [] else FlipRows(r, k - 1) + Row(r, r.height - k)
  }

  /** One more row from the bottom: row `height - 1 - k` follows the bottom `k` rows. */
  lemma {:induction false} FlipRowsNext(r: Raster, k: nat)
    requires r.Valid() && k < r.height
    ensures FlipRows(r, k + 1) == FlipRows(r, k) + Row(r, r.height - 1 - k)
  {
  }

  /** `DynamicImage::flipv`: the rows in reverse order. */
  function FlipV(r: Raster): (f: Raster)
    requires r.Valid()
    ensures f.Valid() && f.width == r.width && f.height == r.height
  {
    Raster(r.width, r.height, FlipRows(r, r.height))
  }

  lemma {:induction false} FlipRowsAt(r: Raster, k: nat, j: nat, x: nat)
    requires r.Valid() && j < k <= r.height && x < r.width
    ensures RowStart(r.width, j) + x < |FlipRows(r, k)|
    ensures FlipRows(r, k)[RowStart(r.width, j) + x] == PixelAt(r, x, r.height - 1 - j)
  {
    var w, h := r.width as int, r.height as int;
    var init, row := FlipRows(r, k - 1), Row(r, h - k);
    assert FlipRows(r, k) == init + row;
    if j < k - 1 {
      FlipRowsAt(r, k - 1, j, x);
    } else {
      RowInside(r, h - k);
      assert row[x] == r.pixels[RowStart(w, h - k) + x];
    }
  }

  /** Row `y` of the flipped image is row `height - 1 - y` of the original. */
  lemma {:induction false} FlipVAt(r: Raster, x: nat, y: nat)
    requires r.Valid() && x < r.width && y < r.height
    ensures PixelAt(FlipV(r), x, y) == PixelAt(r, x, r.height - 1 - y)
  {
    FlipRowsAt(r, r.height, y, x);
  }

  /** The same, in storage order: the flipped image's pixel in column `x` of row `y`. */
  lemma {:induction false} FlipVPixel(r: Raster, x: nat, y: nat)
    requires r.Valid() && x < r.width && y < r.height
    ensures RowStart(r.width, y) + x < |FlipV(r).pixels|
    ensures FlipV(r).pixels[RowStart(r.width, y) + x] == PixelAt(r, x, r.height - 1 - y)
  {
    FlipRowsAt(r, r.height, y, x);
  }

  /** Two images of the same size with the same pixel in every cell are equal. */
  lemma {:induction false} SamePixels(r: Raster, s: Raster)
    requires r.Valid() && s.Valid() && r.width == s.width && r.height == s.height
    requires forall x, y | 0 <= x < r.width && 0 <= y < r.height :: PixelAt(r, x, y) == PixelAt(s, x, y)
    ensures r == s
  {
    forall i | 0 <= i < |r.pixels|
      ensures r.pixels[i] == s.pixels[i]
    {
      var x, y := PixelOfIndex(r, i);
      assert s.pixels[i] == PixelAt(s, x, y);
    }
  }

  /** Index `i` of a grid of `h` rows lies in column `x` of some row `y`. */
  lemma {:induction false} RowOf(w: nat, h: nat, i: nat) returns (x: nat, y: nat)
    requires i < RowStart(w, h)
    ensures x < w && y < h && i == RowStart(w, y) + x
    decreases h
  {
    if i < RowStart(w, h - 1) {
      x, y := RowOf(w, h - 1, i);
    } else {
      x, y := i - RowStart(w, h - 1), h - 1;
    }
  }

  /** Pixel `i` in storage order is the one in column `i % width` of row `i / width`. */
  lemma {:induction false} PixelOfIndex(r: Raster, i: nat) returns (x: nat, y: nat)
    requires r.Valid() && i < |r.pixels|
    ensures x < r.width && y < r.height && i == RowStart(r.width, y) + x
    ensures r.pixels[i] == PixelAt(r, x, y)
  {
    x, y := RowOf(r.width, r.height, i);
  }

  /** Flipping twice gives the original image back. */
  lemma {:induction false} FlipVInvolution(r: Raster)
    requires r.Valid()
    ensures FlipV(FlipV(r)) == r
  {
    var f := FlipV(r);
    forall x, y | 0 <= x < r.width && 0 <= y < r.height
      ensures PixelAt(FlipV(f), x, y) == PixelAt(r, x, y)
    {
      FlipVAt(f, x, y);
      FlipVAt(r, x, r.height - 1 - y);
    }
    SamePixels(FlipV(f), r);
  }

  /** The image a reader sees after a writer stored `r` in format `f`. */
  function QuantiseRaster(f: TextureFormat, r: Raster): (q: Raster)
    ensures q.width == r.width && q.height == r.height && |q.pixels| == |r.pixels|
  {
    Raster(r.width, r.height, QuantiseAll(f, r.pixels))
  }

  lemma {:induction false} QuantiseRasterAt(f: TextureFormat, r: Raster, x: nat, y: nat)
    requires r.Valid() && x < r.width && y < r.height
    ensures QuantiseRaster(f, r).Valid()
    ensures PixelAt(QuantiseRaster(f, r), x, y) == Quantise(f, PixelAt(r, x, y))
  {
    var i := RowStart(r.width, y) + x;
    RowInside(r, y);
    assert QuantiseAll(f, r.pixels)[i] == Quantise(f, r.pixels[i]);
  }

  /** Quantising works pixel by pixel, so it commutes with the flip. */
  lemma {:induction false} FlipVQuantise(f: TextureFormat, r: Raster)
    requires r.Valid()
    ensures QuantiseRaster(f, r).Valid()
    ensures FlipV(QuantiseRaster(f, r)) == QuantiseRaster(f, FlipV(r))
  {
    var q := QuantiseRaster(f, r);
    forall x, y | 0 <= x < r.width && 0 <= y < r.height
      ensures PixelAt(FlipV(q), x, y) == PixelAt(QuantiseRaster(f, FlipV(r)), x, y)
    {
      FlipVAt(q, x, y);
      FlipVAt(r, x, y);
      QuantiseRasterAt(f, r, x, r.height - 1 - y);
      QuantiseRasterAt(f, FlipV(r), x, y);
    }
    SamePixels(FlipV(q), QuantiseRaster(f, FlipV(r)));
  }
}
