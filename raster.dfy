// The backbuffer of src/main.rs and the render loop that fills it.
module Raster {

  /** Values of a `u32`. */
  type U32 = x: int | 0 <= x < 0x1_0000_0000

  /** A `u8` colour channel. */
  type U8 = x: int | 0 <= x < 256

  datatype Pixel = Pixel(r: U8, g: U8, b: U8)

  const Black: Pixel := Pixel(0, 0, 0)

  /** Row-major position of pixel (x, y) in a buffer `width` pixels wide. */
  function Index(width: nat, x: nat, y: nat): nat
  {
    y * width + x
  }

  /** Row-major order: a cell in an earlier row, or earlier in the same
      row, sits at a smaller index. */
  lemma IndexOrder(width: nat, x1: nat, y1: nat, x2: nat, y2: nat)
    requires x1 < width
    requires y1 < y2 || (y1 == y2 && x1 < x2)
    ensures Index(width, x1, y1) < Index(width, x2, y2)
  {
    if y1 < y2 {
      calc {
        Index(width, x1, y1);
      <
        y1 * width + width;
      ==
        (y1 + 1) * width;
      <= { MulMonotone(y1 + 1, y2, width); }
        y2 * width;
      <=
        Index(width, x2, y2);
      }
    }
  }

  lemma MulMonotone(a: nat, b: nat, c: nat)
    requires a <= b
    ensures a * c <= b * c
  {
  }

  /** Every cell of a `width`×`height` grid lies inside the buffer. */
  lemma IndexInBounds(width: nat, height: nat, x: nat, y: nat)
    requires x < width && y < height
    ensures Index(width, x, y) < width * height
  {
    IndexOrder(width, x, y, 0, height);
  }

  lemma GridInBounds(width: nat, height: nat)
    ensures forall x: nat, y: nat :: x < width && y < height ==> Index(width, x, y) < width * height
  {
    forall x: nat, y: nat | x < width && y < height
      ensures Index(width, x, y) < width * height
    {
      IndexInBounds(width, height, x, y);
    }
  }

  /** Index can be decoded: column and row are remainder and quotient. */
  lemma IndexDecodes(width: nat, x: nat, y: nat)
    requires x < width
    ensures Index(width, x, y) / width == y && Index(width, x, y) % width == x
  {
    var i := Index(width, x, y);
    var q, r := i / width, i % width;
    assert i == q * width + r;
    if q < y {
      IndexOrder(width, r, q, x, y);
    } else if q > y {
      IndexOrder(width, x, y, r, q);
    }
  }

  /** Every index of the buffer is the position of some cell. */
  lemma IndexCovers(width: nat, height: nat, i: nat)
    requires i < width * height
    ensures width > 0 && i % width < width && i / width < height
    ensures Index(width, i % width, i / width) == i
  {
    assert width > 0;
    var y := i / width;
    if y >= height {
      MulMonotone(height, y, width);
      assert false;
    }
  }

  /** `x` is not checked against the width: writing at column
      `x + width` of row `y` writes the cell at column `x` of row `y + 1`. */
  lemma IndexWrapsToNextRow(width: nat, x: nat, y: nat)
    ensures Index(width, x + width, y) == Index(width, x, y + 1)
  {
  }

  /** The image `render` produces: cell `i` holds the shade of its own
      column `i % width` and row `i / width`. */
  function Rendered(width: nat, height: nat, shade: (nat, nat) -> Pixel): seq<Pixel>
  {
    seq(width * height, i requires 0 <= i < width * height =>
      IndexCovers(width, height, i); shade(i % width, i / width))
  }

  /** In the rendered image, the cell of column `x` and row `y` holds
      `shade(x, y)`, for every cell of the grid. */
  lemma RenderedAt(width: nat, height: nat, shade: (nat, nat) -> Pixel, x: nat, y: nat)
    requires x < width && y < height
    ensures |Rendered(width, height, shade)| == width * height
    ensures Index(width, x, y) < width * height
    ensures Rendered(width, height, shade)[Index(width, x, y)] == shade(x, y)
  {
    IndexInBounds(width, height, x, y);
    IndexDecodes(width, x, y);
  }

  /** A buffer of the grid's size that holds `shade(x, y)` at every cell
      (x, y) is the rendered image: no cell is left out. */
  lemma {:induction false} EveryCellRendered(pixels: seq<Pixel>, width: nat, height: nat, shade: (nat, nat) -> Pixel)
    requires |pixels| == width * height
    requires forall x: nat, y: nat :: x < width && y < height ==>
      Index(width, x, y) < |pixels| && pixels[Index(width, x, y)] == shade(x, y)
    ensures pixels == Rendered(width, height, shade)
  {
    var image := Rendered(width, height, shade);
    forall i: nat | i < width * height
      ensures pixels[i] == image[i]
    {
      IndexCovers(width, height, i);
    }
  }

  /** The cells a row-major scan has visited before reaching (x, y). */
  lemma EarlierCells(width: nat, x: nat, y: nat)
    requires x <= width
    ensures forall y': nat, x': nat :: (y' < y && x' < width) || (y' == y && x' < x) ==>
      Index(width, x', y') < Index(width, x, y)
  {
    forall y': nat, x': nat | (y' < y && x' < width) || (y' == y && x' < x)
      ensures Index(width, x', y') < Index(width, x, y)
    {
      IndexOrder(width, x', y', x, y);
    }
  }

  /** `Backbuffer`: a `width`×`height` grid of pixels, stored row-major. */
  class Backbuffer {
    var width: U32
    var height: U32
    var pixels: array<Pixel>

    ghost predicate Valid()
      reads this
    {
      && width * height < 0x1_0000_0000
      && pixels.Length == width * height
    }

    /** `Backbuffer::new`: every pixel black. The pixel count
        `width * height` must fit in a u32. */
    constructor (width: U32, height: U32)
      requires width * height < 0x1_0000_0000
      ensures Valid() && fresh(pixels)
      ensures this.width == width && this.height == height
      ensures pixels[..] == seq(width * height, _ => Black)
    {
      this.width := width;
      this.height := height;
      pixels := new Pixel[width * height](_ => Black);
    }

    /** `Backbuffer::set`: overwrite the cell at row-major index
        `y * width + x`, which must lie inside the buffer (otherwise the
        `set` panics). `x` is not checked against `width`. */
    method Set(x: U32, y: U32, pixel: Pixel)
      requires Valid()
      requires Index(width, x, y) < pixels.Length
      modifies pixels
      ensures Valid() && unchanged(this)
      ensures pixels[Index(width, x, y)] == pixel
      ensures forall i :: 0 <= i < pixels.Length && i != Index(width, x, y) ==> pixels[i] == old(pixels[i])
    {
      pixels[Index(width, x, y)] := pixel;
    }
  }

  /** `render`: y outer, x inner, one write per cell. `shade(x, y)` stands
      for the per-pixel work (ray generation, `trace_radiance`,
      `Pixel::from_unit`), which reads only the camera and the scene. */
  method Render(buffer: Backbuffer, shade: (nat, nat) -> Pixel)
    requires buffer.Valid()
    modifies buffer.pixels
    ensures buffer.Valid()
    ensures buffer.pixels[..] == Rendered(buffer.width, buffer.height, shade)
  {
    var width: nat, height: nat := buffer.width, buffer.height;
    GridInBounds(width, height);
    for y := 0 to height
      invariant forall y': nat, x': nat :: y' < y && x' < width ==>
        buffer.pixels[Index(width, x', y')] == shade(x', y')
      invariant forall i :: Index(width, 0, y) <= i < buffer.pixels.Length ==>
        buffer.pixels[i] == old(buffer.pixels[i])
    {
      for x := 0 to width
        invariant forall y': nat, x': nat :: (y' < y && x' < width) || (y' == y && x' < x) ==>
          buffer.pixels[Index(width, x', y')] == shade(x', y')
        invariant forall i :: Index(width, x, y) <= i < buffer.pixels.Length ==>
          buffer.pixels[i] == old(buffer.pixels[i])
      {
        IndexInBounds(width, height, x, y);
        EarlierCells(width, x, y);
        buffer.Set(x, y, shade(x, y));
      }
      assert Index(width, width, y) == Index(width, 0, y + 1);
    }
    EveryCellRendered(buffer.pixels[..], width, height, shade);
  }
}
