/**
 * `Image24Bits`: a fixed-length buffer of colour triples in row-major order,
 * created with one default colour and then changed one cell at a time.
 */
module Raster {
  import opened Ppm

  /** The row-major cell that `set_pixel(column, row, _)` addresses. */
  function CellIndex(width: nat, column: nat, row: nat): nat {
    width * row + column
  }

  /**
   * Only the linear index is bounds-checked, so a column past the end of a
   * row addresses the start of the next row.
   */
  lemma ColumnOverflowSpills(width: nat, column: nat, row: nat)
    requires column >= width
    ensures CellIndex(width, column, row) == CellIndex(width, column - width, row + 1)
  {
  }

  class Image24Bits {
    const width: nat
    const height: nat
    /** The pixel vector; never resized, so its length and identity are constant. */
    const pixels: array<Pixel>

    ghost predicate Valid()
      reads this
    {
      pixels.Length == width * height
    }

    /** `Image24Bits::new`: `width * height` cells, every one the default colour. */
    constructor (width: nat, height: nat, default: Pixel)
      ensures Valid()
      ensures this.width == width && this.height == height
      ensures fresh(pixels)
      ensures pixels[..] == seq(width * height, _ => default)
    {
      this.width := width;
      this.height := height;
      pixels := new Pixel[width * height](_ => default);
    }

    /**
     * `set_pixel`: overwrites the cell `width * row + column`. The only check
     * is the vector's own index check on that linear index.
     */
    method SetPixel(column: nat, row: nat, color: Pixel)
      requires CellIndex(width, column, row) < pixels.Length
      modifies pixels
      ensures pixels[CellIndex(width, column, row)] == color
      ensures forall k :: 0 <= k < pixels.Length && k != CellIndex(width, column, row) ==>
        pixels[k] == old(pixels[k])
      ensures pixels[..] == old(pixels[..])[CellIndex(width, column, row) := color]
    {
      pixels[CellIndex(width, column, row)] := color;
    }

    /**
     * The text `save_to_file` writes: the header, then each pixel's record
     * in storage order, built one record per loop step.
     */
    method SaveToFile() returns (text: string)
      requires Valid()
      ensures text == Encode(width, height, pixels[..])
      ensures Decode(text) == Options.Some(Image(width, height, pixels[..]))
    {
      text := Header(width, height);
      for i := 0 to pixels.Length
        invariant text == Header(width, height) + Records(pixels[..i])
      {
        var done, p := pixels[..i], pixels[i];
        assert pixels[..i + 1] == done + [p];
        RecordsSnoc(done, p);
        Assoc(Header(width, height), Records(done), Record(p));
        text := text + Record(p);
      }
      assert pixels[..pixels.Length] == pixels[..];
      DecodeEncode(width, height, pixels[..]);
    }
  }
}
