/**
 * The rendering loop of `main`: a `size × size` buffer, black by default,
 * filled by visiting every column `i` and, inside it, every row `j`, and
 * writing the colour of pixel `(i, j)` with `set_pixel(i, j, _)`. The colour
 * of a pixel (the plane mapping followed by `mandelbrot`) is the parameter
 * `shade`.
 */
module Render {
  import opened Ppm
  import opened Raster
  import opened Decimal

  const Black: Pixel := Pixel(0, 0, 0)

  /** A cell index splits uniquely into a row (quotient) and a column (remainder). */
  lemma DivModUnique(size: nat, q: nat, r: nat)
    requires r < size
    ensures (size * q + r) / size == q
    ensures (size * q + r) % size == r
  {
    var x := size * q + r;
    var d := x / size;
    assert x == size * d + x % size;
    if d < q {
      MulMonotone(size, d + 1, q);
      assert false;
    } else if d > q {
      MulMonotone(size, q + 1, d);
      assert false;
    }
  }

  lemma MulMonotone(a: nat, b: nat, c: nat)
    requires b <= c
    ensures a * b <= a * c
  {
  }

  /** Every cell a `size × size` loop addresses lies inside the buffer. */
  lemma CellInBounds(size: nat, i: nat, j: nat)
    requires i < size && j < size
    ensures CellIndex(size, i, j) < size * size
  {
    MulMonotone(size, j + 1, size);
    assert size * (j + 1) == size * j + size;
  }

  /** Distinct pixels of a `size × size` raster have distinct cells. */
  lemma CellIndexInjective(size: nat, i: nat, j: nat, i': nat, j': nat)
    requires i < size && j < size && i' < size && j' < size
    requires CellIndex(size, i, j) == CellIndex(size, i', j')
    ensures i == i' && j == j'
  {
    DivModUnique(size, j, i);
    DivModUnique(size, j', i');
  }

  lemma StepInRange(size: nat, t: nat)
    requires t < size * size
    ensures t / size < size && t % size < size
  {
    if t / size >= size {
      MulMonotone(size, size, t / size);
      assert false;
    }
  }

  /**
   * The cell written at step `t` of the loop: step `t` is column `t / size`,
   * row `t % size`.
   */
  function WriteOrder(size: nat): (cells: seq<nat>)
    ensures |cells| == size * size
  {
    seq(size * size, t requires 0 <= t < size * size => CellIndex(size, t / size, t % size))
  }

  /** The cell written at a step determines the step: column and row are recovered from it. */
  lemma StepOfWrite(size: nat, t: nat)
    requires t < size * size
    ensures var cell := WriteOrder(size)[t]; t == size * (cell % size) + cell / size
  {
    StepInRange(size, t);
    var q, r := t / size, t % size;
    var cell := WriteOrder(size)[t];
    assert cell == size * r + q;
    DivModUnique(size, r, q);
    assert cell % size == q && cell / size == r;
    DivMod(size, t);
  }

  lemma DivMod(size: nat, t: nat)
    requires size > 0
    ensures t == size * (t / size) + t % size
  {
  }

  /** No cell is written twice. */
  lemma WriteOrderInjective(size: nat, s: nat, t: nat)
    requires s < t < size * size
    ensures WriteOrder(size)[s] != WriteOrder(size)[t]
  {
    StepOfWrite(size, s);
    StepOfWrite(size, t);
  }

  /** Every cell of the buffer is written at some step. */
  lemma WriteOrderCovers(size: nat, cell: nat)
    requires cell < size * size
    ensures exists t :: 0 <= t < size * size && WriteOrder(size)[t] == cell
  {
    StepInRange(size, cell);
    StepOfCell(size, cell % size, cell / size);
  }

  /** Column `i` takes steps `size * i` up to `size * (i + 1)`, all within the loop's `size * size` steps. */
  lemma ColumnSteps(size: nat, i: nat)
    requires i < size
    ensures size * i + size == size * (i + 1) <= size * size
  {
    MulMonotone(size, i + 1, size);
  }

  /** Step `size * i + j` of the loop writes cell `(i, j)`. */
  lemma StepOfCell(size: nat, i: nat, j: nat)
    requires i < size && j < size
    ensures size * i + j < size * size
    ensures WriteOrder(size)[size * i + j] == CellIndex(size, i, j)
  {
    CellInBounds(size, j, i);
    DivModUnique(size, i, j);
  }

  /**
   * The pixels the loop has visited before column `i`, row `j` hold their
   * shades: all of columns `0..i`, and rows `0..j` of column `i`.
   */
  ghost predicate Filled(cells: seq<Pixel>, size: nat, shade: (nat, nat) -> Pixel, i: nat, j: nat) {
    && |cells| == size * size
    && forall i', j' :: 0 <= i' < size && 0 <= j' < size && (i' < i || (i' == i && j' < j)) ==>
         CellIndex(size, i', j') < |cells| && cells[CellIndex(size, i', j')] == shade(i', j')
  }

  /** Writing pixel `(i, j)` extends the filled region by that pixel and disturbs no other. */
  lemma FillStep(before: seq<Pixel>, size: nat, shade: (nat, nat) -> Pixel, i: nat, j: nat)
    requires i < size && j < size
    requires Filled(before, size, shade, i, j)
    ensures CellIndex(size, i, j) < |before|
    ensures Filled(before[CellIndex(size, i, j) := shade(i, j)], size, shade, i, j + 1)
  {
    CellInBounds(size, i, j);
    var after := before[CellIndex(size, i, j) := shade(i, j)];
    forall i', j' | 0 <= i' < size && 0 <= j' < size && (i' < i || (i' == i && j' < j + 1))
      ensures CellIndex(size, i', j') < |after| && after[CellIndex(size, i', j')] == shade(i', j')
    {
      CellInBounds(size, i', j');
      if (i', j') != (i, j) && CellIndex(size, i', j') == CellIndex(size, i, j) {
        CellIndexInjective(size, i, j, i', j');
      }
    }
  }

  /** A column filled to its last row completes the region up to the next column. */
  lemma FilledNextColumn(cells: seq<Pixel>, size: nat, shade: (nat, nat) -> Pixel, i: nat)
    requires Filled(cells, size, shade, i, size)
    ensures Filled(cells, size, shade, i + 1, 0)
  {
  }

  /** The log after step `n` is the log before it plus the cell step `n` writes. */
  lemma WriteOrderPrefix(size: nat, n: nat)
    requires n < size * size
    ensures WriteOrder(size)[..n + 1] == WriteOrder(size)[..n] + [WriteOrder(size)[n]]
  {
  }

  /** Once every column is filled, each cell holds the shade of its own column and row. */
  lemma FilledAll(cells: seq<Pixel>, size: nat, shade: (nat, nat) -> Pixel)
    requires Filled(cells, size, shade, size, 0)
    ensures forall i, j :: 0 <= i < size && 0 <= j < size ==>
      CellIndex(size, i, j) < |cells| && cells[CellIndex(size, i, j)] == shade(i, j)
    ensures forall k :: 0 <= k < |cells| ==> cells[k] == shade(k % size, k / size)
  {
    forall k | 0 <= k < |cells|
      ensures cells[k] == shade(k % size, k / size)
    {
      StepInRange(size, k);
      var i, j := k % size, k / size;
      assert k == size * j + i;
      assert cells[CellIndex(size, i, j)] == shade(i, j);
    }
  }

  /**
   * `main`'s nested loop. Every `set_pixel` call is in bounds; pixel `(i, j)`
   * ends up holding `shade(i, j)` in cell `size * j + i`, so every cell holds
   * the colour of its own column and row; and `writes`, the cells written
   * in loop order, visits every cell exactly once (see `WriteOrderInjective`
   * and `WriteOrderCovers`).
   */
  method Render(size: nat, shade: (nat, nat) -> Pixel) returns (image: Image24Bits, ghost writes: seq<nat>)
    ensures fresh(image) && fresh(image.pixels)
    ensures image.Valid() && image.width == size && image.height == size
    ensures forall i, j :: 0 <= i < size && 0 <= j < size ==>
      CellIndex(size, i, j) < image.pixels.Length && image.pixels[CellIndex(size, i, j)] == shade(i, j)
    ensures forall k :: 0 <= k < image.pixels.Length ==> image.pixels[k] == shade(k % size, k / size)
    ensures writes == WriteOrder(size)
  {
    image := new Image24Bits(size, size, Black);
    writes := [];
    ghost var step: nat := 0;
    for i := 0 to size
      invariant image.Valid() && image.width == size && image.height == size
      invariant Filled(image.pixels[..], size, shade, i, 0)
      invariant step == size * i <= size * size
      invariant writes == WriteOrder(size)[..step]
    {
      ColumnSteps(size, i);
      for j := 0 to size
        invariant Filled(image.pixels[..], size, shade, i, j)
        invariant step == size * i + j < size * size + 1
        invariant writes == WriteOrder(size)[..step]
      {
        FillStep(image.pixels[..], size, shade, i, j);
        image.SetPixel(i, j, shade(i, j));
        StepOfCell(size, i, j);
        WriteOrderPrefix(size, step);
        writes := writes + [CellIndex(size, i, j)];
        step := step + 1;
      }
      FilledNextColumn(image.pixels[..], size, shade, i);
    }
    FilledAll(image.pixels[..], size, shade);
  }

  lemma ExampleTexts()
    ensures Header(2, 2) == "P3\n# Created in Rust\n2 2\n255\n"
    ensures Record(Black) == "0 0 0\n\n"
    ensures Record(Pixel(255, 255, 255)) == "255 255 255\n\n"
  {
    assert Dec(2) == "2" && Dec(0) == "0";
    assert Dec(255) == Dec(25) + "5" && Dec(25) == "25";
  }

  lemma ExampleEncoding(white: Pixel)
    requires white == Pixel(255, 255, 255)
    ensures Encode(2, 2, [Black, white, Black, Black]) == "P3\n# Created in Rust\n2 2\n255\n"
      + "0 0 0\n\n" + "255 255 255\n\n" + "0 0 0\n\n" + "0 0 0\n\n"
  {
    ExampleTexts();
    ExampleRecords(white);
  }

  lemma ExampleRecords(white: Pixel)
    ensures Records([Black, white, Black, Black])
      == Record(Black) + Record(white) + Record(Black) + Record(Black)
  {
    assert Records([Black]) == Record(Black);
    assert Records([Black, Black]) == Record(Black) + Records([Black]);
    assert Records([white, Black, Black]) == Record(white) + Records([Black, Black]);
    assert Records([Black, white, Black, Black]) == Record(Black) + Records([white, Black, Black]);
  }

  /**
   * A 2 × 2 black buffer with pixel (1, 0) set to white saves as four
   * records, the white one second.
   */
  method TwoByTwoExample() returns (text: string)
    ensures text == "P3\n# Created in Rust\n2 2\n255\n"
      + "0 0 0\n\n" + "255 255 255\n\n" + "0 0 0\n\n" + "0 0 0\n\n"
  {
    var image := new Image24Bits(2, 2, Black);
    var white := Pixel(255, 255, 255);
    image.SetPixel(1, 0, white);
    text := image.SaveToFile();
    assert image.pixels[..] == [Black, white, Black, Black];
    ExampleEncoding(white);
  }

  /**
   * Only the linear index is checked: on a 2 × 2 black buffer, column 2 of
   * row 0 is accepted and writes the first cell of row 1.
   */
  method ColumnOverflowExample(c: Pixel) returns (cells: seq<Pixel>)
    ensures cells == [Black, Black, c, Black]
  {
    var image := new Image24Bits(2, 2, Black);
    image.SetPixel(2, 0, c);
    cells := image.pixels[..];
  }
}
