# Mandelbrot raster and PPM encoder: a Dafny model

This project models the integer part of a small Rust Mandelbrot renderer
(`src/main.rs`). It covers four pieces:

- `Image24Bits`, the pixel buffer: a fixed-length vector of `(u8, u8, u8)`
  triples in row-major order. It is created with one default colour and then
  changed one cell at a time by `set_pixel`.
- The text that `save_to_file` writes: a plain ("P3") PPM file of the Netpbm
  project. The header is `P3`, the comment `# Created in Rust`, the line
  `width height` and the line `255`. Then comes one record per pixel, in storage
  order.
- The nested loop in `main` that fills a `size × size` buffer with
  `set_pixel(i, j, colour)`.
- The integer shape of `mandelbrot`: the first escaping iteration `i` in
  1..254 gives the grey `(i, i, i)`, and no escape gives black.

Files:

- `decimal.dfy`: Rust's `{}` decimal rendering of unsigned integers (`Dec`),
  and a reader for it (`ParseNat`).
- `ppm.dfy`: the `Pixel` triple and the encoder (`Header`, `Record`,
  `Records`, `Encode`). It also has a decoder (`Decode`), the encoder's
  inverse, and the round-trip proof.
- `raster.dfy`: the class `Image24Bits`. It has a constructor, `SetPixel` (an
  in-place array update) and `SaveToFile`, which builds the text in a loop.
- `escape.dfy`: `mandelbrot` with the complex arithmetic abstracted away.
- `render.dfy`: the rendering loop of `main`, and a 2 × 2 client.

Two behaviours of the code are easy to misread:

- **Bounds of `set_pixel`.** One might expect a per-axis check (`column < width`,
  `row < height`). The code has none: its only check is the vector's own index
  check on `width * row + column` (src/main.rs:106). So `SetPixel` requires
  only that this linear index is inside the buffer. A column past the end of
  a row lands at the start of the next row (`ColumnOverflowSpills`,
  `ColumnOverflowExample`).
- **Blank lines.** Each record is written with `writeln!` and a format string
  that already ends in `\n` (src/main.rs:93). So every pixel line is followed by
  a blank line, and `Record` ends in `"\n\n"`. Plain PPM treats any whitespace
  as a separator, so the file is still valid.

## Model

| member | source | states |
|---|---|---|
| `Decimal.Dec` | src/main.rs:93 | a number is printed as a non-empty run of digits that denote it, with no leading zero: a string starting with `0` is `"0"` and stands for zero |
| `Decimal.ByteWidth` | src/main.rs:93 | a channel value below 256 takes one to three digits: one below 10, three from 100 on |
| `Decimal.ParseDec` | src/main.rs:82-83 | reading back a printed number followed by a non-digit gives the number and exactly what follows it |
| `Ppm.Encode` | src/main.rs:81-97 | the file text starts with the header `P3\n# Created in Rust\n{w} {h}\n255\n` |
| `Ppm.RecordsSnoc` | src/main.rs:92-97 | writing one more pixel appends its record, so records come in storage order |
| `Ppm.RecordShape` | src/main.rs:93 | each record is three fields of 1–3 digits, one per channel and in the order r, g, b, separated by single spaces and closed by `"\n\n"` |
| `Ppm.DecodeRecordOf` | src/main.rs:93 | a record followed by any text decodes to exactly its pixel and leaves that text |
| `Ppm.DecodeRecordsOf` | src/main.rs:92-97 | the records of a pixel sequence decode to exactly that sequence: one record per pixel, in order |
| `Ppm.DecodeHeaderOf` | src/main.rs:82-83 | the header decodes to the width and height it was written from |
| `Ppm.DecodeEncode` | src/main.rs:81-103 | round trip: decoding the written text gives back the width, the height and every pixel in storage order when there are width × height pixels |
| `Raster.ColumnOverflowSpills` | src/main.rs:105-107 | with only the linear index checked, column `c >= width` of row `r` is column `c - width` of row `r + 1` |
| `Raster.Image24Bits.constructor` | src/main.rs:73-79 | `new(w, h, d)` has width `w`, height `h` and exactly `w * h` cells, all equal to `d` |
| `Raster.Image24Bits.SetPixel` | src/main.rs:105-107 | requires `width * row + column` inside the buffer; afterwards that cell holds the colour and every other cell is unchanged |
| `Raster.Image24Bits.SaveToFile` | src/main.rs:81-103 | the loop over the pixels produces exactly `Encode(width, height, pixels)`, and that text decodes back to the buffer's width, height and pixels |
| `Escape.EscapeTime` | src/main.rs:113-121 | the escape time is 0 or an iteration in the range the loop runs (1..254) |
| `Escape.EscapeTimeIsFirstEscape` | src/main.rs:113-121 | a non-zero escape time is an iteration at which the test holds, with no earlier one; it is 0 exactly when no iteration 1..254 escapes |
| `Escape.Mandelbrot` | src/main.rs:110-122 | the loop returns the grey of the escape time: red = green = blue, never 255 |
| `Render.CellInBounds` | src/main.rs:133-142 | every `set_pixel(i, j, _)` with `i, j < size` on a `size × size` buffer is in bounds |
| `Render.CellIndexInjective` | src/main.rs:133-142 | distinct `(column, row)` pairs of a `size × size` buffer address distinct cells |
| `Render.StepOfCell` | src/main.rs:133-142 | step `size * i + j` of the nested loop writes cell `(i, j)` |
| `Render.FillStep` | src/main.rs:133-142 | writing pixel `(i, j)` adds it to the filled region and leaves every earlier pixel intact |
| `Render.WriteOrderInjective` | src/main.rs:133-142 | no cell is written at two different steps of the loop |
| `Render.WriteOrderCovers` | src/main.rs:133-142 | every cell of the buffer is written at some step of the loop |
| `Render.Render` | src/main.rs:124-142 | the buffer is newly allocated; after the nested loop, pixel `(i, j)` holds `shade(i, j)` for all `i, j < size`; every cell `k` holds the shade of its own column `k % size` and row `k / size`; the writes come in the loop's order, which visits each cell exactly once |
| `Render.ColumnOverflowExample` | src/main.rs:105-107 | on a 2 × 2 black buffer, `set_pixel(2, 0, c)` is accepted and writes the first cell of row 1 |
| `Render.TwoByTwoExample` | src/main.rs:73-107 | a black 2 × 2 buffer with pixel (1, 0) set to white saves as the header and then the records black, white, black, black |

## Left out

- `Complex64` and its `abs`, `Add`, `Sub`, `Div` and `Mul` (src/main.rs:8-63) use IEEE-754 `f64` arithmetic, so they are not modelled. This also leaves out the sign quirk in `sub` (`im: -self.im - rhs.im`) and the behaviour of `div` when dividing by zero.
- `Escape.Mandelbrot`: the escape test `abs(z) > 4.0` and the update `z = z * z + point` are float arithmetic. They are passed in as `escaped` and `step`, and the starting value `0 + 0i` as `start`. So the model says nothing about which points escape.
- `Render.Render`: the float mapping from a pixel to a point of the plane, followed by `mandelbrot`, is passed in as the function `shade`. The loop is modelled for any `size`. `main` uses 4096, with the default colour black.
- File creation, `write_all`, the 8192-byte `BufWriter`, `flush` and the `panic!` on each I/O error are not modelled. The model gives only the character sequence that is written.
- `Raster.Image24Bits.SaveToFile` takes `self` by value in Rust, which consumes the buffer. The model only reads the buffer.
- `Raster.Image24Bits.SetPixel`: the index `width * row + column` is computed with unbounded integers, not in `usize`. The requires follows a debug build, where an overflowing index panics; in a release build the index wraps, and a wrapped index that lands inside the buffer is written silently. That case is not modelled.
- `Raster.Image24Bits.constructor`: sizes are unbounded `nat`s, so a `usize` overflow of `width * height` is not modelled.
- The decoder in `ppm.dfy` is not part of the program. It reads back only what this encoder writes: this exact comment line, and no other whitespace layout. It also accepts leading zeros.
