/**
 * The plain ("P3") PPM text of the Netpbm project, as `Image24Bits::save_to_file`
 * writes it: a four-line header, then one record per pixel in buffer
 * storage order. Each record is written by `writeln!` with a format that
 * already ends in a newline, so every pixel line is followed by a blank line.
 *
 * `Decode` reads that text back; it is the partner of `Encode`, and
 * `DecodeEncode` proves the text carries the dimensions and every pixel, in
 * order, and nothing else.
 */
module Ppm {
  import opened Options
  import opened Decimal

  /** A `u8` colour channel. */
  type Byte = x: int | 0 <= x < 256

  /** A `(u8, u8, u8)` colour triple: red, green, blue. */
  datatype Pixel = Pixel(r: Byte, g: Byte, b: Byte)

  /** The format tag and the comment line that open every file. */
  const Preamble: string := "P3\n# Created in Rust\n"

  /** What follows the dimensions: the maximum channel value line. */
  const MaxValueLine: string := "\n255\n"

  /** What `writeln!` emits after the third channel of every pixel. */
  const RecordEnd: string := "\n\n"

  function Header(width: nat, height: nat): string {
    Preamble + Dec(width) + " " + Dec(height) + MaxValueLine
  }

  function Record(p: Pixel): string {
    Dec(p.r) + " " + Dec(p.g) + " " + Dec(p.b) + RecordEnd
  }

  /** One record per pixel, in storage order. */
  function Records(ps: seq<Pixel>): string {
    if ps == [] then [] else Record(ps[0]) + Records(ps[1..])
  }

  /** The whole text `save_to_file` writes, header first. */
  function Encode(width: nat, height: nat, ps: seq<Pixel>): (text: string)
    ensures Header(width, height) <= text
  {
    Header(width, height) + Records(ps)
  }

  /** Appending a pixel appends its record: the encoder may write pixels one at a time. */
  lemma {:induction false} RecordsSnoc(ps: seq<Pixel>, p: Pixel)
    ensures Records(ps + [p]) == Records(ps) + Record(p)
  {
    if ps == [] {
      assert [p][1..] == [];
    } else {
      assert (ps + [p])[1..] == ps[1..] + [p];
      RecordsSnoc(ps[1..], p);
    }
  }

  /** Each record is three fields of one to three digits, separated by spaces and closed by a blank line. */
  lemma RecordShape(p: Pixel)
    ensures exists dr, dg, db ::
      && Record(p) == dr + " " + dg + " " + db + "\n\n"
      && 1 <= |dr| <= 3 && AllDigits(dr) && ValueOf(dr) == p.r
      && 1 <= |dg| <= 3 && AllDigits(dg) && ValueOf(dg) == p.g
      && 1 <= |db| <= 3 && AllDigits(db) && ValueOf(db) == p.b
  {
    ByteWidth(p.r);
    ByteWidth(p.g);
    ByteWidth(p.b);
    assert Record(p) == Dec(p.r) + " " + Dec(p.g) + " " + Dec(p.b) + "\n\n";
  }

  // ----- Decoding: the inverse of Encode -----

  datatype Image = Image(width: nat, height: nat, pixels: seq<Pixel>)

  /** Strips the literal `lit` from the front of `s`. */
  function Expect(lit: string, s: string): (r: Option<string>)
    ensures r.Some? ==> |r.value| == |s| - |lit|
  {
    if |lit| <= |s| && s[..|lit|] == lit then Some(s[|lit|..]) else None
  }

  /** A number followed by the separator `sep`: the number and what follows the separator. */
  function ParseField(sep: string, s: string): (r: Option<(nat, string)>)
    ensures r.Some? ==> |r.value.1| < |s|
  {
    match ParseNat(s)
    case None => None
    case Some((v, rest)) =>
      match Expect(sep, rest)
      case None => None
      case Some(after) => Some((v, after))
  }

  /** A channel value: a field no greater than 255. */
  function ParseChannel(sep: string, s: string): (r: Option<(Byte, string)>)
    ensures r.Some? ==> |r.value.1| < |s|
  {
    match ParseField(sep, s)
    case None => None
    case Some((v, rest)) => if v < 256 then Some((v, rest)) else None
  }

  function DecodeRecord(s: string): (r: Option<(Pixel, string)>)
    ensures r.Some? ==> |r.value.1| < |s|
  {
    match ParseChannel(" ", s)
    case None => None
    case Some((red, s1)) =>
      match ParseChannel(" ", s1)
      case None => None
      case Some((green, s2)) =>
        match ParseChannel(RecordEnd, s2)
        case None => None
        case Some((blue, s3)) => Some((Pixel(red, green, blue), s3))
  }

  function DecodeRecords(s: string): Option<seq<Pixel>>
    decreases |s|
  {
    if s == [] then Some([])
    else
      match DecodeRecord(s)
      case None => None
      case Some((p, rest)) =>
        match DecodeRecords(rest)
        case None => None
        case Some(ps) => Some([p] + ps)
  }

  /** Reads the four header lines: the width, the height and what follows them. */
  function DecodeHeader(text: string): Option<(nat, nat, string)> {
    match Expect(Preamble, text)
    case None => None
    case Some(s1) =>
      match ParseField(" ", s1)
      case None => None
      case Some((w, s2)) =>
        match ParseField(MaxValueLine, s2)
        case None => None
        case Some((h, s3)) => Some((w, h, s3))
  }

  /** Reads a file as `Encode` writes it; the pixel count must be width times height. */
  function Decode(text: string): Option<Image> {
    match DecodeHeader(text)
    case None => None
    case Some((w, h, body)) =>
      match DecodeRecords(body)
      case None => None
      case Some(ps) => if |ps| == w * h then Some(Image(w, h, ps)) else None
  }

  lemma ExpectPrefix(lit: string, rest: string)
    ensures Expect(lit, lit + rest) == Some(rest)
  {
    assert (lit + rest)[..|lit|] == lit;
    assert (lit + rest)[|lit|..] == rest;
  }

  /** A rendered number followed by a separator that does not start with a digit reads back. */
  lemma ParseFieldDec(n: nat, sep: string, rest: string)
    requires sep != [] && !IsDigit(sep[0])
    ensures ParseField(sep, Dec(n) + (sep + rest)) == Some((n, rest))
  {
    ParseDec(n, sep + rest);
    ExpectPrefix(sep, rest);
  }

  lemma Assoc(a: string, b: string, c: string)
    ensures (a + b) + c == a + (b + c)
  {
  }

  /** A record followed by `rest`, regrouped field by field. */
  lemma RecordThen(p: Pixel, rest: string)
    ensures Record(p) + rest
      == Dec(p.r) + (" " + (Dec(p.g) + (" " + (Dec(p.b) + (RecordEnd + rest)))))
  {
    var t2 := Dec(p.b) + (RecordEnd + rest);
    var t1 := Dec(p.g) + (" " + t2);
    var r4 := Dec(p.r) + " " + Dec(p.g) + " " + Dec(p.b);
    var r3 := Dec(p.r) + " " + Dec(p.g) + " ";
    var r2 := Dec(p.r) + " " + Dec(p.g);
    var r1 := Dec(p.r) + " ";
    Assoc(r4, RecordEnd, rest);
    Assoc(r3, Dec(p.b), RecordEnd + rest);
    Assoc(r2, " ", t2);
    Assoc(r1, Dec(p.g), " " + t2);
    Assoc(Dec(p.r), " ", t1);
  }

  /** A record, followed by anything, decodes to its pixel and leaves exactly what follows. */
  lemma DecodeRecordOf(p: Pixel, rest: string)
    ensures DecodeRecord(Record(p) + rest) == Some((p, rest))
  {
    var t2 := Dec(p.b) + (RecordEnd + rest);
    var t1 := Dec(p.g) + (" " + t2);
    RecordThen(p, rest);
    ParseFieldDec(p.r, " ", t1);
    ParseFieldDec(p.g, " ", t2);
    ParseFieldDec(p.b, RecordEnd, rest);
  }

  /** The records of a pixel sequence decode to exactly that sequence: one record per pixel, in order. */
  lemma {:induction false} DecodeRecordsOf(ps: seq<Pixel>)
    ensures DecodeRecords(Records(ps)) == Some(ps)
  {
    if ps != [] {
      var p, rest := ps[0], Records(ps[1..]);
      var text := Records(ps);
      assert text == Record(p) + rest;
      assert |text| >= |RecordEnd| > 0;
      DecodeRecordOf(p, rest);
      DecodeRecordsOf(ps[1..]);
      assert DecodeRecords(text) == Some([p] + ps[1..]);
      assert [p] + ps[1..] == ps;
    }
  }

  /** The header decodes to the dimensions it was written from and leaves exactly what follows. */
  lemma DecodeHeaderOf(width: nat, height: nat, rest: string)
    ensures DecodeHeader(Header(width, height) + rest) == Some((width, height, rest))
  {
    var t2 := Dec(height) + (MaxValueLine + rest);
    var t1 := Dec(width) + (" " + t2);
    Assoc(Preamble + Dec(width) + " " + Dec(height), MaxValueLine, rest);
    Assoc(Preamble + Dec(width) + " ", Dec(height), MaxValueLine + rest);
    Assoc(Preamble + Dec(width), " ", t2);
    Assoc(Preamble, Dec(width), " " + t2);
    ExpectPrefix(Preamble, t1);
    ParseFieldDec(width, " ", t2);
    ParseFieldDec(height, MaxValueLine, rest);
  }

  /**
   * Round trip: decoding the encoder's text gives back the width, the height
   * and every pixel in storage order, whenever the buffer holds width times
   * height pixels (as every `Image24Bits` does).
   */
  lemma DecodeEncode(width: nat, height: nat, ps: seq<Pixel>)
    requires |ps| == width * height
    ensures Decode(Encode(width, height, ps)) == Some(Image(width, height, ps))
  {
    DecodeHeaderOf(width, height, Records(ps));
    DecodeRecordsOf(ps);
  }
}
