/**
 * The pixel-to-glyph converter of ascii-animations (image_processor.rs),
 * which image-to-ascii inlines in its `main`. Every pixel of an already
 * resized RGBA image becomes one text cell: transparent pixels a blank,
 * the others a glyph chosen from the colour similarity of the pixel's 3x3
 * neighbourhood, optionally wrapped in a 24-bit ANSI colour escape. Cells
 * are joined row by row, each row ending in a newline.
 */
module ImageProcessor {
  import opened Wrappers
  import opened Text

  /** An 8-bit channel value (Rust's `u8`). */
  type Byte = x: int | 0 <= x < 256

  /** One activation cell: 1 when the neighbour resembles the centre pixel. */
  type Bit = x: int | 0 <= x < 2

  datatype Pixel = Pixel(r: Byte, g: Byte, b: Byte, a: Byte)

  /** What an off-image neighbour reads as: `Rgba::from([0, 0, 0, 0])`. */
  const Transparent: Pixel := Pixel(0, 0, 0, 0)

  /** A decoded image; `pixels[y][x]` is the pixel in column `x` of row `y`, row 0 at the top. */
  datatype Image = Image(width: nat, height: nat, pixels: seq<seq<Pixel>>)

  predicate Rectangular(img: Image) {
    |img.pixels| == img.height && forall y :: 0 <= y < img.height ==> |img.pixels[y]| == img.width
  }

  /** Images as the `image` crate hands them over: every row `width` pixels long. */
  type RgbaImage = img: Image | Rectangular(img) witness Image(0, 0, [])

  function At(img: RgbaImage, x: nat, y: nat): Pixel
    requires x < img.width && y < img.height
  {
    img.pixels[y][x]
  }

  // ---------------------------------------------------------------- glyph table

  /** `ASCII_LOOKUP`: the glyph for each of the 16 marching-squares patterns. */
  const AsciiLookup: seq<string> :=
    [" ", "~", "$", ">", "\U{2576}", "=", "<", "=", "^", "+", "$", "$", "~", "*", "@", "#"]

  /** A table of 16 glyphs indexed by pattern. */
  type GlyphTable = t: seq<char> | |t| == 16 witness seq(16, _ => ' ')

  /** The first character of every entry (`s.chars().next().unwrap()`). */
  function FirstChars(table: seq<string>): (cs: seq<char>)
    requires forall i :: 0 <= i < |table| ==> |table[i]| > 0
    ensures |cs| == |table| && forall i :: 0 <= i < |table| ==> [cs[i]] == table[i][..1]
  {
    seq(|table|, i requires 0 <= i < |table| => table[i][0])
  }

  /** The `chars` vector built from `ASCII_LOOKUP`. */
  const Glyphs: GlyphTable := FirstChars(AsciiLookup)

  /** The table has 16 one-character entries; blank for the empty pattern, '#' for the full one, and three glyphs shared by several patterns. */
  lemma LookupTable()
    ensures |AsciiLookup| == 16
    ensures forall i :: 0 <= i < 16 ==> |AsciiLookup[i]| == 1 && AsciiLookup[i] == [Glyphs[i]]
    ensures Glyphs[0] == ' ' && Glyphs[15] == '#'
    ensures Glyphs[5] == Glyphs[7] == '='
    ensures Glyphs[2] == Glyphs[10] == Glyphs[11] == '$'
    ensures Glyphs[1] == Glyphs[12] == '~'
    ensures forall i :: 0 < i < 16 ==> Glyphs[i] != ' '
    ensures forall i :: 0 <= i < 16 ==> Glyphs[i] != Esc && Glyphs[i] != '\n'
  {
  }

  // ---------------------------------------------------------------- helpers

  function Sq(d: int): nat {
    d * d
  }

  lemma MulMonotone(a: nat, b: nat, c: nat)
    requires b <= c
    ensures a * b <= a * c
  {
    assert a * c == a * b + a * (c - b);
  }

  lemma SqOfChannelDifference(d: int)
    requires -255 <= d <= 255
    ensures Sq(d) <= 255 * 255
    ensures Sq(d) == 0 <==> d == 0
  {
    var e: nat := if d >= 0 then d else -d;
    assert Sq(d) == e * e;
    MulMonotone(e, e, 255);
    MulMonotone(255, e, 255);
    if e > 0 {
      MulMonotone(e, 1, e);
    }
  }

  /** `rgba_distance_squared`: the squared Euclidean distance over the four channels; no u32 overflow is possible. */
  function RgbaDistanceSquared(p: Pixel, q: Pixel): (d: nat)
    ensures d <= 4 * 255 * 255
    ensures d == 0 <==> p == q
  {
    SqOfChannelDifference(p.r - q.r);
    SqOfChannelDifference(p.g - q.g);
    SqOfChannelDifference(p.b - q.b);
    SqOfChannelDifference(p.a - q.a);
    Sq(p.r - q.r) + Sq(p.g - q.g) + Sq(p.b - q.b) + Sq(p.a - q.a)
  }

  lemma DistanceSymmetric(p: Pixel, q: Pixel)
    ensures RgbaDistanceSquared(p, q) == RgbaDistanceSquared(q, p)
  {
    assert Sq(p.r - q.r) == Sq(q.r - p.r);
    assert Sq(p.g - q.g) == Sq(q.g - p.g);
    assert Sq(p.b - q.b) == Sq(q.b - p.b);
    assert Sq(p.a - q.a) == Sq(q.a - p.a);
  }

  /** `get_pixel_checked`: the pixel at (x, y), or None off the right or bottom edge. */
  function GetPixelChecked(img: RgbaImage, x: nat, y: nat): (r: Option<Pixel>)
    ensures r.None? <==> x >= img.width || y >= img.height
    ensures r.Some? ==> r.value == img.pixels[y][x]
  {
    if x >= img.width || y >= img.height then None else Some(img.pixels[y][x])
  }

  /** `get_pixel_checked(..).unwrap_or(Rgba::from([0, 0, 0, 0]))`. */
  function Sample(img: RgbaImage, x: nat, y: nat): Pixel {
    GetPixelChecked(img, x, y).GetOr(Transparent)
  }

  /** `u32::saturating_sub`. */
  function SaturatingSub(x: nat, k: nat): nat {
    if x >= k then x - k else 0
  }

  predicate Is3x3<T>(g: seq<seq<T>>) {
    |g| == 3 && forall i :: 0 <= i < 3 ==> |g[i]| == 3
  }

  /**
   * The 3x3 neighbourhood `around`: row 0 is y+1, row 1 is y, row 2 is y-1;
   * column 0 is x-1, column 1 is x, column 2 is x+1. The left and upper
   * coordinates use saturating subtraction, so at column or row 0 they
   * repeat the pixel's own column or row.
   */
  function Around(img: RgbaImage, x: nat, y: nat): (n: seq<seq<Pixel>>)
    requires x < img.width && y < img.height
    ensures Is3x3(n) && n[1][1] == At(img, x, y)
  {
    var left, below, above := SaturatingSub(x, 1), y + 1, SaturatingSub(y, 1);
    [ [Sample(img, left, below), Sample(img, x, below), Sample(img, x + 1, below)],
      [Sample(img, left, y), At(img, x, y), Sample(img, x + 1, y)],
      [Sample(img, left, above), Sample(img, x, above), Sample(img, x + 1, above)] ]
  }

  /**
   * Edge policy of the neighbourhood: only neighbours past the right or
   * bottom edge read as transparent black; those to the left of column 0 or
   * above row 0 are clamped onto the image.
   */
  lemma NeighbourhoodEdges(img: RgbaImage, x: nat, y: nat)
    requires x < img.width && y < img.height
    ensures var n := Around(img, x, y);
      && n[1][0] == At(img, SaturatingSub(x, 1), y)
      && n[2][0] == At(img, SaturatingSub(x, 1), SaturatingSub(y, 1))
      && n[2][1] == At(img, x, SaturatingSub(y, 1))
      && (x == 0 ==> n[0][0] == n[0][1] && n[1][0] == n[1][1] && n[2][0] == n[2][1])
      && (y == 0 ==> n[2] == n[1])
      && (x + 1 < img.width ==> n[1][2] == At(img, x + 1, y))
      && (y + 1 < img.height ==> n[0][1] == At(img, x, y + 1))
      && (x + 1 == img.width ==> n[0][2] == n[1][2] == n[2][2] == Transparent)
      && (y + 1 == img.height ==> n[0] == [Transparent, Transparent, Transparent])
      && (y + 1 < img.height ==> n[0][0] == At(img, SaturatingSub(x, 1), y + 1))
      && (x + 1 < img.width && y + 1 < img.height ==> n[0][2] == At(img, x + 1, y + 1))
      && (x + 1 < img.width ==> n[2][2] == At(img, x + 1, SaturatingSub(y, 1)))
  {
  }

  /** The activation grid: a cell is 1 exactly when its pixel's squared distance to the centre is below 50. */
  function Activation(n: seq<seq<Pixel>>, centre: Pixel): (g: seq<seq<Bit>>)
    requires Is3x3(n)
    ensures Is3x3(g)
    ensures forall i, j :: 0 <= i < 3 && 0 <= j < 3 ==>
      (g[i][j] == 1 <==> RgbaDistanceSquared(n[i][j], centre) < 50)
  {
    seq(3, i requires 0 <= i < 3 =>
      seq(3, j requires 0 <= j < 3 => if RgbaDistanceSquared(n[i][j], centre) < 50 then 1 else 0))
  }

  /** The centre is always active, and an off-image neighbour of a pixel with alpha at least 64 never is. */
  lemma ActivationFacts(img: RgbaImage, x: nat, y: nat)
    requires x < img.width && y < img.height
    ensures var p := At(img, x, y); Activation(Around(img, x, y), p)[1][1] == 1
    ensures var p := At(img, x, y);
      p.a >= 64 ==> RgbaDistanceSquared(Transparent, p) >= 50
  {
    var p := At(img, x, y);
    if p.a >= 64 {
      assert Sq(Transparent.a - p.a) == p.a * p.a >= 64 * 64 by {
        assert p.a * p.a >= 64 * p.a >= 64 * 64;
      }
    }
  }

  /** A 2x2 sub-grid `[[tl, tr], [bl, br]]`. */
  datatype Square = Square(tl: Bit, tr: Bit, bl: Bit, br: Bit)

  function Total(s: Square): nat {
    s.tl + s.tr + s.bl + s.br
  }

  /** `extract_2x2`: the four overlapping sub-grids top-left, top-right, bottom-left, bottom-right; each holds the centre cell. */
  function Extract2x2(g: seq<seq<Bit>>): (subs: seq<Square>)
    requires Is3x3(g)
    ensures |subs| == 4
    ensures subs[0].br == subs[1].bl == subs[2].tr == subs[3].tl == g[1][1]
  {
    [ Square(g[0][0], g[0][1], g[1][0], g[1][1]),
      Square(g[0][1], g[0][2], g[1][1], g[1][2]),
      Square(g[1][0], g[1][1], g[2][0], g[2][1]),
      Square(g[1][1], g[1][2], g[2][1], g[2][2]) ]
  }

  /**
   * The position `max_by_key(Total)` returns: a sub-grid of maximal sum,
   * and on ties the last one, since Rust's `max_by_key` keeps the later of
   * two equal elements.
   */
  function MaxByKey(subs: seq<Square>): (k: nat)
    requires |subs| > 0
    ensures k < |subs|
    ensures forall j :: 0 <= j < |subs| ==> Total(subs[j]) <= Total(subs[k])
    ensures forall j :: k < j < |subs| ==> Total(subs[j]) < Total(subs[k])
    decreases |subs|
  {
    if |subs| == 1 then 0
    else
      var k := MaxByKey(subs[..|subs| - 1]);
      if Total(subs[|subs| - 1]) >= Total(subs[k]) then |subs| - 1 else k
  }

  /** `marching_square_index`: bit 3 top-left, bit 2 top-right, bit 1 bottom-right, bit 0 bottom-left. */
  function MarchingSquareIndex(s: Square): (ind: nat)
    ensures ind < 16
    ensures ind == 8 * s.tl + 4 * s.tr + 2 * s.br + s.bl
  {
    ((s.tl as bv8 << 3) | (s.tr as bv8 << 2) | (s.br as bv8 << 1) | (s.bl as bv8 << 0)) as nat
  }

  /** The sub-grid an index encodes. */
  function SquareOfIndex(ind: nat): Square
    requires ind < 16
  {
    Square(ind / 8, ind / 4 % 2, ind % 2, ind / 2 % 2)
  }

  /** The index is a bijection between the 16 sub-grids and 0..15. */
  lemma IndexBijection(s: Square, ind: nat)
    requires ind < 16
    ensures SquareOfIndex(MarchingSquareIndex(s)) == s
    ensures MarchingSquareIndex(SquareOfIndex(ind)) == ind
  {
    BitsOfIndex(s.tl, s.tr, s.br, s.bl);
    IndexOfBits(ind);
  }

  /** The four bits of `8a + 4b + 2c + d` read back, most significant first. */
  lemma BitsOfIndex(a: Bit, b: Bit, c: Bit, d: Bit)
    ensures (8 * a + 4 * b + 2 * c + d) / 8 == a
    ensures (8 * a + 4 * b + 2 * c + d) / 4 % 2 == b
    ensures (8 * a + 4 * b + 2 * c + d) / 2 % 2 == c
    ensures (8 * a + 4 * b + 2 * c + d) % 2 == d
  {
    var n := 8 * a + 4 * b + 2 * c + d;
    assert n / 2 == 4 * a + 2 * b + c;
    assert n / 4 == 2 * a + b;
  }

  /** A number below 16 is the sum of its four bits. */
  lemma IndexOfBits(ind: nat)
    requires ind < 16
    ensures ind == 8 * (ind / 8) + 4 * (ind / 4 % 2) + 2 * (ind / 2 % 2) + ind % 2
  {
    var h := ind / 2;
    var q := h / 2;
    assert ind == 2 * h + ind % 2;
    assert h == 2 * q + h % 2;
    assert ind / 4 == q && ind / 8 == q / 2;
  }

  lemma IndexInjective(s: Square, t: Square)
    requires MarchingSquareIndex(s) == MarchingSquareIndex(t)
    ensures s == t
  {
    IndexBijection(s, 0);
    IndexBijection(t, 0);
  }

  /** The pattern index of an opaque pixel: choose the best sub-grid of its activation grid and encode it. */
  function PatternIndex(img: RgbaImage, x: nat, y: nat): (ind: nat)
    requires x < img.width && y < img.height
    ensures ind < 16
  {
    var subs := Extract2x2(Activation(Around(img, x, y), At(img, x, y)));
    MarchingSquareIndex(subs[MaxByKey(subs)])
  }

  /** Since every sub-grid holds the always-active centre, no pixel gets pattern 0. */
  lemma PatternNeverEmpty(img: RgbaImage, x: nat, y: nat)
    requires x < img.width && y < img.height
    ensures PatternIndex(img, x, y) >= 1
  {
    ActivationFacts(img, x, y);
    var subs := Extract2x2(Activation(Around(img, x, y), At(img, x, y)));
    var k := MaxByKey(subs);
    assert Total(subs[0]) >= 1;
    assert Total(subs[k]) >= 1;
  }

  // ---------------------------------------------------------------- cells

  /** `a as f32 / 255f32 < 0.25`, which holds exactly for alpha 0..63. */
  predicate IsTransparent(p: Pixel) {
    4 * p.a < 255
  }

  /** `"\x1b[38;2;{r};{g};{b}m{glyph}\x1b[0m"`. */
  function ColourCell(p: Pixel, c: char): string {
    [Esc] + "[38;2;" + Decimal(p.r) + ";" + Decimal(p.g) + ";" + Decimal(p.b) + "m" + [c] + [Esc] + "[0m"
  }

  /** The formatted text of the pixel at (x, y). */
  function Cell(img: RgbaImage, x: nat, y: nat, grayScale: bool, chars: GlyphTable): string
    requires x < img.width && y < img.height
  {
    var p := At(img, x, y);
    if IsTransparent(p) then " "
    else
      var c := chars[PatternIndex(img, x, y)];
      if !grayScale then ColourCell(p, c) else [c]
  }

  /** The raster `output_raster`: one cell per pixel, `raster[y][x]`. */
  function Raster(img: RgbaImage, grayScale: bool, chars: GlyphTable): (rows: seq<seq<string>>)
    ensures |rows| == img.height
    ensures forall y :: 0 <= y < img.height ==> |rows[y]| == img.width
  {
    seq(img.height, y requires 0 <= y < img.height =>
      seq(img.width, x requires 0 <= x < img.width => Cell(img, x, y, grayScale, chars)))
  }

  /** The text of a raster: each row's cells without separator, then '\n'. */
  function Serialize(rows: seq<seq<string>>): string {
    Concat(seq(|rows|, y requires 0 <= y < |rows| => Concat(rows[y]) + "\n"))
  }

  /** The whole text `ascii_representation_from_image` returns. */
  function AsciiArt(img: RgbaImage, grayScale: bool, chars: GlyphTable): string {
    Serialize(Raster(img, grayScale, chars))
  }

  // ---------------------------------------------------------------- the converter

  /** The body of the pixel loop: a blank for a transparent pixel, otherwise the glyph of its best 2x2 pattern, coloured unless gray-scale. */
  method FormatPixel(img: RgbaImage, x: nat, y: nat, grayScale: bool, chars: GlyphTable) returns (formatted: string)
    requires x < img.width && y < img.height
    ensures formatted == Cell(img, x, y, grayScale, chars)
  {
    var p := At(img, x, y);
    if IsTransparent(p) {
      return " ";
    }
    var around := Around(img, x, y);
    var grid := Activation(around, p);
    var subs := Extract2x2(grid);
    var best := subs[MaxByKey(subs)];
    var ind := MarchingSquareIndex(best);
    var c := chars[ind];
    formatted := if !grayScale then ColourCell(p, c) else [c];
  }

  /** The loop over `image.pixels()` (row by row) that assigns every cell of a fresh `output_raster`. */
  method FillRaster(img: RgbaImage, grayScale: bool, chars: GlyphTable) returns (raster: array2<string>)
    ensures fresh(raster)
    ensures raster.Length0 == img.height && raster.Length1 == img.width
    ensures forall y, x :: 0 <= y < img.height && 0 <= x < img.width ==>
      raster[y, x] == Cell(img, x, y, grayScale, chars)
  {
    raster := new string[img.height, img.width]((_, _) => "");
    for y := 0 to img.height
      invariant forall yy, xx :: 0 <= yy < y && 0 <= xx < img.width ==>
        raster[yy, xx] == Cell(img, xx, yy, grayScale, chars)
    {
      for x := 0 to img.width
        invariant forall yy, xx :: 0 <= yy < y && 0 <= xx < img.width ==>
          raster[yy, xx] == Cell(img, xx, yy, grayScale, chars)
        invariant forall xx :: 0 <= xx < x ==> raster[y, xx] == Cell(img, xx, y, grayScale, chars)
      {
        raster[y, x] := FormatPixel(img, x, y, grayScale, chars);
      }
    }
  }

  /** The cells of row `y` of an array raster. */
  ghost function Row(raster: array2<string>, y: nat): (cells: seq<string>)
    requires y < raster.Length0
    reads raster
    ensures |cells| == raster.Length1 && forall x :: 0 <= x < raster.Length1 ==> cells[x] == raster[y, x]
  {
    seq(raster.Length1, x requires 0 <= x < raster.Length1 reads raster => raster[y, x])
  }

  /** The cells of an array raster as rows. */
  ghost function RowsOf(raster: array2<string>): (rows: seq<seq<string>>)
    reads raster
    ensures |rows| == raster.Length0 && forall y :: 0 <= y < raster.Length0 ==> rows[y] == Row(raster, y)
  {
    seq(raster.Length0, y requires 0 <= y < raster.Length0 reads raster => Row(raster, y))
  }

  /** Lines that are the rows' texts, each with its newline, join to the serialised raster. */
  lemma SerializeLines(rows: seq<seq<string>>, lines: seq<string>)
    requires |lines| == |rows| && forall i :: 0 <= i < |rows| ==> lines[i] == Concat(rows[i]) + "\n"
    ensures Concat(lines) == Serialize(rows)
  {
    assert lines == seq(|rows|, y requires 0 <= y < |rows| => Concat(rows[y]) + "\n");
  }

  /** The serialisation loop: `push_str` every cell of a row, then `push('\n')`. */
  method SerializeRaster(raster: array2<string>) returns (buff: string)
    ensures buff == Serialize(RowsOf(raster))
  {
    ghost var lines: seq<string> := [];
    buff := "";
    for y := 0 to raster.Length0
      invariant |lines| == y
      invariant forall i :: 0 <= i < y ==> lines[i] == Concat(Row(raster, i)) + "\n"
      invariant buff == Concat(lines)
    {
      buff := PushRow(raster, y, buff);
      ConcatSnoc(lines, Concat(Row(raster, y)) + "\n");
      buff := buff + "\n";
      lines := lines + [Concat(Row(raster, y)) + "\n"];
    }
    SerializeLines(RowsOf(raster), lines);
  }

  /** The inner loop: `push_str` each cell of row `y` onto `buff`. */
  method PushRow(raster: array2<string>, y: nat, buff: string) returns (buff': string)
    requires y < raster.Length0
    ensures buff' == buff + Concat(Row(raster, y))
  {
    ghost var cells: seq<string> := [];
    buff' := buff;
    for x := 0 to raster.Length1
      invariant cells == Row(raster, y)[..x]
      invariant buff' == buff + Concat(cells)
    {
      ConcatSnoc(cells, raster[y, x]);
      buff' := buff' + raster[y, x];
      cells := cells + [raster[y, x]];
    }
    assert cells == Row(raster, y);
  }

  /** `ascii_representation_from_image`: the text of the image, one line per pixel row. */
  method AsciiRepresentationFromImage(img: RgbaImage, grayScale: bool) returns (buff: string)
    ensures buff == AsciiArt(img, grayScale, Glyphs)
  {
    var raster := FillRaster(img, grayScale, Glyphs);
    buff := SerializeRaster(raster);
    FilledRows(raster, img, grayScale, Glyphs);
  }

  /** A raster whose every cell is the pixel's cell holds the rows of `Raster`. */
  lemma FilledRows(raster: array2<string>, img: RgbaImage, grayScale: bool, chars: GlyphTable)
    requires raster.Length0 == img.height && raster.Length1 == img.width
    requires forall y, x :: 0 <= y < img.height && 0 <= x < img.width ==>
      raster[y, x] == Cell(img, x, y, grayScale, chars)
    ensures RowsOf(raster) == Raster(img, grayScale, chars)
  {
    var rows, want := RowsOf(raster), Raster(img, grayScale, chars);
    forall y | 0 <= y < |rows|
      ensures rows[y] == want[y]
    {
      assert forall x :: 0 <= x < |rows[y]| ==> rows[y][x] == raster[y, x] == want[y][x];
    }
  }

  // ---------------------------------------------------------------- properties of the text

  /** No glyph of the table is a newline or an escape. */
  predicate PlainGlyphs(chars: GlyphTable) {
    forall i :: 0 <= i < 16 ==> chars[i] != '\n' && chars[i] != Esc
  }

  /** A colour cell displays as its bare glyph and leaves no control sequence open. */
  lemma StripColourCell(p: Pixel, c: char)
    requires c != Esc
    ensures Strip(ColourCell(p, c)) == [c]
    ensures Closed(ColourCell(p, c))
  {
    var params := "[38;2;" + Decimal(p.r) + ";" + Decimal(p.g) + ";" + Decimal(p.b);
    var tail := [Esc] + "[0" + "m" + "";
    assert 'm' !in params;
    assert ColourCell(p, c) == [Esc] + params + "m" + ([c] + tail);
    ClosedNoEsc("");
    ClosedSgr("[0", "");
    ClosedChar(c, tail);
    ClosedSgr(params, [c] + tail);
    StripSgr(params, [c] + tail);
    StripChar(c, tail);
    StripSgr("[0", "");
  }

  lemma ColourCellPlain(p: Pixel, c: char)
    requires c != '\n'
    ensures '\n' !in ColourCell(p, c)
  {
    var params := "[38;2;" + Decimal(p.r) + ";" + Decimal(p.g) + ";" + Decimal(p.b);
    assert ColourCell(p, c) == [Esc] + params + "m" + [c] + [Esc] + "[0m";
  }

  lemma GrayCellText(img: RgbaImage, x: nat, y: nat, chars: GlyphTable)
    requires x < img.width && y < img.height && PlainGlyphs(chars)
    ensures Esc !in Cell(img, x, y, true, chars) && '\n' !in Cell(img, x, y, true, chars)
    ensures |Cell(img, x, y, true, chars)| == 1
  {
  }

  lemma ColourCellText(img: RgbaImage, x: nat, y: nat, chars: GlyphTable)
    requires x < img.width && y < img.height && PlainGlyphs(chars)
    ensures '\n' !in Cell(img, x, y, false, chars)
  {
    var p := At(img, x, y);
    if !IsTransparent(p) {
      ColourCellPlain(p, chars[PatternIndex(img, x, y)]);
    }
  }

  /**
   * What a cell shows: a transparent pixel is a bare blank in both modes;
   * an opaque one is its bare glyph in grayscale; no cell holds a newline.
   */
  lemma CellText(img: RgbaImage, x: nat, y: nat, chars: GlyphTable)
    requires x < img.width && y < img.height && PlainGlyphs(chars)
    ensures Esc !in Cell(img, x, y, true, chars) && |Cell(img, x, y, true, chars)| == 1
    ensures '\n' !in Cell(img, x, y, true, chars) && '\n' !in Cell(img, x, y, false, chars)
    ensures IsTransparent(At(img, x, y)) ==> Cell(img, x, y, true, chars) == Cell(img, x, y, false, chars) == " "
    ensures !IsTransparent(At(img, x, y)) ==> Cell(img, x, y, true, chars) == [chars[PatternIndex(img, x, y)]]
  {
    GrayCellText(img, x, y, chars);
    ColourCellText(img, x, y, chars);
  }

  /** The colour cell of a pixel displays as its grayscale cell. */
  lemma StripCell(img: RgbaImage, x: nat, y: nat, chars: GlyphTable)
    requires x < img.width && y < img.height && PlainGlyphs(chars)
    ensures Strip(Cell(img, x, y, false, chars)) == Cell(img, x, y, true, chars)
    ensures Closed(Cell(img, x, y, false, chars))
  {
    var p := At(img, x, y);
    if IsTransparent(p) {
      assert Cell(img, x, y, false, chars) == Cell(img, x, y, true, chars) == " ";
      ClosedNoEsc(" ");
      StripNoEsc(" ");
    } else {
      var c := chars[PatternIndex(img, x, y)];
      assert Cell(img, x, y, false, chars) == ColourCell(p, c);
      assert Cell(img, x, y, true, chars) == [c];
      StripColourCell(p, c);
    }
  }

  lemma StripRow(colour: seq<string>, gray: seq<string>)
    requires |colour| == |gray|
    requires forall x :: 0 <= x < |colour| ==> Strip(colour[x]) == gray[x] && Closed(colour[x])
    ensures Strip(Concat(colour) + "\n") == Concat(gray) + "\n"
    ensures Closed(Concat(colour) + "\n")
  {
    StripConcat(colour);
    assert seq(|colour|, i requires 0 <= i < |colour| => Strip(colour[i])) == gray;
    StripAppend(Concat(colour), "\n");
    ClosedNoEsc("\n");
    StripNoEsc("\n");
  }

  /** Rows whose cells display as the other rows' cells serialise to text that displays as the other text. */
  lemma StripRows(colour: seq<seq<string>>, gray: seq<seq<string>>)
    requires |colour| == |gray|
    requires forall y :: 0 <= y < |colour| ==> |colour[y]| == |gray[y]|
    requires forall y, x :: 0 <= y < |colour| && 0 <= x < |colour[y]| ==>
      Strip(colour[y][x]) == gray[y][x] && Closed(colour[y][x])
    ensures Strip(Serialize(colour)) == Serialize(gray)
  {
    var colourLines := seq(|colour|, y requires 0 <= y < |colour| => Concat(colour[y]) + "\n");
    var grayLines := seq(|gray|, y requires 0 <= y < |gray| => Concat(gray[y]) + "\n");
    forall y | 0 <= y < |colour|
      ensures Strip(colourLines[y]) == grayLines[y] && Closed(colourLines[y])
    {
      StripRow(colour[y], gray[y]);
    }
    StripConcat(colourLines);
    assert seq(|colourLines|, i requires 0 <= i < |colourLines| => Strip(colourLines[i])) == grayLines;
  }

  /** With its escapes removed, the colour text is exactly the grayscale text. */
  lemma StripColourIsGrayscale(img: RgbaImage, chars: GlyphTable)
    requires PlainGlyphs(chars)
    ensures Strip(AsciiArt(img, false, chars)) == AsciiArt(img, true, chars)
  {
    var colour, gray := Raster(img, false, chars), Raster(img, true, chars);
    forall y, x | 0 <= y < img.height && 0 <= x < img.width
      ensures Strip(colour[y][x]) == gray[y][x] && Closed(colour[y][x])
    {
      StripCell(img, x, y, chars);
    }
    StripRows(colour, gray);
  }

  /** The grayscale text holds no escape character. */
  lemma GrayscaleHasNoEscape(img: RgbaImage, chars: GlyphTable)
    requires PlainGlyphs(chars)
    ensures Esc !in AsciiArt(img, true, chars)
  {
    var gray := Raster(img, true, chars);
    forall y | 0 <= y < img.height
      ensures Esc !in Concat(gray[y]) + "\n"
    {
      forall x | 0 <= x < img.width
        ensures Esc !in gray[y][x]
      {
        CellText(img, x, y, chars);
      }
      ConcatExcludes(gray[y], Esc);
    }
    ConcatExcludes(seq(|gray|, y requires 0 <= y < |gray| => Concat(gray[y]) + "\n"), Esc);
  }

  /**
   * The text has exactly one newline-terminated line per pixel row, each
   * the row's cells in x order; a zero-height image gives the empty string.
   */
  lemma AsciiArtLines(img: RgbaImage, grayScale: bool, chars: GlyphTable)
    requires PlainGlyphs(chars)
    ensures var rows := Raster(img, grayScale, chars);
      Lines(AsciiArt(img, grayScale, chars)) == seq(img.height, y requires 0 <= y < img.height => Concat(rows[y]))
    ensures |Lines(AsciiArt(img, grayScale, chars))| == img.height
    ensures img.height == 0 <==> AsciiArt(img, grayScale, chars) == ""
  {
    var rows := Raster(img, grayScale, chars);
    var lines := seq(img.height, y requires 0 <= y < img.height => Concat(rows[y]));
    forall y | 0 <= y < img.height
      ensures '\n' !in lines[y]
    {
      forall x | 0 <= x < img.width
        ensures '\n' !in rows[y][x]
      {
        CellText(img, x, y, chars);
      }
      ConcatExcludes(rows[y], '\n');
    }
    LinesOfJoined(lines);
    assert seq(|lines|, i requires 0 <= i < |lines| => lines[i] + "\n")
      == seq(|rows|, y requires 0 <= y < |rows| => Concat(rows[y]) + "\n");
    if img.height > 0 {
      assert |Lines(AsciiArt(img, grayScale, chars))| > 0;
    }
  }

  /** Every pixel of the image is `p`. */
  predicate Uniform(img: RgbaImage, p: Pixel) {
    forall y, x :: 0 <= y < img.height && 0 <= x < img.width ==> img.pixels[y][x] == p
  }

  /**
   * In an image of one opaque colour every pattern is full: the bottom-left
   * sub-grid (clamped x-1 and x, y and clamped y-1) lies in the image, so
   * its sum is 4, and a sub-grid of sum 4 encodes 15, the '#' glyph.
   */
  lemma UniformIsFullBlock(img: RgbaImage, p: Pixel, x: nat, y: nat)
    requires Uniform(img, p) && !IsTransparent(p)
    requires x < img.width && y < img.height
    ensures PatternIndex(img, x, y) == 15
    ensures Cell(img, x, y, true, Glyphs) == "#"
  {
    NeighbourhoodEdges(img, x, y);
    var n := Around(img, x, y);
    var g := Activation(n, p);
    assert n[1][0] == n[1][1] == n[2][0] == n[2][1] == p;
    assert g[1][0] == g[1][1] == g[2][0] == g[2][1] == 1;
    var subs := Extract2x2(g);
    assert Total(subs[2]) == 4;
    var best := subs[MaxByKey(subs)];
    assert Total(best) == 4;
  }

  /** Hence the grayscale text of such an image is `height` lines of `width` '#'. */
  lemma UniformArt(img: RgbaImage, p: Pixel)
    requires Uniform(img, p) && !IsTransparent(p)
    ensures AsciiArt(img, true, Glyphs)
         == Serialize(seq(img.height, _ => seq(img.width, _ => "#")))
  {
    var rows := Raster(img, true, Glyphs);
    forall y, x | 0 <= y < img.height && 0 <= x < img.width
      ensures rows[y][x] == "#"
    {
      UniformIsFullBlock(img, p, x, y);
    }
    var full := seq(img.height, _ => seq(img.width, _ => "#"));
    forall y | 0 <= y < img.height
      ensures rows[y] == full[y]
    {
      assert |rows[y]| == |full[y]|;
    }
    assert rows == full;
  }

  /** An opaque pixel never renders as the blank cell. */
  lemma OpaqueNeverBlank(img: RgbaImage, x: nat, y: nat)
    requires x < img.width && y < img.height && !IsTransparent(At(img, x, y))
    ensures Cell(img, x, y, true, Glyphs) != " "
  {
    PatternNeverEmpty(img, x, y);
    LookupTable();
  }

  /** A grid where the top-left and bottom-right sub-grids tie at 4: the bottom-right one is chosen. */
  lemma TieBreakExample()
    ensures var subs := Extract2x2([[1, 1, 0], [1, 1, 1], [0, 1, 1]]);
      Total(subs[0]) == Total(subs[3]) == 4 && MaxByKey(subs) == 3 && MarchingSquareIndex(subs[3]) == 15
  {
  }
}
