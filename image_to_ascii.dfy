/**
 * The stand-alone converter: one image in, its text out, either to a file
 * or to standard output. Its per-pixel loop and helpers are the same as
 * the animation pipeline's image processor and are modelled once, there.
 */
module ImageToAscii {
  import opened Wrappers
  import opened Text
  import ImageProcessor

  /** This program's own copy of `ASCII_LOOKUP`. */
  const AsciiLookup: seq<string> :=
    [" ", "~", "$", ">", "\U{2576}", "=", "<", "=", "^", "+", "$", "$", "~", "*", "@", "#"]

  /** `chars`: the first character of every table entry. */
  const Glyphs: ImageProcessor.GlyphTable := ImageProcessor.FirstChars(AsciiLookup)

  /**
   * The flags that still matter once the image is decoded and resized
   * (the input path, width, height and fatness are consumed by that step).
   */
  datatype Cli = Cli(grayScale: bool, output: Option<string>, saveIntermediate: Option<string>)

  /**
   * What the file system answers: the decoded and resized image (`None`
   * when `image::open` fails), and whether saving the intermediate image
   * and writing the output file succeed.
   */
  datatype World = World(image: Option<ImageProcessor.RgbaImage>, saveOk: bool, writeOk: bool)

  datatype Effect = SaveImage(path: string) | WriteFile(path: string, contents: string) | Stdout(text: string)

  /** The error `main` returns through `?`. */
  datatype Failure = OpenFailed | SaveFailed(path: string) | WriteFailed(path: string)

  datatype Outcome = Outcome(effects: seq<Effect>, failure: Option<Failure>)

  /** The output step once the text `buff` is built. */
  function Emit(output: Option<string>, buff: string, writeOk: bool): (r: Outcome)
  {
    match output
    case Some(o) =>
      if writeOk then Outcome([WriteFile(o, buff), Stdout("Output written to " + o + "\n")], None)
      else Outcome([], Some(WriteFailed(o)))
    case None => Outcome([Stdout(buff + "\n")], None)
  }

  /** What one run does, as a function of the flags and the file system. */
  function Conversion(cli: Cli, world: World): Outcome {
    match world.image
    case None => Outcome([], Some(OpenFailed))
    case Some(img) =>
      var saved := if cli.saveIntermediate.Some? then [SaveImage(cli.saveIntermediate.value)] else [];
      if cli.saveIntermediate.Some? && !world.saveOk then Outcome(saved, Some(SaveFailed(cli.saveIntermediate.value)))
      else
        var out := Emit(cli.output, ImageProcessor.AsciiArt(img, cli.grayScale, ImageProcessor.Glyphs), world.writeOk);
        Outcome(saved + out.effects, out.failure)
  }

  /** `main`: open, save the intermediate image if asked, convert, then write or print. */
  method Run(cli: Cli, world: World) returns (out: Outcome)
    ensures out == Conversion(cli, world)
  {
    if world.image.None? {
      return Outcome([], Some(OpenFailed));
    }
    var image := world.image.value;
    var effects: seq<Effect> := [];
    if cli.saveIntermediate.Some? {
      effects := effects + [SaveImage(cli.saveIntermediate.value)];
      if !world.saveOk {
        return Outcome(effects, Some(SaveFailed(cli.saveIntermediate.value)));
      }
    }
    assert Glyphs == ImageProcessor.Glyphs;
    var raster := ImageProcessor.FillRaster(image, cli.grayScale, Glyphs);
    var buff := ImageProcessor.SerializeRaster(raster);
    ImageProcessor.FilledRows(raster, image, cli.grayScale, Glyphs);
    if cli.output.Some? {
      var o := cli.output.value;
      if !world.writeOk {
        return Outcome(effects, Some(WriteFailed(o)));
      }
      effects := effects + [WriteFile(o, buff), Stdout("Output written to " + o + "\n")];
    } else {
      effects := effects + [Stdout(buff + "\n")];
    }
    out := Outcome(effects, None);
  }

  /** The text this program produces equals the animation pipeline's text for the same image: the two glyph tables agree. */
  lemma SameTableAsProcessor()
    ensures AsciiLookup == ImageProcessor.AsciiLookup && Glyphs == ImageProcessor.Glyphs
  {
  }

  function Texts(effects: seq<Effect>): seq<string> {
    if |effects| == 0 then []
    else (if effects[0].Stdout? then [effects[0].text] else []) + Texts(effects[1..])
  }

  function Writes(effects: seq<Effect>): seq<Effect> {
    if |effects| == 0 then []
    else (if effects[0].WriteFile? then [effects[0]] else []) + Writes(effects[1..])
  }

  /**
   * Without `--output` the art goes to standard output followed by one
   * more newline (from `println!`), and nothing is written to a file;
   * with it, the file holds the art exactly and standard output only the
   * confirmation. A failure to open the image or save the intermediate
   * image stops the run before any output.
   */
  lemma {:induction false} OutputDestination(cli: Cli, world: World)
    ensures var out := Conversion(cli, world);
      world.image.None? ==> out.effects == [] && out.failure == Some(OpenFailed)
    ensures var out := Conversion(cli, world);
      world.image.Some? && cli.saveIntermediate.Some? && !world.saveOk ==>
        Texts(out.effects) == [] && Writes(out.effects) == []
    ensures var out := Conversion(cli, world);
      world.image.Some? && (cli.saveIntermediate.Some? ==> world.saveOk) && cli.output.None? ==>
        out.failure == None && Writes(out.effects) == [] &&
        Texts(out.effects) == [ImageProcessor.AsciiArt(world.image.value, cli.grayScale, ImageProcessor.Glyphs) + "\n"]
    ensures var out := Conversion(cli, world);
      world.image.Some? && (cli.saveIntermediate.Some? ==> world.saveOk) && cli.output.Some? && world.writeOk ==>
        out.failure == None &&
        Writes(out.effects) == [WriteFile(cli.output.value, ImageProcessor.AsciiArt(world.image.value, cli.grayScale, ImageProcessor.Glyphs))] &&
        Texts(out.effects) == ["Output written to " + cli.output.value + "\n"]
  {
    var out := Conversion(cli, world);
    if world.image.Some? {
      var saved := if cli.saveIntermediate.Some? then [SaveImage(cli.saveIntermediate.value)] else [];
      assert Texts(saved) == [] && Writes(saved) == [] by {
        if |saved| > 0 {
          assert saved[1..] == [];
        }
      }
      if !(cli.saveIntermediate.Some? && !world.saveOk) {
        var e := Emit(cli.output, ImageProcessor.AsciiArt(world.image.value, cli.grayScale, ImageProcessor.Glyphs), world.writeOk);
        TextsAppend(saved, e.effects);
        WritesAppend(saved, e.effects);
        if cli.output.Some? && world.writeOk {
          assert e.effects[1..][1..] == [];
        } else if cli.output.None? {
          assert e.effects[1..] == [];
        }
      }
    }
  }

  lemma {:induction false} TextsAppend(a: seq<Effect>, b: seq<Effect>)
    ensures Texts(a + b) == Texts(a) + Texts(b)
    decreases |a|
  {
    if |a| == 0 {
      assert a + b == b;
    } else {
      assert (a + b)[0] == a[0] && (a + b)[1..] == a[1..] + b;
      TextsAppend(a[1..], b);
    }
  }

  lemma {:induction false} WritesAppend(a: seq<Effect>, b: seq<Effect>)
    ensures Writes(a + b) == Writes(a) + Writes(b)
    decreases |a|
  {
    if |a| == 0 {
      assert a + b == b;
    } else {
      assert (a + b)[0] == a[0] && (a + b)[1..] == a[1..] + b;
      WritesAppend(a[1..], b);
    }
  }

  /** The file written, like the printed text, has one line per pixel row of the resized image; the printed form ends in one blank line more. */
  lemma PrintedLines(img: ImageProcessor.RgbaImage, grayScale: bool)
    ensures |Lines(ImageProcessor.AsciiArt(img, grayScale, ImageProcessor.Glyphs))| == img.height
    ensures |Lines(ImageProcessor.AsciiArt(img, grayScale, ImageProcessor.Glyphs) + "\n")| == img.height + 1
  {
    ImageProcessor.LookupTable();
    ImageProcessor.AsciiArtLines(img, grayScale, ImageProcessor.Glyphs);
    var rows := ImageProcessor.Raster(img, grayScale, ImageProcessor.Glyphs);
    var parts := seq(|rows|, y requires 0 <= y < |rows| => Concat(rows[y]) + "\n");
    var art := Concat(parts);
    assert art == ImageProcessor.AsciiArt(img, grayScale, ImageProcessor.Glyphs);
    if |parts| > 0 {
      assert parts == parts[..|parts| - 1] + [parts[|parts| - 1]];
      ConcatSnoc(parts[..|parts| - 1], parts[|parts| - 1]);
    }
    LinesAppendNewline(art);
  }
}
