/**
 * The frame pipeline of the animation tool: list (or take) the input
 * frames, sort them, convert the k-th one to `frame_{k:04}.txt` in the
 * text directory, optionally play the text frames back, then remove the
 * intermediate directory. The file system, ffmpeg, decoding with
 * resizing, the terminal and the clock are the parameters of a run.
 */
module Animations {
  import opened Wrappers
  import opened Text
  import opened Lex
  import ImageProcessor

  // ---------------------------------------------------------------- frame names

  /** `format!("frame_{:04}.txt", index)`. */
  function FrameName(k: nat): string {
    "frame_" + ZeroPad(Decimal(k), 4) + ".txt"
  }

  /** The number written in a frame file name: the digits between "frame_" and ".txt". */
  function FrameNumber(name: string): Option<nat> {
    if |name| >= 10 && name[..6] == "frame_" && name[|name| - 4..] == ".txt" && AllDigits(name[6..|name| - 4])
    then Some(ParseDecimal(name[6..|name| - 4]))
    else None
  }

  /** A frame's number can be read back from its file name. */
  lemma FrameNameRoundTrip(k: nat)
    ensures FrameNumber(FrameName(k)) == Some(k)
  {
    var d := Decimal(k);
    var padded := ZeroPad(d, 4);
    var name := FrameName(k);
    ThreeParts("frame_", padded, ".txt");
    DecimalRoundTrip(k);
    if |d| < 4 {
      assert padded == Repeat('0', 4 - |d|) + d;
      ParseIgnoresLeadingZeros(4 - |d|, d);
    }
  }

  /** The three parts of a joined text can be sliced back out of it. */
  lemma ThreeParts(a: string, b: string, c: string)
    ensures (a + b + c)[..|a|] == a
    ensures (a + b + c)[|a + b + c| - |c|..] == c
    ensures (a + b + c)[|a|..|a + b + c| - |c|] == b
  {
  }

  /** Different indices give different file names. */
  lemma FrameNamesDistinct(j: nat, k: nat)
    requires j != k
    ensures FrameName(j) != FrameName(k)
  {
    FrameNameRoundTrip(j);
    FrameNameRoundTrip(k);
  }

  /** The four digits, most significant first, of a number below 10000. */
  function Digits4(k: nat): (s: string)
    requires k < 10000
    ensures |s| == 4
  {
    var q1 := k / 10;
    var q2 := q1 / 10;
    var q3 := q2 / 10;
    [DigitChar(q3), DigitChar(q2 % 10), DigitChar(q1 % 10), DigitChar(k % 10)]
  }

  /** What `{:04}` gives for a number below 10000: exactly its four digits. */
  lemma Padded4(k: nat)
    requires k < 10000
    ensures ZeroPad(Decimal(k), 4) == Digits4(k)
    ensures k >= 1000 ==> Decimal(k) == Digits4(k)
  {
    if k < 10 {
      PaddedOne(k);
    } else if k < 100 {
      PaddedTwo(k);
    } else if k < 1000 {
      PaddedThree(k);
    } else {
      DecimalFour(k);
    }
  }

  lemma PaddedOne(k: nat)
    requires k < 10
    ensures ZeroPad(Decimal(k), 4) == Digits4(k)
  {
    assert k / 10 == 0 && k % 10 == k;
    assert Decimal(k) == [DigitChar(k)];
    assert Repeat('0', 3) == [DigitChar(0), DigitChar(0), DigitChar(0)];
  }

  lemma PaddedTwo(k: nat)
    requires 10 <= k < 100
    ensures ZeroPad(Decimal(k), 4) == Digits4(k)
  {
    assert k / 10 / 10 == 0 && k / 10 % 10 == k / 10;
    DecimalTwo(k);
    assert Repeat('0', 2) == [DigitChar(0), DigitChar(0)];
  }

  lemma PaddedThree(k: nat)
    requires 100 <= k < 1000
    ensures ZeroPad(Decimal(k), 4) == Digits4(k)
  {
    assert k / 10 / 10 / 10 == 0;
    DecimalThree(k);
    assert Repeat('0', 1) == [DigitChar(0)];
  }

  lemma DecimalTwo(k: nat)
    requires 10 <= k < 100
    ensures Decimal(k) == [DigitChar(k / 10), DigitChar(k % 10)]
  {
    assert Decimal(k / 10) == [DigitChar(k / 10)];
  }

  lemma DecimalThree(k: nat)
    requires 100 <= k < 1000
    ensures Decimal(k) == [DigitChar(k / 10 / 10), DigitChar(k / 10 % 10), DigitChar(k % 10)]
  {
    DecimalTwo(k / 10);
  }

  lemma DecimalFour(k: nat)
    requires 1000 <= k < 10000
    ensures Decimal(k) == Digits4(k)
  {
    DecimalThree(k / 10);
  }

  /** Four-digit strings sort as their numbers do, whatever follows them. */
  lemma Digits4Ordered(j: nat, k: nat, s: string, t: string)
    requires j < k < 10000
    ensures LexLe(Digits4(j) + s, Digits4(k) + t) && !LexLe(Digits4(k) + t, Digits4(j) + s)
  {
    var a, b := Digits4(j), Digits4(k);
    DigitsStep(j, k);
    if j / 10 < k / 10 {
      DigitsStep(j / 10, k / 10);
      if j / 10 / 10 < k / 10 / 10 {
        DigitsStep(j / 10 / 10, k / 10 / 10);
      }
    }
    var a3, b3 := [a[3]] + s, [b[3]] + t;
    var a2, b2 := [a[2]] + a3, [b[2]] + b3;
    var a1, b1 := [a[1]] + a2, [b[1]] + b2;
    assert a + s == [a[0]] + a1 && b + t == [b[0]] + b1;
    LexLeCons(a[0], b[0], a1, b1);
    LexLeCons(b[0], a[0], b1, a1);
    LexLeCons(a[1], b[1], a2, b2);
    LexLeCons(b[1], a[1], b2, a2);
    LexLeCons(a[2], b[2], a3, b3);
    LexLeCons(b[2], a[2], b3, a3);
    LexLeCons(a[3], b[3], s, t);
    LexLeCons(b[3], a[3], t, s);
  }

  /** Of two numbers, the smaller has fewer tens, or as many and fewer units. */
  lemma DigitsStep(x: nat, y: nat)
    requires x < y
    ensures x / 10 < y / 10 || (x / 10 == y / 10 && x % 10 < y % 10)
  {
    assert x == 10 * (x / 10) + x % 10;
    assert y == 10 * (y / 10) + y % 10;
  }

  lemma FrameNameDigits(k: nat)
    requires k < 10000
    ensures FrameName(k) == "frame_" + (Digits4(k) + ".txt")
  {
    Padded4(k);
  }

  /**
   * Below 10000 frames the names sort in index order, so a sorted listing
   * of a fresh text directory replays the frames in conversion order.
   */
  lemma FrameNamesOrdered(j: nat, k: nat)
    requires j < k < 10000
    ensures LexLe(FrameName(j), FrameName(k)) && !LexLe(FrameName(k), FrameName(j))
  {
    FrameNameDigits(j);
    FrameNameDigits(k);
    Digits4Ordered(j, k, ".txt", ".txt");
    LexLeCommonPrefix("frame_", Digits4(j) + ".txt", Digits4(k) + ".txt");
    LexLeCommonPrefix("frame_", Digits4(k) + ".txt", Digits4(j) + ".txt");
  }

  lemma FrameNameTimesTen(k: nat)
    requires 1000 <= k < 10000
    ensures FrameName(10 * k) == "frame_" + (Digits4(k) + "0.txt")
  {
    Padded4(k);
    assert Decimal(10 * k) == Decimal(k) + [DigitChar(0)];
    assert ZeroPad(Decimal(10 * k), 4) == Digits4(k) + "0";
  }

  /**
   * From 10000 frames on, `{:04}` no longer fixes the width and the sorted
   * listing leaves index order: frame 10·k sorts before frame k + 1 (frame
   * 10000 right after frame 1000, before frame 1001).
   */
  lemma FrameOrderBreaks(k: nat)
    requires 1000 <= k < 9999
    ensures LexLe(FrameName(10 * k), FrameName(k + 1)) && !LexLe(FrameName(k + 1), FrameName(10 * k))
  {
    FrameNameTimesTen(k);
    FrameNameDigits(k + 1);
    Digits4Ordered(k, k + 1, "0.txt", ".txt");
    LexLeCommonPrefix("frame_", Digits4(k) + "0.txt", Digits4(k + 1) + ".txt");
    LexLeCommonPrefix("frame_", Digits4(k + 1) + ".txt", Digits4(k) + "0.txt");
  }

  // ---------------------------------------------------------------- a run

  /** Directories relative to the working directory. */
  const AnimationsDir: string := "animations"
  const FramesDir: string := "frames"
  const DefaultTextDir: string := "ascii_frames"

  /** `Path::join` of a directory and one file name. */
  function Join(dir: string, name: string): string {
    dir + "/" + name
  }

  /**
   * The parsed flags that the pipeline reads after decoding; width,
   * height and fatness are consumed by the resize step, which is part of
   * the `World`.
   */
  datatype Cli = Cli(
    fileName: string,
    animation: bool,
    grayScale: bool,
    output: Option<string>,
    saveIntermediate: Option<string>,
    fps: nat,
    play: bool,
    delay: nat,
    keepFrames: bool)

  /** `text_path`: the `--output` directory, or `ascii_frames`. */
  function TextDir(cli: Cli): string {
    match cli.output
    case Some(o) => o
    case None => DefaultTextDir
  }

  /** `animations_path.join(&cli.file_name)`: the video, or the single image. */
  function InputPath(cli: Cli): string {
    Join(AnimationsDir, cli.fileName)
  }

  /** The arguments of the ffmpeg command in `extract_frames_from_video`. */
  function FfmpegArgs(video: string, outputDir: string, fps: nat): seq<string> {
    ["-i", video, "-vf", "fps=" + Decimal(fps), "-pix_fmt", "rgb24", Join(outputDir, "frame_%04d.png")]
  }

  /**
   * What the rest of the system answers during one run: whether ffmpeg
   * exits with success, the entry names `read_dir` lists in `frames` after
   * it (in listing order), the image `image::open` plus `resize_image`
   * yields for a path (`None` when decoding fails), whether saving the
   * intermediate image and writing a text file succeed, and the files
   * already in the text directory, by path.
   */
  datatype World = World(
    ffmpegOk: bool,
    extracted: seq<string>,
    resized: string -> Option<ImageProcessor.RgbaImage>,
    saveOk: bool,
    writeOk: bool,
    textFiles: map<string, string>)

  /** What the run does to the outside, in order. */
  datatype Event =
    | CreateDir(path: string)
    | RunFfmpeg(args: seq<string>)
    | SaveResized(path: string)
    | WriteFrame(path: string, text: string)
    | ClearScreen
    | Show(text: string)
    | Sleep(millis: nat)
    | RemoveDir(path: string)
    | PrintLine(text: string)

  /** The error `main` returns through `?`. */
  datatype Failure = FfmpegFailed | DecodeFailed(path: string) | SaveFailed(path: string) | WriteFailed(path: string)

  datatype Outcome = Outcome(events: seq<Event>, textFiles: map<string, string>, failure: Option<Failure>)

  /** The events before the frame loop: the directories, then ffmpeg in animation mode. */
  function Setup(cli: Cli): seq<Event> {
    [CreateDir(AnimationsDir), CreateDir(TextDir(cli))]
    + if cli.animation then [CreateDir(FramesDir), RunFfmpeg(FfmpegArgs(InputPath(cli), FramesDir, cli.fps))] else []
  }

  /** The paths listed before sorting: the extracted frames, or the one input image. */
  function Listed(cli: Cli, world: World): seq<string> {
    if cli.animation then seq(|world.extracted|, i requires 0 <= i < |world.extracted| => Join(FramesDir, world.extracted[i]))
    else [InputPath(cli)]
  }

  /** `frame_files` after `sort()`: the listing, sorted. */
  function FramePaths(cli: Cli, world: World): (paths: seq<string>)
    ensures Sorted(paths) && multiset(paths) == multiset(Listed(cli, world))
  {
    SortStrings(Listed(cli, world))
  }

  /** The state of the frame loop: what it did so far, the text directory, and the error that stopped it. */
  datatype Progress = Progress(events: seq<Event>, files: map<string, string>, failure: Option<Failure>)

  /** One iteration of the loop over `frame_files.iter().enumerate()`. */
  function ConvertFrame(cli: Cli, world: World, art: Converter, name: Namer, pr: Progress, index: nat, path: string): Progress {
    match world.resized(path)
    case None => pr.(failure := Some(DecodeFailed(path)))
    case Some(img) =>
      var save := cli.saveIntermediate.Some? && index == 0;
      var events := pr.events + if save then [SaveResized(cli.saveIntermediate.value)] else [];
      if save && !world.saveOk then Progress(events, pr.files, Some(SaveFailed(cli.saveIntermediate.value)))
      else
        var target := name(index);
        if !world.writeOk then Progress(events, pr.files, Some(WriteFailed(target)))
        else
          var text := Converted(art, world, path);
          Progress(events + [WriteFrame(target, text)], pr.files[target := text], None)
  }

  /** The loop over the first `n` paths; the first error ends it. */
  function ConvertFrames(cli: Cli, world: World, art: Converter, name: Namer, paths: seq<string>, n: nat): Progress
    requires n <= |paths|
  {
    if n == 0 then Progress([], world.textFiles, None)
    else
      var pr := ConvertFrames(cli, world, art, name, paths, n - 1);
      if pr.failure.Some? then pr else ConvertFrame(cli, world, art, name, pr, n - 1, paths[n - 1])
  }

  /** The entries of a set, in some order, each once. */
  ghost function SetToSeq(s: set<string>): (r: seq<string>)
    ensures |r| == |s| && Elements(r) == s && Distinct(r)
    decreases |s|
  {
    if s == {} then []
    else
      var x :| x in s;
      var r := [x] + SetToSeq(s - {x});
      assert Elements(r) == {x} + Elements(SetToSeq(s - {x}));
      r
  }

  function Elements(s: seq<string>): set<string> {
    set x | x in s
  }

  predicate Distinct(s: seq<string>) {
    forall i, j :: 0 <= i < j < |s| ==> s[i] != s[j]
  }

  /** The paths of a directory as `read_dir` and `sort()` give them: each once, in sorted order. */
  ghost function SortedKeys(s: set<string>): (keys: seq<string>)
    ensures |keys| == |s| && Elements(keys) == s && Distinct(keys) && Sorted(keys)
  {
    var r := SetToSeq(s);
    var keys := SortStrings(r);
    PermutationElements(r, keys);
    DistinctPermutation(r, keys);
    keys
  }

  /** A rearrangement has the same length and the same entries. */
  lemma PermutationElements(a: seq<string>, b: seq<string>)
    requires multiset(a) == multiset(b)
    ensures |a| == |b| && Elements(a) == Elements(b)
  {
    assert |multiset(a)| == |a| && |multiset(b)| == |b|;
    assert forall x :: x in a <==> x in multiset(a);
    assert forall x :: x in b <==> x in multiset(b);
  }

  /** The body of `play_animation`'s loop for each path: clear, show, sleep. */
  function PlayFrames(paths: seq<string>, files: map<string, string>, delay: nat): seq<Event>
    requires forall p :: p in paths ==> p in files
  {
    if |paths| == 0 then []
    else PlayFrames(paths[..|paths| - 1], files, delay) + [ClearScreen, Show(files[paths[|paths| - 1]]), Sleep(delay)]
  }

  /** `play_animation` when `--play` is given: clear once, then every text file in sorted order. */
  ghost function Playback(cli: Cli, files: map<string, string>): seq<Event> {
    if cli.play then [ClearScreen] + PlayFrames(SortedKeys(files.Keys), files, cli.delay) else []
  }

  /** The removal of `frames` in animation mode, then the closing messages. */
  function Cleanup(cli: Cli): seq<Event> {
    (if cli.animation then [RemoveDir(FramesDir), PrintLine("Removed intermediate frame images")] else [])
    + [PrintLine("Animation processing complete!"), PrintLine("ASCII frames saved to: " + TextDir(cli))]
  }

  /** The events after the frame loop of a run that did not fail. */
  ghost function Finish(cli: Cli, files: map<string, string>): seq<Event> {
    Playback(cli, files) + Cleanup(cli)
  }

  /** A converter from a decoded, resized frame to its text. */
  type Converter = ImageProcessor.RgbaImage -> string

  /** `ascii_representation_from_image` in the mode the flags choose. */
  function Art(grayScale: bool): Converter {
    (img: ImageProcessor.RgbaImage) => ImageProcessor.AsciiArt(img, grayScale, ImageProcessor.Glyphs)
  }

  /** The text file each frame index goes to. */
  type Namer = nat -> string

  /** `format!("frame_{:04}.txt", i)` inside `dir`. */
  function TextPaths(dir: string): Namer {
    (k: nat) => Join(dir, FrameName(k))
  }

  /** The text files of a run: frame k goes to `frame_{k:04}.txt` in the text directory. */
  function Names(cli: Cli): Namer {
    TextPaths(TextDir(cli))
  }

  /** What one run does, as a function of the flags and the world. */
  ghost function Pipeline(cli: Cli, world: World): Outcome {
    Assemble(cli, world, Art(cli.grayScale), FramePaths(cli, world))
  }

  /** A run over the given frame paths, converting each frame with `art`. */
  ghost function Assemble(cli: Cli, world: World, art: Converter, paths: seq<string>): Outcome {
    Conclude(cli, world, ConvertFrames(cli, world, art, Names(cli), paths, |paths|))
  }

  /** A run whose frame loop ends in `pr`: the setup, the loop, and the steps after it when the loop succeeds. */
  ghost function Conclude(cli: Cli, world: World, pr: Progress): Outcome {
    if cli.animation && !world.ffmpegOk then Outcome(Setup(cli), world.textFiles, Some(FfmpegFailed))
    else if pr.failure.Some? then Outcome(Setup(cli) + pr.events, pr.files, pr.failure)
    else Outcome(Setup(cli) + pr.events + Finish(cli, pr.files), pr.files, None)
  }

  /** A rearrangement of a sequence without repetitions has none either. */
  lemma {:induction false} DistinctPermutation(a: seq<string>, b: seq<string>)
    requires Distinct(a) && multiset(a) == multiset(b)
    ensures Distinct(b)
  {
    forall x | x in b
      ensures multiset(b)[x] == 1
    {
      DistinctCount(a, x);
    }
    forall i, j | 0 <= i < j < |b|
      ensures b[i] != b[j]
    {
      RepeatedCount(b, i, j);
    }
  }

  lemma RepeatedCount(b: seq<string>, i: nat, j: nat)
    requires i < j < |b|
    ensures b[i] == b[j] ==> multiset(b)[b[i]] >= 2
  {
    assert b == b[..i] + [b[i]] + b[i + 1..j] + [b[j]] + b[j + 1..];
  }

  lemma {:induction false} DistinctCount(a: seq<string>, x: string)
    requires Distinct(a)
    ensures multiset(a)[x] == if x in a then 1 else 0
    decreases |a|
  {
    if |a| > 0 {
      assert a == [a[0]] + a[1..];
      assert Distinct(a[1..]);
      DistinctCount(a[1..], x);
    }
  }

  /** Two listings of the same entries, each without repetition, sort to the same sequence. */
  lemma SameEntriesSameSort(a: seq<string>, b: seq<string>)
    requires Distinct(a) && Distinct(b) && Elements(a) == Elements(b)
    ensures SortStrings(a) == SortStrings(b)
  {
    forall x
      ensures multiset(a)[x] == multiset(b)[x]
    {
      assert x in a <==> x in Elements(a);
      assert x in b <==> x in Elements(b);
      DistinctCount(a, x);
      DistinctCount(b, x);
    }
    assert multiset(a) == multiset(b);
    SortedUnique(SortStrings(a), SortStrings(b));
  }

  /** `read_dir`: every entry of the directory once, in an order nothing here fixes. */
  method ReadDir(entries: set<string>) returns (listing: seq<string>)
    ensures Elements(listing) == entries && Distinct(listing)
  {
    listing := [];
    var rest := entries;
    while rest != {}
      invariant Elements(listing) + rest == entries && Elements(listing) !! rest && Distinct(listing)
      decreases |rest|
    {
      var p :| p in rest;
      listing := listing + [p];
      rest := rest - {p};
    }
  }

  /** The entries `read_dir` lists, collected into a vector and sorted in place. */
  method SortedEntries(entries: set<string>) returns (sorted: seq<string>)
    ensures sorted == SortedKeys(entries)
  {
    var listing := ReadDir(entries);
    var frameFiles := new string[|listing|](i requires 0 <= i < |listing| => listing[i]);
    assert frameFiles[..] == listing;
    SortInPlace(frameFiles);
    SameEntriesSameSort(listing, SetToSeq(entries));
    sorted := frameFiles[..];
  }

  /** The loop of `play_animation`: for each path, clear the screen, print the file, sleep. */
  method ShowFrames(frameFiles: seq<string>, files: map<string, string>, delay: nat) returns (events: seq<Event>)
    requires forall p :: p in frameFiles ==> p in files
    ensures events == PlayFrames(frameFiles, files, delay)
  {
    events := [];
    for i := 0 to |frameFiles|
      invariant events == PlayFrames(frameFiles[..i], files, delay)
    {
      assert frameFiles[..i + 1][..i] == frameFiles[..i];
      events := events + [ClearScreen, Show(files[frameFiles[i]]), Sleep(delay)];
    }
    assert frameFiles[..|frameFiles|] == frameFiles;
  }

  /**
   * `play_animation`: list the text directory, sort the paths, clear the
   * screen once, then show every file in that order.
   */
  method PlayAnimation(files: map<string, string>, delay: nat) returns (events: seq<Event>)
    ensures events == [ClearScreen] + PlayFrames(SortedKeys(files.Keys), files, delay)
  {
    var frameFiles := SortedEntries(files.Keys);
    assert forall p :: p in frameFiles ==> p in Elements(frameFiles);
    var shown := ShowFrames(frameFiles, files, delay);
    events := [ClearScreen] + shown;
  }

  /** Once a frame has failed, later iterations change nothing. */
  lemma {:induction false} ConvertFramesSticky(cli: Cli, world: World, art: Converter, name: Namer, paths: seq<string>, n: nat, m: nat)
    requires n <= m <= |paths| && ConvertFrames(cli, world, art, name, paths, n).failure.Some?
    ensures ConvertFrames(cli, world, art, name, paths, m) == ConvertFrames(cli, world, art, name, paths, n)
    decreases m
  {
    if m > n {
      ConvertFramesSticky(cli, world, art, name, paths, n, m - 1);
    }
  }

  /** One iteration of the frame loop: decode and resize, save the first frame if asked, convert, write. */
  method ProcessFrame(cli: Cli, world: World, pr: Progress, index: nat, path: string) returns (next: Progress)
    requires pr.failure.None?
    ensures next == ConvertFrame(cli, world, Art(cli.grayScale), Names(cli), pr, index, path)
  {
    var decoded := world.resized(path);
    if decoded.None? {
      return pr.(failure := Some(DecodeFailed(path)));
    }
    var image := decoded.value;
    var events := pr.events;
    if cli.saveIntermediate.Some? && index == 0 {
      events := events + [SaveResized(cli.saveIntermediate.value)];
      if !world.saveOk {
        return Progress(events, pr.files, Some(SaveFailed(cli.saveIntermediate.value)));
      }
    }
    var asciiFrame := ImageProcessor.AsciiRepresentationFromImage(image, cli.grayScale);
    var textFilePath := Join(TextDir(cli), FrameName(index));
    if !world.writeOk {
      return Progress(events, pr.files, Some(WriteFailed(textFilePath)));
    }
    next := Progress(events + [WriteFrame(textFilePath, asciiFrame)], pr.files[textFilePath := asciiFrame], None);
  }

  /** `frame_files`: the listing of `frames` after ffmpeg, or the one input image; then `sort()`. */
  method FrameFiles(cli: Cli, world: World) returns (sorted: seq<string>)
    ensures sorted == FramePaths(cli, world)
  {
    var frameFiles: array<string>;
    if cli.animation {
      var listing := world.extracted;
      frameFiles := new string[|listing|](i requires 0 <= i < |listing| => Join(FramesDir, listing[i]));
    } else {
      frameFiles := new string[1](_ => InputPath(cli));
    }
    assert frameFiles[..] == Listed(cli, world);
    SortInPlace(frameFiles);
    sorted := frameFiles[..];
  }

  /** After the frame loop: play if asked, remove `frames` in animation mode, report. */
  method Finalize(cli: Cli, files: map<string, string>) returns (events: seq<Event>)
    ensures events == Finish(cli, files)
  {
    events := [];
    if cli.play {
      events := PlayAnimation(files, cli.delay);
    }
    // in animation mode `frames_path.exists()` holds: the directory was created before the loop
    if cli.animation {
      events := events + [RemoveDir(FramesDir), PrintLine("Removed intermediate frame images")];
    }
    events := events + [PrintLine("Animation processing complete!"), PrintLine("ASCII frames saved to: " + TextDir(cli))];
  }

  /** The loop over `frame_files.iter().enumerate()`; the first error ends it. */
  method ConvertAll(cli: Cli, world: World, frameFiles: seq<string>) returns (pr: Progress)
    ensures pr == ConvertFrames(cli, world, Art(cli.grayScale), Names(cli), frameFiles, |frameFiles|)
  {
    pr := Progress([], world.textFiles, None);
    for index := 0 to |frameFiles|
      invariant pr == ConvertFrames(cli, world, Art(cli.grayScale), Names(cli), frameFiles, index) && pr.failure.None?
    {
      pr := ProcessFrame(cli, world, pr, index, frameFiles[index]);
      if pr.failure.Some? {
        ConvertFramesSticky(cli, world, Art(cli.grayScale), Names(cli), frameFiles, index + 1, |frameFiles|);
        return;
      }
    }
  }

  /** `main`: set up the directories, extract or take the frames, sort, convert each, play, clean up. */
  method Run(cli: Cli, world: World) returns (out: Outcome)
    ensures out == Pipeline(cli, world)
  {
    var textDir := TextDir(cli);
    var events := [CreateDir(AnimationsDir), CreateDir(textDir)];
    if cli.animation {
      events := events + [CreateDir(FramesDir), RunFfmpeg(FfmpegArgs(InputPath(cli), FramesDir, cli.fps))];
      if !world.ffmpegOk {
        return Outcome(events, world.textFiles, Some(FfmpegFailed));
      }
    }
    assert events == Setup(cli);
    var frameFiles := FrameFiles(cli, world);
    var pr := ConvertAll(cli, world, frameFiles);
    if pr.failure.Some? {
      return Outcome(events + pr.events, pr.files, pr.failure);
    }
    var finish := Finalize(cli, pr.files);
    out := Outcome(events + pr.events + finish, pr.files, None);
  }

  // ---------------------------------------------------------------- properties of a run

  /** The text file of the k-th frame. */
  function Target(cli: Cli, k: nat): string {
    Names(cli)(k)
  }

  /** The text of the frame decoded from `path` (empty when it does not decode). */
  function Converted(art: Converter, world: World, path: string): string {
    match world.resized(path)
    case Some(img) => art(img)
    case None => ""
  }

  /** The file writes among the events, in order. */
  function Writes(events: seq<Event>): seq<Event> {
    if |events| == 0 then []
    else (if events[0].WriteFrame? then [events[0]] else []) + Writes(events[1..])
  }

  /** The saves of the intermediate image among the events, in order. */
  function Saves(events: seq<Event>): seq<Event> {
    if |events| == 0 then []
    else (if events[0].SaveResized? then [events[0]] else []) + Saves(events[1..])
  }

  lemma {:induction false} WritesAppend(a: seq<Event>, b: seq<Event>)
    ensures Writes(a + b) == Writes(a) + Writes(b)
    decreases |a|
  {
    if |a| == 0 {
      assert a + b == b;
    } else {
      assert (a + b)[0] == a[0] && (a + b)[1..] == a[1..] + b;
      WritesAppend(a[1..], b);
    }
  }

  lemma {:induction false} SavesAppend(a: seq<Event>, b: seq<Event>)
    ensures Saves(a + b) == Saves(a) + Saves(b)
    decreases |a|
  {
    if |a| == 0 {
      assert a + b == b;
    } else {
      assert (a + b)[0] == a[0] && (a + b)[1..] == a[1..] + b;
      SavesAppend(a[1..], b);
    }
  }

  /** Both filters distribute over concatenation. */
  lemma FiltersAppend(a: seq<Event>, b: seq<Event>)
    ensures Writes(a + b) == Writes(a) + Writes(b)
    ensures Saves(a + b) == Saves(a) + Saves(b)
  {
    WritesAppend(a, b);
    SavesAppend(a, b);
  }

  /** The writes of the first `m` frames: frame k's text to `frame_{k:04}.txt`. */
  function ExpectedWrites(world: World, art: Converter, name: Namer, paths: seq<string>, m: nat): seq<Event>
    requires m <= |paths|
  {
    seq(m, k requires 0 <= k < m => WriteFrame(name(k), Converted(art, world, paths[k])))
  }

  /** The text directory after the first `m` frames are written over it. */
  function Overlay(world: World, art: Converter, name: Namer, paths: seq<string>, m: nat): map<string, string>
    requires m <= |paths|
  {
    if m == 0 then world.textFiles
    else Overlay(world, art, name, paths, m - 1)[name(m - 1) := Converted(art, world, paths[m - 1])]
  }

  /** Whether the iteration for frame `index` at `path` gets as far as writing its text file. */
  predicate FrameWritten(cli: Cli, world: World, index: nat, path: string) {
    world.resized(path).Some? && !(cli.saveIntermediate.Some? && index == 0 && !world.saveOk) && world.writeOk
  }

  /** How many of the first `n` frames the loop writes: those before the first that fails. */
  function Written(cli: Cli, world: World, paths: seq<string>, n: nat): (m: nat)
    requires n <= |paths|
    ensures m <= n
  {
    if n == 0 then 0
    else
      var m := Written(cli, world, paths, n - 1);
      if m == n - 1 && FrameWritten(cli, world, n - 1, paths[n - 1]) then n else m
  }

  /** `Written` counts exactly the frames before the first one that is not written. */
  lemma {:induction false} WrittenIsFirstFailure(cli: Cli, world: World, paths: seq<string>, n: nat)
    requires n <= |paths|
    ensures var m := Written(cli, world, paths, n);
      (forall k :: 0 <= k < m ==> FrameWritten(cli, world, k, paths[k])) &&
      (m < n ==> !FrameWritten(cli, world, m, paths[m]))
    decreases n
  {
    if n > 0 {
      WrittenIsFirstFailure(cli, world, paths, n - 1);
    }
  }

  /** One iteration succeeds exactly when it gets as far as writing its frame's text file. */
  lemma ConvertFrameFails(cli: Cli, world: World, art: Converter, name: Namer, pr: Progress, index: nat, path: string)
    requires pr.failure.None?
    ensures ConvertFrame(cli, world, art, name, pr, index, path).failure.None? <==> FrameWritten(cli, world, index, path)
  {
  }

  /** One iteration writes its frame's text file or nothing. */
  lemma ConvertFrameWrites(cli: Cli, world: World, art: Converter, name: Namer, pr: Progress, index: nat, path: string)
    requires pr.failure.None?
    ensures Writes(ConvertFrame(cli, world, art, name, pr, index, path).events) == Writes(pr.events) +
      if FrameWritten(cli, world, index, path) then [WriteFrame(name(index), Converted(art, world, path))] else []
  {
    if world.resized(path).Some? {
      var save := cli.saveIntermediate.Some? && index == 0;
      var saved := if save then [SaveResized(cli.saveIntermediate.value)] else [];
      assert Writes(saved) == [];
      WritesAppend(pr.events, saved);
      var write := WriteFrame(name(index), Converted(art, world, path));
      WritesAppend(pr.events + saved, [write]);
    }
  }

  /** One iteration stores its frame's text in the text directory, or leaves the directory alone. */
  lemma ConvertFrameFiles(cli: Cli, world: World, art: Converter, name: Namer, pr: Progress, index: nat, path: string)
    requires pr.failure.None?
    ensures ConvertFrame(cli, world, art, name, pr, index, path).files ==
      if FrameWritten(cli, world, index, path) then pr.files[name(index) := Converted(art, world, path)] else pr.files
  {
  }

  /** The loop over `n` paths fails exactly when some frame among them is not written. */
  lemma {:induction false} ConvertFails(cli: Cli, world: World, art: Converter, name: Namer, paths: seq<string>, n: nat)
    requires n <= |paths|
    ensures ConvertFrames(cli, world, art, name, paths, n).failure.None? <==> Written(cli, world, paths, n) == n
    decreases n
  {
    if n > 0 {
      ConvertFails(cli, world, art, name, paths, n - 1);
      var pr := ConvertFrames(cli, world, art, name, paths, n - 1);
      if pr.failure.None? {
        ConvertFrameFails(cli, world, art, name, pr, n - 1, paths[n - 1]);
      }
    }
  }

  /** Past a loop that has not failed, the next iteration is one more `ConvertFrame`. */
  lemma ConvertFramesUnfold(cli: Cli, world: World, art: Converter, name: Namer, paths: seq<string>, n: nat)
    requires 0 < n <= |paths| && ConvertFrames(cli, world, art, name, paths, n - 1).failure.None?
    ensures ConvertFrames(cli, world, art, name, paths, n) ==
      ConvertFrame(cli, world, art, name, ConvertFrames(cli, world, art, name, paths, n - 1), n - 1, paths[n - 1])
  {
  }

  /** Past `n - 1` written frames, frame `n - 1` is written exactly when its iteration gets that far. */
  lemma WrittenStep(cli: Cli, world: World, paths: seq<string>, n: nat)
    requires 0 < n <= |paths|
    ensures Written(cli, world, paths, n) ==
      if Written(cli, world, paths, n - 1) == n - 1 && FrameWritten(cli, world, n - 1, paths[n - 1]) then n
      else Written(cli, world, paths, n - 1)
  {
  }

  lemma ExpectedWritesSnoc(cli: Cli, world: World, art: Converter, name: Namer, paths: seq<string>, m: nat)
    requires 0 < m <= |paths|
    ensures ExpectedWrites(world, art, name, paths, m) ==
      ExpectedWrites(world, art, name, paths, m - 1) + [WriteFrame(name(m - 1), Converted(art, world, paths[m - 1]))]
  {
  }

  lemma OverlaySnoc(cli: Cli, world: World, art: Converter, name: Namer, paths: seq<string>, m: nat)
    requires 0 < m <= |paths|
    ensures Overlay(world, art, name, paths, m) ==
      Overlay(world, art, name, paths, m - 1)[name(m - 1) := Converted(art, world, paths[m - 1])]
  {
  }

  /** The loop over `n` paths writes the first `Written` of them in order, frame k to `frame_{k:04}.txt`. */
  lemma {:induction false} ConvertWrites(cli: Cli, world: World, art: Converter, name: Namer, paths: seq<string>, n: nat)
    requires n <= |paths|
    ensures Writes(ConvertFrames(cli, world, art, name, paths, n).events) == ExpectedWrites(world, art, name, paths, Written(cli, world, paths, n))
    decreases n
  {
    if n > 0 {
      ConvertWrites(cli, world, art, name, paths, n - 1);
      ConvertFails(cli, world, art, name, paths, n - 1);
      WrittenStep(cli, world, paths, n);
      var pr := ConvertFrames(cli, world, art, name, paths, n - 1);
      if pr.failure.Some? {
        assert ConvertFrames(cli, world, art, name, paths, n) == pr;
      } else {
        ConvertFramesUnfold(cli, world, art, name, paths, n);
        ConvertFrameWrites(cli, world, art, name, pr, n - 1, paths[n - 1]);
        ExpectedWritesSnoc(cli, world, art, name, paths, n);
      }
    }
  }

  /** After the loop the text directory is the old one with the written frames over it. */
  lemma {:induction false} ConvertFiles(cli: Cli, world: World, art: Converter, name: Namer, paths: seq<string>, n: nat)
    requires n <= |paths|
    ensures ConvertFrames(cli, world, art, name, paths, n).files == Overlay(world, art, name, paths, Written(cli, world, paths, n))
    decreases n
  {
    if n > 0 {
      ConvertFiles(cli, world, art, name, paths, n - 1);
      ConvertFails(cli, world, art, name, paths, n - 1);
      WrittenStep(cli, world, paths, n);
      var pr := ConvertFrames(cli, world, art, name, paths, n - 1);
      if pr.failure.Some? {
        assert ConvertFrames(cli, world, art, name, paths, n) == pr;
      } else {
        ConvertFramesUnfold(cli, world, art, name, paths, n);
        FilesStep(cli, world, art, name, paths, n, pr);
      }
    }
  }

  /** The step of `ConvertFiles` past `n - 1` frames written over the text directory. */
  lemma FilesStep(cli: Cli, world: World, art: Converter, name: Namer, paths: seq<string>, n: nat, pr: Progress)
    requires 0 < n <= |paths| && pr.failure.None? && Written(cli, world, paths, n - 1) == n - 1
    requires pr.files == Overlay(world, art, name, paths, n - 1)
    ensures ConvertFrame(cli, world, art, name, pr, n - 1, paths[n - 1]).files == Overlay(world, art, name, paths, Written(cli, world, paths, n))
  {
    ConvertFrameFiles(cli, world, art, name, pr, n - 1, paths[n - 1]);
    WrittenStep(cli, world, paths, n);
    if FrameWritten(cli, world, n - 1, paths[n - 1]) {
      OverlaySnoc(cli, world, art, name, paths, n);
    }
  }

  /** One iteration saves the intermediate image when it is frame 0, `--save-intermediate` is given and the frame decodes. */
  lemma ConvertFrameSaves(cli: Cli, world: World, art: Converter, name: Namer, pr: Progress, index: nat, path: string)
    requires pr.failure.None?
    ensures Saves(ConvertFrame(cli, world, art, name, pr, index, path).events) == Saves(pr.events) +
      if cli.saveIntermediate.Some? && index == 0 && world.resized(path).Some? then [SaveResized(cli.saveIntermediate.value)] else []
  {
    if world.resized(path).Some? {
      var save := cli.saveIntermediate.Some? && index == 0;
      var saved := if save then [SaveResized(cli.saveIntermediate.value)] else [];
      assert Saves(saved) == saved;
      SavesAppend(pr.events, saved);
      var write := WriteFrame(name(index), Converted(art, world, path));
      SavesAppend(pr.events + saved, [write]);
    }
  }

  /** Only frame 0 saves the intermediate image, and only when `--save-intermediate` is given and it decodes. */
  lemma {:induction false} ConvertSaves(cli: Cli, world: World, art: Converter, name: Namer, paths: seq<string>, n: nat)
    requires n <= |paths|
    ensures Saves(ConvertFrames(cli, world, art, name, paths, n).events) ==
      if cli.saveIntermediate.Some? && n > 0 && world.resized(paths[0]).Some? then [SaveResized(cli.saveIntermediate.value)] else []
    decreases n
  {
    if n > 0 {
      ConvertSaves(cli, world, art, name, paths, n - 1);
      var pr := ConvertFrames(cli, world, art, name, paths, n - 1);
      if pr.failure.Some? {
        assert ConvertFrames(cli, world, art, name, paths, n) == pr;
      } else {
        ConvertFramesUnfold(cli, world, art, name, paths, n);
        ConvertFrameSaves(cli, world, art, name, pr, n - 1, paths[n - 1]);
      }
    }
  }

  /** The loop does nothing but save the intermediate image and write text files. */
  lemma {:induction false} ConvertEventKinds(cli: Cli, world: World, art: Converter, name: Namer, paths: seq<string>, n: nat)
    requires n <= |paths|
    ensures forall e :: e in ConvertFrames(cli, world, art, name, paths, n).events ==> e.SaveResized? || e.WriteFrame?
    decreases n
  {
    if n > 0 {
      ConvertEventKinds(cli, world, art, name, paths, n - 1);
    }
  }

  lemma JoinInjective(dir: string, a: string, b: string)
    ensures Join(dir, a) == Join(dir, b) <==> a == b
  {
    assert Join(dir, a)[|dir| + 1..] == a && Join(dir, b)[|dir| + 1..] == b;
  }

  /** Different frames go to different text files. */
  lemma TargetsDistinct(cli: Cli, j: nat, k: nat)
    requires j != k
    ensures Target(cli, j) != Target(cli, k)
  {
    FrameNamesDistinct(j, k);
    JoinInjective(TextDir(cli), FrameName(j), FrameName(k));
  }

  /** The files the first `m` frames go to. */
  function Targets(name: Namer, m: nat): set<string> {
    set k | 0 <= k < m :: name(k)
  }

  /** Whether the first `m` frames go to `m` different files. */
  predicate Injective(name: Namer, m: nat) {
    forall j, k :: 0 <= j < k < m ==> name(j) != name(k)
  }

  /** A run's frames go to different text files. */
  lemma NamesInjective(cli: Cli, m: nat)
    ensures Injective(Names(cli), m)
  {
    forall j, k | 0 <= j < k < m
      ensures Names(cli)(j) != Names(cli)(k)
    {
      TargetsDistinct(cli, j, k);
    }
  }

  /** After m frames going to different files, every frame's file holds that frame's text. */
  lemma {:induction false} OverlayWritten(world: World, art: Converter, name: Namer, paths: seq<string>, m: nat)
    requires m <= |paths| && Injective(name, m)
    ensures var files := Overlay(world, art, name, paths, m);
      forall k :: 0 <= k < m ==> name(k) in files && files[name(k)] == Converted(art, world, paths[k])
    decreases m
  {
    if m > 0 {
      OverlayWritten(world, art, name, paths, m - 1);
    }
  }

  /** Every other file already in the directory is left as it was, and no other file appears. */
  lemma {:induction false} OverlayKeeps(world: World, art: Converter, name: Namer, paths: seq<string>, m: nat)
    requires m <= |paths|
    ensures var files := Overlay(world, art, name, paths, m);
      forall p :: p !in Targets(name, m) && p in world.textFiles ==> p in files && files[p] == world.textFiles[p]
    ensures Overlay(world, art, name, paths, m).Keys == world.textFiles.Keys + Targets(name, m)
    decreases m
  {
    if m > 0 {
      OverlayKeeps(world, art, name, paths, m - 1);
      assert Targets(name, m) == Targets(name, m - 1) + {name(m - 1)};
    }
  }

  /** The events `ev` are, for each path in turn, a clear, the path's text, a sleep. */
  predicate PlaysEach(ev: seq<Event>, paths: seq<string>, files: map<string, string>, delay: nat)
    requires forall p :: p in paths ==> p in files
  {
    |ev| == 3 * |paths| &&
    forall i :: 0 <= i < |paths| ==>
      ev[3 * i] == ClearScreen && ev[3 * i + 1] == Show(files[paths[i]]) && ev[3 * i + 2] == Sleep(delay)
  }

  /** Whether the events only clear the screen, show a text and sleep. */
  predicate ScreenOnly(ev: seq<Event>) {
    forall e :: e in ev ==> e.ClearScreen? || e.Show? || e.Sleep?
  }

  /** Playback is, for each path in turn, a clear, its contents, a sleep. */
  lemma {:induction false} PlayFramesShape(paths: seq<string>, files: map<string, string>, delay: nat)
    requires forall p :: p in paths ==> p in files
    ensures PlaysEach(PlayFrames(paths, files, delay), paths, files, delay)
    ensures ScreenOnly(PlayFrames(paths, files, delay))
    decreases |paths|
  {
    if |paths| > 0 {
      var init, last := paths[..|paths| - 1], paths[|paths| - 1];
      PlayFramesShape(init, files, delay);
      assert paths == init + [last];
      PlaysEachSnoc(PlayFrames(init, files, delay), init, files, delay, last);
    }
  }

  /** One more path adds its clear, show and sleep. */
  lemma PlaysEachSnoc(ev: seq<Event>, paths: seq<string>, files: map<string, string>, delay: nat, p: string)
    requires forall q :: q in paths ==> q in files
    requires p in files && PlaysEach(ev, paths, files, delay) && ScreenOnly(ev)
    ensures forall q :: q in paths + [p] ==> q in files
    ensures PlaysEach(ev + [ClearScreen, Show(files[p]), Sleep(delay)], paths + [p], files, delay)
    ensures ScreenOnly(ev + [ClearScreen, Show(files[p]), Sleep(delay)])
  {
    var ev', paths' := ev + [ClearScreen, Show(files[p]), Sleep(delay)], paths + [p];
    forall i | 0 <= i < |paths'|
      ensures ev'[3 * i] == ClearScreen && ev'[3 * i + 1] == Show(files[paths'[i]]) && ev'[3 * i + 2] == Sleep(delay)
    {
      if i < |paths| {
        assert paths'[i] == paths[i];
      }
    }
  }

  lemma {:induction false} QuietFilters(ev: seq<Event>)
    requires forall e :: e in ev ==> !e.WriteFrame? && !e.SaveResized?
    ensures Writes(ev) == [] && Saves(ev) == []
    decreases |ev|
  {
    if |ev| > 0 {
      assert ev[0] in ev;
      assert forall e :: e in ev[1..] ==> e in ev;
      QuietFilters(ev[1..]);
    }
  }

  /** Playback only clears, shows and sleeps. */
  lemma PlaybackKinds(cli: Cli, files: map<string, string>)
    ensures forall e :: e in Playback(cli, files) ==> e.ClearScreen? || e.Show? || e.Sleep?
  {
    PlayFramesShape(SortedKeys(files.Keys), files, cli.delay);
  }

  /** The clean-up shows nothing, and removes `frames` exactly in animation mode. */
  lemma CleanupKinds(cli: Cli)
    ensures forall e :: e in Cleanup(cli) ==> e.RemoveDir? || e.PrintLine?
    ensures RemoveDir(FramesDir) in Cleanup(cli) <==> cli.animation
  {
    assert cli.animation ==> Cleanup(cli)[0] == RemoveDir(FramesDir);
  }

  /** What follows the loop only plays, removes the frames directory and prints. */
  lemma FinishKinds(cli: Cli, files: map<string, string>)
    ensures forall e :: e in Finish(cli, files) ==> e.ClearScreen? || e.Show? || e.Sleep? || e.RemoveDir? || e.PrintLine?
  {
    PlaybackKinds(cli, files);
    CleanupKinds(cli);
  }

  /** The outcome of a run that gets past ffmpeg, by the outcome of its frame loop. */
  lemma ConcludeAfterFfmpeg(cli: Cli, world: World, pr: Progress)
    requires !(cli.animation && !world.ffmpegOk)
    ensures var out := Conclude(cli, world, pr);
      out.textFiles == pr.files && out.failure == pr.failure &&
      out.events == Setup(cli) + pr.events + if pr.failure.None? then Finish(cli, pr.files) else []
  {
    if pr.failure.Some? {
      assert Setup(cli) + pr.events + [] == Setup(cli) + pr.events;
    }
  }

  /** Neither the setup nor the steps after the loop save or write anything. */
  lemma OutsideLoopQuiet(cli: Cli, files: map<string, string>, last: bool)
    ensures var rest := if last then Finish(cli, files) else [];
      Writes(Setup(cli)) == [] && Saves(Setup(cli)) == [] && Writes(rest) == [] && Saves(rest) == []
  {
    QuietFilters(Setup(cli));
    if last {
      FinishKinds(cli, files);
      QuietFilters(Finish(cli, files));
    }
  }

  /** The writes and saves of a run are those of its frame loop (none when ffmpeg fails). */
  lemma ConcludeFilters(cli: Cli, world: World, pr: Progress)
    ensures var out := Conclude(cli, world, pr);
      var loop := if cli.animation && !world.ffmpegOk then [] else pr.events;
      Writes(out.events) == Writes(loop) && Saves(out.events) == Saves(loop)
  {
    if cli.animation && !world.ffmpegOk {
      QuietFilters(Setup(cli));
    } else {
      ConcludeAfterFfmpeg(cli, world, pr);
      OutsideLoopQuiet(cli, pr.files, pr.failure.None?);
      var rest := if pr.failure.None? then Finish(cli, pr.files) else [];
      FiltersAppend(Setup(cli), pr.events);
      FiltersAppend(Setup(cli) + pr.events, rest);
    }
  }

  /** The number of frames a run writes: none when ffmpeg fails, otherwise those before the first that fails. */
  function RunWritten(cli: Cli, world: World, paths: seq<string>): (m: nat)
    ensures m <= |paths|
  {
    if cli.animation && !world.ffmpegOk then 0 else Written(cli, world, paths, |paths|)
  }

  /** A run writes its first `RunWritten` frames in order, frame k to `frame_{k:04}.txt`, and nothing else. */
  lemma AssembleWrites(cli: Cli, world: World, art: Converter, paths: seq<string>)
    ensures Writes(Assemble(cli, world, art, paths).events) == ExpectedWrites(world, art, Names(cli), paths, RunWritten(cli, world, paths))
  {
    ConcludeFilters(cli, world, ConvertFrames(cli, world, art, Names(cli), paths, |paths|));
    if cli.animation && !world.ffmpegOk {
      assert ExpectedWrites(world, art, Names(cli), paths, 0) == [];
    } else {
      ConvertWrites(cli, world, art, Names(cli), paths, |paths|);
    }
  }

  /** A run leaves the text directory as the frames it wrote over the directory's old contents. */
  lemma AssembleFiles(cli: Cli, world: World, art: Converter, paths: seq<string>)
    ensures Assemble(cli, world, art, paths).textFiles == Overlay(world, art, Names(cli), paths, RunWritten(cli, world, paths))
  {
    if !(cli.animation && !world.ffmpegOk) {
      ConcludeAfterFfmpeg(cli, world, ConvertFrames(cli, world, art, Names(cli), paths, |paths|));
      ConvertFiles(cli, world, art, Names(cli), paths, |paths|);
    }
  }

  /** A run succeeds exactly when ffmpeg does and every frame is written. */
  lemma AssembleSucceeds(cli: Cli, world: World, art: Converter, paths: seq<string>)
    ensures Assemble(cli, world, art, paths).failure.None? <==>
      !(cli.animation && !world.ffmpegOk) && RunWritten(cli, world, paths) == |paths|
  {
    if !(cli.animation && !world.ffmpegOk) {
      ConcludeAfterFfmpeg(cli, world, ConvertFrames(cli, world, art, Names(cli), paths, |paths|));
      ConvertFails(cli, world, art, Names(cli), paths, |paths|);
    }
  }

  /** The run writes the first `RunWritten` sorted frame paths in order, frame k to `frame_{k:04}.txt`. */
  lemma PipelineWrites(cli: Cli, world: World)
    ensures var paths := FramePaths(cli, world);
      Writes(Pipeline(cli, world).events) == ExpectedWrites(world, Art(cli.grayScale), Names(cli), paths, RunWritten(cli, world, paths))
  {
    AssembleWrites(cli, world, Art(cli.grayScale), FramePaths(cli, world));
  }

  /** The run leaves the text directory as the frames it wrote over the old contents. */
  lemma PipelineFiles(cli: Cli, world: World)
    ensures var paths := FramePaths(cli, world);
      Pipeline(cli, world).textFiles == Overlay(world, Art(cli.grayScale), Names(cli), paths, RunWritten(cli, world, paths))
  {
    AssembleFiles(cli, world, Art(cli.grayScale), FramePaths(cli, world));
  }

  /** The run succeeds exactly when ffmpeg does and every frame decodes, saves and writes. */
  lemma PipelineSucceeds(cli: Cli, world: World)
    ensures Pipeline(cli, world).failure.None? <==>
      !(cli.animation && !world.ffmpegOk) && RunWritten(cli, world, FramePaths(cli, world)) == |FramePaths(cli, world)|
  {
    AssembleSucceeds(cli, world, Art(cli.grayScale), FramePaths(cli, world));
  }

  /** A run saves the intermediate image at most once: for its first frame, when asked and when it decodes. */
  lemma AssembleSaves(cli: Cli, world: World, art: Converter, paths: seq<string>)
    ensures Saves(Assemble(cli, world, art, paths).events) ==
      if cli.saveIntermediate.Some? && !(cli.animation && !world.ffmpegOk) && |paths| > 0 && world.resized(paths[0]).Some?
      then [SaveResized(cli.saveIntermediate.value)] else []
  {
    ConcludeFilters(cli, world, ConvertFrames(cli, world, art, Names(cli), paths, |paths|));
    if !(cli.animation && !world.ffmpegOk) {
      ConvertSaves(cli, world, art, Names(cli), paths, |paths|);
    }
  }

  /** The intermediate image is saved at most once: for the first sorted frame, when asked and when it decodes. */
  lemma PipelineSaves(cli: Cli, world: World)
    ensures var paths := FramePaths(cli, world);
      Saves(Pipeline(cli, world).events) ==
        if cli.saveIntermediate.Some? && !(cli.animation && !world.ffmpegOk) && |paths| > 0 && world.resized(paths[0]).Some?
        then [SaveResized(cli.saveIntermediate.value)] else []
  {
    AssembleSaves(cli, world, Art(cli.grayScale), FramePaths(cli, world));
  }

  /** The setup writes and saves nothing, and in animation mode it ends with the ffmpeg call. */
  lemma SetupShape(cli: Cli)
    ensures Writes(Setup(cli)) == [] && Saves(Setup(cli)) == []
    ensures cli.animation ==> Setup(cli)[|Setup(cli)| - 1] == RunFfmpeg(FfmpegArgs(InputPath(cli), FramesDir, cli.fps))
  {
    QuietFilters(Setup(cli));
  }

  /** When ffmpeg fails the run stops right after it, with the text directory untouched. */
  lemma PipelineFfmpegFailure(cli: Cli, world: World)
    requires cli.animation && !world.ffmpegOk
    ensures Pipeline(cli, world) == Outcome(Setup(cli), world.textFiles, Some(FfmpegFailed))
  {
    assert Pipeline(cli, world) == Conclude(cli, world, ConvertFrames(cli, world, Art(cli.grayScale), Names(cli), FramePaths(cli, world), |FramePaths(cli, world)|));
  }

  /** Without animation mode the one path processed is `animations/<file_name>`. */
  lemma SingleImagePath(cli: Cli, world: World)
    requires !cli.animation
    ensures FramePaths(cli, world) == [InputPath(cli)]
  {
    assert Listed(cli, world) == [InputPath(cli)];
    assert Insert(InputPath(cli), []) == [InputPath(cli)];
  }

  /** Without animation mode a run that succeeds writes the one image to `frame_0000.txt`. */
  lemma PipelineSingleImage(cli: Cli, world: World)
    requires !cli.animation && Pipeline(cli, world).failure.None?
    ensures Writes(Pipeline(cli, world).events) ==
      [WriteFrame(Join(TextDir(cli), "frame_0000.txt"), Converted(Art(cli.grayScale), world, InputPath(cli)))]
  {
    SingleImagePath(cli, world);
    var paths := [InputPath(cli)];
    AssembleSucceeds(cli, world, Art(cli.grayScale), paths);
    AssembleWrites(cli, world, Art(cli.grayScale), paths);
    FrameNameDigits(0);
    assert Digits4(0) == "0000";
    assert FrameName(0) == "frame_0000.txt";
    assert ExpectedWrites(world, Art(cli.grayScale), Names(cli), paths, 1) == [WriteFrame(Target(cli, 0), Converted(Art(cli.grayScale), world, paths[0]))];
  }

  /** Whether nothing is shown after the frames directory is removed. */
  predicate ShowsBeforeRemoval(ev: seq<Event>) {
    forall i, j :: 0 <= i < j < |ev| && ev[i] == RemoveDir(FramesDir) ==> !ev[j].Show?
  }

  /** Whether no event removes a directory. */
  predicate NoRemoval(ev: seq<Event>) {
    forall e :: e in ev ==> !e.RemoveDir?
  }

  /** Events that remove nothing followed by events that show nothing. */
  lemma RemovalSplit(pre: seq<Event>, post: seq<Event>)
    requires NoRemoval(pre) && forall e :: e in post ==> !e.Show?
    ensures RemoveDir(FramesDir) in pre + post <==> RemoveDir(FramesDir) in post
    ensures ShowsBeforeRemoval(pre + post)
  {
    var ev := pre + post;
    forall k | 0 <= k < |pre|
      ensures ev[k] != RemoveDir(FramesDir)
    {
      assert ev[k] == pre[k] && pre[k] in pre;
    }
    forall i, j | 0 <= i < j < |ev| && ev[i] == RemoveDir(FramesDir)
      ensures !ev[j].Show?
    {
      assert ev[j] == post[j - |pre|] && post[j - |pre|] in post;
    }
  }

  /**
   * The frames directory is removed exactly when the run is in animation
   * mode and gets past the frame loop (`keep_frames` plays no part), and
   * nothing is shown after it is removed.
   */
  lemma ConcludeRemoval(cli: Cli, world: World, pr: Progress)
    requires forall e :: e in pr.events ==> e.SaveResized? || e.WriteFrame?
    ensures var out := Conclude(cli, world, pr);
      (RemoveDir(FramesDir) in out.events <==> cli.animation && out.failure.None?) && ShowsBeforeRemoval(out.events)
  {
    if cli.animation && !world.ffmpegOk {
      RemovalOnFfmpegFailure(cli, world, pr);
    } else if pr.failure.Some? {
      RemovalOnLoopFailure(cli, world, pr);
    } else {
      RemovalOnSuccess(cli, world, pr);
    }
  }

  lemma RemovalOnFfmpegFailure(cli: Cli, world: World, pr: Progress)
    requires cli.animation && !world.ffmpegOk
    ensures var ev := Conclude(cli, world, pr).events; RemoveDir(FramesDir) !in ev && ShowsBeforeRemoval(ev)
  {
    assert NoRemoval(Setup(cli));
    assert Setup(cli) == Setup(cli) + [];
    RemovalSplit(Setup(cli), []);
  }

  lemma RemovalOnLoopFailure(cli: Cli, world: World, pr: Progress)
    requires !(cli.animation && !world.ffmpegOk) && pr.failure.Some?
    requires forall e :: e in pr.events ==> e.SaveResized? || e.WriteFrame?
    ensures var ev := Conclude(cli, world, pr).events; RemoveDir(FramesDir) !in ev && ShowsBeforeRemoval(ev)
  {
    var pre := Setup(cli) + pr.events;
    assert NoRemoval(pre);
    assert Conclude(cli, world, pr).events == pre + [];
    RemovalSplit(pre, []);
  }

  lemma RemovalOnSuccess(cli: Cli, world: World, pr: Progress)
    requires !(cli.animation && !world.ffmpegOk) && pr.failure.None?
    requires forall e :: e in pr.events ==> e.SaveResized? || e.WriteFrame?
    ensures var ev := Conclude(cli, world, pr).events; (RemoveDir(FramesDir) in ev <==> cli.animation) && ShowsBeforeRemoval(ev)
  {
    var pre := Setup(cli) + pr.events + Playback(cli, pr.files);
    assert Conclude(cli, world, pr).events == pre + Cleanup(cli) by {
      ConcludeAfterFfmpeg(cli, world, pr);
    }
    assert NoRemoval(pre) by {
      assert NoRemoval(Setup(cli));
      PlaybackKinds(cli, pr.files);
    }
    CleanupKinds(cli);
    RemovalSplit(pre, Cleanup(cli));
  }

  /**
   * The frames directory is removed exactly when the run is in animation
   * mode and gets past the frame loop, and nothing is shown after it.
   */
  lemma PipelineRemoval(cli: Cli, world: World)
    ensures RemoveDir(FramesDir) in Pipeline(cli, world).events <==> cli.animation && Pipeline(cli, world).failure.None?
    ensures ShowsBeforeRemoval(Pipeline(cli, world).events)
  {
    var paths := FramePaths(cli, world);
    ConvertEventKinds(cli, world, Art(cli.grayScale), Names(cli), paths, |paths|);
    ConcludeRemoval(cli, world, ConvertFrames(cli, world, Art(cli.grayScale), Names(cli), paths, |paths|));
  }

  lemma {:induction false} ConvertIgnoresKeepFrames(cli: Cli, world: World, art: Converter, name: Namer, paths: seq<string>, n: nat, keep: bool)
    requires n <= |paths|
    ensures ConvertFrames(cli.(keepFrames := keep), world, art, name, paths, n) == ConvertFrames(cli, world, art, name, paths, n)
    decreases n
  {
    if n > 0 {
      ConvertIgnoresKeepFrames(cli, world, art, name, paths, n - 1, keep);
    }
  }

  /** A run over given frame paths does not depend on `--keep-frames`. */
  lemma AssembleIgnoresKeepFrames(cli: Cli, world: World, art: Converter, paths: seq<string>, keep: bool)
    ensures Assemble(cli.(keepFrames := keep), world, art, paths) == Assemble(cli, world, art, paths)
  {
    assert Names(cli.(keepFrames := keep)) == Names(cli);
    ConvertIgnoresKeepFrames(cli, world, art, Names(cli), paths, |paths|, keep);
  }

  /** `--keep-frames` is parsed but never read: the run is the same with or without it. */
  lemma PipelineIgnoresKeepFrames(cli: Cli, world: World, keep: bool)
    ensures Pipeline(cli.(keepFrames := keep), world) == Pipeline(cli, world)
  {
    assert Listed(cli.(keepFrames := keep), world) == Listed(cli, world);
    AssembleIgnoresKeepFrames(cli, world, Art(cli.grayScale), FramePaths(cli, world), keep);
  }

  /** Sorted sequences without repetition that hold the same entries are equal. */
  lemma SortedDistinctUnique(a: seq<string>, b: seq<string>)
    requires Sorted(a) && Sorted(b) && Distinct(a) && Distinct(b) && Elements(a) == Elements(b)
    ensures a == b
  {
    forall x
      ensures multiset(a)[x] == multiset(b)[x]
    {
      assert x in a <==> x in Elements(a);
      assert x in b <==> x in Elements(b);
      DistinctCount(a, x);
      DistinctCount(b, x);
    }
    assert multiset(a) == multiset(b);
    SortedUnique(a, b);
  }

  /** The text files of the first `n` frames, in frame order. */
  function TargetList(cli: Cli, n: nat): (names: seq<string>)
    ensures |names| == n && forall k :: 0 <= k < n ==> names[k] == Target(cli, k)
  {
    seq(n, k requires 0 <= k < n => Target(cli, k))
  }

  /** Below 10000 frames the text files, in frame order, are sorted. */
  lemma TargetsSorted(cli: Cli, n: nat)
    requires n <= 10000
    ensures Sorted(TargetList(cli, n))
  {
    var names := TargetList(cli, n);
    forall i | 0 < i < n
      ensures LexLe(names[i - 1], names[i])
    {
      FrameNamesOrdered(i - 1, i);
      LexLeCommonPrefix(TextDir(cli) + "/", FrameName(i - 1), FrameName(i));
    }
  }

  /** The text files of different frames differ. */
  lemma TargetListDistinct(cli: Cli, n: nat)
    ensures Distinct(TargetList(cli, n))
  {
    var names := TargetList(cli, n);
    forall i, j | 0 <= i < j < n
      ensures names[i] != names[j]
    {
      TargetsDistinct(cli, i, j);
    }
  }

  /** The list holds exactly the files the first `n` frames go to. */
  lemma TargetListElements(cli: Cli, n: nat)
    ensures Elements(TargetList(cli, n)) == Targets(Names(cli), n)
  {
    var names := TargetList(cli, n);
    forall p
      ensures p in Elements(names) <==> p in Targets(Names(cli), n)
    {
      if p in Targets(Names(cli), n) {
        var k :| 0 <= k < n && p == Names(cli)(k);
        assert names[k] == p;
      }
    }
  }

  /** Below 10000 frames, listing the text files in sorted order lists them in frame order. */
  lemma TargetsSortedKeys(cli: Cli, n: nat)
    requires n <= 10000
    ensures SortedKeys(Targets(Names(cli), n)) == TargetList(cli, n)
  {
    TargetsSorted(cli, n);
    TargetListDistinct(cli, n);
    TargetListElements(cli, n);
    SortedDistinctUnique(SortedKeys(Targets(Names(cli), n)), TargetList(cli, n));
  }

  /** A run into an empty text directory leaves exactly the files of the frames it wrote, each holding its frame's text. */
  lemma AssembleFresh(cli: Cli, world: World, art: Converter, paths: seq<string>)
    requires world.textFiles == map[]
    ensures var files := Assemble(cli, world, art, paths).textFiles; var m := RunWritten(cli, world, paths);
      files.Keys == Targets(Names(cli), m) && forall k :: 0 <= k < m ==> files[Target(cli, k)] == Converted(art, world, paths[k])
  {
    var m := RunWritten(cli, world, paths);
    AssembleFiles(cli, world, art, paths);
    NamesInjective(cli, m);
    OverlayWritten(world, art, Names(cli), paths, m);
    OverlayKeeps(world, art, Names(cli), paths, m);
  }

  /**
   * A run into an empty text directory with at most 10000 frames that
   * succeeds leaves frame_0000.txt, frame_0001.txt, ... whose sorted order,
   * the order playback uses, is the frame order.
   */
  lemma FreshRunPlaysInOrder(cli: Cli, world: World)
    requires world.textFiles == map[] && |FramePaths(cli, world)| <= 10000
    requires Pipeline(cli, world).failure.None?
    ensures var paths := FramePaths(cli, world);
      SortedKeys(Pipeline(cli, world).textFiles.Keys) == TargetList(cli, |paths|)
  {
    var paths := FramePaths(cli, world);
    AssembleSucceeds(cli, world, Art(cli.grayScale), paths);
    AssembleFresh(cli, world, Art(cli.grayScale), paths);
    TargetsSortedKeys(cli, |paths|);
  }

  /** A run keeps every file already in the text directory that it does not overwrite. */
  lemma AssembleKeepsOld(cli: Cli, world: World, art: Converter, paths: seq<string>)
    ensures var files := Assemble(cli, world, art, paths).textFiles;
      forall p :: p in world.textFiles ==> p in files && (p !in Targets(Names(cli), RunWritten(cli, world, paths)) ==> files[p] == world.textFiles[p])
  {
    AssembleFiles(cli, world, art, paths);
    OverlayKeeps(world, art, Names(cli), paths, RunWritten(cli, world, paths));
  }

  /** Playback lists the whole text directory: files left there by an earlier, longer run are shown too. */
  lemma StaleFramesReplayed(cli: Cli, world: World)
    requires Pipeline(cli, world).failure.None?
    ensures forall p :: p in world.textFiles ==> p in SortedKeys(Pipeline(cli, world).textFiles.Keys)
  {
    AssembleKeepsOld(cli, world, Art(cli.grayScale), FramePaths(cli, world));
    var keys := SortedKeys(Pipeline(cli, world).textFiles.Keys);
    assert forall p :: p in Pipeline(cli, world).textFiles ==> p in Elements(keys);
  }
}
