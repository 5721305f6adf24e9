# ASCII side quests, modelled in Dafny

The model covers three small Rust command-line tools from the side-quests repository.

- **The pixel-to-glyph converter.** It lives in `ascii-animations/src/image_processor.rs`, and `image-to-ascii/src/main.rs` has an inlined copy of it.
  - Every pixel of an already resized RGBA image becomes one text cell.
  - A pixel with alpha 0..63 becomes a blank.
  - Any other pixel's 3x3 neighbourhood is turned into an activation grid: a cell is 1 when its squared RGBA distance to the centre is below 50.
  - Of the four 2x2 sub-grids, the one with the largest sum is taken, the last one on a tie. It is encoded marching-squares style into an index 0..15, which looks up one of 16 glyphs.
  - The glyph is printed bare, or wrapped in a 24-bit ANSI colour escape.
  - Cells are joined row by row, and every row ends in a newline.
- **The frame pipeline of `ascii-animations`.**
  - It lists the frames ffmpeg extracted, or takes the single input image, and sorts the paths.
  - Frame k goes to `frame_{k:04}.txt` in the text directory. Only frame 0 may save the intermediate image.
  - It can play the text frames back in sorted order, and removes the `frames` directory in animation mode.
- **`preg`, a grep-like line matcher.**
  - It chooses whether to colour.
  - A line is selected when the pattern occurs in it, XOR `--invert-match`, both sides lowered under `--ignore-case`.
  - It counts the selected lines, prints the non-overlapping occurrences under `--only-matching`, and otherwise highlights every occurrence in red.

## Files

- **`wrappers.dfy`**: `Option`.
- **`text.dfy`** covers the text formats shared by the tools:
  - decimal rendering, with and without `{:04}`;
  - concatenation;
  - splitting into lines;
  - `Strip`, which is what a terminal shows of a string once ANSI SGR sequences are removed.
- **`lex.dfy`** covers Rust's `String` order and the in-place sort of `Vec<PathBuf>` (`slice::sort`), written as an array insertion sort.
- **`image_processor.dfy`** holds the converter: pure functions for the helpers, a method over an `array2<string>` for the raster fill, and a method for the serialisation loop.
- **`image_to_ascii.dfy`** holds the stand-alone converter: its own glyph table, which is proved equal to the processor's, and the effects of its `main`.
- **`animations.dfy`** holds the frame pipeline:
  - the specification function `Pipeline`;
  - the method `Run`, with its loops (listing, sorting, converting, playback);
  - lemmas about the files written, the order and the clean-up.
- **`preg.dfy`** holds the line matcher, as a function `Preg` of the flags and the input, and the method `Run` with its line loop and highlight loop.

Facts about the code that the model keeps:

- Indices 1 and 12 share `~`, indices 5 and 7 share `=`, and indices 2, 10 and 11 share `$`.
- A zero-width image gives `height` newlines.
- Neighbours to the left of column 0 or above row 0 are clamped onto the image by `saturating_sub`. Only neighbours past the right or bottom edge read as (0,0,0,0).
- The `frames` directory is removed in animation mode even when `--keep-frames` is given, because the flag is never read.

## Model

`image-to-ascii/src/main.rs` repeats the converter: its lines 88-176 match `ascii-animations/src/image_processor.rs` lines 31-107, and its lines 202-267 match lines 110-136. The `ImageProcessor` rows below therefore stand for both copies. `ImageToAscii.SameTableAsProcessor` shows the two glyph tables are equal.

| member | source | states |
|---|---|---|
| ImageProcessor.LookupTable | ascii-animations/src/image_processor.rs:3-20 | 16 one-character entries: ' ' at 0 and only there, '#' at 15, '=' at 5 and 7, '$' at 2, 10 and 11, '~' at 1 and 12, and no escape or newline anywhere |
| ImageProcessor.FirstChars | ascii-animations/src/image_processor.rs:34-37 | the `chars` vector has one entry per table entry, and each is that entry's first character |
| ImageProcessor.RgbaDistanceSquared | ascii-animations/src/image_processor.rs:110-115 | the distance is at most 4·255², so it never overflows u32, and it is 0 exactly when the two pixels are equal |
| ImageProcessor.DistanceSymmetric | ascii-animations/src/image_processor.rs:110-115 | the distance does not depend on the order of its arguments |
| ImageProcessor.GetPixelChecked | ascii-animations/src/image_processor.rs:117-123 | None exactly when x ≥ width or y ≥ height; otherwise the pixel at (x, y) |
| ImageProcessor.Around | ascii-animations/src/image_processor.rs:47-68 | the neighbourhood is 3x3 and its centre is the pixel itself |
| ImageProcessor.NeighbourhoodEdges | ascii-animations/src/image_processor.rs:47-68 | left and upper neighbours are clamped onto the image (at column 0 the left column repeats the centre column; at row 0 the third row of `around`, row y-1, repeats the centre row); only neighbours past the right or bottom edge read as (0,0,0,0); in-image neighbours, the diagonals included, are the image's pixels |
| ImageProcessor.Activation | ascii-animations/src/image_processor.rs:70-77 | the grid is 3x3, and a cell is 1 exactly when its pixel's squared distance to the centre is below 50 |
| ImageProcessor.ActivationFacts | ascii-animations/src/image_processor.rs:70-77 | the centre cell is always 1; the (0,0,0,0) stand-in is at distance ≥ 50 from any pixel with alpha ≥ 64, so it is never active |
| ImageProcessor.Extract2x2 | ascii-animations/src/image_processor.rs:125-132 | four sub-grids in the order TL, TR, BL, BR, each holding the centre cell (as its BR, BL, TR and TL corner respectively) |
| ImageProcessor.MaxByKey | ascii-animations/src/image_processor.rs:81-84 | `max_by_key`: the chosen sub-grid has the largest sum, and every later one has a strictly smaller sum, so the last maximum wins a tie |
| ImageProcessor.TieBreakExample | ascii-animations/src/image_processor.rs:81-84 | when TL and BR tie at sum 4, BR is chosen and encodes 15 |
| ImageProcessor.MarchingSquareIndex | ascii-animations/src/image_processor.rs:134-136 | the shifted-and-or'ed index is below 16 and equals 8·TL + 4·TR + 2·BR + BL |
| ImageProcessor.IndexBijection | ascii-animations/src/image_processor.rs:134-136 | decoding the index gives back the sub-grid, and every index 0..15 is the index of its decoding |
| ImageProcessor.IndexInjective | ascii-animations/src/image_processor.rs:134-136 | different sub-grids get different indices |
| ImageProcessor.PatternIndex | ascii-animations/src/image_processor.rs:79-87 | the index of the chosen sub-grid is below 16, so `chars[ind]` is in bounds |
| ImageProcessor.PatternNeverEmpty | ascii-animations/src/image_processor.rs:79-87 | every sub-grid holds the always-active centre, so the index is never 0 |
| ImageProcessor.OpaqueNeverBlank | ascii-animations/src/image_processor.rs:42-45 | a pixel with alpha ≥ 64 never renders as the blank cell |
| ImageProcessor.FormatPixel | ascii-animations/src/image_processor.rs:40-95 | the loop body gives the pixel's cell: a blank when transparent, otherwise the glyph of its pattern, coloured unless grayscale |
| ImageProcessor.FillRaster | ascii-animations/src/image_processor.rs:31-96 | a fresh height x width raster whose every cell (y, x) holds the cell of pixel (x, y) |
| ImageProcessor.Raster | ascii-animations/src/image_processor.rs:31-32 | the raster has `height` rows of `width` cells |
| ImageProcessor.FilledRows | ascii-animations/src/image_processor.rs:95 | a raster filled cell by cell holds the rows of the reference raster |
| ImageProcessor.PushRow | ascii-animations/src/image_processor.rs:101-103 | the inner loop appends exactly the row's cells, in x order |
| ImageProcessor.SerializeRaster | ascii-animations/src/image_processor.rs:98-107 | `buff` is every row's cells followed by one newline, rows in y order |
| ImageProcessor.SerializeLines | ascii-animations/src/image_processor.rs:100-105 | joining the rows' newline-terminated texts gives the serialised raster |
| ImageProcessor.AsciiRepresentationFromImage | ascii-animations/src/image_processor.rs:30-108 | the returned text is the serialised raster of the image's cells |
| ImageProcessor.AsciiArtLines | ascii-animations/src/image_processor.rs:98-107 | the text splits into exactly `height` newline-terminated lines, line y being row y's cells joined; a zero-height image gives the empty string |
| ImageProcessor.CellText | ascii-animations/src/image_processor.rs:42-45 | a transparent pixel gives " " in both modes; the grayscale cell is the bare glyph of the pattern, one character and no escape; no cell holds a newline |
| ImageProcessor.StripColourCell | ascii-animations/src/image_processor.rs:89-93 | with its escapes removed, a colour cell is its bare glyph, and it leaves no sequence open |
| ImageProcessor.StripCell | ascii-animations/src/image_processor.rs:89-93 | a pixel's colour cell shows as its grayscale cell |
| ImageProcessor.StripColourIsGrayscale | ascii-animations/src/image_processor.rs:89-107 | with its escapes removed, the colour text is exactly the grayscale text |
| ImageProcessor.GrayscaleHasNoEscape | ascii-animations/src/image_processor.rs:89-93 | the grayscale text holds no ESC character |
| ImageProcessor.UniformIsFullBlock | ascii-animations/src/image_processor.rs:55-64 | in an image of one opaque colour, the clamped BL sub-grid lies in the image and sums to 4, so every index is 15 and every cell is "#" |
| ImageProcessor.UniformArt | ascii-animations/src/image_processor.rs:81-107 | the grayscale text of such an image is `height` lines of `width` '#' |
| ImageToAscii.SameTableAsProcessor | image-to-ascii/src/main.rs:7-24 | this program's `ASCII_LOOKUP` equals the processor's entry for entry, duplicates included, and so do the glyphs |
| ImageToAscii.Run | image-to-ascii/src/main.rs:68-188 | `main` has the outcome of `Conversion`: it stops at an image that does not open or an intermediate save that fails, and otherwise writes or prints the art |
| ImageToAscii.OutputDestination | image-to-ascii/src/main.rs:179-184 | without `--output` the art is printed with one extra newline and no file is written; with it, the file holds exactly the art and standard output only the confirmation; an open or save failure prints and writes nothing |
| ImageToAscii.PrintedLines | image-to-ascii/src/main.rs:167-183 | the art has one line per pixel row of the resized image, and the printed form has one more |
| Text.Decimal | ascii-animations/src/main.rs:151 | the rendered number is non-empty, all decimal digits, and without a leading zero |
| Text.DecimalRoundTrip | ascii-animations/src/main.rs:151 | reading back a rendered number gives the number |
| Text.ZeroPad | ascii-animations/src/main.rs:151 | `{:04}` pads on the left with '0' to at least 4 characters and keeps the digits |
| Animations.FrameNameRoundTrip | ascii-animations/src/main.rs:151 | the frame number can be read back from `frame_{k:04}.txt` |
| Animations.FrameNamesDistinct | ascii-animations/src/main.rs:151 | different indices give different file names |
| Animations.Padded4 | ascii-animations/src/main.rs:151 | for k below 10000, `{:04}` is exactly k's four digits |
| Animations.FrameNamesOrdered | ascii-animations/src/main.rs:151 | below 10000 frames, the names sort strictly in index order |
| Animations.FrameOrderBreaks | ascii-animations/src/main.rs:151 | from 10000 frames on, frame 10·k sorts before frame k+1, so the sorted order of the names is no longer the frame order |
| Lex.SortStrings | ascii-animations/src/main.rs:138 | the reference sort: sorted, and a permutation of its input |
| Lex.SortInPlace | ascii-animations/src/main.rs:138 | `sort()` in place: the array ends sorted, a permutation of its old contents, equal to the reference sort of them |
| Lex.SortedUnique | ascii-animations/src/main.rs:138 | two sorted permutations of the same entries are equal, so the sorted order is a function of the entries alone |
| Animations.FramePaths | ascii-animations/src/main.rs:126-138 | the paths processed are the listing (the extracted frames, or the one input image), sorted, as a permutation |
| Animations.FrameFiles | ascii-animations/src/main.rs:124-138 | building `frame_files` and sorting it in place gives the sorted listing |
| Animations.SingleImagePath | ascii-animations/src/main.rs:134-136 | without animation mode the one path processed is `animations/<file_name>` |
| Animations.ProcessFrame | ascii-animations/src/main.rs:141-152 | one iteration: decode, save the resized image when it is frame 0 and asked, convert, then write `frame_{index:04}.txt`; the first failing step's error ends it |
| Animations.ConvertAll | ascii-animations/src/main.rs:140-153 | the enumerate loop over the sorted paths, stopping at the first error |
| Animations.ConvertFramesSticky | ascii-animations/src/main.rs:140-153 | once a frame fails (`?`), later frames change nothing |
| Animations.WrittenIsFirstFailure | ascii-animations/src/main.rs:140-153 | a run writes exactly the frames before the first one that fails |
| Animations.ConvertWrites | ascii-animations/src/main.rs:140-153 | the loop writes those frames in order, frame k's text to the k-th file name |
| Animations.ConvertFiles | ascii-animations/src/main.rs:140-153 | after the loop, the text directory is the old one with the written frames over it |
| Animations.ConvertFails | ascii-animations/src/main.rs:140-153 | the loop fails exactly when some frame is not written |
| Animations.ConvertSaves | ascii-animations/src/main.rs:144-148 | the loop saves the intermediate image at most once: for frame 0, when `--save-intermediate` is given and the frame decodes |
| Animations.TargetsDistinct | ascii-animations/src/main.rs:151 | different frames go to different text files |
| Animations.NamesInjective | ascii-animations/src/main.rs:151 | the first m frames go to m different files |
| Animations.OverlayWritten | ascii-animations/src/main.rs:152 | after m frames written to different files, each frame's file holds that frame's text |
| Animations.OverlayKeeps | ascii-animations/src/main.rs:152 | other files already in the directory are kept as they were, and no file appears besides the frames' |
| Animations.ReadDir | ascii-animations/src/main.rs:88-91 | `read_dir` lists every entry of the directory once |
| Animations.SortedKeys | ascii-animations/src/main.rs:88-94 | the sorted listing holds every entry once, in sorted order |
| Animations.SortedEntries | ascii-animations/src/main.rs:88-94 | listing the directory and sorting the vector in place gives the sorted listing, whatever order `read_dir` used |
| Animations.ShowFrames | ascii-animations/src/main.rs:98-105 | the playback loop: clear, show the file's text, sleep, for each path in turn |
| Animations.PlayFramesShape | ascii-animations/src/main.rs:98-105 | playback shows path i's text between the i-th clear and the i-th sleep, and does nothing but clear, show and sleep |
| Animations.PlayAnimation | ascii-animations/src/main.rs:84-108 | `play_animation` clears once, then plays every file of the text directory in sorted path order |
| Animations.Finalize | ascii-animations/src/main.rs:155-165 | after the loop: playback when asked, removal of `frames` in animation mode, then the two closing messages |
| Animations.CleanupKinds | ascii-animations/src/main.rs:159-165 | the clean-up only removes and prints, and it removes `frames` exactly in animation mode |
| Animations.SetupShape | ascii-animations/src/main.rs:121-128 | the setup writes and saves nothing, and in animation mode it ends with the ffmpeg call |
| Animations.Run | ascii-animations/src/main.rs:110-168 | `main` has the outcome of `Pipeline` |
| Animations.PipelineFfmpegFailure | ascii-animations/src/main.rs:77-79 | when ffmpeg fails, the run stops right after it: no frame is converted and the text directory is untouched |
| Animations.PipelineWrites | ascii-animations/src/main.rs:138-153 | the run writes its first `RunWritten` sorted paths in order, the k-th to `frame_{k:04}.txt`, and writes nothing else |
| Animations.PipelineFiles | ascii-animations/src/main.rs:140-153 | the run leaves the text directory as the frames it wrote over the old contents |
| Animations.PipelineSucceeds | ascii-animations/src/main.rs:110-168 | the run succeeds exactly when ffmpeg does (in animation mode) and every frame decodes, saves and writes |
| Animations.PipelineSaves | ascii-animations/src/main.rs:144-148 | the intermediate image is saved at most once: for the first sorted frame, when asked and when it decodes |
| Animations.PipelineSingleImage | ascii-animations/src/main.rs:134-152 | without animation mode, a successful run writes the one image to `frame_0000.txt` |
| Animations.PipelineRemoval | ascii-animations/src/main.rs:155-162 | `frames` is removed exactly when the run is in animation mode and gets past the loop, and nothing is shown after it is removed |
| Animations.PipelineIgnoresKeepFrames | ascii-animations/src/main.rs:56-57 | the run is the same whatever `--keep-frames` says |
| Animations.AssembleFresh | ascii-animations/src/main.rs:140-153 | a run into an empty text directory leaves exactly the files of the frames it wrote, each holding its frame's text |
| Animations.TargetsSortedKeys | ascii-animations/src/main.rs:88-94 | below 10000 frames, listing the text files in sorted order lists them in frame order |
| Animations.FreshRunPlaysInOrder | ascii-animations/src/main.rs:151-156 | a successful run into an empty directory with at most 10000 frames plays back in conversion order |
| Animations.AssembleKeepsOld | ascii-animations/src/main.rs:152 | a run keeps every file already in the text directory, and leaves unchanged those it does not overwrite |
| Animations.StaleFramesReplayed | ascii-animations/src/main.rs:88-98 | playback lists the whole directory, so frames left by an earlier, longer run are shown too |
| Preg.ParseColorWhen | preg/src/main.rs:50-55 | Always exactly for "always", Never exactly for "never", Auto for every other word |
| Preg.ColorChoice | preg/src/main.rs:50-60 | colour is used exactly for "always", or for any word but "never" when standard output is a terminal |
| Preg.Lowercase | preg/src/main.rs:62-66 | lower-casing keeps the length, maps each upper-case letter 'A'..'Z' to the letter 32 code points higher, and keeps every other character |
| Preg.LowercaseSlice | preg/src/main.rs:126-128 | lower-casing commutes with slicing, so a position in the haystack is the same position in the line |
| Preg.MatchIndices | preg/src/main.rs:105 | every position reported holds an occurrence, and consecutive positions lie at least the step (the pattern's length, or one for an empty pattern) apart, so matches never overlap |
| Preg.MatchIndicesGreedy | preg/src/main.rs:105 | every occurrence of a non-empty pattern overlaps a reported match |
| Preg.MatchIndicesEmptyIff | preg/src/main.rs:98 | there is no match exactly when `contains` is false |
| Preg.MatchIndicesEmptyPattern | preg/src/main.rs:105 | the empty pattern matches at every character boundary |
| Preg.MatchLine | preg/src/main.rs:97-138 | the loop body: the line is selected when found XOR `--invert-match`, and it prints the line's text |
| Preg.LineQuiet | preg/src/main.rs:100-103 | an unselected line, or any line under `--count`, prints nothing |
| Preg.LinePlain | preg/src/main.rs:118-136 | a selected line printed without colour is its number prefix, the line and a newline |
| Preg.MatchSlice | preg/src/main.rs:106 | each printed slice is the pattern-length slice of the original line at the match, and equals the pattern after lower-casing under `--ignore-case` |
| Preg.PrintOnlyMatching | preg/src/main.rs:104-116 | the only-matching loop prints one prefixed, optionally red slice per match, each on its own line |
| Preg.PrintMatches | preg/src/main.rs:105-116 | the loop over the matches prints one line per match, in order |
| Preg.OnlyMatchingLines | preg/src/main.rs:104-116 | the output splits into exactly one line per match |
| Preg.LineOnlyMatching | preg/src/main.rs:104-116 | under `--only-matching` a selected line prints one line per non-overlapping match, left to right |
| Preg.InvertedOnlyMatchingSilent | preg/src/main.rs:99-116 | with `--invert-match`, only-matching prints nothing |
| Preg.OnlyMatchingNotEmpty | preg/src/main.rs:104-116 | without inversion or count, a selected line prints at least one match |
| Preg.HighlightMatch | preg/src/main.rs:126-132 | one step prints the gap since `last`, then the match in red, and moves `last` past the match |
| Preg.HighlightAt | preg/src/main.rs:124-133 | the highlight loop prints every gap and red match in order, and ends with `last` past the final match |
| Preg.HighlightLine | preg/src/main.rs:124-134 | the loop output plus the tail after `last` is the highlighted line |
| Preg.StripHighlighted | preg/src/main.rs:124-134 | with the inserted red and reset sequences removed, the highlighted line is the original line, and no sequence is left open |
| Preg.LineHighlighted | preg/src/main.rs:118-134 | a selected line printed in colour shows, once the colour is removed, as its prefix, the line and a newline |
| Preg.ScanInput | preg/src/main.rs:89-141 | the line loop computes the count, standard output and standard error of the specification |
| Preg.ScanCounts | preg/src/main.rs:89-101 | `matches` ends as the number of selected lines |
| Preg.ScanOut | preg/src/main.rs:91-141 | standard output is the readable lines' texts in input order, each numbered by its place, unreadable lines counted |
| Preg.ScanErr | preg/src/main.rs:91-95 | standard error names every unreadable line by its 1-based number, in order |
| Preg.Run | preg/src/main.rs:47-146 | for a finite sequence of reads, `main` has the outcome of `Preg` |
| Preg.PregNoInput | preg/src/main.rs:68-86 | the run exits with 1 exactly when the named file does not open, or no file is named and standard input is a terminal; it then prints nothing to standard output |
| Preg.PregCount | preg/src/main.rs:143-145 | under `--count` standard output is only the number of selected lines |
| Preg.PregErrors | preg/src/main.rs:91-95 | a run that reads its input reports exactly the unreadable lines on standard error |
| Preg.PregLines | preg/src/main.rs:103-138 | without `--count`, standard output is the lines' texts, in input order |

## Left out

- `resize_image` / `resize_exact` and the `--fatness` factor are left out. They are a library call and an f32 product truncated to u32. The resized image is an input of the model: a `World` field in the pipeline, and the `image` of image-to-ascii.
- Image decoding and saving, `fs::write`, `fs::read_dir`, `create_dir_all`, `remove_dir_all`, ffmpeg, `sleep`, `atty`, `current_dir` and clap parsing are I/O. Each becomes a parameter, or is reduced to its success. For example, `World.ffmpegOk`, `World.writeOk`, `Env.stdinTty` and `Env.lines` stand for what the system answers.
- Preg.Run: the input is a finite sequence of reads. A reader that keeps failing is not modelled. For example, a directory opened as a file on Linux makes every read fail with EISDIR. The source then prints "Error reading line N" for N = 1, 2, … and never reaches the count or exits. The model has no outcome for that run.
- Directory-creation failures, ffmpeg failing to start, `read_dir` failing on `frames`, and `read_to_string` failing during playback are not modelled as errors. The model assumes those calls succeed.
- Every text-file write is taken to succeed or fail alike (one `writeOk` flag per run), and so is every save. Per-path failures are not distinguished.
- Paths are strings, and `Join` puts a '/' between directory and name. `PathBuf` ordering is modelled as the lexicographic order of those strings. Rust compares paths component by component, which agrees with this only for paths that share the same directory prefix, as all paths in one listing here do.
- `read_dir` yields the text directory's entries in some order. Playback sorts them, so the model reads the entries as a set. The entries of `frames` are taken as the `extracted` names, in listing order, and sorted by the model.
- `play_animation` reads the files it lists from the text directory. The model shows the contents the run left in that directory. Files other than regular files are not modelled.
- Preg.Lowercase: models `to_lowercase` for ASCII letters only. Other characters are kept as they are, so the model does not capture non-ASCII case folding, nor the byte-length changes that can make `line[orig_start..]` misalign or panic.
- The model indexes strings by character; the source indexes them by UTF-8 byte. The two agree on ASCII text.
- Preg.ScanCounts: the counter `matches` is an unbounded natural number. The source uses an inferred i32, which would overflow past 2³¹−1 selected lines.
- Frame indices are unbounded too. The source's `usize` index cannot overflow in practice.
- Standard output and standard error are kept as two separate texts. Their interleaving on one terminal is not modelled, and neither is buffering.
- In Preg the Rust `print!` calls of one line are gathered into one text per line. The terminal shows the same characters.
- `Text.Strip` models what a terminal shows once ANSI SGR sequences (`ESC [ ... m`) are removed. Other control sequences are not interpreted.
- Preg.StripHighlighted: the display property is proved for lines that hold no ESC character. A line that carries its own escape sequences would have them removed too, so the property is stated only where it means something. The same condition appears in Preg.LineHighlighted.
- The working directory is not modelled. `animations`, `frames` and the default `ascii_frames` are relative paths here, where the source joins them onto `current_dir()`. So the closing message without `--output` names `ascii_frames`, where the source prints the absolute path.
- `Join` puts one '/' between a directory and a name. It does not model `Path::join`'s special cases: an absolute file name does not replace the directory, and a directory that already ends in a separator gets a second one.
- Removing `frames` in animation mode assumes `frames_path.exists()` holds. The directory was created before ffmpeg ran, and nothing in the run deletes it earlier, so the model does not check for it.
