// preg: a grep-like line matcher.  Flags, colour selection, the per-line
// match decision, only-matching output, highlighting and the match counter.

module Preg {
  import opened Wrappers
  import opened Text

  // ---------------------------------------------------------------- flags and colour

  /** The parsed command line. */
  datatype Cli = Cli(
    pattern: string,
    filename: Option<string>,
    ignoreCase: bool,
    lineNumbers: bool,
    count: bool,
    onlyMatching: bool,
    invertMatch: bool,
    color: string)

  datatype ColorWhen = Always | Never | Auto

  /** `--color`: only "always" and "never" fix the mode; every other word, "auto" included, means Auto. */
  function ParseColorWhen(word: string): (w: ColorWhen)
    ensures w == Always <==> word == "always"
    ensures w == Never <==> word == "never"
  {
    if word == "always" then Always else if word == "never" then Never else Auto
  }

  /** Whether to colour: Auto colours exactly when standard output is a terminal. */
  function UseColor(w: ColorWhen, stdoutTty: bool): bool {
    match w
    case Always => true
    case Never => false
    case Auto => stdoutTty
  }

  lemma ColorChoice(word: string, stdoutTty: bool)
    ensures UseColor(ParseColorWhen(word), stdoutTty) <==> word == "always" || (word != "never" && stdoutTty)
  {
  }

  // ---------------------------------------------------------------- case folding

  predicate IsUpper(c: char) {
    'A' <= c <= 'Z'
  }

  /** ASCII lower-casing of one character; every other character is kept. */
  function LowerChar(c: char): (d: char)
    ensures !IsUpper(d)
    ensures !IsUpper(c) ==> d == c
    ensures IsUpper(c) ==> d as int == c as int + 32
  {
    if IsUpper(c) then (c as int + 32) as char else c
  }

  /** `to_lowercase`, character by character and length-preserving. */
  function Lowercase(s: string): (r: string)
    ensures |r| == |s|
    ensures forall i :: 0 <= i < |r| ==> !IsUpper(r[i])
    ensures forall i :: 0 <= i < |s| && !IsUpper(s[i]) ==> r[i] == s[i]
    ensures forall i :: 0 <= i < |s| && IsUpper(s[i]) ==> r[i] as int == s[i] as int + 32
  {
    seq(|s|, i requires 0 <= i < |s| => LowerChar(s[i]))
  }

  lemma LowercaseIdempotent(s: string)
    ensures Lowercase(Lowercase(s)) == Lowercase(s)
  {
  }

  /** Lower-casing commutes with slicing. */
  lemma LowercaseSlice(s: string, i: nat, j: nat)
    requires i <= j <= |s|
    ensures Lowercase(s[i..j]) == Lowercase(s)[i..j]
  {
  }

  // ---------------------------------------------------------------- searching

  /** Whether `p` occurs in `h` at position `i`. */
  predicate OccursAt(h: string, p: string, i: nat) {
    i + |p| <= |h| && h[i..i + |p|] == p
  }

  /** `str::contains`: the empty pattern is contained in every string. */
  predicate Contains(h: string, p: string) {
    exists i: nat :: i + |p| <= |h| && OccursAt(h, p, i)
  }

  /** How far the search moves on after a match: past it, or one character for the empty pattern. */
  function Step(p: string): (k: nat)
    ensures k >= 1 && k >= |p|
  {
    if |p| == 0 then 1 else |p|
  }

  /** Every position in `idx` holds an occurrence of `p`, at or after `from`. */
  predicate AllOccur(h: string, p: string, idx: seq<nat>, from: nat) {
    forall j :: 0 <= j < |idx| ==> from <= idx[j] && OccursAt(h, p, idx[j])
  }

  /** Whether every match at `idx` of length `plen` ends within `n`. */
  predicate Fits(idx: seq<nat>, plen: nat, n: nat) {
    forall j :: 0 <= j < |idx| ==> idx[j] + plen <= n
  }

  /** Each position is at least `step` past every earlier one. */
  predicate Spaced(idx: seq<nat>, step: nat) {
    forall i, j :: 0 <= i < j < |idx| ==> idx[i] + step <= idx[j]
  }

  /** Position `i` lies inside one of the `plen`-long matches at `idx`. */
  predicate Covered(idx: seq<nat>, plen: nat, i: nat) {
    exists j :: 0 <= j < |idx| && idx[j] <= i < idx[j] + plen
  }

  /** The matches `match_indices` yields from position `from` on: leftmost first, never overlapping. */
  function MatchesFrom(h: string, p: string, from: nat): seq<nat>
    decreases |h| + 1 - from
  {
    if from > |h| then []
    else if OccursAt(h, p, from) then [from] + MatchesFrom(h, p, from + Step(p))
    else MatchesFrom(h, p, from + 1)
  }

  /** `str::match_indices`: the start of every match, left to right, each an occurrence, in order and without overlap. */
  function MatchIndices(h: string, p: string): (idx: seq<nat>)
    ensures forall j :: 0 <= j < |idx| ==> OccursAt(h, p, idx[j])
    ensures Ordered(idx, |p|, |h|)
    ensures Spaced(idx, Step(p))
  {
    var idx := MatchesFrom(h, p, 0);
    MatchesFromValid(h, p, 0);
    MatchesFromSpaced(h, p, 0);
    idx
  }

  /** The search past an occurrence at `from` goes on one step later; past a non-occurrence one character later. */
  lemma MatchesFromUnfold(h: string, p: string, from: nat)
    requires from <= |h|
    ensures MatchesFrom(h, p, from) ==
      if OccursAt(h, p, from) then [from] + MatchesFrom(h, p, from + Step(p)) else MatchesFrom(h, p, from + 1)
  {
  }

  /** Every reported position holds an occurrence, at or after `from`. */
  lemma {:induction false} MatchesFromValid(h: string, p: string, from: nat)
    ensures AllOccur(h, p, MatchesFrom(h, p, from), from)
    decreases |h| + 1 - from
  {
    if from <= |h| {
      var idx := MatchesFrom(h, p, from);
      MatchesFromUnfold(h, p, from);
      if OccursAt(h, p, from) {
        var rest := MatchesFrom(h, p, from + Step(p));
        MatchesFromValid(h, p, from + Step(p));
        forall j | 0 <= j < |idx|
          ensures from <= idx[j] && OccursAt(h, p, idx[j])
        {
          if j > 0 {
            assert idx[j] == rest[j - 1];
          }
        }
      } else {
        MatchesFromValid(h, p, from + 1);
      }
    }
  }

  /** Reported positions are at least one step apart: the matches do not overlap. */
  lemma {:induction false} MatchesFromSpaced(h: string, p: string, from: nat)
    ensures Spaced(MatchesFrom(h, p, from), Step(p))
    decreases |h| + 1 - from
  {
    if from <= |h| {
      var idx := MatchesFrom(h, p, from);
      MatchesFromUnfold(h, p, from);
      if OccursAt(h, p, from) {
        MatchesFromSpaced(h, p, from + Step(p));
        MatchesFromValid(h, p, from + Step(p));
        SpacedCons(from, MatchesFrom(h, p, from + Step(p)), Step(p));
      } else {
        MatchesFromSpaced(h, p, from + 1);
      }
    }
  }

  /** A position a step before every spaced one can be put in front. */
  lemma SpacedCons(x: nat, rest: seq<nat>, step: nat)
    requires Spaced(rest, step)
    requires forall j :: 0 <= j < |rest| ==> x + step <= rest[j]
    ensures Spaced([x] + rest, step)
  {
    var idx := [x] + rest;
    forall i, j | 0 <= i < j < |idx|
      ensures idx[i] + step <= idx[j]
    {
      assert idx[j] == rest[j - 1];
      if i > 0 {
        assert idx[i] == rest[i - 1];
      }
    }
  }

  /** The search is greedy: every occurrence of a non-empty pattern overlaps a reported one. */
  lemma {:induction false} MatchesFromComplete(h: string, p: string, from: nat, i: nat)
    requires |p| > 0 && from <= i && OccursAt(h, p, i)
    ensures Covered(MatchesFrom(h, p, from), |p|, i)
    decreases |h| + 1 - from
  {
    var idx := MatchesFrom(h, p, from);
    MatchesFromUnfold(h, p, from);
    if OccursAt(h, p, from) {
      if i < from + |p| {
        assert idx[0] == from;
      } else {
        MatchesFromComplete(h, p, from + |p|, i);
        var rest := MatchesFrom(h, p, from + |p|);
        var j :| 0 <= j < |rest| && rest[j] <= i < rest[j] + |p|;
        assert idx[j + 1] == rest[j];
      }
    } else {
      assert i != from;
      MatchesFromComplete(h, p, from + 1, i);
      assert idx == MatchesFrom(h, p, from + 1);
    }
  }

  /** The matches of a non-empty pattern: every occurrence overlaps one, and consecutive ones do not overlap. */
  lemma MatchIndicesGreedy(h: string, p: string, i: nat)
    requires |p| > 0 && OccursAt(h, p, i)
    ensures Covered(MatchIndices(h, p), |p|, i)
  {
    MatchesFromComplete(h, p, 0, i);
  }

  /** With the empty pattern every character boundary is a match. */
  lemma {:induction false} MatchesFromEmpty(h: string, from: nat)
    requires from <= |h| + 1
    ensures MatchesFrom(h, "", from) == seq(|h| + 1 - from, i requires 0 <= i < |h| + 1 - from => from + i)
    decreases |h| + 1 - from
  {
    if from <= |h| {
      assert OccursAt(h, "", from);
      MatchesFromUnfold(h, "", from);
      MatchesFromEmpty(h, from + 1);
      var all := seq(|h| + 1 - from, i requires 0 <= i < |h| + 1 - from => from + i);
      assert all == [from] + seq(|h| + 1 - (from + 1), i requires 0 <= i < |h| + 1 - (from + 1) => from + 1 + i);
    }
  }

  lemma MatchIndicesEmptyPattern(h: string)
    ensures MatchIndices(h, "") == seq(|h| + 1, i requires 0 <= i < |h| + 1 => i)
  {
    MatchesFromEmpty(h, 0);
  }

  /** There are no matches exactly when the pattern is not contained. */
  lemma MatchIndicesEmptyIff(h: string, p: string)
    ensures MatchIndices(h, p) == [] <==> !Contains(h, p)
  {
    var idx := MatchIndices(h, p);
    if |idx| > 0 {
      assert OccursAt(h, p, idx[0]);
    }
    if Contains(h, p) {
      var i: nat :| i + |p| <= |h| && OccursAt(h, p, i);
      MatchesFromUnfold(h, p, 0);
      if |p| > 0 {
        MatchesFromComplete(h, p, 0, i);
      } else {
        assert OccursAt(h, p, 0);
      }
    }
  }

  // ---------------------------------------------------------------- highlighting

  /** Whether `idx` holds matches of length `plen` that end within `n`, in order, without overlap. */
  predicate Ordered(idx: seq<nat>, plen: nat, n: nat) {
    Fits(idx, plen, n) && Spaced(idx, plen)
  }

  /** `\x1b[31m`, which turns the text red, and `\x1b[0m`, which resets it. */
  const SetRed: string := [Esc, '[', '3', '1', 'm']
  const Reset: string := [Esc, '[', '0', 'm']

  /** Red text. */
  function Red(s: string): string {
    SetRed + s + Reset
  }

  /** Whether the search can go on at match `k` from position `last`: the next match starts at or after it. */
  predicate Resumes(idx: seq<nat>, k: nat, last: nat, n: nat) {
    k <= |idx| && last <= n && (k < |idx| ==> last <= idx[k])
  }

  /** The gap of the line from `last` up to a match at `s`, then the match up to `e` in red. */
  function Segment(line: string, last: nat, s: nat, e: nat): string
    requires last <= s <= e <= |line|
  {
    line[last..s] + Red(line[s..e])
  }

  /** A slice of text without a character lacks it too. */
  lemma SliceExcludes(s: string, c: char, i: nat, j: nat)
    requires c !in s && i <= j <= |s|
    ensures c !in s[i..j]
  {
    forall k | 0 <= k < j - i
      ensures s[i..j][k] != c
    {
      assert s[i..j][k] == s[i + k];
    }
  }

  lemma SetRedShows(rest: string)
    ensures Strip(SetRed + rest) == Strip(rest)
    ensures Closed(rest) ==> Closed(SetRed + rest)
  {
    assert SetRed + rest == [Esc] + "[31" + "m" + rest;
    StripSgr("[31", rest);
    if Closed(rest) {
      ClosedSgr("[31", rest);
    }
  }

  lemma ResetShows()
    ensures Strip(Reset) == "" && Closed(Reset)
  {
    assert Reset == [Esc] + "[0" + "m" + "";
    StripSgr("[0", "");
    ClosedSgr("[0", "");
  }

  /** A red span displays as its text and leaves no sequence open. */
  lemma RedShows(s: string)
    requires Esc !in s
    ensures Strip(Red(s)) == s && Closed(Red(s))
  {
    ResetShows();
    StripNoEsc(s);
    ClosedNoEsc(s);
    StripAppend(s, Reset);
    assert Red(s) == SetRed + (s + Reset);
    SetRedShows(s + Reset);
  }

  lemma SliceJoin(s: string, i: nat, j: nat, k: nat)
    requires i <= j <= k <= |s|
    ensures s[i..k] == s[i..j] + s[j..k]
  {
  }

  /** Where the search goes on after the first `k` matches: the end of the `k`-th, or the start of the line. */
  function End(idx: seq<nat>, plen: nat, n: nat, k: nat): (last: nat)
    requires Ordered(idx, plen, n) && k <= |idx|
    ensures Resumes(idx, k, last, n)
  {
    if k == 0 then 0 else idx[k - 1] + plen
  }

  /** What the highlight loop has printed after the first `k` matches: each gap, then each match in red. */
  function HighlightedPrefix(line: string, idx: seq<nat>, plen: nat, k: nat): string
    requires Ordered(idx, plen, |line|) && k <= |idx|
  {
    if k == 0 then ""
    else
      var last := End(idx, plen, |line|, k - 1);
      HighlightedPrefix(line, idx, plen, k - 1) + Segment(line, last, idx[k - 1], idx[k - 1] + plen)
  }

  /** Match `k` adds its gap and its red span to what the loop has printed. */
  lemma HighlightedPrefixStep(line: string, idx: seq<nat>, plen: nat, k: nat)
    requires Ordered(idx, plen, |line|) && k < |idx|
    ensures End(idx, plen, |line|, k + 1) == idx[k] + plen
    ensures HighlightedPrefix(line, idx, plen, k + 1) ==
      HighlightedPrefix(line, idx, plen, k) + Segment(line, End(idx, plen, |line|, k), idx[k], idx[k] + plen)
  {
  }

  /** The line with every match at `idx` painted red: what the loop printed, then the line after the last match. */
  function Highlighted(line: string, idx: seq<nat>, plen: nat): string
    requires Ordered(idx, plen, |line|)
  {
    HighlightedPrefix(line, idx, plen, |idx|) + line[End(idx, plen, |line|, |idx|)..]
  }

  /** A gap and a match in red display as the line over that stretch and leave no sequence open. */
  lemma StripSegment(line: string, last: nat, s: nat, e: nat)
    requires Esc !in line && last <= s <= e <= |line|
    ensures Strip(Segment(line, last, s, e)) == line[last..e]
    ensures Closed(Segment(line, last, s, e))
  {
    SliceExcludes(line, Esc, last, s);
    SliceExcludes(line, Esc, s, e);
    RedShows(line[s..e]);
    StripNoEsc(line[last..s]);
    ClosedNoEsc(line[last..s]);
    StripAppend(line[last..s], Red(line[s..e]));
    SliceJoin(line, last, s, e);
  }

  /** Text displaying as the line up to `last`, followed by text displaying as the line from `last` to `e`, displays as the line up to `e`. */
  lemma StripExtends(line: string, p: string, piece: string, last: nat, e: nat)
    requires last <= e <= |line|
    requires Closed(p) && Strip(p) == line[..last] && Closed(piece) && Strip(piece) == line[last..e]
    ensures Strip(p + piece) == line[..e] && Closed(p + piece)
  {
    StripAppend(p, piece);
    SliceJoin(line, 0, last, e);
  }

  /** What the loop printed after `k` matches displays as the line up to where the search goes on. */
  lemma {:induction false} StripHighlightedPrefix(line: string, idx: seq<nat>, plen: nat, k: nat)
    requires Esc !in line && Ordered(idx, plen, |line|) && k <= |idx|
    ensures Strip(HighlightedPrefix(line, idx, plen, k)) == line[..End(idx, plen, |line|, k)]
    ensures Closed(HighlightedPrefix(line, idx, plen, k))
    decreases k
  {
    if k == 0 {
      assert line[..0] == "";
    } else {
      var j := k - 1;
      assert j + 1 == k;
      StripHighlightedPrefix(line, idx, plen, j);
      StripPrefixStep(line, idx, plen, j);
    }
  }

  /** One more match keeps what the loop printed displaying as the line up to where the search goes on. */
  lemma StripPrefixStep(line: string, idx: seq<nat>, plen: nat, j: nat)
    requires Esc !in line && Ordered(idx, plen, |line|) && j < |idx|
    requires Strip(HighlightedPrefix(line, idx, plen, j)) == line[..End(idx, plen, |line|, j)]
    requires Closed(HighlightedPrefix(line, idx, plen, j))
    ensures Strip(HighlightedPrefix(line, idx, plen, j + 1)) == line[..End(idx, plen, |line|, j + 1)]
    ensures Closed(HighlightedPrefix(line, idx, plen, j + 1))
  {
    var last := End(idx, plen, |line|, j);
    var s := idx[j];
    var e := s + plen;
    HighlightedPrefixStep(line, idx, plen, j);
    StripSegment(line, last, s, e);
    StripExtends(line, HighlightedPrefix(line, idx, plen, j), Segment(line, last, s, e), last, e);
  }

  /** With the colour sequences removed, the highlighted line is the line itself; no sequence is left open. */
  lemma StripHighlighted(line: string, idx: seq<nat>, plen: nat)
    requires Esc !in line && Ordered(idx, plen, |line|)
    ensures Strip(Highlighted(line, idx, plen)) == line
    ensures Closed(Highlighted(line, idx, plen))
  {
    var last := End(idx, plen, |line|, |idx|);
    StripHighlightedPrefix(line, idx, plen, |idx|);
    SliceExcludes(line, Esc, last, |line|);
    StripNoEsc(line[last..]);
    ClosedNoEsc(line[last..]);
    StripExtends(line, HighlightedPrefix(line, idx, plen, |idx|), line[last..], last, |line|);
    assert line[..|line|] == line;
  }

  /** The highlight loop: print up to each match, the match in red, and the rest of the line after the last. */
  method HighlightLine(line: string, haystack: string, pattern: string) returns (text: string)
    requires |haystack| == |line|
    ensures text == Highlighted(line, MatchIndices(haystack, pattern), |pattern|)
  {
    var idx := MatchIndices(haystack, pattern);
    var last;
    text, last := HighlightAt(line, haystack, idx, |pattern|);
    text := text + line[last..];
  }

  /** The loop over the matches at `idx`: what it prints, and where it leaves off. */
  method HighlightAt(line: string, haystack: string, idx: seq<nat>, plen: nat) returns (text: string, last: nat)
    requires |haystack| == |line| && Ordered(idx, plen, |line|)
    ensures text == HighlightedPrefix(line, idx, plen, |idx|) && last == End(idx, plen, |line|, |idx|)
  {
    last := 0;
    text := "";
    for k := 0 to |idx|
      invariant last == End(idx, plen, |line|, k)
      invariant text == HighlightedPrefix(line, idx, plen, k)
    {
      HighlightedPrefixStep(line, idx, plen, k);
      text, last := HighlightMatch(line, haystack, idx[k], plen, last, text);
    }
  }

  /** One turn of the highlight loop: the gap up to the match at `start`, then the match in red. */
  method HighlightMatch(line: string, haystack: string, start: nat, plen: nat, last: nat, text: string)
    returns (text': string, last': nat)
    requires |haystack| == |line| && last <= start && start + plen <= |line|
    ensures text' == text + Segment(line, last, start, start + plen) && last' == start + plen
  {
    // the source converts a haystack position to a line position; both have one character per position
    var origStart := |haystack[..start]|;
    var origEnd := origStart + plen;
    text' := text + line[last..origStart];
    text' := text' + Red(line[origStart..origEnd]);
    assert text' == text + (line[last..origStart] + Red(line[origStart..origEnd]));
    last' := origEnd;
  }

  // ---------------------------------------------------------------- only-matching

  function Paint(s: string, color: bool): string {
    if color then Red(s) else s
  }

  /** The `N:` prefix, numbering lines from 1. */
  function Prefix(lineNumbers: bool, lineNo: nat): string {
    if lineNumbers then Decimal(lineNo + 1) + ":" else ""
  }

  /** The line printed for the match at `start`: the prefix and the pattern-length slice of the line there. */
  function Piece(line: string, start: nat, plen: nat, prefix: string, color: bool): string
    requires start + plen <= |line|
  {
    prefix + Paint(line[start..start + plen], color)
  }

  /** The lines printed for the matches at `idx`, each without its newline. */
  function Pieces(line: string, idx: seq<nat>, k: nat, plen: nat, prefix: string, color: bool): (pieces: seq<string>)
    requires k <= |idx| && Fits(idx, plen, |line|)
    ensures |pieces| == k
  {
    if k == 0 then [] else Pieces(line, idx, k - 1, plen, prefix, color) + [Piece(line, idx[k - 1], plen, prefix, color)]
  }

  /** The `j`-th line printed is the one for the `j`-th match. */
  lemma {:induction false} PiecesIndex(line: string, idx: seq<nat>, k: nat, plen: nat, prefix: string, color: bool, j: nat)
    requires k <= |idx| && Fits(idx, plen, |line|) && j < k
    ensures Pieces(line, idx, k, plen, prefix, color)[j] == Piece(line, idx[j], plen, prefix, color)
    decreases k
  {
    if j < k - 1 {
      PiecesIndex(line, idx, k - 1, plen, prefix, color, j);
    }
  }

  /** Lines joined, each with its newline. */
  function Terminated(lines: seq<string>): string
    decreases |lines|
  {
    if |lines| == 0 then "" else Terminated(lines[..|lines| - 1]) + (lines[|lines| - 1] + "\n")
  }

  lemma TerminatedSnoc(lines: seq<string>, l: string)
    ensures Terminated(lines + [l]) == Terminated(lines) + (l + "\n")
  {
    assert (lines + [l])[..|lines|] == lines;
  }

  /** The lines joined, each with its newline, in the form the line splitting is stated on. */
  lemma {:induction false} TerminatedJoined(lines: seq<string>)
    ensures Terminated(lines) == Concat(seq(|lines|, j requires 0 <= j < |lines| => lines[j] + "\n"))
    decreases |lines|
  {
    if |lines| > 0 {
      var m := |lines| - 1;
      TerminatedJoined(lines[..m]);
      var all := seq(|lines|, j requires 0 <= j < |lines| => lines[j] + "\n");
      assert all == seq(m, j requires 0 <= j < m => lines[..m][j] + "\n") + [lines[m] + "\n"];
      ConcatSnoc(seq(m, j requires 0 <= j < m => lines[..m][j] + "\n"), lines[m] + "\n");
    }
  }

  /** Past match `k`, the text printed so far gains that match's line. */
  lemma OnlyMatchingStep(line: string, idx: seq<nat>, k: nat, plen: nat, prefix: string, color: bool, text: string)
    requires k < |idx| && Fits(idx, plen, |line|)
    requires text == Terminated(Pieces(line, idx, k, plen, prefix, color))
    ensures idx[k] + plen <= |line|
    ensures text + (Piece(line, idx[k], plen, prefix, color) + "\n") == Terminated(Pieces(line, idx, k + 1, plen, prefix, color))
  {
    TerminatedSnoc(Pieces(line, idx, k, plen, prefix, color), Piece(line, idx[k], plen, prefix, color));
  }

  /** The only-matching output of a line: one line per match. */
  function OnlyMatchingText(line: string, idx: seq<nat>, plen: nat, prefix: string, color: bool): string
    requires Fits(idx, plen, |line|)
  {
    Terminated(Pieces(line, idx, |idx|, plen, prefix, color))
  }

  /** The loop over `match_indices` printing one slice per line. */
  method PrintOnlyMatching(line: string, haystack: string, pattern: string, prefix: string, color: bool) returns (text: string)
    requires |haystack| == |line|
    ensures Fits(MatchIndices(haystack, pattern), |pattern|, |line|)
    ensures text == OnlyMatchingText(line, MatchIndices(haystack, pattern), |pattern|, prefix, color)
  {
    var idx := MatchIndices(haystack, pattern);
    text := PrintMatches(line, idx, |pattern|, prefix, color);
  }

  /** The loop over the matches at `idx`. */
  method PrintMatches(line: string, idx: seq<nat>, plen: nat, prefix: string, color: bool) returns (text: string)
    requires Fits(idx, plen, |line|)
    ensures text == OnlyMatchingText(line, idx, plen, prefix, color)
  {
    text := "";
    for k := 0 to |idx|
      invariant text == Terminated(Pieces(line, idx, k, plen, prefix, color))
    {
      OnlyMatchingStep(line, idx, k, plen, prefix, color, text);
      var startIdx := idx[k];
      var slice := line[startIdx..startIdx + plen];
      var piece := prefix + Paint(slice, color);
      assert piece == Piece(line, idx[k], plen, prefix, color);
      text := text + (piece + "\n");
    }
  }

  /** Without newlines in the line and prefix, only-matching prints exactly one line per match. */
  lemma OnlyMatchingLines(line: string, idx: seq<nat>, plen: nat, prefix: string, color: bool)
    requires Fits(idx, plen, |line|) && '\n' !in line && '\n' !in prefix
    ensures Lines(OnlyMatchingText(line, idx, plen, prefix, color)) == Pieces(line, idx, |idx|, plen, prefix, color)
  {
    var shown := Pieces(line, idx, |idx|, plen, prefix, color);
    forall j | 0 <= j < |idx|
      ensures '\n' !in shown[j]
    {
      PiecesIndex(line, idx, |idx|, plen, prefix, color, j);
      SliceExcludes(line, '\n', idx[j], idx[j] + plen);
      if color {
        assert Paint(line[idx[j]..idx[j] + plen], color) == SetRed + line[idx[j]..idx[j] + plen] + Reset;
      }
    }
    LinesOfJoined(shown);
    TerminatedJoined(shown);
  }

  // ---------------------------------------------------------------- one line

  /** The text searched: the line, lower-cased under `--ignore-case`. */
  function Haystack(cli: Cli, line: string): (h: string)
    ensures |h| == |line|
  {
    if cli.ignoreCase then Lowercase(line) else line
  }

  /** The pattern searched for, lower-cased under `--ignore-case`. */
  function Needle(cli: Cli): string {
    if cli.ignoreCase then Lowercase(cli.pattern) else cli.pattern
  }

  function Found(cli: Cli, line: string): bool {
    Contains(Haystack(cli, line), Needle(cli))
  }

  /** A line is selected when it contains the pattern, or when it does not under `--invert-match`. */
  predicate IsMatch(cli: Cli, line: string) {
    Found(cli, line) != cli.invertMatch
  }

  /** The matches in a line. */
  function LineMatches(cli: Cli, line: string): (idx: seq<nat>)
    ensures Ordered(idx, |Needle(cli)|, |line|)
  {
    MatchIndices(Haystack(cli, line), Needle(cli))
  }

  /** `--only-matching`: one line per match. */
  function OnlyMatchingOutput(cli: Cli, color: bool, lineNo: nat, line: string): string {
    OnlyMatchingText(line, LineMatches(cli, line), |Needle(cli)|, Prefix(cli.lineNumbers, lineNo), color)
  }

  /** The whole line with its matches in red. */
  function HighlightedOutput(cli: Cli, lineNo: nat, line: string): string {
    Prefix(cli.lineNumbers, lineNo) + Highlighted(line, LineMatches(cli, line), |Needle(cli)|) + "\n"
  }

  /** What a readable line adds to standard output. */
  function LineText(cli: Cli, color: bool, lineNo: nat, line: string): string {
    if !IsMatch(cli, line) || cli.count then ""
    else if cli.onlyMatching then OnlyMatchingOutput(cli, color, lineNo, line)
    else if color && Found(cli, line) && !cli.invertMatch then HighlightedOutput(cli, lineNo, line)
    else Prefix(cli.lineNumbers, lineNo) + line + "\n"
  }

  /** The message for a line that cannot be read; it still takes its line number. */
  function ReadError(lineNo: nat): string {
    "Error reading line " + Decimal(lineNo + 1) + "\n"
  }

  /**
   * The line loop is stated over what it does with each line: whether a line
   * is selected, and the text a readable line prints, given its number.
   */
  type Selector = string -> bool
  type Renderer = (nat, string) -> string

  function Selects(cli: Cli): Selector {
    (line: string) => IsMatch(cli, line)
  }

  function Renders(cli: Cli, color: bool): Renderer {
    (lineNo: nat, line: string) => LineText(cli, color, lineNo, line)
  }

  /** The loop state: the counter, standard output and standard error so far. */
  datatype Scan = Scan(matches: nat, out: string, err: string)

  /** What line k adds to standard output, by its own content and number only. */
  function OutOf(render: Renderer, k: nat, entry: Option<string>): string {
    if entry.Some? then render(k, entry.value) else ""
  }

  /** What line k adds to standard error: the message for an unreadable line, numbered from 1. */
  function ErrOf(k: nat, entry: Option<string>): string {
    if entry.None? then ReadError(k) else ""
  }

  /** One turn of the line loop: line `k` read as `entry` (None when reading it failed). */
  function ScanStep(select: Selector, render: Renderer, s: Scan, k: nat, entry: Option<string>): (t: Scan)
    ensures t.out == s.out + OutOf(render, k, entry)
    ensures t.err == s.err + ErrOf(k, entry)
    ensures t.matches == s.matches + (if entry.Some? && select(entry.value) then 1 else 0)
  {
    if entry.None? then s.(err := s.err + ReadError(k))
    else Scan(s.matches + (if select(entry.value) then 1 else 0), s.out + render(k, entry.value), s.err)
  }

  /** The loop over the first `n` lines `lines()` yielded. */
  function ScanLines(select: Selector, render: Renderer, lines: seq<Option<string>>, n: nat): Scan
    requires n <= |lines|
  {
    if n == 0 then Scan(0, "", "")
    else ScanStep(select, render, ScanLines(select, render, lines, n - 1), n - 1, lines[n - 1])
  }

  /** The numbers of the selected lines among the first `n`. */
  function Selected(select: Selector, lines: seq<Option<string>>, n: nat): set<nat>
    requires n <= |lines|
  {
    set k: nat | k < n && lines[k].Some? && select(lines[k].value)
  }

  lemma SelectedStep(select: Selector, lines: seq<Option<string>>, n: nat)
    requires 0 < n <= |lines|
    ensures |Selected(select, lines, n)| ==
      |Selected(select, lines, n - 1)| + if lines[n - 1].Some? && select(lines[n - 1].value) then 1 else 0
  {
    var before := Selected(select, lines, n - 1);
    if lines[n - 1].Some? && select(lines[n - 1].value) {
      assert Selected(select, lines, n) == before + {n - 1};
      assert n - 1 !in before;
    } else {
      assert Selected(select, lines, n) == before;
    }
  }

  /** The counter ends as the number of selected lines. */
  lemma {:induction false} ScanCounts(select: Selector, render: Renderer, lines: seq<Option<string>>, n: nat)
    requires n <= |lines|
    ensures ScanLines(select, render, lines, n).matches == |Selected(select, lines, n)|
    decreases n
  {
    if n > 0 {
      ScanCounts(select, render, lines, n - 1);
      SelectedStep(select, lines, n);
    }
  }

  /** Each line's output, in input order. */
  function OutTexts(render: Renderer, lines: seq<Option<string>>, n: nat): (texts: seq<string>)
    requires n <= |lines|
    ensures |texts| == n && forall k :: 0 <= k < n ==> texts[k] == OutOf(render, k, lines[k])
  {
    if n == 0 then [] else OutTexts(render, lines, n - 1) + [OutOf(render, n - 1, lines[n - 1])]
  }

  /** Each line's error message, in input order. */
  function ErrTexts(lines: seq<Option<string>>, n: nat): (texts: seq<string>)
    requires n <= |lines|
    ensures |texts| == n && forall k :: 0 <= k < n ==> texts[k] == ErrOf(k, lines[k])
  {
    if n == 0 then [] else ErrTexts(lines, n - 1) + [ErrOf(n - 1, lines[n - 1])]
  }

  /** Standard output is the lines' texts in order; each is numbered by its place, unreadable lines counted. */
  lemma {:induction false} ScanOut(select: Selector, render: Renderer, lines: seq<Option<string>>, n: nat)
    requires n <= |lines|
    ensures ScanLines(select, render, lines, n).out == Concat(OutTexts(render, lines, n))
    decreases n
  {
    if n > 0 {
      ScanOut(select, render, lines, n - 1);
      ConcatSnoc(OutTexts(render, lines, n - 1), OutOf(render, n - 1, lines[n - 1]));
    }
  }

  /** Standard error is the read errors in order, each numbered by its line's place. */
  lemma {:induction false} ScanErr(select: Selector, render: Renderer, lines: seq<Option<string>>, n: nat)
    requires n <= |lines|
    ensures ScanLines(select, render, lines, n).err == Concat(ErrTexts(lines, n))
    decreases n
  {
    if n > 0 {
      ScanErr(select, render, lines, n - 1);
      ConcatSnoc(ErrTexts(lines, n - 1), ErrOf(n - 1, lines[n - 1]));
    }
  }

  /** An unselected line, or any line under `--count`, prints nothing. */
  lemma LineQuiet(cli: Cli, color: bool, lineNo: nat, line: string)
    requires !IsMatch(cli, line) || cli.count
    ensures LineText(cli, color, lineNo, line) == ""
  {
  }

  /** A selected line printed whole: its number prefix, the line itself, a newline. */
  lemma LinePlain(cli: Cli, color: bool, lineNo: nat, line: string)
    requires IsMatch(cli, line) && !cli.count && !cli.onlyMatching && !(color && !cli.invertMatch)
    ensures LineText(cli, color, lineNo, line) == Prefix(cli.lineNumbers, lineNo) + line + "\n"
  {
  }

  /** Once the colour sequences are removed, a highlighted line reads as the plain line. */
  lemma StripFramed(prefix: string, h: string, line: string)
    requires Esc !in prefix && Closed(h) && Strip(h) == line
    ensures Strip(prefix + h + "\n") == prefix + line + "\n"
  {
    StripNoEsc(prefix);
    ClosedNoEsc(prefix);
    StripNoEsc("\n");
    StripThree(prefix, h, "\n");
  }

  /** A selected line printed in colour displays, once the colour sequences are removed, as the plain line. */
  lemma LineHighlighted(cli: Cli, color: bool, lineNo: nat, line: string)
    requires IsMatch(cli, line) && !cli.count && !cli.onlyMatching && color && !cli.invertMatch
    requires Esc !in line
    ensures Strip(LineText(cli, color, lineNo, line)) == Prefix(cli.lineNumbers, lineNo) + line + "\n"
  {
    var idx := LineMatches(cli, line);
    StripHighlighted(line, idx, |Needle(cli)|);
    assert line[0..] == line;
    StripFramed(Prefix(cli.lineNumbers, lineNo), Highlighted(line, idx, |Needle(cli)|), line);
    assert LineText(cli, color, lineNo, line) == HighlightedOutput(cli, lineNo, line);
  }

  /** A match's slice of the line is the pattern, compared after lower-casing under `--ignore-case`. */
  lemma MatchSlice(cli: Cli, line: string, idx: seq<nat>, j: nat)
    requires idx == LineMatches(cli, line) && j < |idx|
    ensures idx[j] + |Needle(cli)| <= |line|
    ensures cli.ignoreCase ==> Lowercase(line[idx[j]..idx[j] + |Needle(cli)|]) == Needle(cli)
    ensures !cli.ignoreCase ==> line[idx[j]..idx[j] + |Needle(cli)|] == Needle(cli)
  {
    assert OccursAt(Haystack(cli, line), Needle(cli), idx[j]);
    if cli.ignoreCase {
      LowercaseSlice(line, idx[j], idx[j] + |Needle(cli)|);
    }
  }

  /**
   * Under `--only-matching` a selected line prints one line per match:
   * the number prefix and the slice of the original line the match covers,
   * whose lower-casing is the pattern under `--ignore-case`.
   */
  lemma LineOnlyMatching(cli: Cli, color: bool, lineNo: nat, line: string)
    requires IsMatch(cli, line) && !cli.count && cli.onlyMatching && '\n' !in line
    ensures Lines(LineText(cli, color, lineNo, line)) ==
      Pieces(line, LineMatches(cli, line), |LineMatches(cli, line)|, |Needle(cli)|, Prefix(cli.lineNumbers, lineNo), color)
  {
    var prefix := Prefix(cli.lineNumbers, lineNo);
    assert '\n' !in prefix;
    OnlyMatchingLines(line, LineMatches(cli, line), |Needle(cli)|, prefix, color);
    assert LineText(cli, color, lineNo, line) == OnlyMatchingOutput(cli, color, lineNo, line);
  }

  /** Under `--invert-match` only-matching prints nothing: a selected line has no match to print. */
  lemma InvertedOnlyMatchingSilent(cli: Cli, color: bool, lineNo: nat, line: string)
    requires cli.invertMatch && cli.onlyMatching
    ensures LineText(cli, color, lineNo, line) == ""
  {
    if IsMatch(cli, line) && !cli.count {
      MatchIndicesEmptyIff(Haystack(cli, line), Needle(cli));
      assert LineText(cli, color, lineNo, line) == OnlyMatchingOutput(cli, color, lineNo, line);
    }
  }

  /** Without `--invert-match` or `--count`, a line selected in only-matching mode prints at least one line. */
  lemma OnlyMatchingNotEmpty(cli: Cli, color: bool, lineNo: nat, line: string)
    requires IsMatch(cli, line) && !cli.count && cli.onlyMatching && !cli.invertMatch
    ensures LineText(cli, color, lineNo, line) != ""
  {
    MatchIndicesEmptyIff(Haystack(cli, line), Needle(cli));
    assert LineText(cli, color, lineNo, line) == OnlyMatchingOutput(cli, color, lineNo, line);
  }

  // ---------------------------------------------------------------- the program

  /** The environment: the input, the terminals, and whether the file opens.
      `lines` is the finite sequence of reads, each a line or a read error;
      a reader whose errors never end is not represented. */
  datatype Env = Env(
    fileOpens: bool,
    openError: string,
    stdinTty: bool,
    stdoutTty: bool,
    lines: seq<Option<string>>)

  datatype Output = Output(stdout: string, stderr: string, exitCode: nat)

  /** Whether the input is a file named on the command line ("-" means standard input). */
  predicate NamesFile(cli: Cli) {
    cli.filename.Some? && cli.filename.value != "-"
  }

  /** The whole run, as a function of the flags and the environment. */
  function Preg(cli: Cli, env: Env): Output {
    if NamesFile(cli) && !env.fileOpens then
      Output("", "Error opening file '" + cli.filename.value + "': " + env.openError + "\n", 1)
    else if !NamesFile(cli) && env.stdinTty then
      Output("", "No file specified and no input piped to stdin.\n", 1)
    else
      var color := UseColor(ParseColorWhen(cli.color), env.stdoutTty);
      var s := ScanLines(Selects(cli), Renders(cli, color), env.lines, |env.lines|);
      Output(s.out + (if cli.count then Decimal(s.matches) + "\n" else ""), s.err, 0)
  }

  /** The body of the line loop for a line that was read. */
  method MatchLine(cli: Cli, pattern: string, color: bool, lineNo: nat, line: string) returns (isMatch: bool, text: string)
    requires pattern == Needle(cli)
    ensures isMatch == IsMatch(cli, line)
    ensures text == LineText(cli, color, lineNo, line)
  {
    var haystack := if cli.ignoreCase then Lowercase(line) else line;
    var found := Contains(haystack, pattern);
    isMatch := if cli.invertMatch then !found else found;
    text := "";
    if isMatch && !cli.count {
      var prefix := Prefix(cli.lineNumbers, lineNo);
      if cli.onlyMatching {
        text := PrintOnlyMatching(line, haystack, pattern, prefix, color);
      } else if color && found && !cli.invertMatch {
        var shown := HighlightLine(line, haystack, pattern);
        text := prefix + shown + "\n";
      } else {
        text := prefix + line + "\n";
      }
    }
  }

  /** The line loop of `main`: count the selected lines, print their texts, report unreadable lines. */
  method ScanInput(cli: Cli, pattern: string, color: bool, lines: seq<Option<string>>) returns (matches: nat, stdout: string, stderr: string)
    requires pattern == Needle(cli)
    ensures Scan(matches, stdout, stderr) == ScanLines(Selects(cli), Renders(cli, color), lines, |lines|)
  {
    matches := 0;
    stdout := "";
    stderr := "";
    for lineNo := 0 to |lines|
      invariant matches == ScanLines(Selects(cli), Renders(cli, color), lines, lineNo).matches
      invariant stdout == ScanLines(Selects(cli), Renders(cli, color), lines, lineNo).out
      invariant stderr == ScanLines(Selects(cli), Renders(cli, color), lines, lineNo).err
    {
      var entry := lines[lineNo];
      if entry.None? {
        stderr := stderr + ReadError(lineNo);
      } else {
        var isMatch, text := MatchLine(cli, pattern, color, lineNo, entry.value);
        if isMatch {
          matches := matches + 1;
        }
        stdout := stdout + text;
      }
    }
  }

  /** `main`: choose the colour, open the input, run the line loop, print the count. */
  method Run(cli: Cli, env: Env) returns (out: Output)
    ensures out == Preg(cli, env)
  {
    var colorWhen := ParseColorWhen(cli.color);
    var color := UseColor(colorWhen, env.stdoutTty);
    var pattern := if cli.ignoreCase then Lowercase(cli.pattern) else cli.pattern;
    if NamesFile(cli) {
      if !env.fileOpens {
        return Output("", "Error opening file '" + cli.filename.value + "': " + env.openError + "\n", 1);
      }
    } else if env.stdinTty {
      return Output("", "No file specified and no input piped to stdin.\n", 1);
    }
    var matches, stdout, stderr := ScanInput(cli, pattern, color, env.lines);
    if cli.count {
      stdout := stdout + Decimal(matches) + "\n";
    }
    out := Output(stdout, stderr, 0);
  }

  // ---------------------------------------------------------------- properties of a run

  /** Under `--count` a run that opens its input prints only the number of selected lines. */
  lemma PregCount(cli: Cli, env: Env)
    requires cli.count && Preg(cli, env).exitCode == 0
    ensures Preg(cli, env).stdout == Decimal(|Selected(Selects(cli), env.lines, |env.lines|)|) + "\n"
  {
    var color := UseColor(ParseColorWhen(cli.color), env.stdoutTty);
    ScanCounts(Selects(cli), Renders(cli, color), env.lines, |env.lines|);
    ScanOut(Selects(cli), Renders(cli, color), env.lines, |env.lines|);
    var outs := OutTexts(Renders(cli, color), env.lines, |env.lines|);
    forall k | 0 <= k < |outs|
      ensures outs[k] == ""
    {
      if env.lines[k].Some? {
        LineQuiet(cli, color, k, env.lines[k].value);
      }
    }
    ConcatEmpty(outs);
  }

  lemma {:induction false} ConcatEmpty(parts: seq<string>)
    requires forall k :: 0 <= k < |parts| ==> parts[k] == ""
    ensures Concat(parts) == ""
    decreases |parts|
  {
    if |parts| > 0 {
      ConcatEmpty(parts[1..]);
    }
  }

  /** A run stops with exit code 1 and prints nothing to standard output when it has no input to read. */
  lemma PregNoInput(cli: Cli, env: Env)
    ensures Preg(cli, env).exitCode == 1 <==> (NamesFile(cli) && !env.fileOpens) || (!NamesFile(cli) && env.stdinTty)
    ensures Preg(cli, env).exitCode == 1 ==> Preg(cli, env).stdout == ""
  {
  }

  /** Standard error names every unreadable line by its number from 1, in order, and nothing else. */
  lemma PregErrors(cli: Cli, env: Env)
    requires Preg(cli, env).exitCode == 0
    ensures Preg(cli, env).stderr == Concat(ErrTexts(env.lines, |env.lines|))
  {
    var color := UseColor(ParseColorWhen(cli.color), env.stdoutTty);
    ScanErr(Selects(cli), Renders(cli, color), env.lines, |env.lines|);
  }

  /** Without `--count` standard output is the lines' texts, in input order. */
  lemma PregLines(cli: Cli, env: Env)
    requires !cli.count && Preg(cli, env).exitCode == 0
    ensures Preg(cli, env).stdout == Concat(OutTexts(Renders(cli, UseColor(ParseColorWhen(cli.color), env.stdoutTty)), env.lines, |env.lines|))
  {
    var color := UseColor(ParseColorWhen(cli.color), env.stdoutTty);
    ScanOut(Selects(cli), Renders(cli, color), env.lines, |env.lines|);
    assert Preg(cli, env).stdout == ScanLines(Selects(cli), Renders(cli, color), env.lines, |env.lines|).out + "";
  }
}
