/**
 * Text utilities shared by the tools: decimal rendering of unsigned integers
 * (Rust's `Display`, with and without `{:04}` padding), concatenation,
 * splitting into newline-terminated lines, and removal of ANSI control
 * sequences (what a terminal shows of a string).
 */
module Text {

  /** The escape character that opens an ANSI control sequence. */
  const Esc: char := '\U{1b}'

  predicate IsDigit(c: char) {
    '0' <= c <= '9'
  }

  predicate AllDigits(s: string) {
    forall i :: 0 <= i < |s| ==> IsDigit(s[i])
  }

  function DigitChar(d: nat): (c: char)
    requires d < 10
    ensures IsDigit(c) && c as int - '0' as int == d
  {
    ('0' as int + d) as char
  }

  /** Decimal rendering of `n` as Rust's `Display` for unsigned integers: no sign, no padding. */
  function Decimal(n: nat): (s: string)
    ensures |s| > 0 && AllDigits(s)
    ensures |s| > 1 ==> s[0] != '0'
    ensures Esc !in s && '\n' !in s && 'm' !in s
    decreases n
  {
    if n < 10 then [DigitChar(n)] else Decimal(n / 10) + [DigitChar(n % 10)]
  }

  /** The value of a string of decimal digits (leading zeros allowed). */
  function ParseDecimal(s: string): nat
    requires AllDigits(s)
    decreases |s|
  {
    if |s| == 0 then 0 else 10 * ParseDecimal(s[..|s| - 1]) + (s[|s| - 1] as int - '0' as int)
  }

  /** Reading back a rendered number gives the number. */
  lemma {:induction false} DecimalRoundTrip(n: nat)
    ensures ParseDecimal(Decimal(n)) == n
    decreases n
  {
    if n >= 10 {
      DecimalRoundTrip(n / 10);
      var s := Decimal(n);
      assert s[..|s| - 1] == Decimal(n / 10);
    }
  }

  /** Different numbers render differently. */
  lemma DecimalInjective(m: nat, n: nat)
    requires Decimal(m) == Decimal(n)
    ensures m == n
  {
    DecimalRoundTrip(m);
    DecimalRoundTrip(n);
  }

  function Repeat(c: char, k: nat): (s: string)
    ensures |s| == k && forall i :: 0 <= i < k ==> s[i] == c
  {
    seq(k, _ => c)
  }

  /** `s` padded on the left with '0' to at least `width` characters, as Rust's `{:0width}`. */
  function ZeroPad(s: string, width: nat): (r: string)
    ensures |r| == if |s| >= width then |s| else width
    ensures r[|r| - |s|..] == s
    ensures forall i :: 0 <= i < |r| - |s| ==> r[i] == '0'
  {
    if |s| >= width then s else Repeat('0', width - |s|) + s
  }

  lemma {:induction false} ParseZeros(k: nat)
    ensures ParseDecimal(Repeat('0', k)) == 0
    decreases k
  {
    if k > 0 {
      assert Repeat('0', k)[..k - 1] == Repeat('0', k - 1);
      ParseZeros(k - 1);
    }
  }

  /** Leading zeros do not change the value of a digit string. */
  lemma {:induction false} ParseIgnoresLeadingZeros(k: nat, s: string)
    requires AllDigits(s)
    ensures AllDigits(Repeat('0', k) + s)
    ensures ParseDecimal(Repeat('0', k) + s) == ParseDecimal(s)
    decreases |s|
  {
    var z := Repeat('0', k);
    if |s| == 0 {
      assert z + s == z;
      ParseZeros(k);
    } else {
      var t := z + s;
      assert t[..|t| - 1] == z + s[..|s| - 1];
      ParseIgnoresLeadingZeros(k, s[..|s| - 1]);
    }
  }

  /** The parts joined with no separator (Rust's `push_str` in a loop). */
  function Concat(parts: seq<string>): string
    decreases |parts|
  {
    if |parts| == 0 then "" else parts[0] + Concat(parts[1..])
  }

  lemma {:induction false} ConcatSnoc(parts: seq<string>, p: string)
    ensures Concat(parts + [p]) == Concat(parts) + p
    decreases |parts|
  {
    if |parts| == 0 {
      assert parts + [p] == [p];
    } else {
      assert (parts + [p])[1..] == parts[1..] + [p];
      ConcatSnoc(parts[1..], p);
    }
  }

  lemma {:induction false} ConcatAppend(a: seq<string>, b: seq<string>)
    ensures Concat(a + b) == Concat(a) + Concat(b)
    decreases |a|
  {
    if |a| == 0 {
      assert a + b == b;
    } else {
      assert (a + b)[1..] == a[1..] + b;
      ConcatAppend(a[1..], b);
    }
  }

  /** The newline-terminated lines of `s` (a final line without '\n' still counts), as Rust's `str::lines` without '\r' handling. */
  function Lines(s: string): seq<string>
    decreases |s|
  {
    if |s| == 0 then []
    else if s[0] == '\n' then [""] + Lines(s[1..])
    else
      var rest := Lines(s[1..]);
      if rest == [] then [[s[0]]] else [[s[0]] + rest[0]] + rest[1..]
  }

  lemma {:induction false} LinesOfTerminated(line: string, rest: string)
    requires '\n' !in line
    ensures Lines(line + "\n" + rest) == [line] + Lines(rest)
    decreases |line|
  {
    var s := line + "\n" + rest;
    if |line| == 0 {
      assert s[0] == '\n' && s[1..] == rest;
    } else {
      assert s[0] == line[0] && s[1..] == line[1..] + "\n" + rest;
      LinesOfTerminated(line[1..], rest);
      assert [line[0]] + line[1..] == line;
    }
  }

  /** Joining terminated lines and splitting again gives the lines back. */
  lemma {:induction false} LinesOfJoined(lines: seq<string>)
    requires forall i :: 0 <= i < |lines| ==> '\n' !in lines[i]
    ensures Lines(Concat(seq(|lines|, i requires 0 <= i < |lines| => lines[i] + "\n"))) == lines
    decreases |lines|
  {
    var parts := seq(|lines|, i requires 0 <= i < |lines| => lines[i] + "\n");
    if |lines| > 0 {
      var tail := seq(|lines| - 1, i requires 0 <= i < |lines| - 1 => lines[1..][i] + "\n");
      assert parts[1..] == tail;
      LinesOfJoined(lines[1..]);
      LinesOfTerminated(lines[0], Concat(tail));
      assert Concat(parts) == lines[0] + "\n" + Concat(tail);
    }
  }

  /** One more newline after text that is empty or ends its last line adds one empty line. */
  lemma {:induction false} LinesAppendNewline(s: string)
    requires |s| == 0 || s[|s| - 1] == '\n'
    ensures Lines(s + "\n") == Lines(s) + [""]
    decreases |s|
  {
    if |s| > 0 {
      assert (s + "\n")[0] == s[0] && (s + "\n")[1..] == s[1..] + "\n";
      LinesAppendNewline(s[1..]);
      if s[0] != '\n' {
        assert Lines(s[1..]) != [];
      }
    }
  }

  /** The rest of `s` after the first 'm', which ends an SGR control sequence; empty if there is none. */
  function AfterSgr(s: string): (r: string)
    ensures |r| <= |s|
    decreases |s|
  {
    if |s| == 0 then "" else if s[0] == 'm' then s[1..] else AfterSgr(s[1..])
  }

  /** What a terminal displays of `s`: every control sequence from Esc to its final 'm' removed. */
  function Strip(s: string): string
    decreases |s|
  {
    if |s| == 0 then ""
    else if s[0] == Esc then Strip(AfterSgr(s[1..]))
    else [s[0]] + Strip(s[1..])
  }

  lemma StripChar(c: char, rest: string)
    requires c != Esc
    ensures Strip([c] + rest) == [c] + Strip(rest)
  {
    assert ([c] + rest)[1..] == rest;
  }

  lemma {:induction false} AfterSgrSkips(params: string, rest: string)
    requires 'm' !in params
    ensures AfterSgr(params + "m" + rest) == rest
    decreases |params|
  {
    var s := params + "m" + rest;
    if |params| == 0 {
      assert s[0] == 'm' && s[1..] == rest;
    } else {
      assert s[0] == params[0] && s[1..] == params[1..] + "m" + rest;
      AfterSgrSkips(params[1..], rest);
    }
  }

  /** A complete control sequence `Esc params m` displays as nothing. */
  lemma StripSgr(params: string, rest: string)
    requires 'm' !in params
    ensures Strip([Esc] + params + "m" + rest) == Strip(rest)
  {
    var s := [Esc] + params + "m" + rest;
    assert s[1..] == params + "m" + rest;
    AfterSgrSkips(params, rest);
  }

  /** Text without escape characters is displayed as it is. */
  lemma {:induction false} StripNoEsc(s: string)
    requires Esc !in s
    ensures Strip(s) == s
    decreases |s|
  {
    if |s| > 0 {
      assert s == [s[0]] + s[1..];
      StripChar(s[0], s[1..]);
      StripNoEsc(s[1..]);
    }
  }

  /** A character missing from every part is missing from their concatenation. */
  lemma {:induction false} ConcatExcludes(parts: seq<string>, c: char)
    requires forall i :: 0 <= i < |parts| ==> c !in parts[i]
    ensures c !in Concat(parts)
    decreases |parts|
  {
    if |parts| > 0 {
      ConcatExcludes(parts[1..], c);
    }
  }

  /** Every escape in `s` is completed by a final 'm': `s` leaves no control sequence open. */
  predicate Closed(s: string)
    decreases |s|
  {
    if |s| == 0 then true
    else if s[0] == Esc then 'm' in s[1..] && Closed(AfterSgr(s[1..]))
    else Closed(s[1..])
  }

  lemma {:induction false} AfterSgrAppend(s: string, t: string)
    requires 'm' in s
    ensures AfterSgr(s + t) == AfterSgr(s) + t
    decreases |s|
  {
    assert (s + t)[0] == s[0];
    if s[0] == 'm' {
      assert (s + t)[1..] == s[1..] + t;
    } else {
      assert (s + t)[1..] == s[1..] + t;
      AfterSgrAppend(s[1..], t);
    }
  }

  /** Text that leaves no control sequence open displays independently of what follows it. */
  lemma {:induction false} StripAppend(a: string, b: string)
    requires Closed(a)
    ensures Strip(a + b) == Strip(a) + Strip(b)
    ensures Closed(b) ==> Closed(a + b)
    decreases |a|
  {
    if |a| == 0 {
      assert a + b == b;
    } else {
      var ab := a + b;
      assert ab[0] == a[0] && ab[1..] == a[1..] + b;
      if a[0] == Esc {
        AfterSgrAppend(a[1..], b);
        StripAppend(AfterSgr(a[1..]), b);
      } else {
        StripAppend(a[1..], b);
      }
    }
  }

  /** Three pieces, the first two leaving no sequence open, display piece by piece. */
  lemma StripThree(a: string, b: string, c: string)
    requires Closed(a) && Closed(b)
    ensures Strip(a + b + c) == Strip(a) + Strip(b) + Strip(c)
    ensures Closed(c) ==> Closed(a + b + c)
  {
    StripAppend(b, c);
    StripAppend(a, b + c);
    assert a + b + c == a + (b + c);
  }

  /** Closed parts display part by part. */
  lemma {:induction false} StripConcat(parts: seq<string>)
    requires forall i :: 0 <= i < |parts| ==> Closed(parts[i])
    ensures Strip(Concat(parts)) == Concat(seq(|parts|, i requires 0 <= i < |parts| => Strip(parts[i])))
    ensures Closed(Concat(parts))
    decreases |parts|
  {
    var shown := seq(|parts|, i requires 0 <= i < |parts| => Strip(parts[i]));
    if |parts| > 0 {
      StripConcat(parts[1..]);
      StripAppend(parts[0], Concat(parts[1..]));
      assert shown[1..] == seq(|parts| - 1, i requires 0 <= i < |parts| - 1 => Strip(parts[1..][i]));
    }
  }

  lemma {:induction false} ClosedNoEsc(s: string)
    requires Esc !in s
    ensures Closed(s)
    decreases |s|
  {
    if |s| > 0 {
      ClosedNoEsc(s[1..]);
    }
  }

  lemma ClosedSgr(params: string, rest: string)
    requires 'm' !in params && Closed(rest)
    ensures Closed([Esc] + params + "m" + rest)
  {
    var s := [Esc] + params + "m" + rest;
    assert s[1..] == params + "m" + rest;
    assert 'm' in s[1..] by {
      assert s[1..][|params|] == 'm';
    }
    AfterSgrSkips(params, rest);
  }

  lemma ClosedChar(c: char, rest: string)
    requires c != Esc && Closed(rest)
    ensures Closed([c] + rest)
  {
    assert ([c] + rest)[1..] == rest;
  }
}
