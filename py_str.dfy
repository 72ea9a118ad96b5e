/** The Python string built-ins the password policy and the breach lookup rely on:
    `str.strip`, `str.upper`, `str.split(sep)`, `str.splitlines` and the
    decimal rendering of an `int` inside an f-string. Each is stated over ASCII
    only (see README, "Left out"). */
module PyStr {

  /** `str.isspace` for ASCII characters: space, \t \n \v \f \r and 0x1C-0x1F. */
  predicate IsSpace(c: char) {
    c == ' ' || (9 <= c as int <= 13) || (28 <= c as int <= 31)
  }

  predicate AllSpace(s: string) {
    forall k :: 0 <= k < |s| ==> IsSpace(s[k])
  }

  // ---------------------------------------------------------------- strip

  /** `s.lstrip()`: the longest suffix of `s` that does not start with whitespace. */
  function LStrip(s: string): (r: string)
    ensures |r| <= |s| && r == s[|s| - |r|..]
    ensures AllSpace(s[..|s| - |r|])
    ensures r != [] ==> !IsSpace(r[0])
  {
    if s != [] && IsSpace(s[0]) then
      var r := LStrip(s[1..]);
      assert s[1..][..|s| - 1 - |r|] == s[1..|s| - |r|];
      r
    else s
  }

  /** `s.rstrip()`: the longest prefix of `s` that does not end with whitespace. */
  function RStrip(s: string): (r: string)
    ensures |r| <= |s| && r == s[..|r|]
    ensures AllSpace(s[|r|..])
    ensures r != [] ==> !IsSpace(r[|r| - 1])
  {
    if s != [] && IsSpace(s[|s| - 1]) then
      var t := s[..|s| - 1];
      var r := RStrip(t);
      assert r == s[..|r|] by { assert t[..|r|] == s[..|r|]; }
      assert AllSpace(s[|r|..]) by {
        assert s[|r|..] == t[|r|..] + [s[|s| - 1]];
      }
      r
    else s
  }

  /** `s.strip()`. */
  function Strip(s: string): (r: string)
    ensures |r| <= |s|
    ensures r != [] ==> !IsSpace(r[0]) && !IsSpace(r[|r| - 1])
  {
    RStrip(LStrip(s))
  }

  lemma {:induction false} LStripPadded(lead: string, rest: string)
    requires AllSpace(lead)
    requires rest == [] || !IsSpace(rest[0])
    ensures LStrip(lead + rest) == rest
  {
    if lead != [] {
      assert (lead + rest)[1..] == lead[1..] + rest;
      LStripPadded(lead[1..], rest);
    }
  }

  lemma {:induction false} RStripPadded(rest: string, trail: string)
    requires AllSpace(trail)
    requires rest == [] || !IsSpace(rest[|rest| - 1])
    ensures RStrip(rest + trail) == rest
  {
    if trail != [] {
      assert (rest + trail)[..|rest + trail| - 1] == rest + trail[..|trail| - 1];
      RStripPadded(rest, trail[..|trail| - 1]);
    }
  }

  /** Strip removes exactly the surrounding whitespace: whatever whitespace is
      put around a text without leading or trailing whitespace, Strip gives
      that text back. */
  lemma StripPadded(lead: string, core: string, trail: string)
    requires AllSpace(lead) && AllSpace(trail)
    requires core != [] ==> !IsSpace(core[0]) && !IsSpace(core[|core| - 1])
    ensures Strip(lead + core + trail) == core
  {
    if core == [] {
      assert lead + core + trail == (lead + trail) + [];
      LStripPadded(lead + trail, []);
      RStripPadded([], []);
    } else {
      assert lead + core + trail == lead + (core + trail);
      LStripPadded(lead, core + trail);
      RStripPadded(core, trail);
    }
  }

  // ---------------------------------------------------------------- upper

  /** `c.upper()` for ASCII: a-z become A-Z, every other character is kept. */
  function UpperChar(c: char): char {
    if 'a' <= c <= 'z' then (c as int - 32) as char else c
  }

  /** `s.upper()`, character by character. */
  function Upper(s: string): (r: string)
    ensures |r| == |s|
    ensures forall i :: 0 <= i < |s| ==> r[i] == UpperChar(s[i])
  {
    if s == [] then [] else [UpperChar(s[0])] + Upper(s[1..])
  }

  /** Two characters are equal up to ASCII letter case. */
  predicate SameIgnoringCase(x: char, y: char) {
    || x == y
    || ('a' <= x <= 'z' && y as int == x as int - 32)
    || ('a' <= y <= 'z' && x as int == y as int - 32)
  }

  lemma UpperCharEqualIff(x: char, y: char)
    ensures UpperChar(x) == UpperChar(y) <==> SameIgnoringCase(x, y)
  {
  }

  /** Comparing after `upper()` is exactly case-insensitive comparison. */
  lemma UpperEqualIff(a: string, b: string)
    ensures Upper(a) == Upper(b) <==>
            |a| == |b| && forall i :: 0 <= i < |a| ==> SameIgnoringCase(a[i], b[i])
  {
    var ua, ub := Upper(a), Upper(b);
    if ua == ub {
      forall i | 0 <= i < |a| ensures SameIgnoringCase(a[i], b[i]) {
        assert ua[i] == ub[i];
        UpperCharEqualIff(a[i], b[i]);
      }
    }
    if |a| == |b| && forall i :: 0 <= i < |a| ==> SameIgnoringCase(a[i], b[i]) {
      forall i | 0 <= i < |a| ensures ua[i] == ub[i] {
        UpperCharEqualIff(a[i], b[i]);
      }
      assert ua == ub;
    }
  }


  // ---------------------------------------------------------------- split

  /** Number of occurrences of `c` in `s`. */
  function Count(s: string, c: char): nat {
    if s == [] then 0 else (if s[0] == c then 1 else 0) + Count(s[1..], c)
  }

  lemma {:induction false} CountZero(s: string, c: char)
    ensures Count(s, c) == 0 <==> c !in s
  {
    if s != [] {
      CountZero(s[1..], c);
      assert s == [s[0]] + s[1..];
    }
  }

  /** `s.split(sep)` with an explicit one-character separator: the fields
      between separators, one more than there are separators, none holding
      the separator. */
  function Split(s: string, sep: char): (parts: seq<string>)
    ensures |parts| == Count(s, sep) + 1
    ensures forall i :: 0 <= i < |parts| ==> sep !in parts[i]
    decreases |s|
  {
    if s == [] then [""]
    else
      var rest := Split(s[1..], sep);
      if s[0] == sep then [""] + rest
      else [[s[0]] + rest[0]] + rest[1..]
  }

  /** `sep.join(parts)`. */
  function Join(parts: seq<string>, sep: char): string
    requires |parts| >= 1
  {
    if |parts| == 1 then parts[0] else parts[0] + [sep] + Join(parts[1..], sep)
  }

  /** Splitting and joining back gives the original text. */
  lemma {:induction false} JoinSplit(s: string, sep: char)
    ensures Join(Split(s, sep), sep) == s
    decreases |s|
  {
    if s != [] {
      var rest := Split(s[1..], sep);
      JoinSplit(s[1..], sep);
      if s[0] != sep && |rest| > 1 {
        assert ([[s[0]] + rest[0]] + rest[1..])[1..] == rest[1..];
      }
    }
  }

  lemma {:induction false} SplitFree(a: string, sep: char)
    requires sep !in a
    ensures Split(a, sep) == [a]
    decreases |a|
  {
    if a != [] {
      SplitFree(a[1..], sep);
      assert a[0] != sep;
      assert [a[0]] + a[1..] == a;
    }
  }

  lemma {:induction false} SplitCons(a: string, sep: char, t: string)
    requires sep !in a
    ensures Split(a + [sep] + t, sep) == [a] + Split(t, sep)
    decreases |a|
  {
    var s := a + [sep] + t;
    if a == [] {
      assert s[1..] == t;
    } else {
      assert s[1..] == a[1..] + [sep] + t;
      SplitCons(a[1..], sep, t);
      assert s[0] == a[0] != sep;
      assert [a[0]] + a[1..] == a;
    }
  }

  /** Joining separator-free fields and splitting again gives the fields back. */
  lemma {:induction false} SplitJoin(parts: seq<string>, sep: char)
    requires |parts| >= 1
    requires forall i :: 0 <= i < |parts| ==> sep !in parts[i]
    ensures Split(Join(parts, sep), sep) == parts
  {
    if |parts| == 1 {
      SplitFree(parts[0], sep);
    } else {
      SplitJoin(parts[1..], sep);
      SplitCons(parts[0], sep, Join(parts[1..], sep));
    }
  }

  // ---------------------------------------------------------------- splitlines

  /** The line boundaries `str.splitlines` honours in this model. */
  predicate IsLineBreak(c: char) {
    c == '\n' || c == '\r'
  }

  predicate NoLineBreak(line: string) {
    forall k :: 0 <= k < |line| ==> !IsLineBreak(line[k])
  }

  /** Index of the first line break in `s`, or `|s|` if there is none. */
  function LineEnd(s: string): (n: nat)
    ensures n <= |s|
    ensures NoLineBreak(s[..n])
    ensures n < |s| ==> IsLineBreak(s[n])
  {
    if s == [] || IsLineBreak(s[0]) then 0
    else
      var n := 1 + LineEnd(s[1..]);
      assert s[..n] == [s[0]] + s[1..][..n - 1];
      n
  }

  /** `s.splitlines()`: the lines of `s` without their terminators, where
      "\r\n" counts as one terminator and a final terminator does not start
      an empty last line. */
  function SplitLines(s: string): (lines: seq<string>)
    ensures forall i :: 0 <= i < |lines| ==> NoLineBreak(lines[i])
    ensures |lines| <= |s|
    decreases |s|
  {
    if s == [] then []
    else
      var n := LineEnd(s);
      if n == |s| then [s]
      else
        var next := if s[n] == '\r' && n + 1 < |s| && s[n + 1] == '\n' then n + 2 else n + 1;
        [s[..n]] + SplitLines(s[next..])
  }

  predicate IsTerminator(term: string) {
    term == "\n" || term == "\r" || term == "\r\n"
  }

  /** Each line followed by its own terminator. */
  function Terminated(lines: seq<string>, terms: seq<string>): string
    requires |terms| == |lines|
  {
    if lines == [] then "" else lines[0] + terms[0] + Terminated(lines[1..], terms[1..])
  }

  /** The lines and terminators can be read back: a lone "\r" is never
      followed by an empty line ended by "\n", which would read as one
      "\r\n" terminator. */
  predicate Unambiguous(lines: seq<string>, terms: seq<string>)
    requires |terms| == |lines|
  {
    && (forall i :: 0 <= i < |terms| ==> IsTerminator(terms[i]))
    && (forall i :: 0 <= i < |lines| ==> NoLineBreak(lines[i]))
    && (forall i :: 0 < i < |lines| && terms[i - 1] == "\r" && lines[i] == [] ==> terms[i] != "\n")
  }

  /** One line and its terminator come off the front of the text. */
  lemma SplitLinesStep(l: string, term: string, tail: string)
    requires IsTerminator(term)
    requires NoLineBreak(l)
    requires term == "\r" && tail != [] ==> tail[0] != '\n'
    ensures SplitLines(l + term + tail) == [l] + SplitLines(tail)
  {
    var s := l + term + tail;
    assert s == l + (term + tail);
    LineEndOf(l, term + tail);
    assert s[..|l|] == l;
    assert s[|l| + |term|..] == tail;
  }

  /** Lines each written with its own terminator ("\n", "\r" or "\r\n"),
      then an optional last line with no terminator, are read back unchanged
      by `splitlines`. */
  lemma {:induction false} SplitLinesTerminated(lines: seq<string>, terms: seq<string>, last: string)
    requires |terms| == |lines| && Unambiguous(lines, terms)
    requires NoLineBreak(last)
    ensures SplitLines(Terminated(lines, terms) + last) == lines + (if last == [] then [] else [last])
  {
    var rest := if last == [] then [] else [last];
    if lines == [] {
      assert Terminated(lines, terms) + last == last;
      if last != [] {
        assert LineEnd(last) == |last|;
      }
    } else {
      var tail := Terminated(lines[1..], terms[1..]) + last;
      assert Unambiguous(lines[1..], terms[1..]) by {
        forall i | 0 < i < |lines| - 1 && terms[1..][i - 1] == "\r" && lines[1..][i] == []
          ensures terms[1..][i] != "\n"
        {
          assert terms[i] == "\r" && lines[i + 1] == [];
        }
      }
      assert SplitLines(Terminated(lines, terms) + last) == [lines[0]] + SplitLines(tail) by {
        assert Terminated(lines, terms) + last == lines[0] + terms[0] + tail;
        if terms[0] == "\r" && tail != [] {
          if |lines| > 1 {
            var more := Terminated(lines[2..], terms[2..]) + last;
            assert tail == lines[1] + terms[1] + more by {
              assert lines[1..][1..] == lines[2..] && terms[1..][1..] == terms[2..];
            }
            NoNewlineFirst(lines[1], terms[1], more);
          } else {
            assert tail == last;
          }
        }
        SplitLinesStep(lines[0], terms[0], tail);
      }
      SplitLinesTerminated(lines[1..], terms[1..], last);
      ConsAppend(lines, rest);
    }
  }

  /** Without the side condition the lines are not read back: "A" ended by
      "\r", then an empty line ended by "\n", reads as the single line "A". */
  lemma CrThenEmptyLineMerges(lines: seq<string>, terms: seq<string>)
    requires lines == ["A", ""] && terms == ["\r", "\n"]
    ensures SplitLines(Terminated(lines, terms)) == ["A"] != lines
  {
    var text := Terminated(lines, terms);
    assert text == ['A', '\r', '\n'] by {
      assert Terminated(lines[1..], terms[1..]) == "" + "\n" + Terminated([], []);
    }
    assert LineEnd(text) == 1 by {
      assert LineEnd(text[1..]) == 0;
    }
    assert text[..1] == "A" && text[3..] == [];
    assert SplitLines(text) == [text[..1]] + SplitLines(text[3..]);
    assert |["A"]| != |lines|;
  }

  lemma ConsAppend<T>(a: seq<T>, b: seq<T>)
    requires a != []
    ensures [a[0]] + (a[1..] + b) == a + b
  {
    assert a == [a[0]] + a[1..];
  }

  /** A line and its terminator never start with "\n", unless the line is
      empty and the terminator is "\n". */
  lemma NoNewlineFirst(l: string, term: string, rest: string)
    requires NoLineBreak(l) && IsTerminator(term)
    requires l == [] ==> term != "\n"
    ensures (l + term + rest)[0] != '\n'
  {
    if l != [] {
      assert (l + term + rest)[0] == l[0];
    } else {
      assert (l + term + rest)[0] == term[0];
    }
  }

  lemma {:induction false} LineEndOf(l: string, rest: string)
    requires NoLineBreak(l)
    requires rest != [] && IsLineBreak(rest[0])
    ensures LineEnd(l + rest) == |l|
  {
    if l != [] {
      assert (l + rest)[1..] == l[1..] + rest;
      LineEndOf(l[1..], rest);
    }
  }

  // ---------------------------------------------------------------- int formatting

  function DigitChar(d: nat): (c: char)
    requires d < 10
    ensures '0' <= c <= '9'
  {
    ('0' as int + d) as char
  }

  predicate AllDigits(s: string) {
    forall i :: 0 <= i < |s| ==> '0' <= s[i] <= '9'
  }

  /** Decimal rendering of a natural number, as `str(n)` gives it. */
  function NatToString(n: nat): (s: string)
    ensures |s| >= 1 && AllDigits(s)
    ensures s[0] == '0' ==> n == 0
  {
    if n < 10 then [DigitChar(n)] else NatToString(n / 10) + [DigitChar(n % 10)]
  }

  /** The value of a string of decimal digits. */
  function DecimalValue(s: string): nat
    requires AllDigits(s)
  {
    if s == [] then 0 else 10 * DecimalValue(s[..|s| - 1]) + (s[|s| - 1] as int - '0' as int)
  }

  /** Reading back a rendered number gives the number. */
  lemma {:induction false} DecimalRoundTrip(n: nat)
    ensures DecimalValue(NatToString(n)) == n
  {
    if n >= 10 {
      var s := NatToString(n);
      assert s[..|s| - 1] == NatToString(n / 10);
      DecimalRoundTrip(n / 10);
    }
  }

  /** `str(n)` for any int: a leading '-' exactly for negative numbers,
      followed by the digits of the magnitude. */
  function IntToString(n: int): (s: string)
    ensures |s| >= 1
    ensures s[0] == '-' <==> n < 0
    ensures n < 0 ==> AllDigits(s[1..]) && DecimalValue(s[1..]) == -n
    ensures n >= 0 ==> AllDigits(s) && DecimalValue(s) == n
    ensures s[if n < 0 then 1 else 0] == '0' ==> n == 0
  {
    if n < 0 then
      var d := NatToString(-n);
      DecimalRoundTrip(-n);
      assert ("-" + d)[1..] == d;
      "-" + d
    else
      DecimalRoundTrip(n);
      NatToString(n)
  }

  /** Different numbers render differently. */
  lemma IntToStringInjective(a: int, b: int)
    requires IntToString(a) == IntToString(b)
    ensures a == b
  {
  }
}
