/** The parts of Python's `str` behaviour that the scripts rely on: whitespace,
    `strip()`, `split()`, `split(sep)`, `splitlines()`, `"\n".join(...)` and
    `str(n)` for a natural number.  A `char` stands for one code point. */
module Strings {

  /** A value that may be missing, as Python's `None`. */
  datatype Option<T> = None | Some(value: T)

  /** The characters the argument-less `str.split()` and `str.strip()` treat as whitespace. */
  predicate IsSpace(c: char) {
    || c == ' '
    || '\t' <= c <= '\r'
    || '\U{1c}' <= c <= '\U{1f}'
    || c == '\U{85}' || c == '\U{a0}' || c == '\U{1680}'
    || '\U{2000}' <= c <= '\U{200a}'
    || c == '\U{2028}' || c == '\U{2029}' || c == '\U{202f}' || c == '\U{205f}' || c == '\U{3000}'
  }

  /** The characters at which `str.splitlines()` ends a line; "\r\n" is one break. */
  predicate IsLineBreak(c: char) {
    || c == '\n' || c == '\r' || c == '\U{0b}' || c == '\U{0c}'
    || '\U{1c}' <= c <= '\U{1e}'
    || c == '\U{85}' || c == '\U{2028}' || c == '\U{2029}'
  }

  predicate NoLineBreak(s: string) {
    forall i :: 0 <= i < |s| ==> !IsLineBreak(s[i])
  }

  /** A non-empty string without whitespace: what `split()` can return as one token. */
  predicate IsToken(w: string) {
    w != [] && forall i :: 0 <= i < |w| ==> !IsSpace(w[i])
  }

  lemma TokenHasNoLineBreak(w: string)
    requires IsToken(w)
    ensures NoLineBreak(w)
  {
  }

  predicate StartsWith(s: string, prefix: string) {
    |prefix| <= |s| && s[..|prefix|] == prefix
  }

  predicate EndsWith(s: string, suffix: string) {
    |suffix| <= |s| && s[|s| - |suffix|..] == suffix
  }

  /** `s.lstrip()`: the suffix of `s` that starts at its first non-whitespace character. */
  function TrimLeft(s: string): (t: string)
    ensures |t| <= |s| && t == s[|s| - |t|..]
    ensures t == [] || !IsSpace(t[0])
    ensures forall i :: 0 <= i < |s| - |t| ==> IsSpace(s[i])
  {
    if s != [] && IsSpace(s[0]) then TrimLeft(s[1..]) else s
  }

  /** Length of the run of non-whitespace characters at the start of `s`. */
  function TokenLength(s: string): (n: nat)
    requires s != [] && !IsSpace(s[0])
    ensures 1 <= n <= |s|
    ensures forall i :: 0 <= i < n ==> !IsSpace(s[i])
    ensures n == |s| || IsSpace(s[n])
  {
    if |s| == 1 || IsSpace(s[1]) then 1 else 1 + TokenLength(s[1..])
  }

  /** `s.split()`: the maximal runs of non-whitespace characters, in order. */
  function Split(s: string): (tokens: seq<string>)
    ensures forall w :: w in tokens ==> IsToken(w)
    decreases |s|
  {
    if s == [] then []
    else if IsSpace(s[0]) then Split(s[1..])
    else
      var n := TokenLength(s);
      [s[..n]] + Split(s[n..])
  }

  lemma {:induction false} SplitLeadingSpace(sp: string, s: string)
    requires forall i :: 0 <= i < |sp| ==> IsSpace(sp[i])
    ensures Split(sp + s) == Split(s)
    decreases |sp|
  {
    if sp != [] {
      var t := sp + s;
      assert t[0] == sp[0] && IsSpace(t[0]);
      assert t[1..] == sp[1..] + s;
      assert Split(t) == Split(t[1..]);
      SplitLeadingSpace(sp[1..], s);
    } else {
      assert sp + s == s;
    }
  }

  /** A token followed by whitespace (or nothing) splits off as the first token. */
  lemma {:induction false} SplitToken(w: string, s: string)
    requires IsToken(w)
    requires s == [] || IsSpace(s[0])
    ensures Split(w + s) == [w] + Split(s)
  {
    TokenLengthOf(w, s);
    assert (w + s)[..|w|] == w;
    assert (w + s)[|w|..] == s;
  }

  lemma {:induction false} TokenLengthOf(w: string, s: string)
    requires IsToken(w)
    requires s == [] || IsSpace(s[0])
    ensures TokenLength(w + s) == |w|
    decreases |w|
  {
    if |w| > 1 {
      assert (w + s)[1..] == w[1..] + s;
      TokenLengthOf(w[1..], s);
    }
  }

  /** `s.split(sep)`, scanning with the piece built so far in `piece`. */
  function SplitOnFrom(s: string, sep: char, piece: string): (pieces: seq<string>)
    requires sep !in piece
    ensures pieces != []
    ensures forall p :: p in pieces ==> sep !in p
    decreases |s|
  {
    if s == [] then [piece]
    else if s[0] == sep then [piece] + SplitOnFrom(s[1..], sep, [])
    else SplitOnFrom(s[1..], sep, piece + [s[0]])
  }

  /** `s.split(sep)` for a one-character separator: never empty, no piece holds `sep`. */
  function SplitOn(s: string, sep: char): (pieces: seq<string>)
    ensures pieces != []
    ensures forall p :: p in pieces ==> sep !in p
  {
    SplitOnFrom(s, sep, [])
  }

  lemma {:induction false} SplitOnFromSkips(w: string, t: string, sep: char, piece: string)
    requires sep !in piece && sep !in w
    ensures SplitOnFrom(w + t, sep, piece) == SplitOnFrom(t, sep, piece + w)
    decreases |w|
  {
    if w != [] {
      assert (w + t)[0] == w[0];
      assert (w + t)[1..] == w[1..] + t;
      assert piece + [w[0]] + w[1..] == piece + w;
      SplitOnFromSkips(w[1..], t, sep, piece + [w[0]]);
    } else {
      assert w + t == t;
      assert piece + w == piece;
    }
  }

  lemma SplitOnPiece(w: string, sep: char, rest: string)
    requires sep !in w
    ensures SplitOn(w + [sep] + rest, sep) == [w] + SplitOn(rest, sep)
  {
    assert w + [sep] + rest == w + ([sep] + rest);
    SplitOnFromSkips(w, [sep] + rest, sep, []);
    assert [] + w == w;
    assert ([sep] + rest)[1..] == rest;
  }

  lemma SplitOnLast(w: string, sep: char)
    requires sep !in w
    ensures SplitOn(w, sep) == [w]
  {
    SplitOnFromSkips(w, [], sep, []);
    assert w + [] == w;
    assert [] + w == w;
  }

  /** `s.splitlines()`, scanning with the current line in `line`. */
  function SplitLinesFrom(s: string, line: string): (lines: seq<string>)
    requires NoLineBreak(line)
    decreases |s|
  {
    if s == [] then (if line == [] then [] else [line])
    else if IsLineBreak(s[0]) then [line] + SplitLinesFrom(AfterBreak(s), [])
    else SplitLinesFrom(s[1..], line + [s[0]])
  }

  /** What follows the line break at the start of `s` ("\r\n" is one break). */
  function AfterBreak(s: string): (rest: string)
    requires s != []
    ensures |rest| < |s|
  {
    if s[0] == '\r' && |s| > 1 && s[1] == '\n' then s[2..] else s[1..]
  }

  /** `s.splitlines()`: the lines of `s` without their line breaks. */
  function SplitLines(s: string): (lines: seq<string>)
    ensures forall l :: l in lines ==> NoLineBreak(l)
  {
    SplitLinesFromClean(s, []);
    SplitLinesFrom(s, [])
  }

  /** No line read from the text contains a line break. */
  lemma {:induction false} SplitLinesFromClean(s: string, line: string)
    requires NoLineBreak(line)
    ensures forall l :: l in SplitLinesFrom(s, line) ==> NoLineBreak(l)
    decreases |s|
  {
    if s != [] {
      if IsLineBreak(s[0]) {
        SplitLinesFromClean(AfterBreak(s), []);
      } else {
        SplitLinesFromClean(s[1..], line + [s[0]]);
      }
    }
  }

  /** `"\n".join(lines)`. */
  function JoinLines(lines: seq<string>): string {
    if lines == [] then []
    else if |lines| == 1 then lines[0]
    else lines[0] + "\n" + JoinLines(lines[1..])
  }

  /** Every line followed by "\n". */
  function Terminated(lines: seq<string>): string {
    if lines == [] then [] else lines[0] + "\n" + Terminated(lines[1..])
  }

  lemma {:induction false} JoinThenNewline(lines: seq<string>)
    requires lines != []
    ensures JoinLines(lines) + "\n" == Terminated(lines)
  {
    if |lines| > 1 {
      JoinThenNewline(lines[1..]);
    }
  }

  lemma {:induction false} SplitLinesFromSkips(w: string, t: string, line: string)
    requires NoLineBreak(line) && NoLineBreak(w)
    ensures NoLineBreak(line + w)
    ensures SplitLinesFrom(w + t, line) == SplitLinesFrom(t, line + w)
    decreases |w|
  {
    if w != [] {
      assert (w + t)[0] == w[0];
      assert (w + t)[1..] == w[1..] + t;
      assert line + [w[0]] + w[1..] == line + w;
      SplitLinesFromSkips(w[1..], t, line + [w[0]]);
    } else {
      assert w + t == t;
      assert line + w == line;
    }
  }

  /** Reading back lines written one per "\n"-terminated line gives the same lines. */
  lemma {:induction false} SplitLinesTerminated(lines: seq<string>)
    requires forall l :: l in lines ==> NoLineBreak(l)
    ensures SplitLines(Terminated(lines)) == lines
  {
    if lines != [] {
      var l, rest := lines[0], Terminated(lines[1..]);
      assert Terminated(lines) == l + ("\n" + rest);
      SplitLinesFromSkips(l, "\n" + rest, []);
      assert [] + l == l;
      assert ("\n" + rest)[1..] == rest;
      SplitLinesTerminated(lines[1..]);
    }
  }

  /** Text ending in a line break reads as its own lines followed by the lines of what comes
      after it, unless a trailing "\r" would pair up with a leading "\n". */
  lemma {:induction false} SplitLinesFromAppend(a: string, b: string, line: string)
    requires NoLineBreak(line)
    requires a != [] && IsLineBreak(a[|a| - 1])
    requires !(a[|a| - 1] == '\r' && b != [] && b[0] == '\n')
    ensures SplitLinesFrom(a + b, line) == SplitLinesFrom(a, line) + SplitLines(b)
    decreases |a|, 1
  {
    var ab := a + b;
    assert ab[0] == a[0];
    if !IsLineBreak(a[0]) {
      assert ab[1..] == a[1..] + b;
      assert SplitLinesFrom(ab, line) == SplitLinesFrom(a[1..] + b, line + [a[0]]);
      assert SplitLinesFrom(a, line) == SplitLinesFrom(a[1..], line + [a[0]]);
      SplitLinesFromAppend(a[1..], b, line + [a[0]]);
    } else {
      SplitLinesFromAppendAtBreak(a, b, line);
    }
  }

  /** `SplitLinesFromAppend` when `a` starts with a line break: the current line ends there. */
  lemma {:induction false} SplitLinesFromAppendAtBreak(a: string, b: string, line: string)
    requires NoLineBreak(line)
    requires a != [] && IsLineBreak(a[0]) && IsLineBreak(a[|a| - 1])
    requires !(a[|a| - 1] == '\r' && b != [] && b[0] == '\n')
    ensures SplitLinesFrom(a + b, line) == SplitLinesFrom(a, line) + SplitLines(b)
    decreases |a|, 0
  {
    var ab := a + b;
    assert ab[0] == a[0];
    var rest := AfterBreak(a);
    if |a| == 1 {
      assert AfterBreak(ab) == b && rest == [] && rest + b == b;
    } else {
      AfterBreakAppend(a, b);
    }
    assert SplitLinesFrom(ab, line) == [line] + SplitLinesFrom(rest + b, []);
    assert SplitLinesFrom(a, line) == [line] + SplitLinesFrom(rest, []);
    if rest == [] {
      assert rest + b == b;
    } else {
      SplitLinesFromAppend(rest, b, []);
    }
  }

  /** Splits off the first line of `s == a + b`, which lies wholly inside `a`: the line `l`,
      then `r`, which is what remains of `a` (`rest`, independent of `b`) followed by `b`. */
  lemma FirstLineOf(s: string, a: string, b: string, line: string)
    returns (l: string, rest: string, r: string)
    requires NoLineBreak(line) && s == a + b
    requires a != [] && IsLineBreak(a[|a| - 1])
    requires !(a[|a| - 1] == '\r' && b != [] && b[0] == '\n')
    ensures |rest| < |a| && r == rest + b
    ensures rest != [] ==> rest[|rest| - 1] == a[|a| - 1]
    ensures l == line + a[..FirstBreak(a)] && rest == AfterBreak(a[FirstBreak(a)..])
    ensures SplitLinesFrom(s, line) == [l] + SplitLinesFrom(r, [])
  {
    var w, a';
    w, a', rest := CutAtFirstBreak(a, b);
    l, r := line + w, rest + b;
    FirstBreakClean(a);
    assert NoLineBreak(w) by {
      assert forall k :: 0 <= k < |w| ==> w[k] == a[k];
    }
    FirstLineStep(s, w, a' + b, r, line);
  }

  /** Cuts `a` before its first line break and after that break. */
  lemma CutAtFirstBreak(a: string, b: string) returns (w: string, a': string, rest: string)
    requires a != [] && IsLineBreak(a[|a| - 1])
    requires !(a[|a| - 1] == '\r' && b != [] && b[0] == '\n')
    ensures w == a[..FirstBreak(a)] && rest == AfterBreak(a[FirstBreak(a)..])
    ensures a + b == w + (a' + b)
    ensures a' + b != [] && IsLineBreak((a' + b)[0]) && AfterBreak(a' + b) == rest + b
    ensures |rest| < |a| && (rest != [] ==> rest[|rest| - 1] == a[|a| - 1])
  {
    var i := FirstBreak(a);
    w, a' := a[..i], a[i..];
    SliceParts(a, b, i);
    AfterBreakAppend(a', b);
    rest := AfterBreak(a');
  }

  lemma SliceParts(a: string, b: string, i: nat)
    requires i < |a|
    ensures a + b == a[..i] + (a[i..] + b)
    ensures (a[i..] + b)[0] == a[i] && a[i..][|a[i..]| - 1] == a[|a| - 1]
  {
    assert a == a[..i] + a[i..];
  }

  /** A line `w` that runs up to a break is read whole, and reading resumes after the break. */
  lemma FirstLineStep(s: string, w: string, t: string, r: string, line: string)
    requires NoLineBreak(line) && NoLineBreak(w)
    requires s == w + t && t != [] && IsLineBreak(t[0]) && r == AfterBreak(t)
    ensures NoLineBreak(line + w)
    ensures SplitLinesFrom(s, line) == [line + w] + SplitLinesFrom(r, [])
  {
    SplitLinesFromSkips(w, t, line);
    LineEndsAtBreak(t, line + w);
  }

  lemma LineEndsAtBreak(s: string, line: string)
    requires NoLineBreak(line)
    requires s != [] && IsLineBreak(s[0])
    ensures SplitLinesFrom(s, line) == [line] + SplitLinesFrom(AfterBreak(s), [])
  {
  }

  /** Index of the first line break in `s`. */
  function FirstBreak(s: string): (i: nat)
    requires s != [] && IsLineBreak(s[|s| - 1])
    ensures i < |s| && IsLineBreak(s[i])
  {
    if IsLineBreak(s[0]) then 0 else 1 + FirstBreak(s[1..])
  }

  /** No line break comes before the first one. */
  lemma {:induction false} FirstBreakClean(s: string)
    requires s != [] && IsLineBreak(s[|s| - 1])
    ensures forall k :: 0 <= k < FirstBreak(s) ==> !IsLineBreak(s[k])
  {
    if !IsLineBreak(s[0]) {
      FirstBreakClean(s[1..]);
      forall k | 1 <= k < FirstBreak(s)
        ensures !IsLineBreak(s[k])
      {
        assert s[k] == s[1..][k - 1];
      }
    }
  }

  lemma AfterBreakAppend(a: string, b: string)
    requires a != [] && IsLineBreak(a[0]) && IsLineBreak(a[|a| - 1])
    requires !(a[|a| - 1] == '\r' && b != [] && b[0] == '\n')
    ensures a + b != [] && AfterBreak(a + b) == AfterBreak(a) + b
    ensures AfterBreak(a) != [] ==> AfterBreak(a)[|AfterBreak(a)| - 1] == a[|a| - 1]
  {
    var ab := a + b;
    assert ab[0] == a[0];
    if |a| > 1 {
      assert ab[1] == a[1];
      assert ab[2..] == a[2..] + b;
      assert ab[1..] == a[1..] + b;
    } else {
      assert ab[1..] == b;
    }
  }

  lemma SplitLinesAppend(a: string, b: string)
    requires a != [] && IsLineBreak(a[|a| - 1])
    requires !(a[|a| - 1] == '\r' && b != [] && b[0] == '\n')
    ensures SplitLines(a + b) == SplitLines(a) + SplitLines(b)
  {
    SplitLinesFromAppend(a, b, []);
  }

  /** A final "\n" after a last line that has no break of its own changes no line. */
  lemma {:induction false} SplitLinesFromNewline(a: string, line: string)
    requires NoLineBreak(line)
    requires (a == [] && line != []) || (a != [] && !IsLineBreak(a[|a| - 1]))
    ensures SplitLinesFrom(a + "\n", line) == SplitLinesFrom(a, line)
    decreases |a|
  {
    if a != [] {
      assert (a + "\n")[0] == a[0];
      if !IsLineBreak(a[0]) {
        assert (a + "\n")[1..] == a[1..] + "\n";
        SplitLinesFromNewline(a[1..], line + [a[0]]);
      } else {
        assert |a| > 1;
        assert (a + "\n")[1] == a[1];
        assert (a + "\n")[1..] == a[1..] + "\n";
        assert (a + "\n")[2..] == a[2..] + "\n";
        assert AfterBreak(a + "\n") == AfterBreak(a) + "\n";
        SplitLinesFromNewline(AfterBreak(a), []);
      }
    }
  }

  /** A "\n" right after a final "\r" pairs with it into one break and changes no line. */
  lemma {:induction false} SplitLinesFromCrLf(a: string, line: string)
    requires NoLineBreak(line)
    ensures SplitLinesFrom(a + "\r\n", line) == SplitLinesFrom(a + "\r", line)
    decreases |a|
  {
    if a == [] {
      assert AfterBreak("\r\n") == [] && AfterBreak("\r") == [];
    } else {
      var x, y := a + "\r\n", a + "\r";
      assert x[0] == a[0] && y[0] == a[0];
      if !IsLineBreak(a[0]) {
        assert x[1..] == a[1..] + "\r\n" && y[1..] == a[1..] + "\r";
        SplitLinesFromCrLf(a[1..], line + [a[0]]);
      } else {
        var r := AfterBreak(a);
        if |a| > 1 {
          assert x[1] == a[1] && y[1] == a[1];
          assert x[1..] == a[1..] + "\r\n" && y[1..] == a[1..] + "\r";
          assert x[2..] == a[2..] + "\r\n" && y[2..] == a[2..] + "\r";
        } else {
          assert x[1] == '\r' && y[1] == '\r';
          assert x[1..] == "\r\n" && y[1..] == "\r" && r == [];
        }
        assert AfterBreak(x) == r + "\r\n" && AfterBreak(y) == r + "\r";
        SplitLinesFromCrLf(r, []);
      }
    }
  }

  /** Decimal digits of `n`, as `str(n)` writes them. */
  function DecimalString(n: nat): (s: string)
    ensures s != []
    ensures forall i :: 0 <= i < |s| ==> '0' <= s[i] <= '9'
  {
    if n < 10 then [Digit(n)] else DecimalString(n / 10) + [Digit(n % 10)]
  }

  function Digit(d: nat): (c: char)
    requires d < 10
    ensures '0' <= c <= '9'
  {
    ['0', '1', '2', '3', '4', '5', '6', '7', '8', '9'][d]
  }

  /** The value a string of decimal digits denotes (what an HTTP client reads from Content-Length). */
  function ParseDecimal(s: string): nat
    requires forall i :: 0 <= i < |s| ==> '0' <= s[i] <= '9'
  {
    if s == [] then 0
    else ParseDecimal(s[..|s| - 1]) * 10 + (s[|s| - 1] as int - '0' as int)
  }

  lemma {:induction false} DecimalRoundTrip(n: nat)
    ensures ParseDecimal(DecimalString(n)) == n
  {
    var s := DecimalString(n);
    if n >= 10 {
      assert s[..|s| - 1] == DecimalString(n / 10);
      DecimalRoundTrip(n / 10);
    }
  }
}
