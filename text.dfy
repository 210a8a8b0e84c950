/** String helpers with the semantics of the Python `str` methods and `re`
    character classes that the converter relies on. Strings are sequences of
    Unicode scalar values, as Python strings are sequences of code points. */
module Text {

  /** `str.isspace()` and the `\s` class of a `str` regular expression: the code
      points whose bidirectional class is WS, B or S, or whose category is Zs. */
  predicate IsSpace(c: char) {
    || ('\t' <= c <= '\r')                    // \t \n \v \f \r
    || ('\U{1C}' <= c <= '\U{1F}')
    || c == ' ' || c == '\U{85}' || c == '\U{A0}' || c == '\U{1680}'
    || ('\U{2000}' <= c <= '\U{200A}')
    || c == '\U{2028}' || c == '\U{2029}' || c == '\U{202F}' || c == '\U{205F}'
    || c == '\U{3000}'
  }

  /** The characters at which `str.splitlines()` ends a line. */
  predicate IsLineBreak(c: char) {
    || ('\n' <= c <= '\r')                    // \n \v \f \r
    || ('\U{1C}' <= c <= '\U{1E}')
    || c == '\U{85}' || c == '\U{2028}' || c == '\U{2029}'
  }

  /** ASCII lower-casing, the part of `str.lower()` the model needs. */
  function ToLower(c: char): (r: char)
    ensures 'A' <= c <= 'Z' ==> 'a' <= r <= 'z'
    ensures !('A' <= c <= 'Z') ==> r == c
  {
    if 'A' <= c <= 'Z' then (c as int + 32) as char else c
  }

  function Lower(s: string): (r: string)
    ensures |r| == |s|
    ensures forall i :: 0 <= i < |s| ==> r[i] == ToLower(s[i])
  {
    if s == [] then [] else [ToLower(s[0])] + Lower(s[1..])
  }

  /** Whether `c` matches the lower-case ASCII letter `p` in a regular expression
      compiled with `re.IGNORECASE`: the two ASCII cases, and the four non-ASCII
      letters that simple case folding maps onto ASCII letters. */
  predicate FoldEq(c: char, p: char)
    requires 'a' <= p <= 'z'
  {
    || c == p || c as int == p as int - 32
    || (p == 'i' && (c == '\U{130}' || c == '\U{131}'))
    || (p == 's' && c == '\U{17F}')
    || (p == 'k' && c == '\U{212A}')
  }

  /** `s[i..]` starts with `pat` under `re.IGNORECASE`; `pat` holds lower-case
      ASCII letters and characters without case. */
  predicate FoldMatchAt(s: string, i: int, pat: string)
  {
    && 0 <= i && i + |pat| <= |s|
    && forall k :: 0 <= k < |pat| ==>
         (if 'a' <= pat[k] <= 'z' then FoldEq(s[i + k], pat[k]) else s[i + k] == pat[k])
  }

  predicate StartsWith(s: string, prefix: string) {
    prefix <= s
  }

  predicate EndsWith(s: string, suffix: string) {
    |suffix| <= |s| && s[|s| - |suffix|..] == suffix
  }

  /** `pat` occurs in `s` at index `i`. */
  predicate OccursAt(s: string, pat: string, i: int) {
    0 <= i && i + |pat| <= |s| && s[i..i + |pat|] == pat
  }

  /** Python's `pat in s`. */
  predicate Contains(s: string, pat: string) {
    exists i :: 0 <= i <= |s| - |pat| && OccursAt(s, pat, i)
  }

  /** No newline in `s[lo..hi]`: the range a `.` run may cover. */
  predicate NoNewline(s: string, lo: int, hi: int)
    requires 0 <= lo <= hi <= |s|
  {
    forall k :: lo <= k < hi ==> s[k] != '\n'
  }

  /** The first occurrence of `pat` in `s` at or after `from` (`str.find`),
      or -1 when there is none. */
  function IndexOf(s: string, pat: string, from: nat): (r: int)
    ensures r == -1 || from <= r
    ensures r >= 0 ==> OccursAt(s, pat, r)
    ensures forall i :: from <= i && (r < 0 || i < r) ==> !OccursAt(s, pat, i)
    decreases |s| - from
  {
    if from + |pat| > |s| then -1
    else if OccursAt(s, pat, from) then from
    else IndexOf(s, pat, from + 1)
  }

  lemma IndexOfContains(s: string, pat: string)
    ensures IndexOf(s, pat, 0) >= 0 <==> Contains(s, pat)
  {
    var r := IndexOf(s, pat, 0);
    if Contains(s, pat) {
      var i :| 0 <= i <= |s| - |pat| && OccursAt(s, pat, i);
      assert r >= 0;
    }
  }

  /** Number of leading characters of `s` that `str.lstrip()` removes. */
  function LeadingSpaces(s: string): (n: nat)
    ensures n <= |s|
    ensures forall k :: 0 <= k < n ==> IsSpace(s[k])
    ensures n < |s| ==> !IsSpace(s[n])
  {
    if s != [] && IsSpace(s[0]) then 1 + LeadingSpaces(s[1..]) else 0
  }

  /** Number of trailing characters of `s` that `str.rstrip()` removes. */
  function TrailingSpaces(s: string): (n: nat)
    ensures n <= |s|
    ensures forall k :: |s| - n <= k < |s| ==> IsSpace(s[k])
    ensures n < |s| ==> !IsSpace(s[|s| - n - 1])
  {
    if s != [] && IsSpace(s[|s| - 1]) then 1 + TrailingSpaces(s[..|s| - 1]) else 0
  }

  /** `str.strip()` with no argument. */
  function Strip(s: string): (r: string)
    ensures |r| <= |s|
    ensures r == [] || (!IsSpace(r[0]) && !IsSpace(r[|r| - 1]))
  {
    var t := s[LeadingSpaces(s)..];
    t[..|t| - TrailingSpaces(t)]
  }

  /** What `Strip` removes is whitespace at either end, and what it keeps is
      one contiguous part of the text. */
  lemma StripTrims(s: string)
    ensures exists lo, hi :: 0 <= lo <= hi <= |s| && Strip(s) == s[lo..hi]
                             && (forall k :: 0 <= k < lo ==> IsSpace(s[k]))
                             && (forall k :: hi <= k < |s| ==> IsSpace(s[k]))
  {
    var lo := LeadingSpaces(s);
    var t := s[lo..];
    var hi := lo + |t| - TrailingSpaces(t);
    SliceOfSlice(s, lo, hi - lo);
    forall k | hi <= k < |s| ensures IsSpace(s[k]) {
      assert s[k] == t[k - lo];
    }
  }

  lemma SliceOfSlice(s: string, lo: nat, m: nat)
    requires lo + m <= |s|
    ensures s[lo..][..m] == s[lo..lo + m]
  {
    assert forall k :: 0 <= k < m ==> s[lo..][..m][k] == s[lo + k];
  }

  /** Stripping a string that is already stripped changes nothing. */
  lemma StripIdempotent(s: string)
    ensures Strip(Strip(s)) == Strip(s)
  {
    var r := Strip(s);
    assert r == [] || LeadingSpaces(r) == 0;
    var t := r[LeadingSpaces(r)..];
    assert t == r;
    assert r == [] || TrailingSpaces(t) == 0;
  }

  /** Length of the line break at `s[i]`: two for `\r\n`, else one. */
  function BreakLength(s: string, i: nat): (n: nat)
    requires i < |s| && IsLineBreak(s[i])
    ensures 1 <= n <= 2 && i + n <= |s|
  {
    if s[i] == '\r' && i + 1 < |s| && s[i + 1] == '\n' then 2 else 1
  }

  /** The line break at `s[i]`. */
  function BreakAt(s: string, i: nat): string
    requires i < |s| && IsLineBreak(s[i])
  {
    s[i..i + BreakLength(s, i)]
  }

  /** Index of the first line break in `s` at or after `from`, or |s|. */
  function LineEnd(s: string, from: nat): (e: nat)
    requires from <= |s|
    ensures from <= e <= |s|
    ensures e < |s| ==> IsLineBreak(s[e])
    ensures forall k :: from <= k < e ==> !IsLineBreak(s[k])
    decreases |s| - from
  {
    if from == |s| || IsLineBreak(s[from]) then from else LineEnd(s, from + 1)
  }

  /** `str.splitlines()`: the lines of `s` without their line breaks; a final
      line break does not start an empty last line. */
  function SplitLines(s: string): (lines: seq<string>)
    ensures s == [] <==> lines == []
    ensures forall i :: 0 <= i < |lines| ==> forall k :: 0 <= k < |lines[i]| ==> !IsLineBreak(lines[i][k])
    decreases |s|
  {
    if s == [] then []
    else
      var e := LineEnd(s, 0);
      if e == |s| then [s]
      else [s[..e]] + SplitLines(s[e + BreakLength(s, e)..])
  }

  /** The break after a last line that runs to the end of the text. */
  const NoBreak: string := []

  /** The line break that ends each line of `SplitLines(s)`: `""` after a last
      line that runs to the end of `s`. */
  function LineBreaks(s: string): (breaks: seq<string>)
    decreases |s|
  {
    if |s| == 0 then []
    else
      var e := LineEnd(s, 0);
      if e == |s| then [NoBreak]
      else [BreakAt(s, e)] + LineBreaks(s[e + BreakLength(s, e)..])
  }

  /** A line break as `splitlines` knows it: one break character, or `\r\n`. */
  predicate IsBreak(b: string) {
    (|b| == 1 && IsLineBreak(b[0])) || b == "\r\n"
  }

  /** Each line followed by its break. */
  function Interleave(lines: seq<string>, breaks: seq<string>): string
    requires |lines| == |breaks|
  {
    if lines == [] then [] else lines[0] + breaks[0] + Interleave(lines[1..], breaks[1..])
  }

  /** There is one break per line. */
  lemma {:induction false} LineBreaksCount(s: string)
    ensures |LineBreaks(s)| == |SplitLines(s)|
    decreases |s|
  {
    if s != [] && LineEnd(s, 0) < |s| {
      var e := LineEnd(s, 0);
      var rest := s[e + BreakLength(s, e)..];
      LineBreaksCount(rest);
      SplitLinesUnfold(s, e);
      LineBreaksUnfold(s, e);
    }
  }

  /** Every break is a real one, and only the last may be empty. */
  predicate BreaksShape(breaks: seq<string>) {
    forall i :: 0 <= i < |breaks| ==> IsBreak(breaks[i]) || (i == |breaks| - 1 && breaks[i] == [])
  }

  lemma BreaksShapeCons(b: string, rest: seq<string>)
    requires IsBreak(b) && BreaksShape(rest)
    ensures BreaksShape([b] + rest)
  {
    var breaks := [b] + rest;
    assert forall i :: 1 <= i < |breaks| ==> breaks[i] == rest[i - 1];
  }

  /** The break at `s[e]` is one `splitlines` knows. */
  lemma BreakIsBreak(s: string, e: nat)
    requires e < |s| && IsLineBreak(s[e])
    ensures IsBreak(BreakAt(s, e))
  {
    var brk := BreakAt(s, e);
    if BreakLength(s, e) == 2 { assert brk == "\r\n"; } else { assert brk[0] == s[e]; }
  }

  /** Every break is a real one, and only the last line may end without one. */
  lemma {:induction false} LineBreaksAreBreaks(s: string)
    ensures BreaksShape(LineBreaks(s))
    decreases |s|
  {
    if s != [] {
      var e := LineEnd(s, 0);
      if e < |s| {
        LineBreaksAreBreaks(s[e + BreakLength(s, e)..]);
        BreaksStep(s, e);
      } else {
        LastLineBreak(s);
      }
    }
  }

  /** One step of `LineBreaksAreBreaks`: a real break in front of well-shaped breaks. */
  lemma BreaksStep(s: string, e: nat)
    requires s != [] && e == LineEnd(s, 0) < |s|
    requires BreaksShape(LineBreaks(s[e + BreakLength(s, e)..]))
    ensures BreaksShape(LineBreaks(s))
  {
    BreakIsBreak(s, e);
    LineBreaksUnfold(s, e);
    BreaksShapeCons(BreakAt(s, e), LineBreaks(s[e + BreakLength(s, e)..]));
  }

  /** A last line that runs to the end of the text has the empty break. */
  lemma LastLineBreak(s: string)
    requires s != [] && LineEnd(s, 0) == |s|
    ensures LineBreaks(s) == [NoBreak] && BreaksShape(LineBreaks(s))
  {
  }

  /** One step of `SplitLines` past a line break. */
  lemma SplitLinesUnfold(s: string, e: nat)
    requires s != [] && e == LineEnd(s, 0) < |s|
    ensures SplitLines(s) == [s[..e]] + SplitLines(s[e + BreakLength(s, e)..])
  {
  }

  /** One step of `LineBreaks` past a line break. */
  lemma LineBreaksUnfold(s: string, e: nat)
    requires s != [] && e == LineEnd(s, 0) < |s|
    ensures LineBreaks(s) == [BreakAt(s, e)] + LineBreaks(s[e + BreakLength(s, e)..])
  {
  }

  /** The lines, each followed by the break that ended it, give back the text. */
  lemma {:induction false} SplitLinesRoundTrip(s: string)
    ensures |LineBreaks(s)| == |SplitLines(s)|
    ensures Interleave(SplitLines(s), LineBreaks(s)) == s
    decreases |s|
  {
    LineBreaksCount(s);
    if s != [] {
      var e := LineEnd(s, 0);
      if e == |s| {
        assert Interleave([s], [""]) == s + "" + Interleave([], []);
      } else {
        var n := BreakLength(s, e);
        var rest := s[e + n..];
        SplitLinesRoundTrip(rest);
        var line, brk := s[..e], BreakAt(s, e);
        var lines, breaks := SplitLines(rest), LineBreaks(rest);
        SplitLinesUnfold(s, e);
        LineBreaksUnfold(s, e);
        InterleaveCons(line, lines, brk, breaks);
        SliceThree(s, e, e + n);
      }
    }
  }

  lemma InterleaveCons(line: string, lines: seq<string>, brk: string, breaks: seq<string>)
    requires |lines| == |breaks|
    ensures Interleave([line] + lines, [brk] + breaks) == line + brk + Interleave(lines, breaks)
  {
    assert ([line] + lines)[1..] == lines && ([brk] + breaks)[1..] == breaks;
  }

  lemma SliceThree(s: string, i: nat, j: nat)
    requires i <= j <= |s|
    ensures s == s[..i] + s[i..j] + s[j..]
  {
    assert s[..j] == s[..i] + s[i..j];
    assert s == s[..j] + s[j..];
  }

  /** Whether `t` starts with `\n`. */
  predicate NewlineFirst(t: string) {
    t != [] && t[0] == '\n'
  }

  /** The two facts that, with `LineBreaksAreBreaks`, leave `splitlines` only
      one way to cut a text: a line that ends without a break is not empty, and
      a lone `\r` break is never followed by `\n`. */
  predicate SplitPinned(lines: seq<string>, breaks: seq<string>)
    requires |lines| == |breaks|
  {
    && (forall i :: 0 <= i < |breaks| && breaks[i] == [] ==> lines[i] != [])
    && (forall i :: 0 <= i < |breaks| - 1 && breaks[i] == "\r" ==> !NewlineFirst(lines[i + 1] + breaks[i + 1]))
  }

  lemma SplitPinnedCons(l: string, b: string, lines: seq<string>, breaks: seq<string>)
    requires |lines| == |breaks| && SplitPinned(lines, breaks)
    requires b == [] ==> l != []
    requires b == "\r" && lines != [] ==> !NewlineFirst(lines[0] + breaks[0])
    ensures SplitPinned([l] + lines, [b] + breaks)
  {
    var ls, bs := [l] + lines, [b] + breaks;
    assert forall i :: 1 <= i < |bs| ==> bs[i] == breaks[i - 1] && ls[i] == lines[i - 1];
  }

  /** The first line and its break start the text. */
  lemma FirstPiece(s: string)
    requires s != []
    ensures SplitLines(s) != [] && LineBreaks(s) != []
    ensures SplitLines(s)[0] + LineBreaks(s)[0] != [] && (SplitLines(s)[0] + LineBreaks(s)[0])[0] == s[0]
  {
    var e := LineEnd(s, 0);
    if e == |s| {
      LastLineBreak(s);
      assert SplitLines(s) == [s];
    } else {
      SplitLinesUnfold(s, e);
      LineBreaksUnfold(s, e);
      if e == 0 {
        assert BreakAt(s, 0)[0] == s[0];
      } else {
        assert s[..e][0] == s[0];
      }
    }
  }

  /** `SplitLines` and `LineBreaks` cut the text the one way `splitlines` does. */
  lemma {:induction false} SplitLinesPinned(s: string)
    ensures |LineBreaks(s)| == |SplitLines(s)| && SplitPinned(SplitLines(s), LineBreaks(s))
    decreases |s|
  {
    LineBreaksCount(s);
    if s != [] {
      var e := LineEnd(s, 0);
      if e == |s| {
        LastLineBreak(s);
        assert SplitLines(s) == [s];
      } else {
        SplitLinesPinned(s[e + BreakLength(s, e)..]);
        PinnedStep(s, e);
      }
    }
  }

  /** One line and its break put in front of a pinned cut keep it pinned. */
  lemma PinnedStep(s: string, e: nat)
    requires s != [] && e == LineEnd(s, 0) < |s|
    requires var rest := s[e + BreakLength(s, e)..];
      |LineBreaks(rest)| == |SplitLines(rest)| && SplitPinned(SplitLines(rest), LineBreaks(rest))
    ensures SplitPinned(SplitLines(s), LineBreaks(s))
  {
    var rest := s[e + BreakLength(s, e)..];
    SplitLinesUnfold(s, e);
    LineBreaksUnfold(s, e);
    var b := BreakAt(s, e);
    if b == "\r" && rest != [] {
      LoneReturnStep(s, e);
    }
    SplitPinnedCons(s[..e], b, SplitLines(rest), LineBreaks(rest));
  }

  /** After a lone `\r` break the next line and its break do not start with
      `\n`. */
  lemma LoneReturnStep(s: string, e: nat)
    requires e < |s| && IsLineBreak(s[e])
    requires BreakAt(s, e) == "\r" && e + BreakLength(s, e) < |s|
    ensures var rest := s[e + BreakLength(s, e)..];
      |LineBreaks(rest)| == |SplitLines(rest)| && SplitLines(rest) != [] &&
      !NewlineFirst(SplitLines(rest)[0] + LineBreaks(rest)[0])
  {
    ReturnAlone(s, e);
    var rest := s[e + 1..];
    FirstPiece(rest);
    LineBreaksCount(rest);
  }

  /** A break that is a lone `\r` is not followed by `\n`. */
  lemma ReturnAlone(s: string, e: nat)
    requires e < |s| && IsLineBreak(s[e])
    requires BreakAt(s, e) == "\r" && e + BreakLength(s, e) < |s|
    ensures BreakLength(s, e) == 1 && s[e + 1] != '\n' && s[e + 1..][0] == s[e + 1]
  {
    assert BreakAt(s, e)[0] == s[e];
  }

  /** A string without line breaks is a single line. */
  lemma {:induction false} SplitLinesSingle(s: string)
    requires s != [] && forall k :: 0 <= k < |s| ==> !IsLineBreak(s[k])
    ensures SplitLines(s) == [s]
  {
    assert LineEnd(s, 0) == |s|;
  }

  /** `s.replace(pat, rep)`: every non-overlapping occurrence of `pat`, left to
      right, replaced by `rep`. */
  function ReplaceAll(s: string, pat: string, rep: string): (r: string)
    requires pat != []
    ensures !Contains(s, pat) ==> r == s
    decreases |s|
  {
    var p := IndexOf(s, pat, 0);
    if p < 0 then
      IndexOfContains(s, pat);
      s
    else s[..p] + rep + ReplaceAll(s[p + |pat|..], pat, rep)
  }

  /** The replacement changes the text exactly when `pat` occurs in it and
      differs from `rep`. */
  lemma ReplaceAllChanges(s: string, pat: string, rep: string)
    requires pat != []
    ensures ReplaceAll(s, pat, rep) == s <==> (!Contains(s, pat) || pat == rep)
  {
    IndexOfContains(s, pat);
    var p := IndexOf(s, pat, 0);
    if p >= 0 && pat != rep {
      var r := ReplaceAll(s, pat, rep);
      var tail := ReplaceAll(s[p + |pat|..], pat, rep);
      assert r == s[..p] + rep + tail;
      if |rep| == |pat| {
        assert r[p..p + |rep|] == rep;
        assert s[p..p + |pat|] == pat;
      } else {
        ReplaceAllLength(s[p + |pat|..], pat, rep, |rep| < |pat|);
      }
    } else if p >= 0 {
      ReplaceAllSame(s, pat);
    }
  }

  /** Replacing `pat` by itself is the identity. */
  lemma ReplaceAllSame(s: string, pat: string)
    requires pat != []
    ensures ReplaceAll(s, pat, pat) == s
    decreases |s|
  {
    var p := IndexOf(s, pat, 0);
    if p >= 0 {
      ReplaceAllSame(s[p + |pat|..], pat);
      assert s == s[..p] + pat + s[p + |pat|..];
    }
  }

  /** A shorter replacement never makes the text longer, a longer one never
      shorter. */
  lemma ReplaceAllLength(s: string, pat: string, rep: string, shrinks: bool)
    requires pat != []
    requires shrinks ==> |rep| < |pat|
    requires !shrinks ==> |rep| > |pat|
    ensures shrinks ==> |ReplaceAll(s, pat, rep)| <= |s|
    ensures !shrinks ==> |ReplaceAll(s, pat, rep)| >= |s|
    decreases |s|
  {
    var p := IndexOf(s, pat, 0);
    if p >= 0 {
      ReplaceAllLength(s[p + |pat|..], pat, rep, shrinks);
    }
  }

  /** The decimal digit for `d`. */
  function Digit(d: nat): (c: char)
    requires d < 10
    ensures '0' <= c <= '9'
  {
    ('0' as int + d) as char
  }

  /** `str(n)` for a natural number: its decimal digits, with no leading zero. */
  function NatToString(n: nat): (s: string)
    ensures s != []
    ensures forall k :: 0 <= k < |s| ==> '0' <= s[k] <= '9'
    ensures |s| > 1 ==> s[0] != '0'
  {
    if n < 10 then [Digit(n)] else NatToString(n / 10) + [Digit(n % 10)]
  }

  /** The value of a string of decimal digits. */
  function DecimalValue(s: string): nat
    requires forall k :: 0 <= k < |s| ==> '0' <= s[k] <= '9'
  {
    if s == [] then 0
    else 10 * DecimalValue(s[..|s| - 1]) + (s[|s| - 1] as int - '0' as int)
  }

  /** Reading back the decimal text of `n` gives `n`. */
  lemma {:induction false} DecimalRoundTrip(n: nat)
    ensures DecimalValue(NatToString(n)) == n
  {
    if n >= 10 {
      DecimalRoundTrip(n / 10);
      var s := NatToString(n);
      assert s[..|s| - 1] == NatToString(n / 10);
    }
  }

  /** Distinct numbers have distinct decimal texts. */
  lemma NatToStringInjective(m: nat, n: nat)
    requires NatToString(m) == NatToString(n)
    ensures m == n
  {
    DecimalRoundTrip(m);
    DecimalRoundTrip(n);
  }

  /** Sequence concatenation is associative. */
  lemma AppendAssoc<T>(x: seq<T>, y: seq<T>, z: seq<T>)
    ensures (x + y) + z == x + (y + z)
  {
  }

  /** A suffix splits at any later index. */
  lemma SliceSplit<T>(s: seq<T>, i: nat, j: nat)
    requires i <= j <= |s|
    ensures s[i..] == s[i..j] + s[j..]
  {
  }
}
