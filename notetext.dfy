/** Text helpers behind a note's title: the first line of the editor text,
    JavaScript's `trim()`, `substring(0, n)` and the decimal number in the
    default title "Note n". */
module NoteText {

  /** Characters removed by ECMAScript's `String.prototype.trim`: the
      WhiteSpace and LineTerminator productions (Unicode category Zs plus
      TAB, VT, FF, ZWNBSP, LF, CR, LS and PS). */
  predicate IsTrimSpace(c: char) {
    c == '\t' || c == '\n' || c == '\U{B}' || c == '\U{C}' || c == '\r' ||
    c == ' ' || c == '\U{A0}' || c == '\U{1680}' ||
    ('\U{2000}' <= c <= '\U{200A}') ||
    c == '\U{2028}' || c == '\U{2029}' || c == '\U{202F}' || c == '\U{205F}' ||
    c == '\U{3000}' || c == '\U{FEFF}'
  }

  /** Every character of `s` at positions `lo` to `hi - 1` is whitespace. */
  predicate SpaceBetween(s: string, lo: int, hi: int) {
    forall k :: lo <= k < hi && 0 <= k < |s| ==> IsTrimSpace(s[k])
  }

  predicate AllTrimSpace(s: string) {
    SpaceBetween(s, 0, |s|)
  }

  /** `s.split('\n')[0]`: everything before the first line feed. */
  function FirstLine(s: string): (r: string)
    ensures |r| <= |s| && r == s[..|r|]
    ensures '\n' !in r
    ensures |r| == |s| || s[|r|] == '\n'
  {
    if |s| == 0 || s[0] == '\n' then "" else [s[0]] + FirstLine(s[1..])
  }

  /** The position of the first non-whitespace character at or after `i`
      (the length of the text when there is none). */
  function Lead(s: string, i: nat): (r: nat)
    requires i <= |s|
    ensures i <= r <= |s| && SpaceBetween(s, i, r)
    ensures r < |s| ==> !IsTrimSpace(s[r])
    decreases |s| - i
  {
    if i < |s| && IsTrimSpace(s[i]) then Lead(s, i + 1) else i
  }

  /** The position just after the last non-whitespace character before `j`,
      looking no further back than `lo`. */
  function TrailEnd(s: string, lo: nat, j: nat): (r: nat)
    requires lo <= j <= |s|
    ensures lo <= r <= j && SpaceBetween(s, r, j)
    ensures r > lo ==> !IsTrimSpace(s[r - 1])
    decreases j
  {
    if j > lo && IsTrimSpace(s[j - 1]) then TrailEnd(s, lo, j - 1) else j
  }

  /** `s.trim()`: leading and trailing whitespace removed. */
  function Trim(s: string): string {
    var a := Lead(s, 0);
    s[a..TrailEnd(s, a, |s|)]
  }

  /** `t.substring(0, n)` for a non-negative `n`. */
  function Prefix(t: string, n: nat): (r: string)
    ensures |r| == (if |t| < n then |t| else n)
    ensures r == t[..|r|]
  {
    if |t| < n then t else t[..n]
  }

  /** The longest title a save derives from the text. */
  const TitleLength: nat := 20

  /** The title a save gives a note whose title was `previous` and whose
      text is now `content`: the trimmed first line cut to 20 characters,
      unless that line is blank, in which case the title is kept. */
  function DerivedTitle(content: string, previous: string): string {
    var line := Trim(FirstLine(content));
    if line != "" then Prefix(line, TitleLength) else previous
  }

  /** The trimmed text is a slice of the input with only whitespace on
      either side of it, and it neither starts nor ends with whitespace. */
  lemma TrimIsSlice(s: string)
    ensures var i := Lead(s, 0);
            var r := Trim(s);
            i + |r| <= |s| && r == s[i..i + |r|] &&
            SpaceBetween(s, 0, i) && SpaceBetween(s, i + |r|, |s|) &&
            (|r| > 0 ==> !IsTrimSpace(r[0]) && !IsTrimSpace(r[|r| - 1]))
  {
    var a := Lead(s, 0);
    var b := TrailEnd(s, a, |s|);
    assert Trim(s) == s[a..b];
    if a < b {
      assert s[a..b][0] == s[a];
      assert s[a..b][b - a - 1] == s[b - 1];
    }
  }

  /** The trimmed text is empty exactly when the text is all whitespace. */
  lemma TrimEmptyIff(s: string)
    ensures Trim(s) == "" <==> AllTrimSpace(s)
  {
    var a := Lead(s, 0);
    var b := TrailEnd(s, a, |s|);
    if b == a {
      assert SpaceBetween(s, 0, a) && SpaceBetween(s, a, |s|);
    } else {
      assert !IsTrimSpace(s[a]);
    }
  }

  /** Whatever its input, a derived title is either the previous title
      (exactly when the input's first line is blank) or exactly the first
      min(20, length) characters of the trimmed first line. */
  lemma DerivedTitleShape(content: string, previous: string)
    ensures var line := Trim(FirstLine(content));
            var r := DerivedTitle(content, previous);
            (AllTrimSpace(FirstLine(content)) ==> r == previous) &&
            (!AllTrimSpace(FirstLine(content)) ==>
               |r| == (if |line| < TitleLength then |line| else TitleLength) &&
               0 < |r| && r == line[..|r|] && '\n' !in r &&
               !IsTrimSpace(r[0]) && (|line| <= TitleLength ==> r == line))
  {
    var first := FirstLine(content);
    var line := Trim(first);
    TrimEmptyIff(first);
    if line != "" {
      TrimIsSlice(first);
      var i := Lead(first, 0);
      var r := Prefix(line, TitleLength);
      forall k | 0 <= k < |r| ensures r[k] != '\n' {
        assert r[k] == line[k] == first[i + k];
      }
    }
  }

  lemma FirstLineWithoutBreak(s: string)
    requires '\n' !in s
    ensures FirstLine(s) == s
  {
  }

  /** A line that neither starts nor ends with whitespace is its own trimmed
      form. */
  lemma TrimOfNonSpaceEnds(s: string)
    requires |s| > 0 ==> !IsTrimSpace(s[0]) && !IsTrimSpace(s[|s| - 1])
    ensures Trim(s) == s
  {
    assert Lead(s, 0) == 0;
    assert s[0..|s|] == s;
  }

  /** A line without line feeds and without surrounding whitespace is its own
      first line and its own trimmed form. */
  lemma PlainLine(s: string)
    requires '\n' !in s
    requires |s| > 0 ==> !IsTrimSpace(s[0]) && !IsTrimSpace(s[|s| - 1])
    ensures FirstLine(s) == s
    ensures Trim(s) == s
  {
    FirstLineWithoutBreak(s);
    TrimOfNonSpaceEnds(s);
  }

  /** Text before the first line feed decides the title; what follows it
      never does. */
  lemma FirstLineOfJoin(line: string, rest: string)
    requires '\n' !in line
    ensures FirstLine(line + "\n" + rest) == line
  {
    var s := line + "\n" + rest;
    var f := FirstLine(s);
    assert s[|line|] == '\n';
    assert forall k :: 0 <= k < |line| ==> s[k] == line[k];
    assert f == s[..|f|] && s[..|line|] == line;
  }

  /** "Hello\nworld" gives the title "Hello". */
  lemma TitleOfTwoLines(previous: string)
    ensures DerivedTitle("Hello\nworld", previous) == "Hello"
  {
    FirstLineOfJoin("Hello", "world");
    assert "Hello" + "\n" + "world" == "Hello\nworld";
    PlainLine("Hello");
  }

  /** "  \nSecond" has a blank first line: the title is kept. */
  lemma TitleOfBlankFirstLine(previous: string)
    ensures DerivedTitle("  \nSecond", previous) == previous
  {
    FirstLineOfJoin("  ", "Second");
    assert "  " + "\n" + "Second" == "  \nSecond";
    TrimEmptyIff("  ");
  }

  /** A line without line feeds or surrounding whitespace becomes the title
      itself, cut to 20 characters. */
  lemma TitleOfPlainLine(line: string, previous: string)
    requires line != "" && '\n' !in line
    requires !IsTrimSpace(line[0]) && !IsTrimSpace(line[|line| - 1])
    ensures DerivedTitle(line, previous) == Prefix(line, TitleLength)
  {
    PlainLine(line);
  }

  /** A 30-character first line is cut to its first 20 characters. */
  lemma TitleOfLongLine(previous: string)
    ensures DerivedTitle("abcdefghijklmnopqrstuvwxyz0123", previous) == "abcdefghijklmnopqrst"
  {
    var line := "abcdefghijklmnopqrstuvwxyz0123";
    assert forall k :: 0 <= k < |line| ==> line[k] != '\n';
    TitleOfPlainLine(line, previous);
  }

  // The decimal number in the default title "Note n".

  function DigitChar(d: nat): (c: char)
    requires d < 10
    ensures '0' <= c <= '9'
  {
    "0123456789"[d]
  }

  function DigitValue(c: char): nat
    requires '0' <= c <= '9'
  {
    (c - '0') as nat
  }

  /** JavaScript's decimal rendering of a non-negative integer. */
  function DecimalString(n: nat): (r: string)
    ensures |r| > 0
    ensures forall k :: 0 <= k < |r| ==> '0' <= r[k] <= '9'
    ensures |r| > 1 ==> r[0] != '0'
    decreases n
  {
    if n < 10 then [DigitChar(n)] else DecimalString(n / 10) + [DigitChar(n % 10)]
  }

  /** Reads a string of decimal digits back as a number. */
  function ParseDecimal(s: string): nat
    requires forall k :: 0 <= k < |s| ==> '0' <= s[k] <= '9'
  {
    if s == [] then 0 else 10 * ParseDecimal(s[..|s| - 1]) + DigitValue(s[|s| - 1])
  }

  lemma DigitRoundTrip(d: nat)
    requires d < 10
    ensures DigitValue(DigitChar(d)) == d
  {
  }

  /** The rendering is exact: parsing it gives the number back, so distinct
      counts give distinct default titles. */
  lemma {:induction false} DecimalRoundTrip(n: nat)
    ensures ParseDecimal(DecimalString(n)) == n
    decreases n
  {
    var r := DecimalString(n);
    if n < 10 {
      DigitRoundTrip(n);
    } else {
      DecimalRoundTrip(n / 10);
      DigitRoundTrip(n % 10);
      assert r[..|r| - 1] == DecimalString(n / 10);
    }
  }

  /** The default title of the `n`-th note. */
  function DefaultTitle(n: nat): string {
    "Note " + DecimalString(n)
  }
}
