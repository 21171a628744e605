/** `getSection` (script.js:994-1018): the text under a markdown heading with a
    given title, up to the next heading of the same or a shallower level, trimmed. */
module Section {
  import opened Strings

  /** The title pattern at script.js:999 is built inside a template literal, where
      `\s` is not an escape sequence and stands for the letter `s`: the pattern the
      code compiles is `^(#{1,6})s+<title>s*$`. `AsWritten` is that pattern;
      `Intended` reads each `s` as whitespace inside the heading line. */
  datatype HeadingPattern = AsWritten | Intended

  /** A character the title pattern accepts around the title. */
  predicate IsTitleSeparator(c: char, pattern: HeadingPattern) {
    match pattern
    case AsWritten => c == 's'
    case Intended => IsSpace(c) && !IsLineTerminator(c)
  }

  predicate AllSeparators(s: string, pattern: HeadingPattern) {
    forall i :: 0 <= i < |s| ==> IsTitleSeparator(s[i], pattern)
  }

  /** `^` in multiline mode: position `p` starts a line. */
  predicate IsLineStart(s: string, p: nat)
    requires p <= |s|
  {
    p == 0 || IsLineTerminator(s[p - 1])
  }

  /** The end of the line that holds position `p`: the next line terminator, or the end. */
  function LineEnd(s: string, p: nat): (e: nat)
    requires p <= |s|
    ensures p <= e <= |s| && NoLineTerminator(s[p..e])
    ensures e < |s| ==> IsLineTerminator(s[e])
    decreases |s| - p
  {
    if p == |s| || IsLineTerminator(s[p]) then p else LineEnd(s, p + 1)
  }

  /** The number of `#` characters from position `p` on; they never leave the line. */
  function HashRun(s: string, p: nat): (k: nat)
    requires p <= |s|
    ensures p + k <= LineEnd(s, p)
    ensures forall i :: p <= i < p + k ==> s[i] == '#'
    ensures p + k < |s| ==> s[p + k] != '#'
    decreases |s| - p
  {
    if p < |s| && s[p] == '#' then 1 + HashRun(s, p + 1) else 0
  }

  /** `<sep>+<title><sep>*` matches the whole of `rest`, for some split of the separators. */
  predicate SeparatorsThenTitle(rest: string, title: string, pattern: HeadingPattern)
    decreases |rest|
  {
    && |rest| > 0
    && IsTitleSeparator(rest[0], pattern)
    && (TitleThenSeparators(rest[1..], title, pattern) || SeparatorsThenTitle(rest[1..], title, pattern))
  }

  predicate TitleThenSeparators(rest: string, title: string, pattern: HeadingPattern) {
    title <= rest && AllSeparators(rest[|title|..], pattern)
  }

  /** `^(#{1,6})<sep>+<title><sep>*$` matches at `p`. The hash run must be the whole
      run: after six `#` another `#` is neither a separator nor the start of the
      separators, so backtracking cannot help. The match ends at the line's end. */
  predicate TitleLineAt(s: string, p: nat, title: string, pattern: HeadingPattern)
    requires p <= |s|
  {
    && IsLineStart(s, p)
    && var k := HashRun(s, p);
       1 <= k <= 6 && SeparatorsThenTitle(s[p + k..LineEnd(s, p)], title, pattern)
  }

  /** `regex.exec(markdown)` for the title pattern: the first position at or after
      `from` where it matches. */
  function FindTitleLine(s: string, title: string, pattern: HeadingPattern, from: nat): (r: Option<nat>)
    requires from <= |s|
    ensures r.Some? ==> from <= r.value < |s| && TitleLineAt(s, r.value, title, pattern)
    ensures forall q :: from <= q <= |s| && (r.None? || q < r.value) ==> !TitleLineAt(s, q, title, pattern)
    decreases |s| - from
  {
    if from == |s| then None
    else if TitleLineAt(s, from, title, pattern) then Some(from)
    else FindTitleLine(s, title, pattern, from + 1)
  }

  /** `/^#{1,6}\s+/m` matches at `q` of the remainder: a line start, one to six `#`,
      then whitespace (which may be a line break). */
  predicate BoundaryAt(rem: string, q: nat)
    requires q <= |rem|
  {
    && IsLineStart(rem, q)
    && var k := HashRun(rem, q);
       1 <= k <= 6 && q + k < |rem| && IsSpace(rem[q + k])
  }

  /** A boundary that closes a section of level `level`. */
  predicate ClosesLevel(rem: string, q: nat, level: nat)
    requires q <= |rem|
  {
    BoundaryAt(rem, q) && HashRun(rem, q) <= level
  }

  /** `headingRegex.exec(remainder)` with `lastIndex == from`: the first boundary
      at or after `from`. */
  function NextBoundary(rem: string, from: nat): (r: Option<nat>)
    requires from <= |rem|
    ensures r.Some? ==> from <= r.value < |rem| && BoundaryAt(rem, r.value)
    ensures forall q :: from <= q <= |rem| && (r.None? || q < r.value) ==> !BoundaryAt(rem, q)
    decreases |rem| - from
  {
    if from == |rem| then None
    else if BoundaryAt(rem, from) then Some(from)
    else NextBoundary(rem, from + 1)
  }

  /** Where a boundary match ends, which is the next `lastIndex`: the hashes and
      the whole whitespace run after them, since `\s+` is greedy. */
  function BoundaryMatchEnd(rem: string, q: nat): (e: nat)
    requires q < |rem| && BoundaryAt(rem, q)
    ensures q < e <= |rem|
  {
    var k := HashRun(rem, q);
    var tail := rem[q + k..];
    q + k + (|tail| - |TrimStart(tail)|)
  }

  /** No boundary starts strictly inside a boundary match, so jumping to its end
      skips none. */
  lemma NoBoundaryInsideMatch(rem: string, q: nat, p: nat)
    requires q < |rem| && BoundaryAt(rem, q)
    requires q < p < BoundaryMatchEnd(rem, q)
    ensures !BoundaryAt(rem, p)
  {
    var k := HashRun(rem, q);
    if p <= q + k {
      assert rem[p - 1] == '#';
      assert !IsLineStart(rem, p);
    } else {
      var tail := rem[q + k..];
      var run := tail[..|tail| - |TrimStart(tail)|];
      TrimStartSpec(tail);
      assert AllSpace(run);
      assert p - q - k < |run|;
      assert rem[p] == run[p - q - k];
      assert IsSpace(rem[p]);
      assert HashRun(rem, p) == 0;
    }
  }

  /** The end of the section inside the remainder: the first boundary of level at
      most `level` at or after `from`, or the end of the remainder. */
  function SectionEnd(rem: string, level: nat, from: nat): (n: nat)
    requires from <= |rem|
    ensures from <= n <= |rem|
    ensures n < |rem| ==> ClosesLevel(rem, n, level)
    ensures forall q :: from <= q < n ==> !ClosesLevel(rem, q, level)
    decreases |rem| - from
  {
    if from == |rem| then |rem|
    else if ClosesLevel(rem, from, level) then from
    else SectionEnd(rem, level, from + 1)
  }

  /** A position with no closing boundary before it, that is the end or a closing
      boundary itself, is where the section ends. */
  lemma SectionEndIsFirstClosing(rem: string, level: nat, n: nat)
    requires n <= |rem|
    requires n < |rem| ==> ClosesLevel(rem, n, level)
    requires forall q :: 0 <= q < n ==> !ClosesLevel(rem, q, level)
    ensures SectionEnd(rem, level, 0) == n
  {
  }

  /** The text `getSection` returns, stated with the first matching heading line
      and the first closing boundary after it. */
  function SectionText(markdown: string, title: string, pattern: HeadingPattern): string
  {
    if markdown == [] then []
    else match FindTitleLine(markdown, title, pattern, 0)
      case None => []
      case Some(p) =>
        var rem := markdown[LineEnd(markdown, p)..];
        Trim(rem[..SectionEnd(rem, HashRun(markdown, p), 0)])
  }

  /** `getSection(markdown, heading)`. The source loops over `headingRegex.exec`,
      jumping `lastIndex` past each match; the result is the first closing boundary. */
  method GetSection(markdown: string, heading: string, pattern: HeadingPattern) returns (section: string)
    ensures section == SectionText(markdown, heading, pattern)
    ensures IsTrimmed(section)
    ensures (forall p :: 0 <= p <= |markdown| ==> !TitleLineAt(markdown, p, heading, pattern)) ==> section == []
  {
    if markdown == [] {
      return [];
    }
    var found := FindTitleLine(markdown, heading, pattern, 0);
    if found.None? {
      return [];
    }
    var headingLevel := HashRun(markdown, found.value);
    var startIndex := LineEnd(markdown, found.value);
    var remainder := markdown[startIndex..];
    var nextIndex := |remainder|;
    var lastIndex := 0;
    var searching := true;
    while searching
      invariant lastIndex <= |remainder|
      invariant forall q :: 0 <= q < lastIndex ==> !ClosesLevel(remainder, q, headingLevel)
      invariant searching ==> nextIndex == |remainder|
      invariant !searching ==> nextIndex == SectionEnd(remainder, headingLevel, 0)
      decreases |remainder| - lastIndex + (if searching then 1 else 0)
    {
      var headingMatch := NextBoundary(remainder, lastIndex);
      if headingMatch.None? {
        SectionEndIsFirstClosing(remainder, headingLevel, |remainder|);
        searching := false;
      } else {
        var q := headingMatch.value;
        var level := HashRun(remainder, q);
        if level <= headingLevel {
          SectionEndIsFirstClosing(remainder, headingLevel, q);
          nextIndex := q;
          searching := false;
        } else {
          var matchEnd := BoundaryMatchEnd(remainder, q);
          forall p | q < p < matchEnd
            ensures !ClosesLevel(remainder, p, headingLevel)
          {
            NoBoundaryInsideMatch(remainder, q, p);
          }
          lastIndex := matchEnd;
        }
      }
    }
    section := Trim(remainder[..nextIndex]);
  }

  /** The section of the first matching heading is the trimmed remainder up to a
      closing boundary or the end, and no line of that stretch opens a heading of
      the same or a shallower level. */
  lemma SectionIsBoundedSlice(markdown: string, title: string, pattern: HeadingPattern, p: nat)
    requires p <= |markdown| && TitleLineAt(markdown, p, title, pattern)
    requires forall q :: 0 <= q < p ==> !TitleLineAt(markdown, q, title, pattern)
    ensures var rem := markdown[LineEnd(markdown, p)..];
            var n := SectionEnd(rem, HashRun(markdown, p), 0);
            && SectionText(markdown, title, pattern) == Trim(rem[..n])
            && (forall q :: 0 <= q < n ==> !ClosesLevel(rem, q, HashRun(markdown, p)))
            && (n == |rem| || ClosesLevel(rem, n, HashRun(markdown, p)))
  {
    var found := FindTitleLine(markdown, title, pattern, 0);
    assert found == Some(p);
  }

  /** With the pattern as written, a heading line is found only when a letter `s`
      follows its hashes, so `## Scope` never is. */
  lemma AsWrittenNeedsLetterS(s: string, p: nat, title: string)
    requires p <= |s| && TitleLineAt(s, p, title, AsWritten)
    ensures p + HashRun(s, p) < |s| && s[p + HashRun(s, p)] == 's'
  {
    var k := HashRun(s, p);
    var rest := s[p + k..LineEnd(s, p)];
    assert rest[0] == s[p + k];
  }

  /** The discrepancy on a two-line document: as written, `# T` is not recognised
      as the heading `T` and the section is empty. */
  lemma LiteralPatternMissesSpacedHeading()
    ensures SectionText("# T\nx", "T", AsWritten) == []
  {
    var doc := "# T\nx";
    assert HashRun(doc, 4) == 0;
    assert FindTitleLine(doc, "T", AsWritten, 4) == None;
    assert !IsLineStart(doc, 3);
    assert FindTitleLine(doc, "T", AsWritten, 3) == None;
    assert !IsLineStart(doc, 2);
    assert FindTitleLine(doc, "T", AsWritten, 2) == None;
    assert !IsLineStart(doc, 1);
    assert FindTitleLine(doc, "T", AsWritten, 1) == None;
    assert HashRun(doc, 0) == 1;
    assert doc[1] == ' ';
    assert !TitleLineAt(doc, 0, "T", AsWritten);
  }

  /** With the intended pattern the same document has the section `x`. */
  lemma IntendedPatternFindsSpacedHeading()
    ensures SectionText("# T\nx", "T", Intended) == "x"
  {
    var doc := "# T\nx";
    assert HashRun(doc, 0) == 1;
    assert LineEnd(doc, 0) == 3;
    assert doc[1..3] == " T";
    assert TitleThenSeparators(" T"[1..], "T", Intended);
    assert TitleLineAt(doc, 0, "T", Intended);
    var rem := doc[3..];
    assert rem == "\nx";
    assert HashRun(rem, 0) == 0 && HashRun(rem, 1) == 0;
    assert SectionEnd(rem, 1, 0) == 2;
    assert rem[..2] == "\nx";
    assert TrimStart("\nx") == "x";
  }
}
