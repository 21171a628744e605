/** `parseOrderedHighlights` (script.js:869-904): numbered lines of the form
    `<digits>. **title** summary` open a highlight, and the `- ` lines after one
    become its points. */
module Highlights {
  import opened Strings
  import opened Patterns
  import opened Grouping

  const DefaultSummary: string := "Capability delivered per CONOPS objective."

  /** What the numbered line of a highlight gives it. */
  datatype HighlightHead = HighlightHead(index: nat, title: string, summary: string)

  /** A highlight: its head and its points. */
  type Highlight = Group<HighlightHead, string>

  /** A match of `^(\d+)\.\s+\*\*(.+?)\*\*`: the digits, the whitespace after the
      dot and the title. */
  datatype OrderedMatch = OrderedMatch(digits: string, gap: string, title: string)
  {
    /** The matched text. */
    function Text(): string {
      digits + "." + gap + "**" + title + "**"
    }
  }

  /** The parts `^(\d+)\.\s+\*\*(.+?)\*\*` demands of a match, the title being the
      shortest one `**` follows. */
  predicate OrderedParts(m: OrderedMatch) {
    m.digits != [] && AllDigits(m.digits) && m.gap != [] && AllSpace(m.gap)
    && LazyTitle(m.title + "**", 0) == Some(|m.title|)
  }

  // `trimmed.match(/^(\d+)\.\s+\*\*(.+?)\*\*/)`. The digit and whitespace runs
  // are maximal, as neither can be followed by the character after it; the title
  // is the shortest one followed by `**`.
  function MatchOrdered(t: string): (m: Option<OrderedMatch>)
    ensures m.Some? ==> |m.value.Text()| <= |t| && AllDigits(m.value.digits)
  {
    var d := DigitRun(t, 0);
    if d == 0 || d == |t| || t[d] != '.' then None
    else
      DigitRunSpec(t, 0);
      DigitsInSlice(t, 0, d);
      assert t[..d] == t[0..d];
      var w := SpaceRun(t, d + 1);
      if w == 0 || !BoldAt(t, d + 1 + w) then None
      else
        match LazyTitle(t, d + 3 + w)
        case None => None
        case Some(k) =>
          Some(OrderedMatch(t[..d], t[d + 1..d + 1 + w], t[d + 3 + w..d + 3 + w + k]))
  }

  /** A match is made of the pattern's parts and is a prefix of the line. */
  lemma MatchOrderedSound(t: string)
    requires MatchOrdered(t).Some?
    ensures OrderedParts(MatchOrdered(t).value) && MatchOrdered(t).value.Text() <= t
  {
    SoundDigits(t);
    SoundGap(t);
    SoundTitle(t);
    SoundText(t);
  }

  lemma SoundDigits(t: string)
    requires MatchOrdered(t).Some?
    ensures MatchOrdered(t).value.digits != [] && AllDigits(MatchOrdered(t).value.digits)
  {
    var d := DigitRun(t, 0);
    MatchOrderedDot(t);
    MatchOrderedInvert(t, d, SpaceRun(t, d + 1));
    DigitRunSpec(t, 0);
    DigitsInSlice(t, 0, d);
    assert t[..d] == t[0..d];
  }

  lemma SoundGap(t: string)
    requires MatchOrdered(t).Some?
    ensures MatchOrdered(t).value.gap != [] && AllSpace(MatchOrdered(t).value.gap)
  {
    var d := DigitRun(t, 0);
    MatchOrderedDot(t);
    var w := SpaceRun(t, d + 1);
    MatchOrderedInvert(t, d, w);
    SpaceRunSpec(t, d + 1);
    SpacesInSlice(t, d + 1, d + 1 + w);
  }

  lemma SoundTitle(t: string)
    requires MatchOrdered(t).Some?
    ensures var title := MatchOrdered(t).value.title; LazyTitle(title + "**", 0) == Some(|title|)
  {
    var d := DigitRun(t, 0);
    MatchOrderedDot(t);
    var w := SpaceRun(t, d + 1);
    MatchOrderedInvert(t, d, w);
    var k := LazyTitle(t, d + 3 + w).value;
    assert MatchOrdered(t).value.title == t[d + 3 + w..d + 3 + w + k];
    LazyTitleAlone(t, d + 3 + w, k);
  }

  lemma SoundText(t: string)
    requires MatchOrdered(t).Some?
    ensures MatchOrdered(t).value.Text() <= t
  {
    var d := DigitRun(t, 0);
    MatchOrderedDot(t);
    var w := SpaceRun(t, d + 1);
    MatchOrderedInvert(t, d, w);
    var k := LazyTitle(t, d + 3 + w).value;
    LazyTitleBold(t, d + 3 + w);
    OrderedText(t, d, w, k);
  }

  lemma MatchOrderedDot(t: string)
    requires MatchOrdered(t).Some?
    ensures 0 < DigitRun(t, 0) < |t| && t[DigitRun(t, 0)] == '.'
  {
  }

  /** A match comes from the three scans succeeding. */
  lemma MatchOrderedInvert(t: string, d: nat, w: nat)
    requires MatchOrdered(t).Some? && d == DigitRun(t, 0) && w == SpaceRun(t, d + 1)
    ensures 0 < d < |t| && t[d] == '.' && 0 < w && BoldAt(t, d + 1 + w) && LazyTitle(t, d + 3 + w).Some?
    ensures MatchOrdered(t).value
      == OrderedMatch(t[..d], t[d + 1..d + 1 + w], t[d + 3 + w..d + 3 + w + LazyTitle(t, d + 3 + w).value])
  {
  }

  lemma OrderedText(t: string, d: nat, w: nat, k: nat)
    requires d + 5 + w + k <= |t| && t[d] == '.' && BoldAt(t, d + 1 + w) && BoldAt(t, d + 3 + w + k)
    ensures OrderedMatch(t[..d], t[d + 1..d + 1 + w], t[d + 3 + w..d + 3 + w + k]).Text() <= t
  {
    var m := OrderedMatch(t[..d], t[d + 1..d + 1 + w], t[d + 3 + w..d + 3 + w + k]);
    assert m.Text() == t[..d + 5 + w + k];
  }

  /** The pieces of a text that starts with a match, by position. */
  lemma OrderedSlices(t: string, m: OrderedMatch)
    requires m.Text() <= t
    ensures var d, w, k := |m.digits|, |m.gap|, |m.title|;
      |m.Text()| == d + 5 + w + k && t[..d] == m.digits && t[d] == '.'
      && t[d + 1..d + 1 + w] == m.gap && t[d + 1 + w] == '*' && t[d + 2 + w] == '*'
      && t[d + 3 + w..d + 5 + w + k] == m.title + "**"
  {
    assert t[..|m.Text()|] == m.Text();
    assert m.Text() == m.digits + ['.'] + m.gap + ['*', '*'] + m.title + ['*', '*'];
  }

  /** The match is the only decomposition of the line into the pattern's parts:
      any digits, whitespace and shortest title the line starts with are what
      `MatchOrdered` returns. */
  lemma MatchOrderedComplete(t: string, m: OrderedMatch)
    requires OrderedParts(m) && m.Text() <= t
    ensures MatchOrdered(t) == Some(m)
  {
    var d, w, k := |m.digits|, |m.gap|, |m.title|;
    OrderedSlices(t, m);
    DigitScan(t, m.digits);
    SpaceScan(t, d + 1, m.gap);
    LazyTitleInside(t, d + 3 + w, m.title);
    assert t[d + 3 + w..d + 3 + w + k] == m.title by {
      assert t[d + 3 + w..d + 3 + w + k] == t[d + 3 + w..d + 5 + w + k][..k];
    }
    MatchOrderedFrom(t, d, w, k);
  }

  lemma DigitScan(t: string, digits: string)
    requires |digits| < |t| && t[..|digits|] == digits && AllDigits(digits) && t[|digits|] == '.'
    ensures DigitRun(t, 0) == |digits|
  {
    assert t[0..|digits|] == digits;
    DigitsInSlice(t, 0, |digits|);
    DigitRunIs(t, 0, |digits|);
  }

  lemma SpaceScan(t: string, p: nat, gap: string)
    requires p + |gap| < |t| && t[p..p + |gap|] == gap && AllSpace(gap) && t[p + |gap|] == '*'
    ensures SpaceRun(t, p) == |gap|
  {
    SpacesInSlice(t, p, p + |gap|);
    SpaceRunIs(t, p, |gap|);
  }

  /** `MatchOrdered` once its three scans are known. */
  lemma MatchOrderedFrom(t: string, d: nat, w: nat, k: nat)
    requires 0 < d < |t| && DigitRun(t, 0) == d && t[d] == '.'
    requires 0 < w && SpaceRun(t, d + 1) == w && BoldAt(t, d + 1 + w)
    requires LazyTitle(t, d + 3 + w) == Some(k)
    ensures MatchOrdered(t) == Some(OrderedMatch(t[..d], t[d + 1..d + 1 + w], t[d + 3 + w..d + 3 + w + k]))
  {
  }

  /** A leading run of `-` and `:` characters. */
  function DashColonRun(s: string, p: nat): (k: nat)
    requires p <= |s|
    ensures p + k <= |s|
    ensures p + k == |s| || (s[p + k] != '-' && s[p + k] != ':')
    decreases |s| - p
  {
    if p < |s| && (s[p] == '-' || s[p] == ':') then 1 + DashColonRun(s, p + 1) else 0
  }

  // `rest.trim().replace(/^[-:]+\s*/, "")`: the summary text after the match.
  function SummaryText(rest: string): (r: string)
    ensures IsTrimmed(r)
    ensures |r| <= |Trim(rest)| && r == Trim(rest)[|Trim(rest)| - |r|..]
  {
    var t := Trim(rest);
    var d := DashColonRun(t, 0);
    if d == 0 then t
    else
      SpaceRunSpec(t, d);
      t[d + SpaceRun(t, d)..]
  }

  /** Any maximal run of `-` and `:` is what `DashColonRun` measures. */
  lemma {:induction false} DashColonRunIs(s: string, p: nat, k: nat)
    requires p + k <= |s| && forall i :: p <= i < p + k ==> s[i] == '-' || s[i] == ':'
    requires p + k == |s| || (s[p + k] != '-' && s[p + k] != ':')
    ensures DashColonRun(s, p) == k
    decreases k
  {
    if k > 0 {
      DashColonRunIs(s, p + 1, k - 1);
    }
  }

  /** The summary text is the trimmed rest with exactly its maximal leading
      run of `-` and `:` and the maximal whitespace run after it removed. */
  lemma SummaryTextSpec(rest: string, d: nat, w: nat)
    requires var t := Trim(rest);
      d + w <= |t| && (forall i :: 0 <= i < d ==> t[i] == '-' || t[i] == ':')
      && (d == |t| || (t[d] != '-' && t[d] != ':'))
      && SpacesIn(t, d, d + w) && (d + w == |t| || !IsSpace(t[d + w]))
    ensures SummaryText(rest) == Trim(rest)[d + w..]
  {
    var t := Trim(rest);
    DashColonRunIs(t, 0, d);
    SpaceRunIs(t, d, w);
  }

  /** The summary of a highlight: the text after the match, or the fixed default
      when nothing is left. */
  function Summary(rest: string): (r: string)
    ensures r != []
    ensures SummaryText(rest) == [] ==> r == DefaultSummary
    ensures SummaryText(rest) != [] ==> r == SummaryText(rest)
  {
    var text := SummaryText(rest);
    if text == [] then DefaultSummary else text
  }

  /** What one line means to the highlight parser. */
  function Classify(line: string): LineKind<HighlightHead, string>
  {
    var trimmed := Trim(line);
    match MatchOrdered(trimmed)
    case Some(m) =>
      Opener(HighlightHead(DigitsValue(m.digits), Trim(m.title), Summary(trimmed[|m.Text()|..])))
    case None =>
      if StartsWith(trimmed, "- ") then Member(Trim(trimmed[2..])) else Ignored
  }

  /** The meaning of each line of a section, in order. */
  function LineKinds(lines: seq<string>): (kinds: seq<LineKind<HighlightHead, string>>)
    ensures |kinds| == |lines|
    ensures forall i :: 0 <= i < |lines| ==> kinds[i] == Classify(lines[i])
  {
    seq(|lines|, i requires 0 <= i < |lines| => Classify(lines[i]))
  }

  /** The highlights of a section, declaratively. */
  function Highlights(section: string): seq<Highlight> {
    Grouped(LineKinds(SectionLines(section)))
  }

  lemma LineKindsSnoc(lines: seq<string>, i: nat)
    requires i < |lines|
    ensures LineKinds(lines[..i + 1]) == LineKinds(lines[..i]) + [Classify(lines[i])]
  {
    assert lines[..i + 1] == lines[..i] + [lines[i]];
  }

  /** The source's `forEach` callback for one line: a numbered line closes the
      open highlight and opens a new one, a `- ` line adds a point to the open
      highlight, and any other line changes nothing. */
  method ReadLine(line: string, items: seq<Highlight>, current: Option<Highlight>)
    returns (items': seq<Highlight>, current': Option<Highlight>)
    requires current.None? ==> items == []
    ensures current'.None? ==> items' == []
    ensures Flush(items', current') == Step(Flush(items, current), Classify(line))
  {
    items', current' := items, current;
    var trimmed := Trim(line);
    var orderedMatch := MatchOrdered(trimmed);
    if orderedMatch.Some? {
      if current'.Some? {
        items' := items' + [current'.value];
      }
      var m := orderedMatch.value;
      current' := Some(Group(HighlightHead(DigitsValue(m.digits), Trim(m.title), Summary(trimmed[|m.Text()|..])), []));
    } else if StartsWith(trimmed, "- ") && current'.Some? {
      current' := Some(Group(current'.value.head, current'.value.members + [Trim(trimmed[2..])]));
    }
  }

  /** The source's loop over the lines, with the last highlight closed at the end. */
  method ParseOrderedHighlights(section: string) returns (items: seq<Highlight>)
    ensures items == Highlights(section)
    ensures section == [] ==> items == []
  {
    if section == [] {
      return [];
    }
    var lines := Split(section, '\n');
    items := [];
    var current: Option<Highlight> := None;
    for i := 0 to |lines|
      invariant Flush(items, current) == Grouped(LineKinds(lines[..i]))
      invariant current.None? ==> items == []
    {
      items, current := ReadLine(lines[i], items, current);
      LineKindsSnoc(lines, i);
      GroupedSnoc(LineKinds(lines[..i]), Classify(lines[i]));
    }
    assert lines[..|lines|] == lines;
    if current.Some? {
      items := items + [current.value];
    }
  }

  /** A title that `(.+?)\*\*` reads whole and `trim` keeps: non-empty, trimmed,
      on one line, and with no `**` starting inside it, counting one that the
      closing `**` would complete. */
  predicate PlainTitle(title: string) {
    title != [] && IsTrimmed(title) && NoLineTerminator(title)
    && forall j :: 0 < j < |title| ==> !BoldAt(title + "**", j)
  }

  /** A summary read back unchanged: non-empty, trimmed, on one line, and not
      starting with a character that `^[-:]+` would strip. */
  predicate PlainSummary(summary: string) {
    summary != [] && IsTrimmed(summary) && NoLineTerminator(summary)
    && summary[0] != '-' && summary[0] != ':'
  }

  /** A point read back unchanged: non-empty, trimmed and on one line. */
  predicate PlainPoint(point: string) {
    point != [] && IsTrimmed(point) && NoLineTerminator(point)
  }

  predicate PlainHead(head: HighlightHead) {
    PlainTitle(head.title) && PlainSummary(head.summary)
  }

  /** Highlights that have a text form the parser reads back. */
  predicate Renderable(items: seq<Highlight>) {
    forall g :: g in items ==> PlainHead(g.head) && forall p :: p in g.members ==> PlainPoint(p)
  }

  /** The numbered line of a highlight: `<index>. **<title>** <summary>`. */
  function HeadLine(head: HighlightHead): string {
    Decimal(head.index) + ". **" + head.title + "** " + head.summary
  }

  /** The line of a point: `- <point>`. */
  function PointLine(point: string): string {
    "- " + point
  }

  function KindLine(kind: LineKind<HighlightHead, string>): string {
    match kind
    case Opener(head) => HeadLine(head)
    case Member(point) => PointLine(point)
    case Ignored => ""
  }

  /** The text form of a list of highlights: each numbered line followed by the
      lines of its points. */
  function Render(items: seq<Highlight>): string {
    var kinds := Blocks(items);
    Join(seq(|kinds|, i requires 0 <= i < |kinds| => KindLine(kinds[i])), '\n')
  }

  lemma PlainTitleLazy(title: string)
    requires PlainTitle(title)
    ensures LazyTitle(title + "**", 0) == Some(|title|)
  {
    var u := title + "**";
    assert forall i :: 0 <= i < |title| ==> u[i] == title[i];
    LazyTitleIs(u, 0, |title|);
  }

  /** The summary after a numbered line's match is the text after one space. */
  lemma SummaryOfPlain(summary: string)
    requires PlainSummary(summary)
    ensures Summary(" " + summary) == summary
  {
    TrimPadded(" ", summary, []);
    assert " " + summary + [] == " " + summary;
    var t := Trim(" " + summary);
    assert t == summary;
    assert DashColonRun(t, 0) == 0;
    assert SummaryText(" " + summary) == summary;
  }

  /** A trimmed line that starts with a match opens a highlight. */
  lemma ClassifyNumbered(line: string, m: OrderedMatch)
    requires IsTrimmed(line) && OrderedParts(m) && m.Text() <= line
    ensures Classify(line)
      == Opener(HighlightHead(DigitsValue(m.digits), Trim(m.title), Summary(line[|m.Text()|..])))
  {
    TrimTrimmed(line);
    MatchOrderedComplete(line, m);
  }

  /** A trimmed line that starts with `- ` and no match is a point. */
  lemma ClassifyDash(line: string)
    requires IsTrimmed(line) && |line| >= 2 && line[0] == '-' && line[1] == ' '
    ensures Classify(line) == Member(Trim(line[2..]))
  {
    assert StartsWith(line, "- ") by {
      assert |"- "| == 2 && "- "[0] == line[0] && "- "[1] == line[1];
    }
    assert DigitRun(line, 0) == 0;
    TrimTrimmed(line);
  }

  /** The numbered line of a highlight is read as that highlight's head. */
  lemma ClassifyHeadLine(head: HighlightHead)
    requires PlainHead(head)
    ensures Classify(HeadLine(head)) == Opener(head)
  {
    var line := HeadLine(head);
    var m := OrderedMatch(Decimal(head.index), " ", head.title);
    var text, rest := m.Text(), " " + head.summary;
    assert line == text + rest;
    assert IsTrimmed(line) by {
      assert line[0] == Decimal(head.index)[0];
      assert line[|line| - 1] == head.summary[|head.summary| - 1];
    }
    PlainTitleLazy(head.title);
    ClassifyNumbered(line, m);
    DigitsValueDecimal(head.index);
    TrimTrimmed(head.title);
    assert line[|text|..] == rest;
    SummaryOfPlain(head.summary);
  }

  /** The line of a point is read as that point. */
  lemma ClassifyPointLine(point: string)
    requires PlainPoint(point)
    ensures Classify(PointLine(point)) == Member(point)
  {
    var line := PointLine(point);
    assert IsTrimmed(line) by {
      assert line[|line| - 1] == point[|point| - 1];
    }
    ClassifyDash(line);
    assert line[2..] == point;
    TrimTrimmed(point);
  }

  lemma KindLineOneLine(kind: LineKind<HighlightHead, string>)
    requires (kind.Opener? && PlainHead(kind.head)) || (kind.Member? && PlainPoint(kind.item))
    ensures '\n' !in KindLine(kind)
  {
    if kind.Opener? {
      var head := kind.head;
      assert '\n' !in Decimal(head.index);
      assert '\n' !in head.title && '\n' !in head.summary;
    } else {
      assert '\n' !in kind.item;
    }
  }

  /** Parsing the text form of highlights gives them back. */
  lemma HighlightsRender(items: seq<Highlight>)
    requires Renderable(items)
    ensures Highlights(Render(items)) == items
  {
    var kinds := Blocks(items);
    BlocksKinds(items, PlainHead, PlainPoint);
    var lines := seq(|kinds|, i requires 0 <= i < |kinds| => KindLine(kinds[i]));
    assert Render(items) == Join(lines, '\n');
    forall i | 0 <= i < |kinds| ensures Classify(lines[i]) == kinds[i] && '\n' !in lines[i] {
      assert kinds[i] in kinds;
      KindLineOneLine(kinds[i]);
      if kinds[i].Opener? {
        ClassifyHeadLine(kinds[i].head);
      } else {
        ClassifyPointLine(kinds[i].item);
      }
    }
    assert LineKinds(lines) == kinds;
    GroupedBlocks(items);
    if items == [] {
      assert lines == [];
    } else {
      assert kinds[0] == Opener(items[0].head);
      SplitJoin(lines, '\n');
      assert Join(lines, '\n') != [] by {
        assert lines[0] == HeadLine(items[0].head);
      }
    }
  }

  /** There is one highlight per numbered line, with that line's head, in
      document order. */
  lemma HighlightHeads(section: string)
    ensures var kinds := LineKinds(SectionLines(section));
      |Highlights(section)| == |Openers(kinds)|
      && forall j :: 0 <= j < |Openers(kinds)| ==> Highlights(section)[j].head == Openers(kinds)[j]
  {
    GroupedHeads(LineKinds(SectionLines(section)));
  }

  /** The highlight of the numbered line `i` comes after one highlight per earlier
      numbered line, and its points are those of the `- ` lines between line `i`
      and the next numbered line, in order. */
  lemma HighlightOfLine(section: string, i: nat)
    requires i < |SectionLines(section)| && MatchOrdered(Trim(SectionLines(section)[i])).Some?
    ensures var kinds := LineKinds(SectionLines(section)); var j := |Openers(kinds[..i])|;
      j < |Highlights(section)|
      && Highlights(section)[j] == Group(kinds[i].head, Members(kinds[i + 1..NextOpener(kinds, i + 1)]))
  {
    var kinds := LineKinds(SectionLines(section));
    assert kinds[i] == Classify(SectionLines(section)[i]);
    GroupedAt(kinds, i);
  }

  /** `- ` lines, and any other lines without a match, before the first numbered
      line belong to no highlight. */
  lemma LeadingLinesDropped(lead: seq<string>, lines: seq<string>)
    requires forall i :: 0 <= i < |lead| ==> MatchOrdered(Trim(lead[i])).None?
    ensures Grouped(LineKinds(lead + lines)) == Grouped(LineKinds(lines))
  {
    var kinds := LineKinds(lead);
    LineKindsConcat(lead, lines);
    forall i | 0 <= i < |kinds| ensures !kinds[i].Opener? {
      NotOpener(lead[i]);
    }
    GroupedSkipsLeading(kinds, LineKinds(lines));
  }

  lemma NotOpener(line: string)
    requires MatchOrdered(Trim(line)).None?
    ensures !Classify(line).Opener?
  {
  }

  lemma LineKindsConcat(a: seq<string>, b: seq<string>)
    ensures LineKinds(a + b) == LineKinds(a) + LineKinds(b)
  {
    var whole, left, right := LineKinds(a + b), LineKinds(a), LineKinds(b);
    forall i | 0 <= i < |a + b| ensures whole[i] == (left + right)[i] {
      if i < |a| {
        assert (a + b)[i] == a[i];
        assert whole[i] == left[i];
      } else {
        assert (a + b)[i] == b[i - |a|];
        assert whole[i] == right[i - |a|];
      }
    }
  }

  /** A numbered line with nothing after the title gets the default summary. */
  lemma BareHeadLine(index: nat, title: string)
    requires PlainTitle(title)
    ensures Classify(Decimal(index) + ". **" + title + "**")
      == Opener(HighlightHead(index, title, DefaultSummary))
  {
    var digits := Decimal(index);
    var m := OrderedMatch(digits, " ", title);
    var line := m.Text();
    assert line == digits + ". **" + title + "**";
    assert OrderedParts(m) by {
      PlainTitleLazy(title);
      assert AllSpace(" ") by {
        assert " "[0] == ' ';
      }
    }
    assert IsTrimmed(line) by {
      assert line[0] == digits[0];
      assert line[|line| - 1] == '*';
    }
    assert m.Text() <= line;
    var rest := line[|m.Text()|..];
    assert rest == [];
    assert Classify(line) == Opener(HighlightHead(DigitsValue(digits), Trim(title), Summary(rest))) by {
      ClassifyNumbered(line, m);
    }
    assert DigitsValue(digits) == index by {
      DigitsValueDecimal(index);
    }
    assert Trim(title) == title by {
      TrimTrimmed(title);
    }
    assert Summary(rest) == DefaultSummary by {
      assert Trim(rest) == [];
      assert SummaryText(rest) == [];
    }
  }
}
