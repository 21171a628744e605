/** `parseRequirements` (script.js:906-937): a line starting with `- **` opens a
    requirement, a line starting with `  - ` adds a sub-point to the open one, and
    every other line is ignored. Lines are read as they are, without trimming. */
module Requirements {
  import opened Strings
  import opened Patterns
  import opened Grouping

  const Placeholder: string := "Our solution addresses this requirement through configurable automation modules."

  /** What the opening line of a requirement gives it. */
  datatype RequirementHead = RequirementHead(title: string, statement: string)

  /** A requirement: its head and its sub-points. */
  type Requirement = Group<RequirementHead, string>

  // A match of `^- \*\*(.+?)\*\*\s*(.*)$` (no `m` flag): the title, the whitespace
  // after the closing `**` and the statement, which together with the fixed
  // parts make up the whole line.
  datatype RequirementMatch = RequirementMatch(title: string, gap: string, statement: string)
  {
    /** The matched text, which is the whole line. */
    function Text(): string {
      "- **" + title + "**" + gap + statement
    }
  }

  // `**` at `j` closes the title: `\s*(.*)$` matches what follows it. The
  // greedy `\s*` takes the whole whitespace run, and `(.*)` must then reach
  // the end of the line without crossing a line terminator; giving back
  // whitespace cannot help, as the rest would still hold the same terminator.
  predicate Closes(s: string, j: int) {
    BoldAt(s, j) && OneLine(s, j + 2 + SpaceRun(s, j + 2), |s|)
  }

  /** The lazy `(.+?)` at `p` once the titles shorter than `k` have been
      rejected: the first length on one line at which the title closes. */
  function TitleFrom(s: string, p: nat, k: nat): (r: Option<nat>)
    requires 1 <= k && p + k - 1 <= |s|
    ensures r.Some? ==> k <= r.value && p + r.value + 2 <= |s|
    decreases |s| - p - k
  {
    if p + k > |s| || IsLineTerminator(s[p + k - 1]) then None
    else if Closes(s, p + k) then Some(k)
    else TitleFrom(s, p, k + 1)
  }

  lemma {:induction false} TitleFromSpec(s: string, p: nat, k: nat)
    requires 1 <= k && p + k - 1 <= |s|
    requires OneLine(s, p, p + k - 1)
    requires forall j :: p < j < p + k ==> !Closes(s, j)
    ensures TitleFrom(s, p, k).Some? ==> var r := TitleFrom(s, p, k).value;
      Closes(s, p + r) && OneLine(s, p, p + r) && forall j :: p < j < p + r ==> !Closes(s, j)
    ensures TitleFrom(s, p, k).None? ==>
      forall j :: p < j <= |s| && OneLine(s, p, j) ==> !Closes(s, j)
    decreases |s| - p - k
  {
    if p + k > |s| {
    } else if IsLineTerminator(s[p + k - 1]) {
      forall j | p + k <= j <= |s| ensures !OneLine(s, p, j) {
        assert IsLineTerminator(s[p + k - 1]);
      }
    } else if !Closes(s, p + k) {
      TitleFromSpec(s, p, k + 1);
    }
  }

  lemma {:induction false} TitleFromIs(s: string, p: nat, i: nat, k: nat)
    requires 1 <= i <= k && p + k <= |s| && Closes(s, p + k) && OneLine(s, p, p + k)
    requires forall j :: p < j < p + k ==> !Closes(s, j)
    ensures TitleFrom(s, p, i) == Some(k)
    decreases k - i
  {
    if i < k {
      assert !IsLineTerminator(s[p + i - 1]) && !Closes(s, p + i);
      TitleFromIs(s, p, i + 1, k);
    }
  }

  /** `line.match(/^- \*\*(.+?)\*\*\s*(.*)$/)`. */
  function MatchRequirement(line: string): Option<RequirementMatch> {
    if !StartsWith(line, "- **") then None
    else
      match TitleFrom(line, 4, 1)
      case None => None
      case Some(k) =>
        var q := 6 + k;
        var w := SpaceRun(line, q);
        Some(RequirementMatch(line[4..4 + k], line[q..q + w], line[q + w..]))
  }

  /** A match is the whole line: a non-empty title on one line, the whole
      whitespace run after its `**`, and a statement on one line; and no shorter
      title closes. */
  lemma MatchRequirementSound(line: string)
    requires MatchRequirement(line).Some?
    ensures var m := MatchRequirement(line).value;
      m.Text() == line && m.title != [] && NoLineTerminator(m.title)
      && AllSpace(m.gap) && NoLineTerminator(m.statement)
      && (m.statement == [] || !IsSpace(m.statement[0]))
      && forall j :: 4 < j < 4 + |m.title| ==> !Closes(line, j)
  {
    SoundText(line);
    SoundTitle(line);
    SoundTail(line);
  }

  /** The pieces of a line, put back together. */
  lemma PiecesText(line: string, k: nat, g: nat)
    requires 6 + k + g <= |line| && line[..4] == "- **" && line[4 + k..6 + k] == "**"
    ensures RequirementMatch(line[4..4 + k], line[6 + k..6 + k + g], line[6 + k + g..]).Text() == line
  {
    assert line == line[..4] + line[4..4 + k] + line[4 + k..6 + k] + line[6 + k..6 + k + g] + line[6 + k + g..];
  }

  lemma SoundText(line: string)
    requires MatchRequirement(line).Some?
    ensures MatchRequirement(line).value.Text() == line
  {
    var k := TitleFrom(line, 4, 1).value;
    TitleFromSpec(line, 4, 1);
    assert line[..4] == "- **";
    assert line[4 + k..6 + k] == "**";
    PiecesText(line, k, SpaceRun(line, 6 + k));
  }

  lemma SoundTitle(line: string)
    requires MatchRequirement(line).Some?
    ensures var m := MatchRequirement(line).value;
      m.title != [] && NoLineTerminator(m.title) && forall j :: 4 < j < 4 + |m.title| ==> !Closes(line, j)
  {
    var k := TitleFrom(line, 4, 1).value;
    TitleFromSpec(line, 4, 1);
    var title := line[4..4 + k];
    assert forall i :: 0 <= i < k ==> title[i] == line[4 + i];
  }

  lemma SoundTail(line: string)
    requires MatchRequirement(line).Some?
    ensures var m := MatchRequirement(line).value;
      AllSpace(m.gap) && NoLineTerminator(m.statement) && (m.statement == [] || !IsSpace(m.statement[0]))
  {
    var k := TitleFrom(line, 4, 1).value;
    TitleFromSpec(line, 4, 1);
    var q := 6 + k;
    var w := SpaceRun(line, q);
    SpaceRunSpec(line, q);
    SpacesInSlice(line, q, q + w);
    var statement := line[q + w..];
    assert forall i :: 0 <= i < |statement| ==> statement[i] == line[q + w + i];
  }

  /** A line starting with `- **` does not match when no title on its first line
      is closed by a `**` that the rest of the line can follow. */
  lemma MatchRequirementNone(line: string)
    requires StartsWith(line, "- **") && MatchRequirement(line).None?
    ensures forall j :: 4 < j <= |line| && OneLine(line, 4, j) ==> !Closes(line, j)
  {
    TitleFromSpec(line, 4, 1);
  }

  /** A title with no `**` starting inside it, counting one that the closing
      `**` would complete, and on one line. */
  predicate PlainTitle(title: string) {
    title != [] && NoLineTerminator(title) && forall j :: 0 < j < |title| ==> !BoldAt(title + "**", j)
  }

  /** The converse of `MatchRequirementSound`: a line made of a plain title, a
      whitespace run and a statement on one line is matched as exactly these. */
  lemma MatchRequirementOf(line: string, title: string, gap: string, statement: string)
    requires line == RequirementMatch(title, gap, statement).Text()
    requires PlainTitle(title) && AllSpace(gap) && NoLineTerminator(statement)
    requires statement == [] || !IsSpace(statement[0])
    ensures MatchRequirement(line) == Some(RequirementMatch(title, gap, statement))
  {
    var k, g := |title|, |gap|;
    TextPieces(RequirementMatch(title, gap, statement));
    OfTitle(line, title);
    SpacesInSlice(line, 6 + k, 6 + k + g);
    assert OneLine(line, 6 + k + g, |line|) by {
      assert forall i :: 6 + k + g <= i < |line| ==> line[i] == statement[i - (6 + k + g)];
    }
    assert 6 + k + g < |line| ==> line[6 + k + g] == statement[0];
    MatchRequirementAt(line, k, g);
  }

  /** Where the pieces of a match sit in its text. */
  lemma TextPieces(m: RequirementMatch)
    ensures var line, k, g := m.Text(), |m.title|, |m.gap|;
      |line| == 6 + k + g + |m.statement| && line[..4] == "- **" && line[4..4 + k] == m.title
      && line[4 + k..6 + k] == "**" && line[6 + k..6 + k + g] == m.gap && line[6 + k + g..] == m.statement
  {
  }

  /** A plain title in its place is on one line and `**` first follows it at its end. */
  lemma OfTitle(line: string, title: string)
    requires 6 + |title| <= |line| && line[4..6 + |title|] == title + "**" && PlainTitle(title)
    ensures OneLine(line, 4, 4 + |title|) && BoldAt(line, 4 + |title|)
    ensures forall j :: 4 < j < 4 + |title| ==> !BoldAt(line, j)
  {
    var u := title + "**";
    assert forall i :: 0 <= i < |title| + 2 ==> line[4 + i] == u[i];
    forall j | 4 < j < 4 + |title| ensures !BoldAt(line, j) {
      assert !BoldAt(u, j - 4);
    }
  }

  /** `MatchRequirement` once the title, whitespace run and statement are known
      by position. */
  lemma MatchRequirementAt(line: string, k: nat, g: nat)
    requires 1 <= k && 6 + k + g <= |line| && line[..4] == "- **"
    requires OneLine(line, 4, 4 + k) && BoldAt(line, 4 + k)
    requires forall j :: 4 < j < 4 + k ==> !BoldAt(line, j)
    requires SpacesIn(line, 6 + k, 6 + k + g) && (6 + k + g == |line| || !IsSpace(line[6 + k + g]))
    requires OneLine(line, 6 + k + g, |line|)
    ensures MatchRequirement(line) == Some(RequirementMatch(line[4..4 + k], line[6 + k..6 + k + g], line[6 + k + g..]))
  {
    SpaceRunIs(line, 6 + k, g);
    assert Closes(line, 4 + k);
    TitleFromIs(line, 4, 1, k);
    assert StartsWith(line, "- **");
  }

  /** `title.replace(/:$/, "")`: one colon at the end is dropped. */
  function DropColon(title: string): (r: string)
    ensures r + (if r == title then [] else [':']) == title
  {
    if title != [] && title[|title| - 1] == ':' then title[..|title| - 1] else title
  }

  /** `statement || placeholder`. */
  function Statement(statement: string): (r: string)
    ensures r != []
    ensures r == statement || (statement == [] && r == Placeholder)
  {
    if statement == [] then Placeholder else statement
  }

  /** The head an opening line gives: from the match, or from the line after
      its `- ` with the placeholder statement when the match fails. */
  function Head(line: string): RequirementHead
    requires StartsWith(line, "- **")
  {
    match MatchRequirement(line)
    case Some(m) => RequirementHead(Trim(DropColon(m.title)), Statement(NormaliseWhitespace(m.statement)))
    case None => RequirementHead(Trim(line[2..]), Placeholder)
  }

  /** What one line means to the requirement parser. */
  function Classify(line: string): LineKind<RequirementHead, string> {
    if StartsWith(line, "- **") then Opener(Head(line))
    else if StartsWith(line, "  - ") then Member(NormaliseWhitespace(line[4..]))
    else Ignored
  }

  /** The meaning of each line of a section, in order. */
  function LineKinds(lines: seq<string>): (kinds: seq<LineKind<RequirementHead, string>>)
    ensures |kinds| == |lines|
    ensures forall i :: 0 <= i < |lines| ==> kinds[i] == Classify(lines[i])
  {
    seq(|lines|, i requires 0 <= i < |lines| => Classify(lines[i]))
  }

  /** The requirements of a section, declaratively. */
  function Requirements(section: string): seq<Requirement> {
    Grouped(LineKinds(SectionLines(section)))
  }

  lemma LineKindsSnoc(lines: seq<string>, i: nat)
    requires i < |lines|
    ensures LineKinds(lines[..i + 1]) == LineKinds(lines[..i]) + [Classify(lines[i])]
  {
    assert lines[..i + 1] == lines[..i] + [lines[i]];
  }

  /** The source's `forEach` callback for one line: a `- **` line closes the open
      requirement and opens a new one, a `  - ` line adds a sub-point to the open
      requirement, and any other line changes nothing. */
  method ReadLine(line: string, items: seq<Requirement>, current: Option<Requirement>)
    returns (items': seq<Requirement>, current': Option<Requirement>)
    requires current.None? ==> items == []
    ensures current'.None? ==> items' == []
    ensures Flush(items', current') == Step(Flush(items, current), Classify(line))
  {
    items', current' := items, current;
    if StartsWith(line, "- **") {
      if current'.Some? {
        items' := items' + [current'.value];
      }
      var match_ := MatchRequirement(line);
      var title := if match_.Some? then Trim(DropColon(match_.value.title)) else Trim(line[2..]);
      var statement := if match_.Some? then NormaliseWhitespace(match_.value.statement) else "";
      current' := Some(Group(RequirementHead(title, if statement == [] then Placeholder else statement), []));
    } else if StartsWith(line, "  - ") && current'.Some? {
      current' := Some(Group(current'.value.head, current'.value.members + [NormaliseWhitespace(line[4..])]));
    }
  }

  /** The source's loop over the lines, with the last requirement closed at the end. */
  method ParseRequirements(section: string) returns (items: seq<Requirement>)
    ensures items == Requirements(section)
    ensures section == [] ==> items == []
  {
    if section == [] {
      return [];
    }
    var lines := Split(section, '\n');
    items := [];
    var current: Option<Requirement> := None;
    for i := 0 to |lines|
      invariant Flush(items, current) == Grouped(LineKinds(lines[..i]))
      invariant current.None? ==> items == []
    {
      items, current := ReadLine(lines[i], items, current);
      LineKindsSnoc(lines, i);
      GroupedSnoc(LineKinds(lines[..i]), Classify(lines[i]));
    }
    assert lines[..|lines|] == lines;
    if current.Some? {
      items := items + [current.value];
    }
  }

  /** The opening line of a requirement, as the source renders it:
      `- **<title>:** <statement>`. */
  function HeadLine(head: RequirementHead): string {
    RequirementMatch(head.title + ":", " ", head.statement).Text()
  }

  /** The line of a sub-point: `  - <point>`. */
  function SubpointLine(point: string): string {
    "  - " + point
  }

  function KindLine(kind: LineKind<RequirementHead, string>): string {
    match kind
    case Opener(head) => HeadLine(head)
    case Member(point) => SubpointLine(point)
    case Ignored => ""
  }

  /** The text form of a list of requirements: each opening line followed by the
      lines of its sub-points. */
  function Render(items: seq<Requirement>): string {
    var kinds := Blocks(items);
    Join(seq(|kinds|, i requires 0 <= i < |kinds| => KindLine(kinds[i])), '\n')
  }

  /** A head read back unchanged: a trimmed title that stays plain with its colon,
      and a non-empty normal statement. */
  predicate PlainHead(head: RequirementHead) {
    IsTrimmed(head.title) && PlainTitle(head.title + ":") && head.statement != [] && IsNormal(head.statement)
  }

  /** Requirements that have a text form the parser reads back. */
  predicate Renderable(items: seq<Requirement>) {
    forall g :: g in items ==> PlainHead(g.head) && forall p :: p in g.members ==> IsNormal(p)
  }

  lemma ClassifyOpener(line: string, m: RequirementMatch)
    requires |line| >= 4 && line[..4] == "- **" && MatchRequirement(line) == Some(m)
    ensures Classify(line) == Opener(RequirementHead(Trim(DropColon(m.title)), Statement(NormaliseWhitespace(m.statement))))
  {
    assert StartsWith(line, "- **");
  }

  /** The rendered opening line of a requirement is read as that requirement's head. */
  lemma ClassifyHeadLine(head: RequirementHead)
    requires PlainHead(head)
    ensures Classify(HeadLine(head)) == Opener(head)
  {
    var m := RequirementMatch(head.title + ":", " ", head.statement);
    var line := m.Text();
    NormalHasNoLineTerminator(head.statement);
    MatchRequirementOf(line, m.title, m.gap, m.statement);
    TextPieces(m);
    ClassifyOpener(line, m);
    assert DropColon(head.title + ":") == head.title;
    TrimTrimmed(head.title);
    NormalIsFixed(head.statement);
  }

  /** The rendered line of a sub-point is read as that sub-point. */
  lemma ClassifySubpointLine(point: string)
    requires IsNormal(point)
    ensures Classify(SubpointLine(point)) == Member(point)
  {
    var line := SubpointLine(point);
    assert !StartsWith(line, "- **") by {
      assert line[0] == ' ';
    }
    assert StartsWith(line, "  - ") by {
      assert line[..4] == "  - ";
    }
    assert line[4..] == point;
    NormalIsFixed(point);
  }

  lemma KindLineOneLine(kind: LineKind<RequirementHead, string>)
    requires (kind.Opener? && PlainHead(kind.head)) || (kind.Member? && IsNormal(kind.item))
    ensures '\n' !in KindLine(kind)
  {
    if kind.Opener? {
      var head := kind.head;
      NormalHasNoLineTerminator(head.statement);
      assert '\n' !in head.title + ":";
      assert '\n' !in head.statement;
    } else {
      NormalHasNoLineTerminator(kind.item);
      assert '\n' !in kind.item;
    }
  }

  /** Parsing the text form of requirements gives them back. */
  lemma RequirementsRender(items: seq<Requirement>)
    requires Renderable(items)
    ensures Requirements(Render(items)) == items
  {
    var kinds := Blocks(items);
    BlocksKinds(items, PlainHead, IsNormal);
    var lines := seq(|kinds|, i requires 0 <= i < |kinds| => KindLine(kinds[i]));
    assert Render(items) == Join(lines, '\n');
    forall i | 0 <= i < |kinds| ensures Classify(lines[i]) == kinds[i] && '\n' !in lines[i] {
      assert kinds[i] in kinds;
      KindLineOneLine(kinds[i]);
      if kinds[i].Opener? {
        ClassifyHeadLine(kinds[i].head);
      } else {
        ClassifySubpointLine(kinds[i].item);
      }
    }
    assert LineKinds(lines) == kinds;
    GroupedBlocks(items);
    if items == [] {
      assert lines == [];
    } else {
      assert kinds[0] == Opener(items[0].head);
      SplitJoin(lines, '\n');
      assert Join(lines, '\n') != [] by {
        TextPieces(RequirementMatch(items[0].head.title + ":", " ", items[0].head.statement));
        assert lines[0] == HeadLine(items[0].head);
      }
    }
  }

  /** There is one requirement per `- **` line, with that line's head, in
      document order. */
  lemma RequirementHeads(section: string)
    ensures var kinds := LineKinds(SectionLines(section));
      |Requirements(section)| == |Openers(kinds)|
      && forall j :: 0 <= j < |Openers(kinds)| ==> Requirements(section)[j].head == Openers(kinds)[j]
  {
    GroupedHeads(LineKinds(SectionLines(section)));
  }

  /** The requirement of the `- **` line `i` comes after one requirement per
      earlier such line, and its sub-points are those of the `  - ` lines between
      line `i` and the next `- **` line, in order. The last requirement takes
      the sub-points up to the end of the section. */
  lemma RequirementOfLine(section: string, i: nat)
    requires i < |SectionLines(section)| && StartsWith(SectionLines(section)[i], "- **")
    ensures var kinds := LineKinds(SectionLines(section)); var j := |Openers(kinds[..i])|;
      j < |Requirements(section)|
      && Requirements(section)[j] == Group(kinds[i].head, Members(kinds[i + 1..NextOpener(kinds, i + 1)]))
  {
    var kinds := LineKinds(SectionLines(section));
    assert kinds[i] == Classify(SectionLines(section)[i]);
    GroupedAt(kinds, i);
  }

  /** `  - ` lines, and any other lines, before the first `- **` line belong to
      no requirement. */
  lemma LeadingLinesDropped(lead: seq<string>, lines: seq<string>)
    requires forall i :: 0 <= i < |lead| ==> !StartsWith(lead[i], "- **")
    ensures Grouped(LineKinds(lead + lines)) == Grouped(LineKinds(lines))
  {
    var kinds := LineKinds(lead);
    LineKindsConcat(lead, lines);
    forall i | 0 <= i < |kinds| ensures !kinds[i].Opener? {
      NotOpener(lead[i]);
    }
    GroupedSkipsLeading(kinds, LineKinds(lines));
  }

  lemma NotOpener(line: string)
    requires !StartsWith(line, "- **")
    ensures !Classify(line).Opener?
  {
  }

  lemma LineKindsConcat(a: seq<string>, b: seq<string>)
    ensures LineKinds(a + b) == LineKinds(a) + LineKinds(b)
  {
    var whole, left, right := LineKinds(a + b), LineKinds(a), LineKinds(b);
    forall i | 0 <= i < |a + b| ensures whole[i] == (left + right)[i] {
      if i < |a| {
        assert (a + b)[i] == a[i];
        assert whole[i] == left[i];
      } else {
        assert (a + b)[i] == b[i - |a|];
        assert whole[i] == right[i - |a|];
      }
    }
  }

  /** A trimmed title, and a statement that is the placeholder or a non-empty
      normal text. */
  predicate GoodHead(head: RequirementHead) {
    IsTrimmed(head.title) && head.statement != []
    && (head.statement == Placeholder || IsNormal(head.statement))
  }

  /** Every requirement has a trimmed title and a statement that is never empty:
      the normalised text after the title, or the placeholder. Every sub-point is
      normal. */
  lemma RequirementsWellFormed(section: string)
    ensures forall g :: g in Requirements(section) ==>
      GoodHead(g.head) && forall p :: p in g.members ==> IsNormal(p)
  {
    var kinds := LineKinds(SectionLines(section));
    forall k | k in kinds ensures (k.Opener? ==> GoodHead(k.head)) && (k.Member? ==> IsNormal(k.item)) {
    }
    GroupedFrom(kinds, GoodHead, IsNormal);
  }
}
