/** The two list parsers that keep some lines of a section and map each one to an
    entry: `parseDeliverables` (script.js:939-948) and `parseEvaluation`
    (script.js:976-985). Both read each line trimmed. */
module Bullets {
  import opened Strings
  import opened Patterns

  /** A trimmed line starting with `- `: it is a line that has `-`, then a space,
      and is unchanged by `trim`. */
  lemma DashLine(line: string, rest: string)
    requires |line| >= 2 && line[0] == '-' && line[1] == ' ' && line[2..] == rest
    requires rest != [] && IsTrimmed(rest)
    ensures Trim(line) == line && StartsWith(line, "- ")
  {
    assert StartsWith(line, "- ") by {
      assert |"- "| == 2 && "- "[0] == line[0] && "- "[1] == line[1];
    }
    assert IsTrimmed(line) by {
      assert line[|line| - 1] == rest[|rest| - 1];
    }
    TrimTrimmed(line);
  }

  /** The line of a list entry, as the source renders deliverables and
      evaluation items: `- <item>`. */
  function ItemLine(item: string): string {
    "- " + item
  }

  /** One line per entry. */
  function ItemLines(items: seq<string>): (lines: seq<string>)
    ensures |lines| == |items|
    ensures forall i :: 0 <= i < |items| ==> lines[i] == ItemLine(items[i])
  {
    seq(|items|, i requires 0 <= i < |items| => ItemLine(items[i]))
  }

  /** The text of a list: the entry lines joined with line breaks. */
  function RenderList(items: seq<string>): string {
    Join(ItemLines(items), '\n')
  }

  /** The lines of a rendered list are the entry lines, as long as no entry
      holds a line break and the list is not a single empty entry. */
  lemma RenderListLines(items: seq<string>)
    requires forall i :: 0 <= i < |items| ==> items[i] != [] && '\n' !in items[i]
    ensures SectionLines(RenderList(items)) == ItemLines(items)
  {
    var lines := ItemLines(items);
    if items != [] {
      forall i | 0 <= i < |lines| ensures '\n' !in lines[i] {
        assert lines[i] == "- " + items[i];
      }
      SplitJoin(lines, '\n');
      assert RenderList(items) != [] by {
        assert lines[0] == "- " + items[0];
        if |lines| > 1 {
          assert Join(lines, '\n') == lines[0] + ['\n'] + Join(lines[1..], '\n');
        }
      }
    }
  }

  // ---------------------------------------------------------------- deliverables

  /** A line `parseDeliverables` keeps: its trimmed text starts with `- `. */
  predicate IsDeliverable(line: string) {
    StartsWith(Trim(line), "- ")
  }

  /** The entry of a kept line: the text after `- `, whitespace normalised. */
  function Deliverable(line: string): (r: string)
    requires IsDeliverable(line)
    ensures IsNormal(r)
  {
    NormaliseWhitespace(Trim(line)[2..])
  }

  /** The entries of the kept lines, in order. */
  function Deliverables(lines: seq<string>): (items: seq<string>)
    ensures |items| <= |lines|
  {
    if lines == [] then []
    else (if IsDeliverable(lines[0]) then [Deliverable(lines[0])] else []) + Deliverables(lines[1..])
  }

  /** Every entry is whitespace-normalised. */
  lemma {:induction false} DeliverablesNormal(lines: seq<string>)
    ensures forall i :: 0 <= i < |Deliverables(lines)| ==> IsNormal(Deliverables(lines)[i])
    decreases |lines|
  {
    if lines != [] {
      DeliverablesNormal(lines[1..]);
    }
  }

  /** `parseDeliverables`: nothing for an empty section. */
  function ParseDeliverables(section: string): seq<string> {
    Deliverables(SectionLines(section))
  }

  /** The entries of two runs of lines are those of the first run followed by
      those of the second: each line is kept or dropped on its own, in order. */
  lemma {:induction false} DeliverablesConcat(a: seq<string>, b: seq<string>)
    ensures Deliverables(a + b) == Deliverables(a) + Deliverables(b)
    decreases |a|
  {
    if a == [] {
      assert a + b == b;
    } else {
      var first := if IsDeliverable(a[0]) then [Deliverable(a[0])] else [];
      assert Deliverables(a + b) == first + Deliverables(a[1..] + b) by {
        assert (a + b)[0] == a[0];
        assert (a + b)[1..] == a[1..] + b;
      }
      DeliverablesConcat(a[1..], b);
      assert Deliverables(a) == first + Deliverables(a[1..]);
      Assoc(first, Deliverables(a[1..]), Deliverables(b));
    }
  }

  /** A single line gives one entry when it is kept and none otherwise. */
  lemma DeliverablesOfLine(line: string)
    ensures Deliverables([line]) == if IsDeliverable(line) then [Deliverable(line)] else []
  {
    assert [line][1..] == [];
  }

  /** The line of a normal entry is kept and gives that entry back. */
  lemma DeliverableOfItem(item: string)
    requires item != [] && IsNormal(item)
    ensures IsDeliverable(ItemLine(item)) && Deliverable(ItemLine(item)) == item
  {
    var line := ItemLine(item);
    DashLine(line, item);
    NormalIsFixed(item);
  }

  lemma {:induction false} DeliverablesOfItems(items: seq<string>)
    requires forall i :: 0 <= i < |items| ==> items[i] != [] && IsNormal(items[i])
    ensures Deliverables(ItemLines(items)) == items
    decreases |items|
  {
    if items != [] {
      DeliverableOfItem(items[0]);
      assert ItemLines(items)[1..] == ItemLines(items[1..]);
      DeliverablesOfItems(items[1..]);
    }
  }

  /** Parsing the rendered list of non-empty normal deliverables gives them back. */
  lemma DeliverablesRender(items: seq<string>)
    requires forall i :: 0 <= i < |items| ==> items[i] != [] && IsNormal(items[i])
    ensures ParseDeliverables(RenderList(items)) == items
  {
    forall i | 0 <= i < |items| ensures '\n' !in items[i] {
      NormalHasNoLineTerminator(items[i]);
    }
    RenderListLines(items);
    DeliverablesOfItems(items);
  }

  // ------------------------------------------------------------------ evaluation

  /** `^\d+\.`: a run of digits followed by a dot. */
  predicate NumberedStart(t: string) {
    var d := DigitRun(t, 0);
    0 < d < |t| && t[d] == '.'
  }

  /** A line `parseEvaluation` keeps: its trimmed text starts with `- ` or with
      digits and a dot. */
  predicate IsEvaluation(line: string) {
    var t := Trim(line);
    StartsWith(t, "- ") || NumberedStart(t)
  }

  /** A character of the class `[-\d\.\s]`. */
  predicate IsMarker(c: char) {
    c == '-' || IsDigit(c) || c == '.' || IsSpace(c)
  }

  /** The length of the run of marker characters starting at `p`. */
  function MarkerRun(s: string, p: nat): (k: nat)
    requires p <= |s|
    ensures p + k <= |s|
    ensures p + k == |s| || !IsMarker(s[p + k])
    decreases |s| - p
  {
    if p < |s| && IsMarker(s[p]) then 1 + MarkerRun(s, p + 1) else 0
  }

  /** `trim` of a text that does not start with whitespace only cuts its end. */
  lemma TrimKeepsStart(s: string)
    requires s != [] && !IsSpace(s[0])
    ensures Trim(s) != [] && Trim(s)[0] == s[0]
  {
    TrimStartPadded([], s);
    assert [] + s == s;
    TrimEndSpec(s);
  }

  /** The entry of a kept line: `line.replace(/^[-\d\.\s]+/, "").trim()`. It is
      trimmed and does not start with a marker character. */
  function Evaluation(line: string): (r: string)
    requires IsEvaluation(line)
    ensures IsTrimmed(r) && (r == [] || !IsMarker(r[0]))
  {
    var t := Trim(line);
    var rest := t[MarkerRun(t, 0)..];
    if rest != [] then TrimKeepsStart(rest); Trim(rest) else Trim(rest)
  }

  /** Any maximal run of marker characters is what `MarkerRun` measures. */
  lemma {:induction false} MarkerRunIs(s: string, p: nat, k: nat)
    requires p + k <= |s| && forall i :: p <= i < p + k ==> IsMarker(s[i])
    requires p + k == |s| || !IsMarker(s[p + k])
    ensures MarkerRun(s, p) == k
    decreases k
  {
    if k > 0 {
      MarkerRunIs(s, p + 1, k - 1);
    }
  }

  /** The entry of a kept line is its trimmed text with exactly the maximal
      leading run of marker characters removed, then trimmed. */
  lemma EvaluationSpec(line: string, k: nat)
    requires IsEvaluation(line)
    requires var t := Trim(line);
      k <= |t| && (forall i :: 0 <= i < k ==> IsMarker(t[i])) && (k == |t| || !IsMarker(t[k]))
    ensures Evaluation(line) == Trim(Trim(line)[k..])
  {
    MarkerRunIs(Trim(line), 0, k);
  }

  /** The entries of the kept lines, in order. */
  function Evaluations(lines: seq<string>): (items: seq<string>)
    ensures |items| <= |lines|
  {
    if lines == [] then []
    else (if IsEvaluation(lines[0]) then [Evaluation(lines[0])] else []) + Evaluations(lines[1..])
  }

  /** Every entry is trimmed and starts with no marker character. */
  lemma {:induction false} EvaluationsClean(lines: seq<string>)
    ensures forall i :: 0 <= i < |Evaluations(lines)| ==>
      var item := Evaluations(lines)[i];
      IsTrimmed(item) && (item == [] || !IsMarker(item[0]))
    decreases |lines|
  {
    if lines != [] {
      EvaluationsClean(lines[1..]);
    }
  }

  /** `parseEvaluation`: nothing for an empty section. */
  function ParseEvaluation(section: string): seq<string> {
    Evaluations(SectionLines(section))
  }

  /** Each line is kept or dropped on its own, in order. */
  lemma {:induction false} EvaluationsConcat(a: seq<string>, b: seq<string>)
    ensures Evaluations(a + b) == Evaluations(a) + Evaluations(b)
    decreases |a|
  {
    if a == [] {
      assert a + b == b;
    } else {
      var first := if IsEvaluation(a[0]) then [Evaluation(a[0])] else [];
      assert Evaluations(a + b) == first + Evaluations(a[1..] + b) by {
        assert (a + b)[0] == a[0];
        assert (a + b)[1..] == a[1..] + b;
      }
      EvaluationsConcat(a[1..], b);
      assert Evaluations(a) == first + Evaluations(a[1..]);
      Assoc(first, Evaluations(a[1..]), Evaluations(b));
    }
  }

  /** A single line gives one entry when it is kept and none otherwise. */
  lemma EvaluationsOfLine(line: string)
    ensures Evaluations([line]) == if IsEvaluation(line) then [Evaluation(line)] else []
  {
    assert [line][1..] == [];
  }

  /** An entry the parser reads back: non-empty, trimmed, on one line, and not
      starting with a character the marker pattern strips. */
  predicate PlainEvaluation(item: string) {
    item != [] && IsTrimmed(item) && NoLineTerminator(item) && !IsMarker(item[0])
  }

  /** The line of such an entry is kept and gives that entry back. */
  lemma EvaluationOfItem(item: string)
    requires PlainEvaluation(item)
    ensures IsEvaluation(ItemLine(item)) && Evaluation(ItemLine(item)) == item
  {
    var line := ItemLine(item);
    DashLine(line, item);
    assert MarkerRun(line, 2) == 0;
    assert MarkerRun(line, 1) == 1;
    assert MarkerRun(line, 0) == 2;
    TrimTrimmed(item);
  }

  lemma {:induction false} EvaluationsOfItems(items: seq<string>)
    requires forall i :: 0 <= i < |items| ==> PlainEvaluation(items[i])
    ensures Evaluations(ItemLines(items)) == items
    decreases |items|
  {
    if items != [] {
      EvaluationOfItem(items[0]);
      assert ItemLines(items)[1..] == ItemLines(items[1..]);
      EvaluationsOfItems(items[1..]);
    }
  }

  /** Parsing the rendered list of plain evaluation entries gives them back. */
  lemma EvaluationRender(items: seq<string>)
    requires forall i :: 0 <= i < |items| ==> PlainEvaluation(items[i])
    ensures ParseEvaluation(RenderList(items)) == items
  {
    forall i | 0 <= i < |items| ensures '\n' !in items[i] {
      NoLineFeed(items[i]);
    }
    RenderListLines(items);
    EvaluationsOfItems(items);
  }
}
