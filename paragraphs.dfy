/** `extractParagraphs` (script.js:859-867): a section is split at blank lines,
    each block is whitespace-normalised, and empty blocks are dropped. */
module Paragraphs {
  import opened Strings
  import opened Patterns

  /** The last line feed in `s[lo..hi]`. */
  function LastLineFeed(s: string, lo: nat, hi: nat): (r: Option<nat>)
    requires lo <= hi <= |s|
    ensures r.Some? ==> lo <= r.value < hi && s[r.value] == '\n'
    ensures r.None? ==> forall i :: lo <= i < hi ==> s[i] != '\n'
    ensures r.Some? ==> forall i :: r.value < i < hi ==> s[i] != '\n'
    decreases hi - lo
  {
    if hi == lo then None
    else if s[hi - 1] == '\n' then Some(hi - 1)
    else LastLineFeed(s, lo, hi - 1)
  }

  // The end of a match of `\n\s*\n` tried at `q`, if there is one. After the
  // line feed at `q`, the greedy `\s*` takes the whole whitespace run and gives
  // characters back until a line feed follows; the match ends after the last
  // line feed of the run.
  function SeparatorEnd(s: string, q: nat): (e: Option<nat>)
    requires q <= |s|
    ensures e.Some? ==> q + 2 <= e.value <= |s|
  {
    if q < |s| && s[q] == '\n' then
      var w := SpaceRun(s, q + 1);
      match LastLineFeed(s, q + 1, q + 1 + w)
      case Some(r) => Some(r + 1)
      case None => None
    else None
  }

  /** A separator is whitespace only. */
  lemma SeparatorIsSpace(s: string, q: nat)
    requires q <= |s| && SeparatorEnd(s, q).Some?
    ensures AllSpace(s[q..SeparatorEnd(s, q).value])
  {
    var w := SpaceRun(s, q + 1);
    var e := SeparatorEnd(s, q).value;
    SpaceRunSpec(s, q + 1);
    forall i | q <= i < e ensures IsSpace(s[i]) {
    }
    assert forall i :: 0 <= i < e - q ==> s[q..e][i] == s[q + i];
  }

  // `s.split(/\n\s*\n/)` from the block starting at `p`, with the positions
  // before `q` known not to start a separator: the split scans forward for the
  // next separator, cuts the block before it and restarts after it.
  function SplitBlocks(s: string, p: nat, q: nat): (blocks: seq<string>)
    requires p <= q <= |s|
    ensures |blocks| >= 1
    decreases |s| - q
  {
    if q == |s| then [s[p..]]
    else
      match SeparatorEnd(s, q)
      case Some(e) => [s[p..q]] + SplitBlocks(s, e, e)
      case None => SplitBlocks(s, p, q + 1)
  }

  /** The paragraphs of the normalised blocks that are not empty, in order. */
  function NormalBlocks(blocks: seq<string>): (paragraphs: seq<string>)
    ensures |paragraphs| <= |blocks|
  {
    if blocks == [] then []
    else
      var paragraph := NormaliseWhitespace(blocks[0]);
      (if paragraph != [] then [paragraph] else []) + NormalBlocks(blocks[1..])
  }

  /** Every paragraph is non-empty and whitespace-normalised. */
  lemma {:induction false} NormalBlocksNormal(blocks: seq<string>)
    ensures forall i :: 0 <= i < |NormalBlocks(blocks)| ==>
      NormalBlocks(blocks)[i] != [] && IsNormal(NormalBlocks(blocks)[i])
    decreases |blocks|
  {
    if blocks != [] {
      NormalBlocksNormal(blocks[1..]);
    }
  }

  /** `extractParagraphs`: nothing for an empty section. */
  function ExtractParagraphs(section: string): seq<string> {
    if section == [] then [] else NormalBlocks(SplitBlocks(section, 0, 0))
  }

  /** Every extracted paragraph is non-empty and whitespace-normalised. */
  lemma ParagraphsNormal(section: string)
    ensures forall i :: 0 <= i < |ExtractParagraphs(section)| ==>
      ExtractParagraphs(section)[i] != [] && IsNormal(ExtractParagraphs(section)[i])
  {
    if section != [] {
      NormalBlocksNormal(SplitBlocks(section, 0, 0));
    }
  }

  /** The visible characters of a list of texts, one text after another. */
  function VisibleText(texts: seq<string>): string {
    if texts == [] then [] else NonSpace(texts[0]) + VisibleText(texts[1..])
  }

  /** The split drops only whitespace: the visible characters of the blocks are
      those of the text. */
  lemma {:induction false} SplitBlocksVisible(s: string, p: nat, q: nat)
    requires p <= q <= |s|
    ensures VisibleText(SplitBlocks(s, p, q)) == NonSpace(s[p..])
    decreases |s| - q
  {
    if q == |s| {
      assert SplitBlocks(s, p, q)[1..] == [];
    } else {
      match SeparatorEnd(s, q)
      case Some(e) =>
        var blocks := SplitBlocks(s, p, q);
        assert blocks[1..] == SplitBlocks(s, e, e);
        SplitBlocksVisible(s, e, e);
        SeparatorIsSpace(s, q);
        NonSpaceOfSpaces(s[q..e]);
        assert s[p..] == s[p..q] + s[q..e] + s[e..];
        NonSpaceConcat(s[p..q] + s[q..e], s[e..]);
        NonSpaceConcat(s[p..q], s[q..e]);
      case None =>
        SplitBlocksVisible(s, p, q + 1);
    }
  }

  /** Normalising and dropping empty blocks keeps every visible character. */
  lemma {:induction false} NormalBlocksVisible(blocks: seq<string>)
    ensures VisibleText(NormalBlocks(blocks)) == VisibleText(blocks)
    decreases |blocks|
  {
    if blocks != [] {
      NormalBlocksVisible(blocks[1..]);
      var paragraph := NormaliseWhitespace(blocks[0]);
      var rest := NormalBlocks(blocks[1..]);
      assert VisibleText(blocks) == NonSpace(blocks[0]) + VisibleText(blocks[1..]);
      assert NonSpace(paragraph) == NonSpace(blocks[0]);
      if paragraph != [] {
        assert NormalBlocks(blocks) == [paragraph] + rest;
        assert ([paragraph] + rest)[1..] == rest;
      } else {
        assert NormalBlocks(blocks) == rest;
      }
    }
  }

  /** The paragraphs hold exactly the visible characters of the section, in
      order: only whitespace is removed or changed. */
  lemma ParagraphsVisible(section: string)
    ensures VisibleText(ExtractParagraphs(section)) == NonSpace(section)
  {
    if section != [] {
      SplitBlocksVisible(section, 0, 0);
      NormalBlocksVisible(SplitBlocks(section, 0, 0));
      assert section[0..] == section;
    }
  }

  /** Paragraphs joined by blank lines. */
  function JoinParagraphs(paragraphs: seq<string>): string
    decreases |paragraphs|
  {
    if |paragraphs| == 0 then []
    else if |paragraphs| == 1 then paragraphs[0]
    else paragraphs[0] + "\n\n" + JoinParagraphs(paragraphs[1..])
  }

  /** Positions without a separator are skipped. */
  lemma {:induction false} SplitBlocksSkip(s: string, p: nat, q: nat, r: nat)
    requires p <= q <= r <= |s|
    requires forall i :: q <= i < r ==> s[i] != '\n'
    ensures SplitBlocks(s, p, q) == SplitBlocks(s, p, r)
    decreases r - q
  {
    if q < r {
      SplitBlocksSkip(s, p, q + 1, r);
    }
  }

  /** The split of a text made of paragraphs joined by blank lines. */
  lemma {:induction false} SplitJoined(s: string, p: nat, paragraphs: seq<string>)
    requires p <= |s| && s[p..] == JoinParagraphs(paragraphs) && paragraphs != []
    requires forall i :: 0 <= i < |paragraphs| ==> paragraphs[i] != [] && IsNormal(paragraphs[i])
    ensures SplitBlocks(s, p, p) == paragraphs
    decreases |paragraphs|
  {
    if |paragraphs| == 1 {
      SplitJoinedOne(s, p, paragraphs);
    } else {
      var q := p + |paragraphs[0]|;
      JoinedTail(s, p, paragraphs);
      SplitJoined(s, q + 2, paragraphs[1..]);
      JoinedHead(s, p, paragraphs);
      JoinedGap(s, p, paragraphs);
      SplitJoinedStep(s, p, q, paragraphs[1], paragraphs[1..]);
      Cons(paragraphs);
    }
  }

  lemma SplitJoinedOne(s: string, p: nat, paragraphs: seq<string>)
    requires p <= |s| && s[p..] == JoinParagraphs(paragraphs) && |paragraphs| == 1
    requires paragraphs[0] != [] && IsNormal(paragraphs[0])
    ensures SplitBlocks(s, p, p) == paragraphs
  {
    JoinedHead(s, p, paragraphs);
    SplitBlocksSkip(s, p, p, |s|);
  }

  /** After the first paragraph and its blank line come the other paragraphs. */
  lemma JoinedTail(s: string, p: nat, paragraphs: seq<string>)
    requires p <= |s| && s[p..] == JoinParagraphs(paragraphs) && |paragraphs| > 1
    requires forall i :: 0 <= i < |paragraphs| ==> paragraphs[i] != [] && IsNormal(paragraphs[i])
    ensures var rest := paragraphs[1..];
      p + |paragraphs[0]| + 2 <= |s| && s[p + |paragraphs[0]| + 2..] == JoinParagraphs(rest)
      && rest != [] && forall i :: 0 <= i < |rest| ==> rest[i] != [] && IsNormal(rest[i])
  {
    var q := p + |paragraphs[0]|;
    SuffixConcat(s, p, paragraphs[0], "\n\n" + JoinParagraphs(paragraphs[1..]));
    SuffixConcat(s, q, "\n\n", JoinParagraphs(paragraphs[1..]));
    var rest := paragraphs[1..];
    assert forall i :: 0 <= i < |rest| ==> rest[i] == paragraphs[i + 1];
  }

  /** The split of a text whose first block, up to `q`, has no line feed and
      is followed by a blank line, given the split of what follows. */
  lemma SplitJoinedStep(s: string, p: nat, q: nat, next: string, rest: seq<string>)
    requires p <= q && q + 2 < |s| && forall i :: p <= i < q ==> s[i] != '\n'
    requires next != [] && IsNormal(next)
    requires s[q] == '\n' && s[q + 1] == '\n' && s[q + 2] == next[0]
    requires SplitBlocks(s, q + 2, q + 2) == rest
    ensures SplitBlocks(s, p, p) == [s[p..q]] + rest
  {
    SplitBlocksSkip(s, p, p, q);
    SplitJoinedSeparator(s, q, next);
    SplitBlocksCut(s, p, q, q + 2);
  }

  /** The blank line after the first paragraph, and the start of the next. */
  lemma JoinedGap(s: string, p: nat, paragraphs: seq<string>)
    requires p <= |s| && s[p..] == JoinParagraphs(paragraphs) && |paragraphs| > 1
    requires paragraphs[1] != []
    ensures var q := p + |paragraphs[0]|;
      q + 2 < |s| && s[q] == '\n' && s[q + 1] == '\n' && s[q + 2] == paragraphs[1][0]
  {
    var q := p + |paragraphs[0]|;
    var rest := JoinParagraphs(paragraphs[1..]);
    SuffixConcat(s, p, paragraphs[0], "\n\n" + rest);
    SuffixConcat(s, q, "\n\n", rest);
    JoinParagraphsStart(paragraphs[1..]);
    assert rest[..|paragraphs[1]|] == paragraphs[1];
    assert s[q + 2..][0] == rest[0];
  }

  /** The split cuts a block at the separator that ends at `e`. */
  lemma SplitBlocksCut(s: string, p: nat, q: nat, e: nat)
    requires p <= q < |s| && SeparatorEnd(s, q) == Some(e)
    ensures SplitBlocks(s, p, q) == [s[p..q]] + SplitBlocks(s, e, e)
  {
  }

  /** The first paragraph opens the text, and holds no line feed. */
  lemma JoinedHead(s: string, p: nat, paragraphs: seq<string>)
    requires p <= |s| && s[p..] == JoinParagraphs(paragraphs) && paragraphs != []
    requires IsNormal(paragraphs[0])
    ensures var q := p + |paragraphs[0]|;
      q <= |s| && s[p..q] == paragraphs[0] && (forall i :: p <= i < q ==> s[i] != '\n')
      && (|paragraphs| == 1 ==> q == |s|)
  {
    var first := paragraphs[0];
    var q := p + |first|;
    if |paragraphs| > 1 {
      SuffixConcat(s, p, first, "\n\n" + JoinParagraphs(paragraphs[1..]));
    } else {
      SuffixConcat(s, p, first, []);
    }
    NormalHasNoLineTerminator(first);
    NoLineFeed(first);
    assert forall i :: p <= i < q ==> s[i] == first[i - p];
  }

  /** A suffix that is a concatenation splits into its two parts. */
  lemma SuffixConcat<T>(s: seq<T>, p: nat, a: seq<T>, b: seq<T>)
    requires p <= |s| && s[p..] == a + b
    ensures p + |a| <= |s| && s[p..p + |a|] == a && s[p + |a|..] == b
  {
    assert s[p..][..|a|] == a && s[p..][|a|..] == b;
    SliceOfSuffix(s, p, |a|);
  }

  /** The blank line between two paragraphs is one separator. */
  lemma SplitJoinedSeparator(s: string, q: nat, next: string)
    requires next != [] && IsNormal(next)
    requires q + 2 < |s| && s[q] == '\n' && s[q + 1] == '\n' && s[q + 2] == next[0]
    ensures SeparatorEnd(s, q) == Some(q + 2)
  {
    SpaceRunIs(s, q + 1, 1);
  }

  /** A joined paragraph starts with its first paragraph. */
  lemma JoinParagraphsStart(paragraphs: seq<string>)
    requires paragraphs != []
    ensures |JoinParagraphs(paragraphs)| >= |paragraphs[0]|
    ensures JoinParagraphs(paragraphs)[..|paragraphs[0]|] == paragraphs[0]
  {
  }

  lemma {:induction false} NormalBlocksOfNormal(paragraphs: seq<string>)
    requires forall i :: 0 <= i < |paragraphs| ==> paragraphs[i] != [] && IsNormal(paragraphs[i])
    ensures NormalBlocks(paragraphs) == paragraphs
    decreases |paragraphs|
  {
    if paragraphs != [] {
      var first, rest := paragraphs[0], paragraphs[1..];
      assert NormalBlocks(rest) == rest by {
        NormalBlocksOfNormal(rest);
      }
      assert NormaliseWhitespace(first) == first by {
        NormalIsFixed(first);
      }
      assert NormalBlocks(paragraphs) == [first] + NormalBlocks(rest);
      Cons(paragraphs);
    }
  }

  /** Extracting the paragraphs of non-empty normal paragraphs joined by blank
      lines gives them back. */
  lemma ParagraphsRender(paragraphs: seq<string>)
    requires forall i :: 0 <= i < |paragraphs| ==> paragraphs[i] != [] && IsNormal(paragraphs[i])
    ensures ExtractParagraphs(JoinParagraphs(paragraphs)) == paragraphs
  {
    if paragraphs != [] {
      var s := JoinParagraphs(paragraphs);
      JoinParagraphsStart(paragraphs);
      assert s[0..] == s;
      SplitJoined(s, 0, paragraphs);
      NormalBlocksOfNormal(paragraphs);
    }
  }
}
