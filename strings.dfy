/** The string operations of the JavaScript runtime that the proposal extraction
    pipeline of script.js relies on: `trim`, `split` on one character, `startsWith`,
    and the whitespace normalisation used by every parser. A JavaScript string is
    modelled as a sequence of characters. */
module Strings {

  datatype Option<+T> = None | Some(value: T)

  /** ECMAScript LineTerminator: the characters `.` does not match and at which
      `^` and `$` in multiline mode see a line boundary. */
  predicate IsLineTerminator(c: char) {
    c == '\n' || c == '\r' || c == '\U{2028}' || c == '\U{2029}'
  }

  /** ECMAScript WhiteSpace or LineTerminator: the class `\s` and what `trim` removes. */
  predicate IsSpace(c: char) {
    || IsLineTerminator(c)
    || c == '\t' || c == '\U{000B}' || c == '\U{000C}' || c == ' ' || c == '\U{00A0}'
    || c == '\U{1680}' || ('\U{2000}' <= c <= '\U{200A}') || c == '\U{202F}'
    || c == '\U{205F}' || c == '\U{3000}' || c == '\U{FEFF}'
  }

  /** The class `\d`: an ASCII decimal digit. */
  predicate IsDigit(c: char) {
    '0' <= c <= '9'
  }

  predicate AllSpace(s: string) {
    forall i :: 0 <= i < |s| ==> IsSpace(s[i])
  }

  predicate NoLineTerminator(s: string) {
    forall i :: 0 <= i < |s| ==> !IsLineTerminator(s[i])
  }

  /** Neither end is whitespace: the shape of every result of `trim`. */
  predicate IsTrimmed(s: string) {
    s == [] || (!IsSpace(s[0]) && !IsSpace(s[|s| - 1]))
  }

  /** `s.startsWith(prefix)`. */
  predicate StartsWith(s: string, prefix: string) {
    prefix <= s
  }

  /** `s.trimStart()`: the suffix left after the leading whitespace. */
  function TrimStart(s: string): (r: string)
    ensures |r| <= |s|
  {
    if s != [] && IsSpace(s[0]) then TrimStart(s[1..]) else s
  }

  /** `TrimStart` drops exactly the leading whitespace. */
  lemma TrimStartSpec(s: string)
    ensures var r := TrimStart(s);
      r == s[|s| - |r|..] && AllSpace(s[..|s| - |r|]) && (r == [] || !IsSpace(r[0]))
  {
    TrimStartSuffix(s);
    TrimStartSpaces(s);
    TrimStartFirst(s);
  }

  lemma {:induction false} TrimStartSuffix(s: string)
    ensures TrimStart(s) == s[|s| - |TrimStart(s)|..]
  {
    if s != [] && IsSpace(s[0]) {
      TrimStartSuffix(s[1..]);
      assert s[1..][|s| - 1 - |TrimStart(s[1..])|..] == s[|s| - |TrimStart(s[1..])|..];
    }
  }

  lemma {:induction false} TrimStartSpaces(s: string)
    ensures AllSpace(s[..|s| - |TrimStart(s)|])
  {
    if s != [] && IsSpace(s[0]) {
      var k := |s| - |TrimStart(s)|;
      TrimStartSpaces(s[1..]);
      assert TrimStart(s) == TrimStart(s[1..]);
      assert s[..k] == [s[0]] + s[1..][..k - 1];
      AllSpaceCons(s[0], s[1..][..k - 1]);
    }
  }

  lemma {:induction false} TrimStartFirst(s: string)
    ensures TrimStart(s) == [] || !IsSpace(TrimStart(s)[0])
  {
    if s != [] && IsSpace(s[0]) {
      TrimStartFirst(s[1..]);
    }
  }

  lemma AllSpaceCons(c: char, x: string)
    requires IsSpace(c) && AllSpace(x)
    ensures AllSpace([c] + x)
  {
    forall i | 0 <= i < |[c] + x| ensures IsSpace(([c] + x)[i]) {
      if i > 0 {
        assert ([c] + x)[i] == x[i - 1];
      }
    }
  }

  /** `s.trimEnd()`: the prefix left before the trailing whitespace. */
  function TrimEnd(s: string): (r: string)
    ensures |r| <= |s|
  {
    if s != [] && IsSpace(s[|s| - 1]) then TrimEnd(s[..|s| - 1]) else s
  }

  /** `TrimEnd` drops exactly the trailing whitespace. */
  lemma TrimEndSpec(s: string)
    ensures var r := TrimEnd(s);
      r == s[..|r|] && AllSpace(s[|r|..]) && (r == [] || !IsSpace(r[|r| - 1]))
  {
    TrimEndPrefix(s);
    TrimEndSpaces(s);
    TrimEndLast(s);
  }

  lemma {:induction false} TrimEndPrefix(s: string)
    ensures TrimEnd(s) == s[..|TrimEnd(s)|]
  {
    if s != [] && IsSpace(s[|s| - 1]) {
      var u := s[..|s| - 1];
      TrimEndPrefix(u);
      PrefixOfPrefix(s, |s| - 1, |TrimEnd(u)|);
    }
  }

  lemma {:induction false} TrimEndSpaces(s: string)
    ensures AllSpace(s[|TrimEnd(s)|..])
  {
    if s != [] && IsSpace(s[|s| - 1]) {
      var u := s[..|s| - 1];
      TrimEndSpaces(u);
      var k := |TrimEnd(u)|;
      assert TrimEnd(s) == TrimEnd(u);
      AllSpaceSnoc(u[k..], s[|s| - 1]);
      PrefixOfPrefix(s, |s| - 1, k);
      assert s[k..] == s[k..|s| - 1] + [s[|s| - 1]];
    }
  }

  lemma {:induction false} TrimEndLast(s: string)
    ensures TrimEnd(s) == [] || !IsSpace(TrimEnd(s)[|TrimEnd(s)| - 1])
  {
    if s != [] && IsSpace(s[|s| - 1]) {
      TrimEndLast(s[..|s| - 1]);
    }
  }

  lemma PrefixOfPrefix<T>(s: seq<T>, n: nat, k: nat)
    requires k <= n <= |s|
    ensures s[..n][..k] == s[..k] && s[..n][k..] == s[k..n]
  {
  }

  lemma AllSpaceSnoc(x: string, c: char)
    requires AllSpace(x) && IsSpace(c)
    ensures AllSpace(x + [c])
  {
    forall i | 0 <= i < |x + [c]| ensures IsSpace((x + [c])[i]) {
      if i < |x| {
        assert (x + [c])[i] == x[i];
      }
    }
  }

  /** `s.trim()`: the infix of `s` left once the whitespace at both ends is gone. */
  function Trim(s: string): (r: string)
    ensures IsTrimmed(r) && |r| <= |s|
  {
    TrimStartSpec(s);
    TrimEndSpec(TrimStart(s));
    TrimEnd(TrimStart(s))
  }

  /** Where the result of `trim` sits in its input: after the leading whitespace,
      with only whitespace after it. */
  lemma TrimSlice(s: string)
    ensures var r, i := Trim(s), |s| - |TrimStart(s)|;
      i + |r| <= |s| && r == s[i..i + |r|] && AllSpace(s[..i]) && AllSpace(s[i + |r|..])
  {
    TrimMiddle(s);
    TrimStartSpaces(s);
    TrimTrail(s);
  }

  lemma TrimMiddle(s: string)
    ensures var r, i := Trim(s), |s| - |TrimStart(s)|;
      i + |r| <= |s| && r == s[i..i + |r|]
  {
    var t := TrimStart(s);
    var i := |s| - |t|;
    var r := TrimEnd(t);
    TrimStartSuffix(s);
    TrimEndPrefix(t);
    assert Trim(s) == r;
    assert r == s[i..][..|r|];
    SliceOfSuffix(s, i, |r|);
  }

  lemma TrimTrail(s: string)
    ensures var r, i := Trim(s), |s| - |TrimStart(s)|;
      i + |r| <= |s| && AllSpace(s[i + |r|..])
  {
    var t := TrimStart(s);
    var r := TrimEnd(t);
    TrimStartSuffix(s);
    TrimEndSpaces(t);
    TrailOfSuffix(s, t, r);
  }

  lemma TrailOfSuffix(s: string, t: string, r: string)
    requires |t| <= |s| && t == s[|s| - |t|..] && |r| <= |t| && AllSpace(t[|r|..])
    ensures AllSpace(s[|s| - |t| + |r|..])
  {
    assert s[|s| - |t| + |r|..] == t[|r|..];
  }

  lemma SliceOfSuffix<T>(s: seq<T>, i: nat, k: nat)
    requires i + k <= |s|
    ensures s[i..][..k] == s[i..i + k] && s[i..][k..] == s[i + k..]
  {
  }

  /** Whitespace around a trimmed text is exactly what `trim` removes. */
  lemma {:induction false} TrimPadded(a: string, t: string, b: string)
    requires AllSpace(a) && AllSpace(b) && IsTrimmed(t)
    ensures Trim(a + t + b) == t
  {
    if t == [] {
      assert a + t + b == a + b;
      assert AllSpace(a + b) by {
        forall i | 0 <= i < |a + b| ensures IsSpace((a + b)[i]) {
          if i >= |a| { assert (a + b)[i] == b[i - |a|]; }
        }
      }
      TrimStartPadded(a + b, []);
      assert a + b + [] == a + b;
    } else {
      TrimStartPadded(a, t + b);
      assert TrimStart(a + t + b) == t + b by { assert a + t + b == a + (t + b); }
      TrimEndPadded(t, b);
    }
  }

  /** `trim` leaves a trimmed text as it is. */
  lemma TrimTrimmed(s: string)
    requires IsTrimmed(s)
    ensures Trim(s) == s
  {
    TrimPadded([], s, []);
    assert [] + s + [] == s;
  }

  lemma {:induction false} TrimStartPadded(a: string, u: string)
    requires AllSpace(a) && (u == [] || !IsSpace(u[0]))
    ensures TrimStart(a + u) == u
    decreases |a|
  {
    if a != [] {
      assert (a + u)[1..] == a[1..] + u;
      TrimStartPadded(a[1..], u);
    } else {
      assert a + u == u;
    }
  }

  lemma {:induction false} TrimEndPadded(u: string, b: string)
    requires AllSpace(b) && (u == [] || !IsSpace(u[|u| - 1]))
    ensures TrimEnd(u + b) == u
    decreases |b|
  {
    if b != [] {
      assert (u + b)[..|u + b| - 1] == u + b[..|b| - 1];
      TrimEndPadded(u, b[..|b| - 1]);
    } else {
      assert u + b == u;
    }
  }

  /** Index of the first `c` in `s`, or `|s|` when `s` has none. */
  function IndexOf(s: string, c: char): (k: nat)
    ensures k <= |s| && c !in s[..k]
    ensures k < |s| ==> s[k] == c
  {
    if s == [] then 0
    else if s[0] == c then 0
    else 1 + IndexOf(s[1..], c)
  }

  /** `s.split(sep)` for a one-character separator: at least one piece, and
      no piece contains the separator. */
  function Split(s: string, sep: char): (parts: seq<string>)
    ensures |parts| >= 1
    ensures forall i :: 0 <= i < |parts| ==> sep !in parts[i]
    decreases |s|
  {
    var k := IndexOf(s, sep);
    if k == |s| then [s] else [s[..k]] + Split(s[k + 1..], sep)
  }

  /** `parts.join(sep)`, the inverse of `Split`. */
  function Join(parts: seq<string>, sep: char): string
  {
    if |parts| == 0 then []
    else if |parts| == 1 then parts[0]
    else parts[0] + [sep] + Join(parts[1..], sep)
  }

  /** The lines of a section as the parsers read them: none for an empty
      section (each parser returns early on it), otherwise `section.split("\n")`. */
  function SectionLines(section: string): (lines: seq<string>)
    ensures forall i :: 0 <= i < |lines| ==> '\n' !in lines[i]
  {
    if section == [] then [] else Split(section, '\n')
  }

  /** Joining the pieces of a split gives the text back. */
  lemma {:induction false} JoinSplit(s: string, sep: char)
    ensures Join(Split(s, sep), sep) == s
    decreases |s|
  {
    var k := IndexOf(s, sep);
    if k < |s| {
      JoinSplit(s[k + 1..], sep);
      JoinSplitStep(s, sep);
    }
  }

  lemma JoinSplitStep(s: string, sep: char)
    requires IndexOf(s, sep) < |s|
    requires Join(Split(s[IndexOf(s, sep) + 1..], sep), sep) == s[IndexOf(s, sep) + 1..]
    ensures Join(Split(s, sep), sep) == s
  {
    var k := IndexOf(s, sep);
    var head, tail := s[..k], s[k + 1..];
    var rest := Split(tail, sep);
    assert Split(s, sep) == [head] + rest;
    assert Join([head] + rest, sep) == head + [sep] + tail by {
      JoinCons(head, rest, sep);
    }
    assert s == head + [sep] + tail by {
      Around(s, k);
    }
  }

  /** Concatenation is associative. */
  lemma Assoc<T>(x: seq<T>, y: seq<T>, z: seq<T>)
    ensures x + (y + z) == (x + y) + z
  {
  }

  /** A non-empty sequence is its first element followed by the rest. */
  lemma Cons<T>(s: seq<T>)
    requires s != []
    ensures s == [s[0]] + s[1..]
  {
  }

  /** A non-empty sequence is its front followed by its last element. */
  lemma Snoc<T>(s: seq<T>)
    requires s != []
    ensures s == s[..|s| - 1] + [s[|s| - 1]]
  {
  }

  /** A sequence is the part before position `k`, the element at `k`, and the
      part after it. */
  lemma Around<T>(s: seq<T>, k: nat)
    requires k < |s|
    ensures s == s[..k] + [s[k]] + s[k + 1..]
  {
  }

  /** One step of `Join` on a list of two or more pieces. */
  lemma JoinCons(head: string, rest: seq<string>, sep: char)
    requires |rest| >= 1
    ensures Join([head] + rest, sep) == head + [sep] + Join(rest, sep)
  {
    assert ([head] + rest)[1..] == rest;
  }

  /** Splitting the join of separator-free pieces gives the pieces back. */
  lemma {:induction false} SplitJoin(parts: seq<string>, sep: char)
    requires |parts| >= 1
    requires forall i :: 0 <= i < |parts| ==> sep !in parts[i]
    ensures Split(Join(parts, sep), sep) == parts
    decreases |parts|
  {
    if |parts| == 1 {
      var s := parts[0];
      assert s[..|s|] == s;
    } else {
      var rest := Join(parts[1..], sep);
      var s := parts[0] + [sep] + rest;
      var k := IndexOf(s, sep);
      var p := parts[0];
      assert s[|p|] == sep;
      assert k == |p|;
      assert s[..k] == p && s[k + 1..] == rest;
      SplitJoin(parts[1..], sep);
      assert parts == [p] + parts[1..];
    }
  }

  /** The non-whitespace characters of `s`, in order. */
  function NonSpace(s: string): string
  {
    if s == [] then []
    else if IsSpace(s[0]) then NonSpace(s[1..])
    else [s[0]] + NonSpace(s[1..])
  }

  lemma {:induction false} NonSpaceConcat(a: string, b: string)
    ensures NonSpace(a + b) == NonSpace(a) + NonSpace(b)
    decreases |a|
  {
    if a != [] {
      assert (a + b)[1..] == a[1..] + b;
      NonSpaceConcat(a[1..], b);
    } else {
      assert a + b == b;
    }
  }

  lemma {:induction false} NonSpaceOfSpaces(a: string)
    requires AllSpace(a)
    ensures NonSpace(a) == []
    decreases |a|
  {
    if a != [] {
      NonSpaceOfSpaces(a[1..]);
    }
  }

  /** Trimming never drops a visible character. */
  lemma NonSpaceTrim(s: string)
    ensures NonSpace(Trim(s)) == NonSpace(s)
  {
    var r := Trim(s);
    var i := |s| - |TrimStart(s)|;
    TrimSlice(s);
    var a, b := s[..i], s[i + |r|..];
    Three(s, i, i + |r|);
    NonSpaceConcat(a + r, b);
    NonSpaceConcat(a, r);
    NonSpaceOfSpaces(a);
    NonSpaceOfSpaces(b);
  }

  lemma Three<T>(s: seq<T>, i: nat, j: nat)
    requires i <= j <= |s|
    ensures s == s[..i] + s[i..j] + s[j..]
  {
  }

  /** Every whitespace character is a plain space, and none is followed by
      another whitespace character. */
  predicate SingleSpaced(s: string) {
    forall i :: 0 <= i < |s| && IsSpace(s[i]) ==> s[i] == ' ' && (i + 1 < |s| ==> !IsSpace(s[i + 1]))
  }

  /** What `normaliseWhitespace` produces: single plain spaces between words,
      none at either end. */
  predicate IsNormal(s: string) {
    SingleSpaced(s) && IsTrimmed(s)
  }

  /** `s.replace(/\s+/g, " ")`: each maximal run of whitespace becomes one space. */
  function CollapseRuns(s: string): (r: string)
    ensures SingleSpaced(r)
    ensures NonSpace(r) == NonSpace(s)
    ensures s == [] <==> r == []
    ensures s != [] ==> (IsSpace(s[0]) <==> IsSpace(r[0]))
    decreases |s|
  {
    if s == [] then []
    else if IsSpace(s[0]) then
      var rest := TrimStart(s);
      SkipSpaceRun(s);
      var c := CollapseRuns(rest);
      SpaceThen(c);
      " " + c
    else
      var c := CollapseRuns(s[1..]);
      VisibleThen(s[0], c);
      [s[0]] + c
  }

  /** Dropping a leading whitespace run shortens the text and keeps its
      visible characters; what is left does not start with whitespace. */
  lemma SkipSpaceRun(s: string)
    requires s != [] && IsSpace(s[0])
    ensures var rest := TrimStart(s);
      |rest| < |s| && NonSpace(rest) == NonSpace(s) && (rest == [] || !IsSpace(rest[0]))
  {
    var rest := TrimStart(s);
    TrimStartSpec(s);
    var k := |s| - |rest|;
    assert TrimStart(s) == TrimStart(s[1..]);
    NonSpaceConcat(s[..k], rest);
    NonSpaceOfSpaces(s[..k]);
    assert s == s[..k] + rest;
  }

  lemma SpaceThen(c: string)
    requires SingleSpaced(c) && (c == [] || !IsSpace(c[0]))
    ensures SingleSpaced(" " + c) && NonSpace(" " + c) == NonSpace(c)
  {
    assert (" " + c)[1..] == c;
  }

  lemma VisibleThen(x: char, c: string)
    requires !IsSpace(x) && SingleSpaced(c)
    ensures SingleSpaced([x] + c) && NonSpace([x] + c) == [x] + NonSpace(c)
  {
    assert ([x] + c)[1..] == c;
  }

  /** `trimStart` of a text ending in a visible character stops inside it. */
  lemma {:induction false} TrimStartConcat(a: string, t: string)
    requires a != [] && !IsSpace(a[|a| - 1])
    ensures TrimStart(a + t) == TrimStart(a) + t
    decreases |a|
  {
    assert (a + t)[0] == a[0];
    if IsSpace(a[0]) {
      assert (a + t)[1..] == a[1..] + t;
      TrimStartConcat(a[1..], t);
    }
  }

  /** What `trimStart` leaves of a text ending in a visible character still
      ends in it. */
  lemma TrimStartKeepsEnd(a: string)
    requires a != [] && !IsSpace(a[|a| - 1])
    ensures var rest := TrimStart(a);
      rest != [] && rest[|rest| - 1] == a[|a| - 1]
  {
    var rest := TrimStart(a);
    TrimStartSuffix(a);
    TrimStartSpaces(a);
  }

  /** Collapsing distributes over a cut made just after a visible character. */
  lemma {:induction false} CollapseConcat(a: string, t: string)
    requires a != [] && !IsSpace(a[|a| - 1])
    ensures CollapseRuns(a + t) == CollapseRuns(a) + CollapseRuns(t)
    decreases |a|
  {
    assert (a + t)[0] == a[0];
    if IsSpace(a[0]) {
      var rest := TrimStart(a);
      TrimStartConcat(a, t);
      TrimStartKeepsEnd(a);
      CollapseConcat(rest, t);
      Assoc(" ", CollapseRuns(rest), CollapseRuns(t));
    } else if |a| == 1 {
      assert (a + t)[1..] == t;
    } else {
      assert (a + t)[1..] == a[1..] + t;
      CollapseConcat(a[1..], t);
      Assoc([a[0]], CollapseRuns(a[1..]), CollapseRuns(t));
    }
  }

  /** A whitespace run in front of a visible character, or at the end,
      collapses to one space. */
  lemma CollapseSpaceRun(w: string, b: string)
    requires w != [] && AllSpace(w) && (b == [] || !IsSpace(b[0]))
    ensures CollapseRuns(w + b) == " " + CollapseRuns(b)
  {
    assert (w + b)[0] == w[0];
    TrimStartPadded(w, b);
  }

  /** A whitespace run between a visible character and the next one (or the
      end) becomes exactly one space, and the text on either side collapses
      on its own. */
  lemma CollapseAtRun(a: string, w: string, b: string)
    requires a != [] && !IsSpace(a[|a| - 1])
    requires w != [] && AllSpace(w) && (b == [] || !IsSpace(b[0]))
    ensures CollapseRuns(a + w + b) == CollapseRuns(a) + " " + CollapseRuns(b)
  {
    assert a + w + b == a + (w + b);
    CollapseConcat(a, w + b);
    CollapseSpaceRun(w, b);
    Assoc(CollapseRuns(a), " ", CollapseRuns(b));
  }

  /** Collapsing keeps whether the text ends in whitespace. */
  lemma {:induction false} CollapseLast(s: string)
    requires s != []
    ensures var r := CollapseRuns(s); r != [] && (IsSpace(s[|s| - 1]) <==> IsSpace(r[|r| - 1]))
    decreases |s|
  {
    if IsSpace(s[0]) {
      var rest := TrimStart(s);
      if rest == [] {
        TrimStartEmpty(s);
      } else {
        TrimStartSuffix(s);
        assert rest[|rest| - 1] == s[|s| - 1];
        CollapseLast(rest);
        LastOfConcat(" ", CollapseRuns(rest));
      }
    } else if |s| > 1 {
      CollapseLast(s[1..]);
      LastOfConcat([s[0]], CollapseRuns(s[1..]));
    }
  }

  /** A text that `trimStart` empties is all whitespace. */
  lemma TrimStartEmpty(s: string)
    requires TrimStart(s) == []
    ensures AllSpace(s)
  {
    TrimStartSpaces(s);
    assert s[..|s|] == s;
  }

  lemma LastOfConcat<T>(x: seq<T>, y: seq<T>)
    requires y != []
    ensures (x + y)[|x + y| - 1] == y[|y| - 1]
  {
  }

  /** Collapsing a text that starts and ends with visible characters leaves
      nothing for `trim` to remove. */
  lemma CollapseTrimmed(s: string)
    requires s != [] && !IsSpace(s[0]) && !IsSpace(s[|s| - 1])
    ensures var c := CollapseRuns(s); c != [] && !IsSpace(c[0]) && !IsSpace(c[|c| - 1])
    ensures NormaliseWhitespace(s) == CollapseRuns(s)
  {
    CollapseLast(s);
    TrimTrimmed(CollapseRuns(s));
  }

  /** `normaliseWhitespace` (script.js:1020-1022): collapse whitespace runs, then trim. */
  function NormaliseWhitespace(s: string): (r: string)
    ensures IsNormal(r)
    ensures NonSpace(r) == NonSpace(s)
  {
    var c := CollapseRuns(s);
    NonSpaceTrim(c);
    TrimMiddle(c);
    var i := |c| - |TrimStart(c)|;
    SingleSpacedSlice(c, i, i + |Trim(c)|);
    Trim(c)
  }

  /** A slice of a single-spaced text is single-spaced. */
  lemma SingleSpacedSlice(s: string, i: nat, j: nat)
    requires i <= j <= |s| && SingleSpaced(s)
    ensures SingleSpaced(s[i..j])
  {
    assert forall k :: 0 <= k < j - i ==> s[i..j][k] == s[i + k];
  }

  /** A normal text has no line breaks. */
  lemma NormalHasNoLineTerminator(s: string)
    requires IsNormal(s)
    ensures NoLineTerminator(s)
  {
  }

  /** A text without line terminators has no line feed. */
  lemma NoLineFeed(s: string)
    requires NoLineTerminator(s)
    ensures '\n' !in s
  {
  }

  /** Collapsing leaves a single-spaced text unchanged. */
  lemma {:induction false} CollapseSingleSpaced(s: string)
    requires SingleSpaced(s)
    ensures CollapseRuns(s) == s
    decreases |s|
  {
    if s != [] {
      SingleSpacedSlice(s, 1, |s|);
      CollapseSingleSpaced(s[1..]);
      if IsSpace(s[0]) {
        CollapseOneSpace(s);
      }
      Cons(s);
    }
  }

  /** A lone space in front is collapsed to itself. */
  lemma CollapseOneSpace(s: string)
    requires s != [] && IsSpace(s[0]) && SingleSpaced(s)
    ensures CollapseRuns(s) == " " + CollapseRuns(s[1..])
  {
    TrimStartOneSpace(s);
  }

  /** `trimStart` of a text with one whitespace character in front drops just it. */
  lemma TrimStartOneSpace(s: string)
    requires s != [] && IsSpace(s[0]) && (|s| == 1 || !IsSpace(s[1]))
    ensures TrimStart(s) == s[1..]
  {
    if |s| > 1 {
      assert s[1..][0] == s[1];
    }
  }

  /** A normal text is a fixed point of `normaliseWhitespace`. */
  lemma NormalIsFixed(s: string)
    requires IsNormal(s)
    ensures NormaliseWhitespace(s) == s
  {
    CollapseSingleSpaced(s);
  }

  /** `normaliseWhitespace` is idempotent. */
  lemma NormaliseIdempotent(s: string)
    ensures NormaliseWhitespace(NormaliseWhitespace(s)) == NormaliseWhitespace(s)
  {
    NormalIsFixed(NormaliseWhitespace(s));
  }

  /** Two stretches of text, each starting and ending with a visible
      character, separated by whitespace: `normaliseWhitespace` puts exactly
      one space between them. */
  lemma NormaliseAtRun(a: string, w: string, b: string)
    requires a != [] && !IsSpace(a[0]) && !IsSpace(a[|a| - 1])
    requires w != [] && AllSpace(w)
    requires b != [] && !IsSpace(b[0]) && !IsSpace(b[|b| - 1])
    ensures NormaliseWhitespace(a + w + b) == NormaliseWhitespace(a) + " " + NormaliseWhitespace(b)
  {
    CollapseAtRun(a, w, b);
    CollapseTrimmed(a);
    CollapseTrimmed(b);
    var c := CollapseRuns(a) + " " + CollapseRuns(b);
    assert c[0] == CollapseRuns(a)[0];
    assert c[|c| - 1] == CollapseRuns(b)[|CollapseRuns(b)| - 1];
    TrimTrimmed(c);
  }

  /** Whitespace around a text that starts and ends with visible characters
      is dropped. */
  lemma NormalisePadded(w: string, x: string, v: string)
    requires AllSpace(w) && AllSpace(v)
    requires x != [] && !IsSpace(x[0]) && !IsSpace(x[|x| - 1])
    ensures NormaliseWhitespace(w + x + v) == NormaliseWhitespace(x)
  {
    CollapsePadded(w, x, v);
    CollapseTrimmed(x);
    PadIsSpace(w);
    PadIsSpace(v);
    TrimPadded(Pad(w), CollapseRuns(x), Pad(v));
  }

  /** The whitespace around a text collapses to at most one space on each side. */
  lemma CollapsePadded(w: string, x: string, v: string)
    requires AllSpace(w) && AllSpace(v)
    requires x != [] && !IsSpace(x[0]) && !IsSpace(x[|x| - 1])
    ensures CollapseRuns(w + x + v) == Pad(w) + CollapseRuns(x) + Pad(v)
  {
    CollapseTail(x, v);
    CollapseHeadOf(w, x, v);
    Assoc(Pad(w), CollapseRuns(x), Pad(v));
  }

  lemma CollapseHeadOf(w: string, x: string, v: string)
    requires AllSpace(w) && x != [] && !IsSpace(x[0])
    ensures CollapseRuns(w + x + v) == Pad(w) + CollapseRuns(x + v)
  {
    assert (x + v)[0] == x[0];
    CollapseHead(w, x + v);
    assert w + x + v == w + (x + v);
  }

  /** What a whitespace run collapses to: one space, or nothing. */
  function Pad(w: string): string {
    if w == [] then "" else " "
  }

  lemma PadIsSpace(w: string)
    ensures AllSpace(Pad(w))
  {
  }

  lemma CollapseTail(x: string, v: string)
    requires AllSpace(v) && x != [] && !IsSpace(x[|x| - 1])
    ensures CollapseRuns(x + v) == CollapseRuns(x) + Pad(v)
  {
    CollapseConcat(x, v);
    if v != [] {
      CollapseSpaceRun(v, []);
      assert v + [] == v;
    }
  }

  lemma CollapseHead(w: string, y: string)
    requires AllSpace(w) && (y == [] || !IsSpace(y[0]))
    ensures CollapseRuns(w + y) == Pad(w) + CollapseRuns(y)
  {
    if w != [] {
      CollapseSpaceRun(w, y);
    } else {
      assert w + y == y;
    }
  }

  /** A text of whitespace only normalises to the empty text. */
  lemma NormaliseAllSpace(s: string)
    requires AllSpace(s)
    ensures NormaliseWhitespace(s) == []
  {
    var r := NormaliseWhitespace(s);
    NonSpaceOfSpaces(s);
  }

  /** Two visible characters around any whitespace run, such as `a  b`,
      normalise to the two characters around one space. */
  lemma NormaliseTwoWords(c: char, w: string, d: char)
    requires !IsSpace(c) && !IsSpace(d) && w != [] && AllSpace(w)
    ensures NormaliseWhitespace([c] + w + [d]) == [c, ' ', d]
  {
    NormaliseAtRun([c], w, [d]);
    NormalIsFixed([c]);
    NormalIsFixed([d]);
  }
}
