/** The pieces of the regular expressions that the block parsers of script.js
    apply to single lines, each read as a character-level scan: a maximal run of
    digits or whitespace (what `\d+` and `\s+` match, as no backtracking into them
    can help), the `**` delimiter, and the lazy `(.+?)\*\*` title. Each scan is a
    small function; what it finds is stated by a lemma beside it. */
module Patterns {
  import opened Strings

  predicate AllDigits(s: string) {
    forall i :: 0 <= i < |s| ==> IsDigit(s[i])
  }

  /** Every character in `s[lo..hi]` is a digit. */
  predicate DigitsIn(s: string, lo: nat, hi: nat)
    requires lo <= hi <= |s|
  {
    forall i :: lo <= i < hi ==> IsDigit(s[i])
  }

  /** Every character in `s[lo..hi]` is whitespace. */
  predicate SpacesIn(s: string, lo: nat, hi: nat)
    requires lo <= hi <= |s|
  {
    forall i :: lo <= i < hi ==> IsSpace(s[i])
  }

  /** `s[lo..hi]` stays on one line: `.` matches each of its characters. */
  predicate OneLine(s: string, lo: nat, hi: nat)
    requires lo <= hi <= |s|
  {
    forall i :: lo <= i < hi ==> !IsLineTerminator(s[i])
  }

  /** The length of the run of digits starting at `p`. */
  function DigitRun(s: string, p: nat): (k: nat)
    requires p <= |s|
    ensures p + k <= |s|
    decreases |s| - p
  {
    if p < |s| && IsDigit(s[p]) then 1 + DigitRun(s, p + 1) else 0
  }

  /** `DigitRun` measures a maximal run of digits. */
  lemma {:induction false} DigitRunSpec(s: string, p: nat)
    requires p <= |s|
    ensures DigitsIn(s, p, p + DigitRun(s, p))
    ensures p + DigitRun(s, p) == |s| || !IsDigit(s[p + DigitRun(s, p)])
    decreases |s| - p
  {
    if p < |s| && IsDigit(s[p]) {
      DigitRunSpec(s, p + 1);
    }
  }

  /** A maximal run of digits is what `DigitRun` measures. */
  lemma {:induction false} DigitRunIs(s: string, p: nat, k: nat)
    requires p + k <= |s| && DigitsIn(s, p, p + k)
    requires p + k == |s| || !IsDigit(s[p + k])
    ensures DigitRun(s, p) == k
    decreases k
  {
    if k > 0 {
      DigitRunIs(s, p + 1, k - 1);
    }
  }

  /** The length of the run of whitespace starting at `p`. */
  function SpaceRun(s: string, p: nat): (k: nat)
    requires p <= |s|
    ensures p + k <= |s|
    decreases |s| - p
  {
    if p < |s| && IsSpace(s[p]) then 1 + SpaceRun(s, p + 1) else 0
  }

  /** `SpaceRun` measures a maximal run of whitespace. */
  lemma {:induction false} SpaceRunSpec(s: string, p: nat)
    requires p <= |s|
    ensures SpacesIn(s, p, p + SpaceRun(s, p))
    ensures p + SpaceRun(s, p) == |s| || !IsSpace(s[p + SpaceRun(s, p)])
    decreases |s| - p
  {
    if p < |s| && IsSpace(s[p]) {
      SpaceRunSpec(s, p + 1);
    }
  }

  /** A maximal run of whitespace is what `SpaceRun` measures. */
  lemma {:induction false} SpaceRunIs(s: string, p: nat, k: nat)
    requires p + k <= |s| && SpacesIn(s, p, p + k)
    requires p + k == |s| || !IsSpace(s[p + k])
    ensures SpaceRun(s, p) == k
    decreases k
  {
    if k > 0 {
      SpaceRunIs(s, p + 1, k - 1);
    }
  }

  lemma DigitsInSlice(s: string, lo: nat, hi: nat)
    requires lo <= hi <= |s|
    ensures DigitsIn(s, lo, hi) <==> AllDigits(s[lo..hi])
  {
    assert forall i :: lo <= i < hi ==> s[lo..hi][i - lo] == s[i];
  }

  lemma SpacesInSlice(s: string, lo: nat, hi: nat)
    requires lo <= hi <= |s|
    ensures SpacesIn(s, lo, hi) <==> AllSpace(s[lo..hi])
  {
    assert forall i :: lo <= i < hi ==> s[lo..hi][i - lo] == s[i];
  }

  /** `**` starts at position `i`. */
  predicate BoldAt(s: string, i: int) {
    0 <= i && i + 2 <= |s| && s[i] == '*' && s[i + 1] == '*'
  }

  /** `(.+?)\*\*` tried at `p`: the length of the shortest non-empty title on one
      line that `**` follows, or `None` when a line terminator or the end of the
      text comes first. */
  function LazyTitle(s: string, p: nat): (r: Option<nat>)
    requires p <= |s|
    ensures r.Some? ==> 1 <= r.value && p + r.value + 2 <= |s|
  {
    LazyTitleFrom(s, p, 1)
  }

  /** The lazy search once the titles shorter than `k` have been rejected. */
  function LazyTitleFrom(s: string, p: nat, k: nat): (r: Option<nat>)
    requires 1 <= k && p + k - 1 <= |s|
    ensures r.Some? ==> k <= r.value && p + r.value + 2 <= |s|
    decreases |s| - p - k
  {
    if p + k > |s| || IsLineTerminator(s[p + k - 1]) then None
    else if BoldAt(s, p + k) then Some(k)
    else LazyTitleFrom(s, p, k + 1)
  }

  /** What the lazy title is: the shortest one on one line that `**` follows, and
      when there is none, no `**` follows any title on the line. */
  lemma LazyTitleSpec(s: string, p: nat)
    requires p <= |s|
    ensures LazyTitle(s, p).Some? ==> var k := LazyTitle(s, p).value;
      BoldAt(s, p + k) && OneLine(s, p, p + k) && forall j :: p < j < p + k ==> !BoldAt(s, j)
    ensures LazyTitle(s, p).None? ==>
      forall j :: p < j <= |s| && OneLine(s, p, j) ==> !BoldAt(s, j)
  {
    LazyTitleFromSpec(s, p, 1);
  }

  /** A title found is followed by `**`. */
  lemma LazyTitleBold(s: string, p: nat)
    requires p <= |s| && LazyTitle(s, p).Some?
    ensures BoldAt(s, p + LazyTitle(s, p).value)
  {
    LazyTitleSpec(s, p);
  }

  lemma {:induction false} LazyTitleFromSpec(s: string, p: nat, k: nat)
    requires 1 <= k && p + k - 1 <= |s|
    requires OneLine(s, p, p + k - 1)
    requires forall j :: p < j < p + k ==> !BoldAt(s, j)
    ensures LazyTitleFrom(s, p, k).Some? ==> var r := LazyTitleFrom(s, p, k).value;
      BoldAt(s, p + r) && OneLine(s, p, p + r) && forall j :: p < j < p + r ==> !BoldAt(s, j)
    ensures LazyTitleFrom(s, p, k).None? ==>
      forall j :: p < j <= |s| && OneLine(s, p, j) ==> !BoldAt(s, j)
    decreases |s| - p - k
  {
    if p + k > |s| {
    } else if IsLineTerminator(s[p + k - 1]) {
      forall j | p + k <= j <= |s| ensures !OneLine(s, p, j) {
        assert IsLineTerminator(s[p + k - 1]);
      }
    } else if !BoldAt(s, p + k) {
      LazyTitleFromSpec(s, p, k + 1);
    }
  }

  /** The shortest title on one line that `**` follows is the one `LazyTitle` finds. */
  lemma LazyTitleIs(s: string, p: nat, k: nat)
    requires 1 <= k && p + k <= |s| && BoldAt(s, p + k) && OneLine(s, p, p + k)
    requires forall j :: p < j < p + k ==> !BoldAt(s, j)
    ensures LazyTitle(s, p) == Some(k)
  {
    LazyTitleFromIs(s, p, 1, k);
  }

  lemma {:induction false} LazyTitleFromIs(s: string, p: nat, i: nat, k: nat)
    requires 1 <= i <= k && p + k <= |s| && BoldAt(s, p + k) && OneLine(s, p, p + k)
    requires forall j :: p < j < p + k ==> !BoldAt(s, j)
    ensures LazyTitleFrom(s, p, i) == Some(k)
    decreases k - i
  {
    if i < k {
      assert !IsLineTerminator(s[p + i - 1]) && !BoldAt(s, p + i);
      LazyTitleFromIs(s, p, i + 1, k);
    }
  }

  /** The title `LazyTitle` finds is, on its own, the lazy title of itself
      followed by `**`. */
  lemma LazyTitleAlone(s: string, p: nat, k: nat)
    requires p <= |s| && LazyTitle(s, p) == Some(k)
    ensures LazyTitle(s[p..p + k] + "**", 0) == Some(k)
  {
    LazyTitleSpec(s, p);
    var u := s[p..p + k] + "**";
    assert forall i :: 0 <= i < k + 2 ==> u[i] == s[p + i];
    forall j | 0 < j < k ensures !BoldAt(u, j) {
      assert !BoldAt(s, p + j);
    }
    LazyTitleIs(u, 0, k);
  }

  /** And back: a title that is the lazy one of itself followed by `**` is the
      lazy one wherever that text occurs. */
  lemma LazyTitleInside(s: string, p: nat, title: string)
    requires p + |title| + 2 <= |s| && s[p..p + |title| + 2] == title + "**"
    requires LazyTitle(title + "**", 0) == Some(|title|)
    ensures LazyTitle(s, p) == Some(|title|)
  {
    var u := title + "**";
    var k := |title|;
    LazyTitleSpec(u, 0);
    assert forall i :: 0 <= i < k + 2 ==> u[i] == s[p + i];
    forall j | p < j < p + k ensures !BoldAt(s, j) {
      assert !BoldAt(u, j - p);
    }
    LazyTitleIs(s, p, k);
  }

  /** The value of a string of decimal digits, as `Number` reads it. */
  function DigitsValue(d: string): (v: nat)
    requires AllDigits(d)
    ensures d == [] ==> v == 0
    decreases |d|
  {
    if d == [] then 0
    else 10 * DigitsValue(d[..|d| - 1]) + (d[|d| - 1] as int - '0' as int)
  }

  /** The decimal rendering of a number, the inverse of `DigitsValue`. */
  function Decimal(v: nat): (d: string)
    ensures d != [] && AllDigits(d)
    decreases v
  {
    var last := ['0' + (v % 10) as char];
    if v < 10 then last else Decimal(v / 10) + last
  }

  /** Reading back the decimal rendering of a number gives that number. */
  lemma {:induction false} DigitsValueDecimal(v: nat)
    ensures DigitsValue(Decimal(v)) == v
    decreases v
  {
    var d := Decimal(v);
    if v >= 10 {
      DigitsValueDecimal(v / 10);
      assert d[..|d| - 1] == Decimal(v / 10);
    }
  }
}
