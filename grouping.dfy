/** The line-reading state machine that `parseOrderedHighlights` and
    `parseRequirements` (script.js:869-937) both run: an opening line starts a
    record, the member lines after it are added to it, and the record is closed by
    the next opening line or by the end of the input. Member lines before the first
    opening line belong to no record. */
module Grouping {
  import opened Strings

  /** What one line means to the state machine. */
  datatype LineKind<H, M> = Opener(head: H) | Member(item: M) | Ignored

  /** A closed record: the head its opening line gave and the items of its member lines. */
  datatype Group<H, M> = Group(head: H, members: seq<M>)

  /** The first opening line at or after `from`, or `|kinds|`. */
  function NextOpener<H, M>(kinds: seq<LineKind<H, M>>, from: nat): (n: nat)
    requires from <= |kinds|
    ensures from <= n <= |kinds|
    ensures n < |kinds| ==> kinds[n].Opener?
    ensures forall i :: from <= i < n ==> !kinds[i].Opener?
    decreases |kinds| - from
  {
    if from == |kinds| || kinds[from].Opener? then from else NextOpener(kinds, from + 1)
  }

  /** The heads of the opening lines, in order. */
  function Openers<H, M>(kinds: seq<LineKind<H, M>>): seq<H>
  {
    if kinds == [] then []
    else (if kinds[0].Opener? then [kinds[0].head] else []) + Openers(kinds[1..])
  }

  /** The items of the member lines, in order. */
  function Members<H, M>(kinds: seq<LineKind<H, M>>): seq<M>
  {
    if kinds == [] then []
    else (if kinds[0].Member? then [kinds[0].item] else []) + Members(kinds[1..])
  }

  /** The records, declaratively: one per opening line, holding the members that
      lie between it and the next opening line. */
  function Grouped<H, M>(kinds: seq<LineKind<H, M>>): seq<Group<H, M>>
    decreases |kinds|
  {
    if kinds == [] then []
    else if kinds[0].Opener? then
      var n := NextOpener(kinds, 1);
      [Group(kinds[0].head, Members(kinds[1..n]))] + Grouped(kinds[n..])
    else Grouped(kinds[1..])
  }

  /** The records so far when `open` is the record still being filled. */
  function Flush<H, M>(closed: seq<Group<H, M>>, open: Option<Group<H, M>>): seq<Group<H, M>>
  {
    match open
    case None => closed
    case Some(g) => closed + [g]
  }

  /** Reading one more line: an opening line adds an empty record, a member line
      joins the last record when there is one, any other line changes nothing. */
  function Step<H, M>(groups: seq<Group<H, M>>, kind: LineKind<H, M>): seq<Group<H, M>>
  {
    match kind
    case Opener(h) => groups + [Group(h, [])]
    case Member(m) =>
      if groups == [] then []
      else groups[..|groups| - 1] + [Group(groups[|groups| - 1].head, groups[|groups| - 1].members + [m])]
    case Ignored => groups
  }

  lemma {:induction false} MembersConcat<H, M>(a: seq<LineKind<H, M>>, b: seq<LineKind<H, M>>)
    ensures Members(a + b) == Members(a) + Members(b)
    decreases |a|
  {
    if a == [] {
      assert a + b == b;
    } else {
      assert (a + b)[0] == a[0];
      assert (a + b)[1..] == a[1..] + b;
      MembersConcat(a[1..], b);
    }
  }

  lemma {:induction false} OpenersConcat<H, M>(a: seq<LineKind<H, M>>, b: seq<LineKind<H, M>>)
    ensures Openers(a + b) == Openers(a) + Openers(b)
    decreases |a|
  {
    if a == [] {
      assert a + b == b;
    } else {
      assert (a + b)[0] == a[0];
      assert (a + b)[1..] == a[1..] + b;
      OpenersConcat(a[1..], b);
    }
  }

  lemma {:induction false} OpenersNone<H, M>(a: seq<LineKind<H, M>>)
    requires forall i :: 0 <= i < |a| ==> !a[i].Opener?
    ensures Openers(a) == []
    decreases |a|
  {
    if a != [] {
      OpenersNone(a[1..]);
    }
  }

  /** `NextOpener` is the first opening line, so any position with that property is it. */
  lemma NextOpenerIs<H, M>(kinds: seq<LineKind<H, M>>, from: nat, n: nat)
    requires from <= n <= |kinds|
    requires n < |kinds| ==> kinds[n].Opener?
    requires forall i :: from <= i < n ==> !kinds[i].Opener?
    ensures NextOpener(kinds, from) == n
  {
  }

  lemma NextOpenerShift<H, M>(kinds: seq<LineKind<H, M>>, d: nat, from: nat)
    requires d + from <= |kinds|
    ensures NextOpener(kinds[d..], from) + d == NextOpener(kinds, d + from)
  {
    var m := NextOpener(kinds[d..], from);
    NextOpenerIs(kinds, d + from, m + d);
  }

  lemma SliceSnoc<T>(s: seq<T>, x: T, i: nat, j: nat)
    requires i <= j <= |s|
    ensures (s + [x])[i..j] == s[i..j] && (s + [x])[j..] == s[j..] + [x]
  {
  }

  lemma SliceShift<T>(s: seq<T>, d: nat, i: nat, j: nat)
    requires d + j <= |s| && i <= j
    ensures s[d..][i..j] == s[d + i..d + j]
    ensures i < j ==> s[d..][i] == s[d + i]
  {
  }

  lemma PrefixSplit<T>(s: seq<T>, n: nat, i: nat)
    requires 1 <= n <= i <= |s|
    ensures s[..i] == [s[0]] + s[1..n] + s[n..][..i - n]
  {
  }

  lemma OpenersOfOne<H, M>(kind: LineKind<H, M>)
    ensures Openers([kind]) == if kind.Opener? then [kind.head] else []
  {
    assert [kind][1..] == [];
  }

  lemma MembersOfOne<H, M>(kind: LineKind<H, M>)
    ensures Members([kind]) == if kind.Member? then [kind.item] else []
  {
    assert [kind][1..] == [];
  }

  /** Reading the lines one at a time with `Step` builds the declarative records:
      this is the invariant of the source's loop. */
  lemma {:induction false} GroupedSnoc<H, M>(kinds: seq<LineKind<H, M>>, kind: LineKind<H, M>)
    ensures Grouped(kinds + [kind]) == Step(Grouped(kinds), kind)
    decreases |kinds|
  {
    if kinds == [] {
      assert kinds + [kind] == [kind];
      GroupedSingle(kind);
    } else if kinds[0].Opener? {
      var n := NextOpener(kinds, 1);
      if n < |kinds| {
        GroupedSnoc(kinds[n..], kind);
        GroupedSnocLater(kinds, kind);
      } else {
        GroupedSnocLast(kinds, kind);
      }
    } else {
      SliceSnoc(kinds, kind, 1, 1);
      GroupedSnoc(kinds[1..], kind);
    }
  }

  lemma GroupedSingle<H, M>(kind: LineKind<H, M>)
    ensures Grouped([kind]) == Step([], kind)
  {
    if kind.Opener? {
      NextOpenerIs([kind], 1, 1);
      assert [kind][1..1] == [] && [kind][1..] == [];
    } else {
      assert [kind][1..] == [];
    }
  }

  /** The first record is closed by a later opening line, so the new line only
      touches the records after it. */
  lemma GroupedSnocLater<H, M>(kinds: seq<LineKind<H, M>>, kind: LineKind<H, M>)
    requires kinds != [] && kinds[0].Opener? && NextOpener(kinds, 1) < |kinds|
    requires Grouped(kinds[NextOpener(kinds, 1)..] + [kind]) == Step(Grouped(kinds[NextOpener(kinds, 1)..]), kind)
    ensures Grouped(kinds + [kind]) == Step(Grouped(kinds), kind)
  {
    var n := NextOpener(kinds, 1);
    var g := Group(kinds[0].head, Members(kinds[1..n]));
    GroupedOpenerSnoc(kinds, kind);
    GroupedNonEmpty(kinds[n..]);
    StepBehindFirst(g, Grouped(kinds[n..]), kind);
  }

  lemma GroupedOpenerAll<H, M>(kinds: seq<LineKind<H, M>>, kind: LineKind<H, M>)
    requires kinds != [] && kinds[0].Opener? && NextOpener(kinds, 1) < |kinds|
    ensures var all := kinds + [kind]; var n := NextOpener(kinds, 1);
            Grouped(all) == [Group(kinds[0].head, Members(all[1..n]))] + Grouped(all[n..])
  {
    NextOpenerIs(kinds + [kind], 1, NextOpener(kinds, 1));
  }

  lemma GroupedOpenerSnoc<H, M>(kinds: seq<LineKind<H, M>>, kind: LineKind<H, M>)
    requires kinds != [] && kinds[0].Opener? && NextOpener(kinds, 1) < |kinds|
    ensures var n := NextOpener(kinds, 1);
            Grouped(kinds + [kind]) == [Group(kinds[0].head, Members(kinds[1..n]))] + Grouped(kinds[n..] + [kind])
  {
    GroupedOpenerAll(kinds, kind);
    SliceSnoc(kinds, kind, 1, NextOpener(kinds, 1));
  }

  lemma GroupedNonEmpty<H, M>(kinds: seq<LineKind<H, M>>)
    requires kinds != [] && kinds[0].Opener?
    ensures Grouped(kinds) != []
  {
  }

  /** With a later record present, a step never touches the first one. */
  lemma StepBehindFirst<H, M>(g: Group<H, M>, rest: seq<Group<H, M>>, kind: LineKind<H, M>)
    requires rest != []
    ensures Step([g] + rest, kind) == [g] + Step(rest, kind)
  {
    if kind.Member? {
      assert ([g] + rest)[..|[g] + rest| - 1] == [g] + rest[..|rest| - 1];
    }
  }

  /** The first record is still open at the end, so the new line closes it or joins it. */
  lemma GroupedSnocLast<H, M>(kinds: seq<LineKind<H, M>>, kind: LineKind<H, M>)
    requires kinds != [] && kinds[0].Opener? && NextOpener(kinds, 1) == |kinds|
    ensures Grouped(kinds + [kind]) == Step(Grouped(kinds), kind)
  {
    var g := Group(kinds[0].head, Members(kinds[1..]));
    GroupedOnlyOne(kinds);
    if kind.Opener? {
      GroupedSnocClosing(kinds, kind);
    } else {
      GroupedSnocJoining(kinds, kind);
      MembersOfOne(kind);
      if kind.Member? {
        assert [g][..0] == [];
      } else {
        assert Members(kinds[1..]) + [] == Members(kinds[1..]);
      }
    }
  }

  lemma GroupedOnlyOne<H, M>(kinds: seq<LineKind<H, M>>)
    requires kinds != [] && kinds[0].Opener? && NextOpener(kinds, 1) == |kinds|
    ensures Grouped(kinds) == [Group(kinds[0].head, Members(kinds[1..]))]
  {
    assert kinds[1..NextOpener(kinds, 1)] == kinds[1..];
    assert kinds[|kinds|..] == [];
  }

  lemma GroupedSnocClosing<H, M>(kinds: seq<LineKind<H, M>>, kind: LineKind<H, M>)
    requires kinds != [] && kinds[0].Opener? && NextOpener(kinds, 1) == |kinds| && kind.Opener?
    ensures Grouped(kinds + [kind]) == [Group(kinds[0].head, Members(kinds[1..])), Group(kind.head, [])]
  {
    var all := kinds + [kind];
    GroupedClosingAll(kinds, kind);
    SliceSnoc(kinds, kind, 1, |kinds|);
    assert kinds[|kinds|..] == [];
    GroupedSingle(kind);
  }

  lemma GroupedClosingAll<H, M>(kinds: seq<LineKind<H, M>>, kind: LineKind<H, M>)
    requires kinds != [] && kinds[0].Opener? && NextOpener(kinds, 1) == |kinds| && kind.Opener?
    ensures var all := kinds + [kind];
            Grouped(all) == [Group(kinds[0].head, Members(all[1..|kinds|]))] + Grouped(all[|kinds|..])
  {
    NextOpenerIs(kinds + [kind], 1, |kinds|);
  }

  lemma GroupedSnocJoining<H, M>(kinds: seq<LineKind<H, M>>, kind: LineKind<H, M>)
    requires kinds != [] && kinds[0].Opener? && NextOpener(kinds, 1) == |kinds| && !kind.Opener?
    ensures Grouped(kinds + [kind]) == [Group(kinds[0].head, Members(kinds[1..]) + Members([kind]))]
  {
    GroupedOnlyOne(kinds + [kind]) by {
      NextOpenerIs(kinds + [kind], 1, |kinds| + 1);
    }
    SliceSnoc(kinds, kind, 1, 1);
    MembersConcat(kinds[1..], [kind]);
  }

  /** One record per opening line, with that line's head, in document order. */
  lemma {:induction false} GroupedHeads<H, M>(kinds: seq<LineKind<H, M>>)
    ensures |Grouped(kinds)| == |Openers(kinds)|
    ensures forall j :: 0 <= j < |Grouped(kinds)| ==> Grouped(kinds)[j].head == Openers(kinds)[j]
    decreases |kinds|
  {
    if kinds != [] {
      if kinds[0].Opener? {
        var n := NextOpener(kinds, 1);
        GroupedHeads(kinds[n..]);
        OpenersAfterFirst(kinds);
      } else {
        GroupedHeads(kinds[1..]);
      }
    }
  }

  /** The opening lines are the first one and those from the next opening line on. */
  lemma OpenersAfterFirst<H, M>(kinds: seq<LineKind<H, M>>)
    requires kinds != [] && kinds[0].Opener?
    ensures Openers(kinds) == [kinds[0].head] + Openers(kinds[NextOpener(kinds, 1)..])
  {
    var n := NextOpener(kinds, 1);
    PrefixSplit(kinds, n, |kinds|);
    assert kinds[..|kinds|] == kinds;
    assert kinds[n..][..|kinds| - n] == kinds[n..];
    OpenersConcat([kinds[0]] + kinds[1..n], kinds[n..]);
    OpenersConcat([kinds[0]], kinds[1..n]);
    OpenersNone(kinds[1..n]);
    OpenersOfOne(kinds[0]);
  }

  /** The record of the opening line at `i` sits at the position given by the
      number of opening lines before it, and holds exactly the member lines
      between `i` and the next opening line, in order. */
  lemma {:induction false} GroupedAt<H, M>(kinds: seq<LineKind<H, M>>, i: nat)
    requires i < |kinds| && kinds[i].Opener?
    ensures |Openers(kinds[..i])| < |Grouped(kinds)|
    ensures Grouped(kinds)[|Openers(kinds[..i])|]
            == Group(kinds[i].head, Members(kinds[i + 1..NextOpener(kinds, i + 1)]))
    decreases |kinds|
  {
    if i == 0 {
      assert kinds[..0] == [];
    } else {
      var n := if kinds[0].Opener? then NextOpener(kinds, 1) else 1;
      OpenersBefore(kinds, n, i);
      GroupedAt(kinds[n..], i - n);
      GroupedAtStep(kinds, n, i);
    }
  }

  /** The position of a record in `kinds` follows from its position among the
      records after the first one. */
  lemma GroupedAtStep<H, M>(kinds: seq<LineKind<H, M>>, n: nat, i: nat)
    requires 0 < i < |kinds| && kinds[i].Opener?
    requires n == if kinds[0].Opener? then NextOpener(kinds, 1) else 1
    requires n <= i
    requires var rest := kinds[n..];
      |Openers(rest[..i - n])| < |Grouped(rest)| &&
      Grouped(rest)[|Openers(rest[..i - n])|]
        == Group(rest[i - n].head, Members(rest[i - n + 1..NextOpener(rest, i - n + 1)]))
    ensures |Openers(kinds[..i])| < |Grouped(kinds)|
    ensures Grouped(kinds)[|Openers(kinds[..i])|]
            == Group(kinds[i].head, Members(kinds[i + 1..NextOpener(kinds, i + 1)]))
  {
    var rest := kinds[n..];
    OpenersBefore(kinds, n, i);
    GroupShift(kinds, n, i);
    var lead := if kinds[0].Opener? then [Group(kinds[0].head, Members(kinds[1..n]))] else [];
    var j := |Openers(rest[..i - n])|;
    var records := Grouped(rest);
    assert Grouped(kinds) == lead + records;
    assert |Openers(kinds[..i])| == |lead| + j;
    IndexPastLead(lead, records, j);
  }

  /** The record of the opening line at `i` is the same whether read from
      `kinds` or from the lines after `n`. */
  lemma GroupShift<H, M>(kinds: seq<LineKind<H, M>>, n: nat, i: nat)
    requires n <= i < |kinds| && kinds[i].Opener?
    ensures var rest := kinds[n..];
      Group(rest[i - n].head, Members(rest[i - n + 1..NextOpener(rest, i - n + 1)]))
        == Group(kinds[i].head, Members(kinds[i + 1..NextOpener(kinds, i + 1)]))
  {
    var rest := kinds[n..];
    var m := NextOpener(rest, i - n + 1);
    NextOpenerShift(kinds, n, i - n + 1);
    SliceShift(kinds, n, i - n + 1, m);
    SliceShift(kinds, n, i - n, i - n + 1);
  }

  /** Skipping the lines before the next opening line: the records and the
      opening lines before `i` both lose exactly the first line's contribution. */
  lemma OpenersBefore<H, M>(kinds: seq<LineKind<H, M>>, n: nat, i: nat)
    requires 0 < i < |kinds| && kinds[i].Opener?
    requires n == if kinds[0].Opener? then NextOpener(kinds, 1) else 1
    ensures n <= i
    ensures Grouped(kinds) == (if kinds[0].Opener? then [Group(kinds[0].head, Members(kinds[1..n]))] else []) + Grouped(kinds[n..])
    ensures |Openers(kinds[..i])| == |Openers([kinds[0]])| + |Openers(kinds[n..][..i - n])|
    ensures |Openers([kinds[0]])| == if kinds[0].Opener? then 1 else 0
  {
    PrefixSplit(kinds, n, i);
    OpenersConcat([kinds[0]] + kinds[1..n], kinds[n..][..i - n]);
    OpenersConcat([kinds[0]], kinds[1..n]);
    OpenersNone(kinds[1..n]);
    OpenersOfOne(kinds[0]);
  }

  lemma IndexPastLead<T>(lead: seq<T>, rest: seq<T>, j: nat)
    requires j < |rest|
    ensures (lead + rest)[|lead| + j] == rest[j]
  {
  }

  /** Lines before the first opening line belong to no record: dropping them
      changes nothing. */
  lemma {:induction false} GroupedSkipsLeading<H, M>(lead: seq<LineKind<H, M>>, kinds: seq<LineKind<H, M>>)
    requires forall i :: 0 <= i < |lead| ==> !lead[i].Opener?
    ensures Grouped(lead + kinds) == Grouped(kinds)
    decreases |lead|
  {
    if lead == [] {
      assert lead + kinds == kinds;
    } else {
      assert (lead + kinds)[0] == lead[0];
      assert (lead + kinds)[1..] == lead[1..] + kinds;
      GroupedSkipsLeading(lead[1..], kinds);
    }
  }

  /** One member line per item. */
  function MemberLines<H, M>(items: seq<M>): (kinds: seq<LineKind<H, M>>)
    ensures |kinds| == |items|
    ensures forall i :: 0 <= i < |items| ==> kinds[i] == Member(items[i])
  {
    if items == [] then [] else [Member(items[0])] + MemberLines(items[1..])
  }

  /** The lines of one record: its opening line, then its member lines. */
  function Block<H, M>(g: Group<H, M>): seq<LineKind<H, M>> {
    [Opener(g.head)] + MemberLines(g.members)
  }

  /** The lines of a sequence of records, one block after another. */
  function Blocks<H, M>(groups: seq<Group<H, M>>): seq<LineKind<H, M>> {
    if groups == [] then [] else Block(groups[0]) + Blocks(groups[1..])
  }

  lemma {:induction false} MembersOfMemberLines<H, M>(items: seq<M>)
    ensures Members(MemberLines<H, M>(items)) == items
    decreases |items|
  {
    if items != [] {
      var kinds := MemberLines<H, M>(items);
      assert kinds[1..] == MemberLines<H, M>(items[1..]);
      MembersOfMemberLines<H, M>(items[1..]);
    }
  }

  /** Reading the lines of a sequence of records gives those records back. */
  lemma {:induction false} GroupedBlocks<H, M>(groups: seq<Group<H, M>>)
    ensures Grouped(Blocks(groups)) == groups
    decreases |groups|
  {
    if groups != [] {
      var g := groups[0];
      var kinds := Blocks(groups);
      var rest := Blocks(groups[1..]);
      var n := 1 + |g.members|;
      assert kinds == Block(g) + rest;
      assert kinds[0] == Opener(g.head);
      assert rest != [] ==> rest[0].Opener? by {
        if rest != [] {
          assert rest[0] == Opener(groups[1..][0].head);
        }
      }
      assert kinds[1..n] == MemberLines(g.members);
      NextOpenerIs(kinds, 1, n);
      MembersOfMemberLines<H, M>(g.members);
      assert kinds[n..] == rest;
      GroupedBlocks(groups[1..]);
    }
  }

  /** Every line of the blocks of some records is the opening line of one of
      their heads or the member line of one of their items. */
  lemma {:induction false} BlocksKinds<H, M>(groups: seq<Group<H, M>>, head: H -> bool, item: M -> bool)
    requires forall g :: g in groups ==> head(g.head) && forall m :: m in g.members ==> item(m)
    ensures forall k :: k in Blocks(groups) ==> (k.Opener? && head(k.head)) || (k.Member? && item(k.item))
    decreases |groups|
  {
    if groups != [] {
      var g := groups[0];
      assert g in groups;
      BlocksKinds(groups[1..], head, item);
      forall k | k in Block(g) ensures (k.Opener? && head(k.head)) || (k.Member? && item(k.item)) {
        var i :| 0 <= i < |Block(g)| && Block(g)[i] == k;
        if i > 0 {
          assert k == Member(g.members[i - 1]);
        }
      }
    }
  }

  /** The items of the member lines satisfy what every member line's item does. */
  lemma {:induction false} MembersFrom<H, M>(kinds: seq<LineKind<H, M>>, item: M -> bool)
    requires forall k :: k in kinds && k.Member? ==> item(k.item)
    ensures forall m :: m in Members(kinds) ==> item(m)
    decreases |kinds|
  {
    if kinds != [] {
      assert kinds[0] in kinds;
      assert forall k :: k in kinds[1..] ==> k in kinds;
      MembersFrom(kinds[1..], item);
    }
  }

  /** Every record has the head of an opening line and the items of member lines,
      so what holds of all heads and items of the lines holds of the records. */
  lemma {:induction false} GroupedFrom<H, M>(kinds: seq<LineKind<H, M>>, head: H -> bool, item: M -> bool)
    requires forall k :: k in kinds && k.Opener? ==> head(k.head)
    requires forall k :: k in kinds && k.Member? ==> item(k.item)
    ensures forall g :: g in Grouped(kinds) ==> head(g.head) && forall m :: m in g.members ==> item(m)
    decreases |kinds|
  {
    if kinds != [] {
      var n := if kinds[0].Opener? then NextOpener(kinds, 1) else 1;
      assert forall k :: k in kinds[n..] ==> k in kinds;
      GroupedFrom(kinds[n..], head, item);
      if kinds[0].Opener? {
        assert kinds[0] in kinds;
        assert forall k :: k in kinds[1..n] ==> k in kinds;
        MembersFrom(kinds[1..n], item);
      }
    }
  }
}
