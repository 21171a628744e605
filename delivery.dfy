/** The delivery feed: the two field clean-ups used when a delivery record is
    built, `normalisePlaceholder` (script.js:567-576) and `truncateText`
    (script.js:578-587), and the bounded history that `recordN8nDelivery`
    keeps in `state.deliveries` (script.js:275-288). */
module Delivery {
  import opened Strings

  // ------------------------------------------------------------ normalisePlaceholder

  /** `normalisePlaceholder`: a missing value, an empty one after trimming, or a
      template placeholder starting with `[` becomes the empty text; anything
      else is returned trimmed. */
  function NormalisePlaceholder(value: Option<string>): (r: string)
    ensures r == [] || (IsTrimmed(r) && r[0] != '[')
    ensures value.None? ==> r == []
    ensures value.Some? && r != [] ==> r == Trim(value.value)
    ensures value.Some? && r == [] ==> Trim(value.value) == [] || Trim(value.value)[0] == '['
  {
    match value
    case None => []
    case Some(v) =>
      var trimmed := Trim(v);
      if trimmed == [] || StartsWith(trimmed, "[") then [] else trimmed
  }

  /** Normalising an already normalised value changes nothing. */
  lemma NormalisePlaceholderIdempotent(value: Option<string>)
    ensures NormalisePlaceholder(Some(NormalisePlaceholder(value))) == NormalisePlaceholder(value)
  {
    var r := NormalisePlaceholder(value);
    if r != [] {
      TrimTrimmed(r);
      assert !StartsWith(r, "[") by {
        assert r[0] != '[';
      }
    } else {
      assert Trim(r) == [];
    }
  }

  /** A trimmed value without a leading `[` is kept as it is. */
  lemma NormalisePlaceholderKeeps(value: string)
    requires value != [] && IsTrimmed(value) && value[0] != '['
    ensures NormalisePlaceholder(Some(value)) == value
  {
    TrimTrimmed(value);
    assert !StartsWith(value, "[") by {
      assert value[0] != '[';
    }
  }

  // -------------------------------------------------------------------- truncateText

  /** The end a JavaScript `slice(0, end)` keeps of a text of length `len`: a
      negative end counts back from the end of the text, and the result is
      clamped to the text. */
  function SliceEnd(len: nat, end: int): (k: nat)
    ensures k <= len
    ensures 0 <= end <= len ==> k == end
    ensures end < 0 ==> k == if len + end < 0 then 0 else len + end
  {
    if end < 0 then (if len + end < 0 then 0 else len + end)
    else if end > len then len
    else end
  }

  /** `truncateText`: the trimmed text when it fits in `maxLength` characters,
      and otherwise its first `maxLength - 3` characters (in the sense of
      `slice`) followed by `...`. */
  function TruncateText(value: string, maxLength: int): (r: string)
    ensures |Trim(value)| <= maxLength ==> r == Trim(value)
    ensures maxLength >= 3 ==> |r| <= maxLength
    ensures maxLength >= 3 && |Trim(value)| > maxLength ==>
      |r| == maxLength && r[maxLength - 3..] == "..." && r[..maxLength - 3] == Trim(value)[..maxLength - 3]
  {
    var text := Trim(value);
    if |text| <= maxLength then text
    else text[..SliceEnd(|text|, maxLength - 3)] + "..."
  }

  /** With a limit under 3 the negative `slice` end keeps almost all of the
      text: truncating `abcd` to 2 characters gives `abc...`. */
  lemma TruncateTextSmallLimit()
    ensures TruncateText("abcd", 2) == "abc..."
  {
    var text := "abcd";
    assert IsTrimmed(text) by {
      assert !IsSpace(text[0]) && !IsSpace(text[|text| - 1]);
    }
    TrimTrimmed(text);
    assert SliceEnd(4, -1) == 3;
    assert text[..3] == "abc";
  }

  /** The result is trimmed. */
  lemma TruncateTextTrimmed(value: string, maxLength: int)
    requires maxLength >= 3
    ensures IsTrimmed(TruncateText(value, maxLength))
  {
    var text := Trim(value);
    if |text| > maxLength {
      var r := text[..maxLength - 3] + "...";
      assert r[|r| - 1] == '.';
      if maxLength > 3 {
        assert r[0] == text[0];
      } else {
        assert r[0] == '.';
      }
    }
  }

  /** Truncating twice with the same limit gives what truncating once gives. */
  lemma TruncateTextIdempotent(value: string, maxLength: int)
    requires maxLength >= 3
    ensures TruncateText(TruncateText(value, maxLength), maxLength) == TruncateText(value, maxLength)
  {
    var r := TruncateText(value, maxLength);
    TruncateTextTrimmed(value, maxLength);
    TrimTrimmed(r);
  }

  // -------------------------------------------------------------- delivery history

  /** The number of deliveries the feed keeps. */
  const MaxDeliveries: nat := 5

  /** The fields of a delivery record that the feed shows; the record itself
      is built from the webhook response, which is not part of this model. */
  datatype Delivery = Delivery(
    id: string,
    statusLabel: string,
    programName: string,
    solicitation: string,
    responseDue: string,
    synopsis: string)

  /** The history after recording `entry`: no entry leaves it as it is;
      otherwise the entry goes in front and only the first five are kept. */
  function Recorded(history: seq<Delivery>, entry: Option<Delivery>): (r: seq<Delivery>)
    ensures entry.None? ==> r == history
    ensures entry.Some? ==> r != [] && r[0] == entry.value
    ensures entry.Some? ==> |r| == if |history| < MaxDeliveries then |history| + 1 else MaxDeliveries
    ensures entry.Some? ==> r[1..] == history[..|r| - 1]
  {
    match entry
    case None => history
    case Some(e) =>
      var pushed := [e] + history;
      if |pushed| > MaxDeliveries then pushed[..MaxDeliveries] else pushed
  }

  /** The feed state: the recorded deliveries, newest first. */
  class DeliveryLog {
    var deliveries: seq<Delivery>

    /** The feed holds at most five deliveries. */
    ghost predicate Valid()
      reads this
    {
      |deliveries| <= MaxDeliveries
    }

    /** The feed starts empty. */
    constructor ()
      ensures Valid() && deliveries == []
    {
      deliveries := [];
    }

    /** The capped update of `recordN8nDelivery`: the entry is put in front
        and the list is cut back to five. */
    method Record(entry: Option<Delivery>)
      requires Valid()
      modifies this
      ensures Valid()
      ensures deliveries == Recorded(old(deliveries), entry)
    {
      if entry.None? {
        return;
      }
      deliveries := [entry.value] + deliveries;
      if |deliveries| > MaxDeliveries {
        deliveries := deliveries[..MaxDeliveries];
      }
    }
  }

  /** The entries of a run, newest first. */
  function Reverse(entries: seq<Delivery>): (r: seq<Delivery>)
    ensures |r| == |entries|
    ensures forall i :: 0 <= i < |entries| ==> r[i] == entries[|entries| - 1 - i]
  {
    if entries == [] then [] else Reverse(entries[1..]) + [entries[0]]
  }

  /** The present entries of a run of records, in order. */
  function Present(entries: seq<Option<Delivery>>): seq<Delivery> {
    if entries == [] then []
    else
      var last := match entries[|entries| - 1] case Some(e) => [e] case None => [];
      Present(entries[..|entries| - 1]) + last
  }

  /** The history after recording each entry of a run, in order. */
  function RecordAll(history: seq<Delivery>, entries: seq<Option<Delivery>>): seq<Delivery> {
    if entries == [] then history
    else Recorded(RecordAll(history, entries[..|entries| - 1]), entries[|entries| - 1])
  }

  /** The newest five of a run's present entries, newest first. */
  function Newest(entries: seq<Option<Delivery>>): (r: seq<Delivery>) {
    var all := Reverse(Present(entries));
    if |all| > MaxDeliveries then all[..MaxDeliveries] else all
  }

  /** Starting from an empty feed, the feed holds exactly the five most recent
      entries, newest first: earlier entries keep their order and only the
      oldest are dropped. */
  lemma {:induction false} RecordAllNewest(entries: seq<Option<Delivery>>)
    ensures RecordAll([], entries) == Newest(entries)
    decreases |entries|
  {
    if entries != [] {
      var n := |entries| - 1;
      RecordAllNewest(entries[..n]);
      var before := Reverse(Present(entries[..n]));
      match entries[n]
      case None =>
        assert Present(entries) == Present(entries[..n]);
      case Some(e) =>
        assert Present(entries) == Present(entries[..n]) + [e];
        ReverseSnoc(Present(entries[..n]), e);
        var after := [e] + before;
        var prior := if |before| > MaxDeliveries then before[..MaxDeliveries] else before;
        var r := Recorded(prior, Some(e));
        assert |r| == |Newest(entries)|;
        forall i | 0 <= i < |r| ensures r[i] == Newest(entries)[i] {
          if i > 0 {
            assert r[i] == r[1..][i - 1];
          }
        }
    }
  }

  lemma ReverseSnoc(entries: seq<Delivery>, e: Delivery)
    ensures Reverse(entries + [e]) == [e] + Reverse(entries)
  {
    var r := Reverse(entries + [e]);
    assert |r| == |entries| + 1;
    forall i | 0 <= i < |r| ensures r[i] == ([e] + Reverse(entries))[i] {
      if i > 0 {
        assert (entries + [e])[|entries| - i] == entries[|entries| - i];
      }
    }
  }
}
