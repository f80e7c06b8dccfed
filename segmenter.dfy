/**
 * Splitting the document text into sections, one per match of the global
 * pattern `/Q(\d+)/g`: a section runs from its marker to the next marker, the
 * last one to the end of the text.
 */
module Segmenter {
  import opened Text
  import opened Wrappers

  /** A match of `/Q(\d+)/` begins at `i`: a capital `Q` followed by a digit. */
  predicate IsMarker(s: string, i: int)
  {
    0 <= i && i + 1 < |s| && s[i] == 'Q' && IsDigit(s[i + 1])
  }

  /** Where the match at marker `i` ends: `\d+` takes all the digits. */
  function MarkerEnd(s: string, i: nat): (j: nat)
    requires IsMarker(s, i)
    ensures i + 2 <= j <= |s|
    ensures forall k :: i + 1 <= k < j ==> IsDigit(s[k])
  {
    RunEnd(s, i + 1, Digit)
  }

  /** `parseInt` of the digits the marker at `i` captures. */
  function MarkerNumber(s: string, i: nat): nat
    requires IsMarker(s, i)
  {
    DigitsValue(s[i + 1..MarkerEnd(s, i)])
  }

  /** `exec` of the global marker pattern with `lastIndex` at `from`. */
  function FindMarker(s: string, from: nat): (r: Option<nat>)
    ensures r.Some? ==> from <= r.value && IsMarker(s, r.value)
    ensures r.Some? ==> forall k :: from <= k < r.value ==> !IsMarker(s, k)
    ensures r.None? ==> forall k :: from <= k ==> !IsMarker(s, k)
    decreases |s| - from
  {
    if from + 1 >= |s| then None
    else if IsMarker(s, from) then Some(from)
    else FindMarker(s, from + 1)
  }

  /** The positions of all markers at or after `k`, in ascending order. */
  function MarkersFrom(s: string, k: nat): (ms: seq<nat>)
    ensures forall i :: 0 <= i < |ms| ==> k <= ms[i] && IsMarker(s, ms[i])
    decreases |s| - k
  {
    if k + 1 >= |s| then []
    else (if IsMarker(s, k) then [k] else []) + MarkersFrom(s, k + 1)
  }

  /** Every marker at or after `k` is listed. */
  lemma {:induction false} MarkersComplete(s: string, k: nat, i: nat)
    requires k <= i
    ensures IsMarker(s, i) ==> i in MarkersFrom(s, k)
    decreases i - k
  {
    if k < i {
      MarkersComplete(s, k + 1, i);
    }
  }

  /** One section: the number its marker carries and the offsets of its
      text, `startPos` inclusive, `endPos` exclusive. */
  datatype Section = Section(number: nat, startPos: nat, endPos: nat)

  /** The sections of `s`, as `extractQuestions` computes them. */
  function Sections(s: string): seq<Section>
  {
    var ms := MarkersFrom(s, 0);
    seq(|ms|, k requires 0 <= k < |ms| =>
      Section(MarkerNumber(s, ms[k]), ms[k], if k + 1 < |ms| then ms[k + 1] else |s|))
  }

  /** Section `k` in terms of the markers. */
  lemma SectionAt(s: string, k: nat)
    requires k < |MarkersFrom(s, 0)|
    ensures |Sections(s)| == |MarkersFrom(s, 0)|
    ensures var ms := MarkersFrom(s, 0);
      Sections(s)[k] == Section(MarkerNumber(s, ms[k]), ms[k], if k + 1 < |ms| then ms[k + 1] else |s|)
  {
  }

  /** Each section starts at a marker and carries that marker's number; it
      ends where the next section starts, the last one at the end of the
      text. */
  lemma SectionsContiguous(s: string)
    ensures var secs := Sections(s);
      && (forall k :: 0 <= k < |secs| ==>
            IsMarker(s, secs[k].startPos) && secs[k].number == MarkerNumber(s, secs[k].startPos))
      && (forall k :: 0 <= k < |secs| ==> secs[k].startPos < secs[k].endPos <= |s|)
      && (forall k :: 0 <= k < |secs| - 1 ==> secs[k].endPos == secs[k + 1].startPos)
      && (|secs| > 0 ==> secs[|secs| - 1].endPos == |s|)
  {
    var secs := Sections(s);
    forall k | 0 <= k < |secs|
      ensures IsMarker(s, secs[k].startPos) && secs[k].number == MarkerNumber(s, secs[k].startPos)
      ensures secs[k].startPos < secs[k].endPos <= |s|
      ensures k < |secs| - 1 ==> secs[k].endPos == secs[k + 1].startPos
      ensures k == |secs| - 1 ==> secs[k].endPos == |s|
    {
      SectionBounds(s, k);
    }
  }

  /** Every section lies within the text. */
  lemma SectionsWithin(s: string)
    ensures forall k :: 0 <= k < |Sections(s)| ==> Sections(s)[k].startPos <= Sections(s)[k].endPos <= |s|
  {
    forall k | 0 <= k < |Sections(s)|
      ensures Sections(s)[k].startPos <= Sections(s)[k].endPos <= |s|
    {
      SectionBounds(s, k);
    }
  }

  /** Section `k` starts at its marker and ends where the next one starts. */
  lemma SectionBounds(s: string, k: nat)
    requires k < |Sections(s)|
    ensures var secs := Sections(s);
      && IsMarker(s, secs[k].startPos) && secs[k].number == MarkerNumber(s, secs[k].startPos)
      && secs[k].startPos < secs[k].endPos <= |s|
      && (k < |secs| - 1 ==> secs[k].endPos == secs[k + 1].startPos)
      && (k == |secs| - 1 ==> secs[k].endPos == |s|)
  {
    var ms := MarkersFrom(s, 0);
    if k + 1 < |ms| {
      MarkersAscending(s, 0, k, k + 1);
    }
  }

  /** Every marker starts a section. */
  lemma MarkerStartsSection(s: string, i: nat)
    requires IsMarker(s, i)
    ensures exists k :: 0 <= k < |Sections(s)| && Sections(s)[k].startPos == i
  {
    var ms := MarkersFrom(s, 0);
    MarkersComplete(s, 0, i);
    var k :| 0 <= k < |ms| && ms[k] == i;
    assert Sections(s)[k].startPos == i;
  }

  /** The markers are in strictly ascending order. */
  lemma {:induction false} MarkersAscending(s: string, k: nat, i: nat, j: nat)
    requires i < j < |MarkersFrom(s, k)|
    ensures MarkersFrom(s, k)[i] < MarkersFrom(s, k)[j]
    decreases |s| - k
  {
    var rest := MarkersFrom(s, k + 1);
    if IsMarker(s, k) {
      if i > 0 {
        MarkersAscending(s, k + 1, i - 1, j - 1);
      }
      ConsAscending(k, rest, i, j);
      assert MarkersFrom(s, k) == [k] + rest;
    } else {
      assert MarkersFrom(s, k) == rest;
      MarkersAscending(s, k + 1, i, j);
    }
  }

  /** The order of two elements of a list with a smaller head in front. */
  lemma ConsAscending(k: nat, rest: seq<nat>, i: nat, j: nat)
    requires i < j < |rest| + 1
    requires forall t :: 0 <= t < |rest| ==> k < rest[t]
    requires i > 0 ==> rest[i - 1] < rest[j - 1]
    ensures ([k] + rest)[i] < ([k] + rest)[j]
  {
  }

  /** No marker lies strictly inside a section: a section holds exactly one
      marker, at its start. */
  lemma NoMarkerInsideSection(s: string, k: nat, i: nat)
    requires k < |Sections(s)|
    requires Sections(s)[k].startPos < i < Sections(s)[k].endPos
    ensures !IsMarker(s, i)
  {
    var ms := MarkersFrom(s, 0);
    var sec := Sections(s)[k];
    assert sec.startPos == ms[k];
    assert k + 1 < |ms| ==> sec.endPos == ms[k + 1];
    MarkersComplete(s, 0, i);
    if IsMarker(s, i) {
      var j :| 0 <= j < |ms| && ms[j] == i;
      if j < k {
        MarkersAscending(s, 0, j, k);
      } else if k + 1 < j {
        MarkersAscending(s, 0, k + 1, j);
      }
    }
  }

  /** The text before the first section holds no marker, and there are no
      sections exactly when the text has no marker. */
  lemma NothingBeforeFirstSection(s: string, i: nat)
    ensures |Sections(s)| > 0 && i < Sections(s)[0].startPos ==> !IsMarker(s, i)
    ensures |Sections(s)| == 0 ==> !IsMarker(s, i)
  {
    var ms := MarkersFrom(s, 0);
    MarkersComplete(s, 0, i);
    if IsMarker(s, i) {
      var j :| 0 <= j < |ms| && ms[j] == i;
      if 0 < j {
        MarkersAscending(s, 0, 0, j);
      }
    }
  }

  /** There are no markers in `[a, b)`, so scanning from either gives the
      same markers. */
  lemma {:induction false} MarkersSkip(s: string, a: nat, b: nat)
    requires a <= b
    requires forall k :: a <= k < b ==> !IsMarker(s, k)
    ensures MarkersFrom(s, a) == MarkersFrom(s, b)
    decreases b - a
  {
    if a < b && a + 1 < |s| {
      MarkersSkip(s, a + 1, b);
    }
  }

  lemma {:induction false} NoMarkersLeft(s: string, from: nat)
    requires forall k :: from <= k ==> !IsMarker(s, k)
    ensures MarkersFrom(s, from) == []
    decreases |s| - from
  {
    if from + 1 < |s| {
      NoMarkersLeft(s, from + 1);
    }
  }

  /** The global `exec` loop visits exactly the markers, in order: the match
      it finds from `from` is the first of them, and it resumes after the
      digits, where no marker can begin. */
  lemma FindMarkerStep(s: string, from: nat)
    ensures FindMarker(s, from).None? ==> MarkersFrom(s, from) == []
    ensures FindMarker(s, from).Some? ==>
      var m := FindMarker(s, from).value;
      MarkersFrom(s, from) == [m] + MarkersFrom(s, MarkerEnd(s, m))
  {
    match FindMarker(s, from)
    case None =>
      NoMarkersLeft(s, from);
    case Some(m) =>
      MarkersSkip(s, from, m);
      var e := MarkerEnd(s, m);
      MarkersSkip(s, m + 1, e);
  }
}
