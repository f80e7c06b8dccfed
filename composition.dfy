/**
 * How extraction composes: a text that is split just before a marker is
 * processed as its two halves are, one after the other. Hence the text
 * before the first marker yields nothing, and a repeated section yields its
 * questions twice.
 */
module Composition {
  import opened Text
  import opened Wrappers
  import opened QuestionPaper
  import opened Segmenter
  import opened Extraction

  function ShiftAll(ms: seq<nat>, d: nat): (r: seq<nat>)
    ensures |r| == |ms| && forall k :: 0 <= k < |ms| ==> r[k] == ms[k] + d
  {
    seq(|ms|, k requires 0 <= k < |ms| => ms[k] + d)
  }

  function ShiftSections(secs: seq<Section>, d: nat): (r: seq<Section>)
    ensures |r| == |secs|
    ensures forall k :: 0 <= k < |secs| ==>
      r[k] == Section(secs[k].number, secs[k].startPos + d, secs[k].endPos + d)
  {
    seq(|secs|, k requires 0 <= k < |secs| =>
      Section(secs[k].number, secs[k].startPos + d, secs[k].endPos + d))
  }

  lemma {:induction false} RunEndLeft(t1: string, t2: string, i: nat, cc: CharClass)
    requires i <= |t1|
    requires t2 == [] || !InClass(cc, t2[0])
    ensures RunEnd(t1 + t2, i, cc) == RunEnd(t1, i, cc)
    decreases |t1| - i
  {
    if i < |t1| {
      assert (t1 + t2)[i] == t1[i];
      RunEndLeft(t1, t2, i + 1, cc);
    } else if t2 != [] {
      assert (t1 + t2)[i] == t2[0];
    }
  }

  lemma {:induction false} RunEndRight(t1: string, t2: string, i: nat, cc: CharClass)
    requires i <= |t2|
    ensures RunEnd(t1 + t2, |t1| + i, cc) == |t1| + RunEnd(t2, i, cc)
    decreases |t2| - i
  {
    if i < |t2| {
      assert (t1 + t2)[|t1| + i] == t2[i];
      RunEndRight(t1, t2, i + 1, cc);
    }
  }

  lemma ShiftAllAppend(a: seq<nat>, b: seq<nat>, d: nat)
    ensures ShiftAll(a + b, d) == ShiftAll(a, d) + ShiftAll(b, d)
  {
  }

  lemma {:induction false} MarkersRight(t1: string, t2: string, k: nat)
    requires k <= |t2|
    ensures MarkersFrom(t1 + t2, |t1| + k) == ShiftAll(MarkersFrom(t2, k), |t1|)
    decreases |t2| - k
  {
    var s := t1 + t2;
    if k + 1 < |t2| {
      var h := if IsMarker(t2, k) then [k] else [];
      var hs := if IsMarker(s, |t1| + k) then [|t1| + k] else [];
      assert hs == ShiftAll(h, |t1|) by {
        assert s[|t1| + k] == t2[k] && s[|t1| + k + 1] == t2[k + 1];
      }
      var rest := MarkersFrom(t2, k + 1);
      assert MarkersFrom(t2, k) == h + rest;
      assert MarkersFrom(s, |t1| + k) == hs + MarkersFrom(s, |t1| + k + 1);
      MarkersRight(t1, t2, k + 1);
      ShiftAllAppend(h, rest, |t1|);
    } else {
      assert MarkersFrom(t2, k) == [];
    }
  }

  lemma {:induction false} MarkersLeft(t1: string, t2: string, k: nat)
    requires IsMarker(t2, 0) && k <= |t1|
    ensures MarkersFrom(t1 + t2, k) == MarkersFrom(t1, k) + ShiftAll(MarkersFrom(t2, 0), |t1|)
    decreases |t1| - k
  {
    var s := t1 + t2;
    if k == |t1| {
      MarkersRight(t1, t2, 0);
    } else {
      assert s[k] == t1[k];
      if k + 1 < |t1| {
        assert s[k + 1] == t1[k + 1];
      } else {
        assert s[k + 1] == t2[0];
      }
      assert IsMarker(s, k) == IsMarker(t1, k);
      MarkersLeft(t1, t2, k + 1);
    }
  }

  lemma MarkerLeft(t1: string, t2: string, m: nat)
    requires IsMarker(t2, 0) && IsMarker(t1, m)
    ensures IsMarker(t1 + t2, m) && MarkerEnd(t1 + t2, m) == MarkerEnd(t1, m)
    ensures MarkerNumber(t1 + t2, m) == MarkerNumber(t1, m)
  {
    assert (t1 + t2)[m] == t1[m] && (t1 + t2)[m + 1] == t1[m + 1];
    RunEndLeft(t1, t2, m + 1, Digit);
    assert (t1 + t2)[m + 1..MarkerEnd(t1, m)] == t1[m + 1..MarkerEnd(t1, m)];
  }

  lemma MarkerRight(t1: string, t2: string, m: nat, p: nat)
    requires IsMarker(t2, m) && p == |t1| + m
    ensures IsMarker(t1 + t2, p) && MarkerEnd(t1 + t2, p) == |t1| + MarkerEnd(t2, m)
    ensures MarkerNumber(t1 + t2, p) == MarkerNumber(t2, m)
  {
    assert (t1 + t2)[|t1| + m] == t2[m] && (t1 + t2)[|t1| + m + 1] == t2[m + 1];
    RunEndRight(t1, t2, m + 1, Digit);
    assert (t1 + t2)[|t1| + m + 1..|t1| + MarkerEnd(t2, m)] == t2[m + 1..MarkerEnd(t2, m)];
  }

  /** The sections that the markers at `ms`, carrying the numbers `nums`,
      delimit in a text of length `len`. */
  function Delimit(ms: seq<nat>, nums: seq<nat>, len: nat): (r: seq<Section>)
    requires |nums| == |ms|
    ensures |r| == |ms|
  {
    seq(|ms|, k requires 0 <= k < |ms| =>
      Section(nums[k], ms[k], if k + 1 < |ms| then ms[k + 1] else len))
  }

  /** The numbers the markers at `ms` carry. */
  function Numbers(s: string, ms: seq<nat>): (r: seq<nat>)
    requires forall i :: 0 <= i < |ms| ==> IsMarker(s, ms[i])
    ensures |r| == |ms|
  {
    seq(|ms|, k requires 0 <= k < |ms| => MarkerNumber(s, ms[k]))
  }

  lemma SectionsDelimit(s: string)
    ensures Sections(s) == Delimit(MarkersFrom(s, 0), Numbers(s, MarkersFrom(s, 0)), |s|)
  {
  }

  /** Delimiting is independent of the text: a list of markers that
      continues, from the end of the first text, with the markers of a second
      one delimits the sections of both. */
  lemma DelimitConcat(ms1: seq<nat>, nums1: seq<nat>, ms2: seq<nat>, nums2: seq<nat>, d: nat, len2: nat)
    requires |nums1| == |ms1| && |nums2| == |ms2| && ms2 != [] && ms2[0] == 0
    ensures Delimit(ms1 + ShiftAll(ms2, d), nums1 + nums2, d + len2)
         == Delimit(ms1, nums1, d) + ShiftSections(Delimit(ms2, nums2, len2), d)
  {
  }

  /** Each marker of either half carries the same number in the whole. */
  lemma NumbersConcat(t1: string, t2: string, ms1: seq<nat>, ms2: seq<nat>, ms: seq<nat>)
    requires IsMarker(t2, 0) && ms == ms1 + ShiftAll(ms2, |t1|)
    requires forall i :: 0 <= i < |ms1| ==> IsMarker(t1, ms1[i])
    requires forall i :: 0 <= i < |ms2| ==> IsMarker(t2, ms2[i])
    requires forall i :: 0 <= i < |ms| ==> IsMarker(t1 + t2, ms[i])
    ensures Numbers(t1 + t2, ms) == Numbers(t1, ms1) + Numbers(t2, ms2)
  {
    forall k | 0 <= k < |ms|
      ensures Numbers(t1 + t2, ms)[k] == (Numbers(t1, ms1) + Numbers(t2, ms2))[k]
    {
      if k < |ms1| {
        MarkerLeft(t1, t2, ms1[k]);
      } else {
        MarkerRight(t1, t2, ms2[k - |ms1|], ms[k]);
      }
    }
  }

  /** The sections of `t1 + t2`, when `t2` begins with a marker, are those of
      `t1` followed by those of `t2` moved along by `|t1|`. */
  lemma SectionsConcat(t1: string, t2: string)
    requires IsMarker(t2, 0)
    ensures Sections(t1 + t2) == Sections(t1) + ShiftSections(Sections(t2), |t1|)
  {
    var ms1 := MarkersFrom(t1, 0);
    var ms2 := MarkersFrom(t2, 0);
    var ms := MarkersFrom(t1 + t2, 0);
    MarkersLeft(t1, t2, 0);
    MarkersComplete(t2, 0, 0);
    assert ms2[0] == 0;
    NumbersConcat(t1, t2, ms1, ms2, ms);
    SectionsDelimit(t1);
    SectionsDelimit(t2);
    SectionsDelimit(t1 + t2);
    DelimitConcat(ms1, Numbers(t1, ms1), ms2, Numbers(t2, ms2), |t1|, |t2|);
  }

  lemma {:induction false} QuestionsOfAppend(text: string, a: seq<Section>, b: seq<Section>)
    requires forall k :: 0 <= k < |a| ==> a[k].startPos <= a[k].endPos <= |text|
    requires forall k :: 0 <= k < |b| ==> b[k].startPos <= b[k].endPos <= |text|
    ensures QuestionsOf(text, a + b) == QuestionsOf(text, a) + QuestionsOf(text, b)
  {
    if a != [] {
      assert (a + b)[1..] == a[1..] + b;
      QuestionsOfAppend(text, a[1..], b);
    } else {
      assert a + b == b;
    }
  }

  lemma {:induction false} QuestionsOfLeft(t1: string, t2: string, secs: seq<Section>)
    requires forall k :: 0 <= k < |secs| ==> secs[k].startPos <= secs[k].endPos <= |t1|
    ensures QuestionsOf(t1 + t2, secs) == QuestionsOf(t1, secs)
  {
    if secs != [] {
      var s0 := secs[0];
      var body := t1[s0.startPos..s0.endPos];
      assert (t1 + t2)[s0.startPos..s0.endPos] == body;
      QuestionsOfLeft(t1, t2, secs[1..]);
      assert QuestionsOf(t1 + t2, secs) == SectionQuestions(s0.number, body) + QuestionsOf(t1 + t2, secs[1..]);
    }
  }

  lemma {:induction false} QuestionsOfRight(t1: string, t2: string, secs: seq<Section>)
    requires forall k :: 0 <= k < |secs| ==> secs[k].startPos <= secs[k].endPos <= |t2|
    ensures QuestionsOf(t1 + t2, ShiftSections(secs, |t1|)) == QuestionsOf(t2, secs)
  {
    if secs != [] {
      var sh := ShiftSections(secs, |t1|);
      assert (t1 + t2)[sh[0].startPos..sh[0].endPos] == t2[secs[0].startPos..secs[0].endPos];
      assert sh[1..] == ShiftSections(secs[1..], |t1|);
      QuestionsOfRight(t1, t2, secs[1..]);
    }
  }

  /** Sections are processed independently: splitting the text just before
      a marker splits the result in the same place. */
  lemma QuestionsConcat(t1: string, t2: string)
    requires IsMarker(t2, 0)
    ensures Questions(t1 + t2) == Questions(t1) + Questions(t2)
  {
    var a := Sections(t1);
    var c := Sections(t2);
    var b := ShiftSections(c, |t1|);
    SectionsWithin(t1);
    SectionsWithin(t2);
    assert Sections(t1 + t2) == a + b by {
      SectionsConcat(t1, t2);
    }
    assert forall k :: 0 <= k < |b| ==> b[k].startPos <= b[k].endPos <= |t1 + t2|;
    QuestionsOfAppend(t1 + t2, a, b);
    QuestionsOfLeft(t1, t2, a);
    QuestionsOfRight(t1, t2, c);
  }

  /** A text without a marker yields no questions. */
  lemma NoMarkerNoQuestions(text: string)
    requires forall i :: 0 <= i < |text| ==> !IsMarker(text, i)
    ensures Questions(text) == []
  {
    NoMarkersLeft(text, 0);
  }

  /** The text before the first marker is never scanned: dropping it does
      not change the result. */
  lemma PreambleIgnored(text: string, m: nat)
    requires FindMarker(text, 0) == Some(m)
    ensures Questions(text) == Questions(text[m..])
  {
    var pre := text[..m];
    var rest := text[m..];
    assert text == pre + rest;
    assert IsMarker(rest, 0) by {
      assert rest[0] == text[m] && rest[1] == text[m + 1];
    }
    assert forall i :: 0 <= i < |pre| ==> !IsMarker(pre, i) by {
      forall i | 0 <= i < |pre| ensures !IsMarker(pre, i) {
        if IsMarker(pre, i) {
          assert pre[i] == text[i] && pre[i + 1] == text[i + 1];
          assert IsMarker(text, i);
        }
      }
    }
    NoMarkerNoQuestions(pre);
    QuestionsConcat(pre, rest);
  }

  /** There is no deduplication: a text that starts with a marker, written
      twice, yields its questions twice, ids and all. */
  lemma RepeatedTextRepeatsQuestions(t: string)
    requires IsMarker(t, 0)
    ensures Questions(t + t) == Questions(t) + Questions(t)
    ensures forall i :: 0 <= i < |Questions(t)| ==>
      Questions(t + t)[i].id == Questions(t + t)[|Questions(t)| + i].id
  {
    QuestionsConcat(t, t);
  }
}
