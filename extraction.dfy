/**
 * `extractQuestions` as one function of the document text: the sections in
 * order of appearance, and in each section the accepted matches in order of
 * position.
 */
module Extraction {
  import opened Text
  import opened Wrappers
  import opened QuestionPaper
  import opened Segmenter
  import opened SubQuestion
  import opened Validator

  /** The question that match `m` of section `number` yields, if any. */
  function Candidate(number: nat, sec: string, m: SubMatch): Option<Question>
    requires WellFormed(sec, m)
  {
    Accept(number, sec[m.start], sec[m.bodyStart..m.bodyEnd], sec[m.markStart..m.markEnd])
  }

  /** The accepted questions of the matches `ms`, in order. */
  function AcceptAll(number: nat, sec: string, ms: seq<SubMatch>): seq<Question>
    requires forall i :: 0 <= i < |ms| ==> WellFormed(sec, ms[i])
  {
    if ms == [] then []
    else
      (match Candidate(number, sec, ms[0]) case Some(q) => [q] case None => [])
      + AcceptAll(number, sec, ms[1..])
  }

  /** The questions found in the text `sec` of section `number`. */
  function SectionQuestions(number: nat, sec: string): seq<Question>
  {
    AcceptAll(number, sec, ScanMatches(sec, 0))
  }

  /** The questions of the sections `secs` of `text`, section by section. */
  function QuestionsOf(text: string, secs: seq<Section>): seq<Question>
    requires forall k :: 0 <= k < |secs| ==> secs[k].startPos <= secs[k].endPos <= |text|
  {
    if secs == [] then []
    else SectionQuestions(secs[0].number, text[secs[0].startPos..secs[0].endPos]) + QuestionsOf(text, secs[1..])
  }

  lemma ScanUnfold(sec: string, from: nat)
    requires Exec(sec, from).Some?
    ensures var m := Exec(sec, from).value;
      ScanMatches(sec, from) == [m] + ScanMatches(sec, m.bodyEnd)
  {
  }

  lemma AcceptAllCons(number: nat, sec: string, m: SubMatch, rest: seq<SubMatch>)
    requires WellFormed(sec, m) && forall i :: 0 <= i < |rest| ==> WellFormed(sec, rest[i])
    ensures AcceptAll(number, sec, [m] + rest)
      == (match Candidate(number, sec, m) case Some(q) => [q] case None => []) + AcceptAll(number, sec, rest)
  {
    assert ([m] + rest)[1..] == rest;
  }

  lemma PeelHead<T>(found: seq<T>, whole: seq<T>, head: seq<T>, rest: seq<T>, target: seq<T>)
    requires whole == head + rest && found + whole == target
    ensures (found + head) + rest == target
  {
  }

  /** One turn of the scan loop: the first match of the remaining scan
      contributes its question, if any, and the scan resumes where that
      match ended. */
  lemma ScanStep(number: nat, sec: string, from: nat, found: seq<Question>, target: seq<Question>)
    requires Exec(sec, from).Some?
    requires found + AcceptAll(number, sec, ScanMatches(sec, from)) == target
    ensures var m := Exec(sec, from).value;
      var rest := AcceptAll(number, sec, ScanMatches(sec, m.bodyEnd));
      && (Candidate(number, sec, m).None? ==> found + rest == target)
      && (Candidate(number, sec, m).Some? ==> (found + [Candidate(number, sec, m).value]) + rest == target)
  {
    var m := Exec(sec, from).value;
    var ms := ScanMatches(sec, m.bodyEnd);
    ScanUnfold(sec, from);
    AcceptAllCons(number, sec, m, ms);
    var c := Candidate(number, sec, m);
    var head := match c case Some(q) => [q] case None => [];
    PeelHead(found, AcceptAll(number, sec, ScanMatches(sec, from)), head, AcceptAll(number, sec, ms), target);
    if c.None? {
      assert found + head == found;
    }
  }

  /** What `extractQuestions(text)` returns. */
  function Questions(text: string): seq<Question>
  {
    SectionsWithin(text);
    QuestionsOf(text, Sections(text))
  }

  /** `id` is `"q"` followed by the decimal form of `n` and a lower-case
      sub-part letter. */
  predicate IdFor(id: string, n: nat)
  {
    |id| >= 3 && id[0] == 'q' && 'a' <= id[|id| - 1] <= 'c' && id[1..|id| - 1] == NatToString(n)
  }

  /** What every extracted question satisfies. */
  predicate Valid(q: Question)
  {
    && 2 <= q.marks <= 10
    && 15 <= |q.text| < 500
    && HasAsciiLetter(q.text)
    && NoWhiteAtEnds(q.text)
    && SingleSpaced(q.text)
    && q.position == ZeroPosition
    && q.alternatives == []
  }

  /** A question that passes the checks is valid and carries the id of its
      section. */
  lemma AcceptValid(number: nat, letter: char, body: string, digits: string)
    requires IsLabel(letter) && AllDigits(digits)
    ensures Accept(number, letter, body, digits).Some? ==>
      var q := Accept(number, letter, body, digits).value;
      Valid(q) && IdFor(q.id, number)
  {
    if Accept(number, letter, body, digits).Some? {
      var q := Accept(number, letter, body, digits).value;
      AcceptedShape(number, letter, body, digits);
      CleanOfTrimmed(Trim(body));
      assert q.id[1..|q.id| - 1] == NatToString(number);
    }
  }

  lemma {:induction false} AcceptAllValid(number: nat, sec: string, ms: seq<SubMatch>)
    requires forall i :: 0 <= i < |ms| ==> WellFormed(sec, ms[i])
    ensures forall i :: 0 <= i < |AcceptAll(number, sec, ms)| ==>
      Valid(AcceptAll(number, sec, ms)[i]) && IdFor(AcceptAll(number, sec, ms)[i].id, number)
  {
    if ms != [] {
      AcceptAllValid(number, sec, ms[1..]);
      var m := ms[0];
      var c := Candidate(number, sec, m);
      var rest := AcceptAll(number, sec, ms[1..]);
      assert AcceptAll(number, sec, ms) == (match c case Some(q) => [q] case None => []) + rest;
      CandidateValid(number, sec, m);
      ConsNumbered(c, rest, number);
    }
  }

  /** The question of one match, if there is one, is valid and carries the
      id of its section. */
  lemma CandidateValid(number: nat, sec: string, m: SubMatch)
    requires WellFormed(sec, m)
    ensures Candidate(number, sec, m).Some? ==>
      Valid(Candidate(number, sec, m).value) && IdFor(Candidate(number, sec, m).value.id, number)
  {
    assert AllDigits(sec[m.markStart..m.markEnd]);
    AcceptValid(number, sec[m.start], sec[m.bodyStart..m.bodyEnd], sec[m.markStart..m.markEnd]);
  }

  /** A valid question of section `number`, if there is one, in front of
      valid questions of that section. */
  lemma ConsNumbered(c: Option<Question>, b: seq<Question>, number: nat)
    requires c.Some? ==> Valid(c.value) && IdFor(c.value.id, number)
    requires forall i :: 0 <= i < |b| ==> Valid(b[i]) && IdFor(b[i].id, number)
    ensures var a := (match c case Some(q) => [q] case None => []) + b;
      forall i :: 0 <= i < |a| ==> Valid(a[i]) && IdFor(a[i].id, number)
  {
    var a := (match c case Some(q) => [q] case None => []) + b;
    forall i | 0 <= i < |a|
      ensures Valid(a[i]) && IdFor(a[i].id, number)
    {
      if c.Some? && i == 0 {
        assert a[i] == c.value;
      } else if c.Some? {
        assert a[i] == b[i - 1];
      } else {
        assert a[i] == b[i];
      }
    }
  }

  /** Some section of `secs` has the number that `id` carries. */
  predicate NumberedBy(id: string, secs: seq<Section>)
  {
    exists k :: 0 <= k < |secs| && IdFor(id, secs[k].number)
  }

  lemma {:induction false} QuestionsOfValid(text: string, secs: seq<Section>)
    requires forall k :: 0 <= k < |secs| ==> secs[k].startPos <= secs[k].endPos <= |text|
    ensures forall i :: 0 <= i < |QuestionsOf(text, secs)| ==>
      Valid(QuestionsOf(text, secs)[i]) && NumberedBy(QuestionsOf(text, secs)[i].id, secs)
  {
    if secs != [] {
      var sec := text[secs[0].startPos..secs[0].endPos];
      var head := SectionQuestions(secs[0].number, sec);
      var rest := QuestionsOf(text, secs[1..]);
      var qs := QuestionsOf(text, secs);
      assert qs == head + rest;
      QuestionsOfValid(text, secs[1..]);
      AcceptAllValid(secs[0].number, sec, ScanMatches(sec, 0));
      ConcatValid(head, rest, secs);
    }
  }

  /** The questions of the first section, then those of the others. */
  lemma ConcatValid(head: seq<Question>, rest: seq<Question>, secs: seq<Section>)
    requires secs != []
    requires forall i :: 0 <= i < |head| ==> Valid(head[i]) && IdFor(head[i].id, secs[0].number)
    requires forall i :: 0 <= i < |rest| ==> Valid(rest[i]) && NumberedBy(rest[i].id, secs[1..])
    ensures forall i :: 0 <= i < |head + rest| ==> Valid((head + rest)[i]) && NumberedBy((head + rest)[i].id, secs)
  {
    var qs := head + rest;
    forall i | 0 <= i < |qs|
      ensures Valid(qs[i]) && NumberedBy(qs[i].id, secs)
    {
      if i < |head| {
        assert qs[i] == head[i];
        assert IdFor(qs[i].id, secs[0].number);
      } else {
        assert qs[i] == rest[i - |head|];
        var k :| 0 <= k < |secs[1..]| && IdFor(qs[i].id, secs[1..][k].number);
        assert IdFor(qs[i].id, secs[k + 1].number);
      }
    }
  }

  /** Every extracted question has marks in [2, 10], a cleaned text of 15 to
      499 characters with a letter, single spaces only and no white space at
      its ends, a zero position, no alternatives, and the id of one of the
      sections' numbers. */
  lemma QuestionsValid(text: string)
    ensures forall i :: 0 <= i < |Questions(text)| ==>
      Valid(Questions(text)[i]) && NumberedBy(Questions(text)[i].id, Sections(text))
  {
    SectionsWithin(text);
    QuestionsOfValid(text, Sections(text));
  }
}
