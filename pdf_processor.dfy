/**
 * `PdfProcessor.extractQuestions` and `PdfProcessor.generateSimilarQuestions`
 * as the loops they are, each proved to compute its specification.
 */
module PdfProcessor {
  import opened Text
  import opened Wrappers
  import opened QuestionPaper
  import opened Segmenter
  import opened SubQuestion
  import opened Validator
  import opened Extraction
  import opened Rephrase

  /** The scan of one section: the global sub-question pattern is run from
      `lastIndex = 0`; each raw match goes through the checks of `Accept`,
      and the ones that pass are pushed. */
  method ScanSection(number: nat, qSection: string) returns (found: seq<Question>)
    ensures found == SectionQuestions(number, qSection)
  {
    found := [];
    var lastIndex: nat := 0;
    var match_ := Exec(qSection, lastIndex);
    while match_.Some?
      invariant match_ == Exec(qSection, lastIndex)
      invariant found + AcceptAll(number, qSection, ScanMatches(qSection, lastIndex)) == SectionQuestions(number, qSection)
      decreases |qSection| - lastIndex
    {
      var m := match_.value;
      ScanStep(number, qSection, lastIndex, found, SectionQuestions(number, qSection));
      lastIndex := m.bodyEnd;
      match_ := Exec(qSection, lastIndex);
      var candidate := Candidate(number, qSection, m);
      if candidate.Some? {
        found := found + [candidate.value];
      }
    }
  }

  /** Markers read as sections that each run to the end of the text. */
  function Opened(text: string, ms: seq<nat>): (secs: seq<Section>)
    requires forall i :: 0 <= i < |ms| ==> IsMarker(text, ms[i])
    ensures |secs| == |ms|
    ensures forall j :: 0 <= j < |ms| ==> secs[j] == Section(MarkerNumber(text, ms[j]), ms[j], |text|)
  {
    if |ms| == 0 then [] else [Section(MarkerNumber(text, ms[0]), ms[0], |text|)] + Opened(text, ms[1..])
  }

  /** One turn of the marker loop: the marker found from `from` opens the
      next section and the scan resumes after its digits. */
  lemma OpenedStep(text: string, from: nat)
    requires FindMarker(text, from).Some?
    ensures var m := FindMarker(text, from).value;
      Opened(text, MarkersFrom(text, from))
      == [Section(MarkerNumber(text, m), m, |text|)] + Opened(text, MarkersFrom(text, MarkerEnd(text, m)))
  {
    FindMarkerStep(text, from);
    var m := FindMarker(text, from).value;
    assert ([m] + MarkersFrom(text, MarkerEnd(text, m)))[1..] == MarkersFrom(text, MarkerEnd(text, m));
  }

  /** The first loop of `extractQuestions`: every marker the global `exec`
      loop finds, in order, read as a section that runs to the end of the
      text. */
  method CollectMarkers(text: string) returns (qNumbers: seq<Section>)
    ensures qNumbers == Opened(text, MarkersFrom(text, 0))
  {
    qNumbers := [];
    var lastIndex: nat := 0;
    var qMatch := FindMarker(text, lastIndex);
    while qMatch.Some?
      invariant qMatch == FindMarker(text, lastIndex)
      invariant qNumbers + Opened(text, MarkersFrom(text, lastIndex)) == Opened(text, MarkersFrom(text, 0))
      decreases |text| - lastIndex
    {
      var m := qMatch.value;
      OpenedStep(text, lastIndex);
      PeelHead(qNumbers, Opened(text, MarkersFrom(text, lastIndex)), [Section(MarkerNumber(text, m), m, |text|)],
        Opened(text, MarkersFrom(text, MarkerEnd(text, m))), Opened(text, MarkersFrom(text, 0)));
      qNumbers := qNumbers + [Section(MarkerNumber(text, m), m, |text|)];
      lastIndex := MarkerEnd(text, m);
      qMatch := FindMarker(text, lastIndex);
    }
    FindMarkerStep(text, lastIndex);
    assert qNumbers + [] == qNumbers;
  }

  /** The second loop: each section but the last is cut where the next one
      starts; the last keeps its end. */
  method CloseSections(openSecs: seq<Section>) returns (qNumbers: seq<Section>)
    ensures |qNumbers| == |openSecs|
    ensures forall j :: 0 <= j < |openSecs| ==>
      qNumbers[j].number == openSecs[j].number && qNumbers[j].startPos == openSecs[j].startPos
    ensures forall j {:trigger qNumbers[j]} :: 0 <= j < |openSecs| ==>
      qNumbers[j].endPos == (if j + 1 < |openSecs| then openSecs[j + 1].startPos else openSecs[j].endPos)
  {
    qNumbers := openSecs;
    var i := 0;
    while i < |qNumbers| - 1
      invariant 0 <= i && (i < |openSecs| || i == 0) && |qNumbers| == |openSecs|
      invariant forall j :: 0 <= j < |openSecs| ==>
        qNumbers[j].number == openSecs[j].number && qNumbers[j].startPos == openSecs[j].startPos
      invariant forall j {:trigger qNumbers[j]} :: 0 <= j < |openSecs| ==>
        qNumbers[j].endPos == (if j < i then openSecs[j + 1].startPos else openSecs[j].endPos)
    {
      assert qNumbers[i + 1].startPos == openSecs[i + 1].startPos;
      qNumbers := qNumbers[i := qNumbers[i].(endPos := qNumbers[i + 1].startPos)];
      i := i + 1;
    }
  }

  /** The third loop: each section's text is scanned in turn and what it
      yields is appended. */
  method ScanSections(text: string, qNumbers: seq<Section>) returns (questions: seq<Question>)
    requires forall k :: 0 <= k < |qNumbers| ==> qNumbers[k].startPos <= qNumbers[k].endPos <= |text|
    ensures questions == QuestionsOf(text, qNumbers)
  {
    questions := [];
    var k := 0;
    while k < |qNumbers|
      invariant 0 <= k <= |qNumbers|
      invariant questions + QuestionsOf(text, qNumbers[k..]) == QuestionsOf(text, qNumbers)
    {
      var qInfo := qNumbers[k];
      var qSection := text[qInfo.startPos..qInfo.endPos];
      var found := ScanSection(qInfo.number, qSection);
      assert qNumbers[k..][1..] == qNumbers[k + 1..];
      questions := questions + found;
      k := k + 1;
    }
    assert qNumbers[k..] == [];
  }

  /** The markers, read as open sections and then cut at the next start,
      are the sections of the text. */
  lemma SectionsOfMarkers(text: string, openSecs: seq<Section>, closed: seq<Section>)
    requires openSecs == Opened(text, MarkersFrom(text, 0))
    requires |closed| == |openSecs|
    requires forall j :: 0 <= j < |openSecs| ==>
      closed[j].number == openSecs[j].number && closed[j].startPos == openSecs[j].startPos
    requires forall j {:trigger closed[j]} :: 0 <= j < |openSecs| ==>
      closed[j].endPos == (if j + 1 < |openSecs| then openSecs[j + 1].startPos else openSecs[j].endPos)
    ensures closed == Sections(text)
  {
    var ms := MarkersFrom(text, 0);
    var secs := Sections(text);
    assert |secs| == |ms|;
    forall j | 0 <= j < |closed|
      ensures closed[j] == secs[j]
    {
      SectionAt(text, j);
      assert openSecs[j] == Section(MarkerNumber(text, ms[j]), ms[j], |text|);
      if j + 1 < |openSecs| {
        assert openSecs[j + 1] == Section(MarkerNumber(text, ms[j + 1]), ms[j + 1], |text|);
      }
    }
  }

  /** `extractQuestions(text)`: the sub-questions that pass the checks,
      section by section in document order. */
  method ExtractQuestions(text: string) returns (questions: seq<Question>)
    ensures questions == Questions(text)
    ensures forall i :: 0 <= i < |questions| ==> Valid(questions[i])
  {
    var openSecs := CollectMarkers(text);
    var qNumbers := CloseSections(openSecs);
    SectionsOfMarkers(text, openSecs, qNumbers);
    SectionsContiguous(text);
    questions := ScanSections(text, qNumbers);
    QuestionsValid(text);
  }

  /** The five fixed prefixes, in order. */
  const QuestionTypes: seq<string> := [
    "Explain in detail",
    "Describe with examples",
    "Analyze and discuss",
    "Compare and contrast",
    "Evaluate the significance of"]

  /** `generateSimilarQuestions(originalQuestion)`: the base content behind
      each of the five prefixes, in order. */
  method GenerateSimilarQuestions(originalQuestion: string) returns (alternatives: seq<string>)
    ensures |alternatives| == |QuestionTypes| == 5
    ensures forall i :: 0 <= i < 5 ==>
      alternatives[i] == QuestionTypes[i] + " " + BaseContent(originalQuestion)
  {
    alternatives := [];
    var baseContent := BaseContent(originalQuestion);
    for index := 0 to |QuestionTypes|
      invariant |alternatives| == index
      invariant forall i :: 0 <= i < index ==> alternatives[i] == QuestionTypes[i] + " " + baseContent
    {
      if index < 5 {
        alternatives := alternatives + [QuestionTypes[index] + " " + baseContent];
      }
    }
  }
}
