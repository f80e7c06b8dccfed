/**
 * The filter and the cleaning that `extractQuestions` applies to each raw
 * match before it becomes a `Question`.
 */
module Validator {
  import opened Text
  import opened Wrappers
  import opened QuestionPaper

  /** The header and boilerplate patterns, all case-insensitive. */
  datatype HeaderPattern =
    | University       // /visvesvaraya technological university/i
    | ModelPaper       // /model question paper/i
    | SemesterExam     // /semester.*degree examination/i
    | TimeHours        // /time:\s*\d+\s*hours/i
    | MaxMarksLine     // /max\.marks:\s*\d+/i
    | AnswerNote       // /note:\s*answer any/i
    | ModuleHeading    // /module[–\-]\s*\d+/i
    | QnoColumn        // /qno\./i
    | MarksWord        // /marks/i
    | BetckCode        // /betck\d+/i
    | OrLine           // /^or$/i
    | Usn              // /usn:/i
    | IntroductionTo   // /introduction to/i

  /** The patterns in the order `headerPatterns.some` tries them. */
  const HeaderPatterns: seq<HeaderPattern> := [
    University, ModelPaper, SemesterExam, TimeHours, MaxMarksLine, AnswerNote,
    ModuleHeading, QnoColumn, MarksWord, BetckCode, OrLine, Usn, IntroductionTo]

  /** A white run from `i` and then a digit: `\s*\d` (the greedy `\s*` never
      needs to give anything back, since a digit is not white). */
  predicate DigitAfterWhite(t: string, i: nat)
    requires i <= |t|
  {
    RunEnd(t, i, White) < |t| && IsDigit(t[RunEnd(t, i, White)])
  }

  /** Pattern `p` matches `t` starting at `i`. */
  predicate MatchesAt(p: HeaderPattern, t: string, i: nat)
  {
    match p
    case University => LitAt(t, i, "visvesvaraya technological university")
    case ModelPaper => LitAt(t, i, "model question paper")
    case SemesterExam =>
      LitAt(t, i, "semester")
      && exists j :: i + 8 <= j <= |t| && LitAt(t, j, "degree examination")
                     && forall k :: i + 8 <= k < j ==> !IsLineTerminator(t[k])
    case TimeHours =>
      LitAt(t, i, "time:") && DigitAfterWhite(t, i + 5)
      && LitAt(t, RunEnd(t, RunEnd(t, RunEnd(t, i + 5, White), Digit), White), "hours")
    case MaxMarksLine => LitAt(t, i, "max.marks:") && DigitAfterWhite(t, i + 10)
    case AnswerNote => LitAt(t, i, "note:") && LitAt(t, RunEnd(t, i + 5, White), "answer any")
    case ModuleHeading =>
      LitAt(t, i, "module") && i + 6 < |t| && (t[i + 6] == '\U{2013}' || t[i + 6] == '-')
      && DigitAfterWhite(t, i + 7)
    case QnoColumn => LitAt(t, i, "qno.")
    case MarksWord => LitAt(t, i, "marks")
    case BetckCode => LitAt(t, i, "betck") && i + 5 < |t| && IsDigit(t[i + 5])
    case OrLine => i == 0 && |t| == 2 && LitAt(t, 0, "or")
    case Usn => LitAt(t, i, "usn:")
    case IntroductionTo => LitAt(t, i, "introduction to")
  }

  /** `pattern.test(t)`, scanning from position `i`: the pattern matches at
      `i` or later. */
  predicate TestFrom(p: HeaderPattern, t: string, i: nat)
    decreases |t| - i
  {
    i <= |t| && (MatchesAt(p, t, i) || TestFrom(p, t, i + 1))
  }

  /** `ps.some(pattern => pattern.test(t))` */
  predicate SomeTest(ps: seq<HeaderPattern>, t: string)
  {
    |ps| > 0 && (TestFrom(ps[0], t, 0) || SomeTest(ps[1..], t))
  }

  predicate IsHeader(t: string)
  {
    SomeTest(HeaderPatterns, t)
  }

  lemma TestFromAt(p: HeaderPattern, t: string, from: nat, i: nat)
    requires from <= i <= |t| && MatchesAt(p, t, i)
    ensures TestFrom(p, t, from)
  {
    assert TestFrom(p, t, i);
    TestFromEarlier(p, t, from, i);
  }

  /** A scan that succeeds from `i` succeeds from any earlier position. */
  lemma {:induction false} TestFromEarlier(p: HeaderPattern, t: string, from: nat, i: nat)
    requires from <= i && TestFrom(p, t, i)
    ensures TestFrom(p, t, from)
    decreases i - from
  {
    if from < i {
      TestFromEarlier(p, t, from + 1, i);
    }
  }

  lemma {:induction false} SomeTestAt(ps: seq<HeaderPattern>, t: string, k: nat)
    requires k < |ps| && TestFrom(ps[k], t, 0)
    ensures SomeTest(ps, t)
  {
    if k > 0 {
      SomeTestAt(ps[1..], t, k - 1);
    }
  }

  /** A text is a header exactly when one of the patterns matches at some
      position. */
  lemma IsHeaderWhenMatched(t: string, k: nat, i: nat)
    requires k < |HeaderPatterns| && i <= |t| && MatchesAt(HeaderPatterns[k], t, i)
    ensures IsHeader(t)
  {
    TestFromAt(HeaderPatterns[k], t, 0, i);
    SomeTestAt(HeaderPatterns, t, k);
  }

  /** `parseInt(digits) || 8`: the mark value, with 0 read as 8. */
  function MarkValue(digits: string): nat
    requires AllDigits(digits)
  {
    var v := DigitsValue(digits);
    if v == 0 then 8 else v
  }

  /** `.replace(/^\s*[a-cA-C]\s+/, '')`: drops one sub-part letter (and the
      white space around it) from the front. */
  function StripLabel(s: string): string
  {
    var a := RunEnd(s, 0, White);
    if a + 1 < |s| && IsLabel(s[a]) && IsWhite(s[a + 1]) then s[RunEnd(s, a + 1, White)..]
    else s
  }

  /** The cleaning chain: collapse white space, drop a duplicated leading
      label, turn line feeds into spaces, trim. */
  function Clean(t: string): string
  {
    Trim(NewlinesToSpace(StripLabel(Collapse(t))))
  }

  /** `/^\d+$/` */
  predicate IsNumeral(s: string)
  {
    |s| > 0 && AllDigits(s)
  }

  /** `/^[a-cA-C]$/` */
  predicate IsSingleLabel(s: string)
  {
    |s| == 1 && IsLabel(s[0])
  }

  /** The checks of the scan loop on one raw match of section `number`: its
      label, its raw body and the digits of its mark. The question, or
      `None` where the loop skips the match. */
  function Accept(number: nat, letter: char, body: string, digits: string): Option<Question>
    requires IsLabel(letter) && AllDigits(digits)
  {
    var subPart := [Fold(letter)];
    var questionText := Trim(body);
    var marks := MarkValue(digits);
    if marks > 10 || marks < 2 then None
    else if IsHeader(questionText) then None
    else if !(|questionText| > 0 && |questionText| > 20 && |questionText| < 500) then None
    else
      var cleanedText := Clean(questionText);
      if |cleanedText| < 15 || !HasAsciiLetter(cleanedText) then None
      else if IsNumeral(cleanedText) || IsSingleLabel(cleanedText) then None
      else Some(Question("q" + NatToString(number) + subPart, cleanedText, marks, ZeroPosition, []))
  }

  /** The checks of `Accept` one by one, in the order the scan loop makes
      them. */
  lemma AcceptSteps(number: nat, letter: char, body: string, digits: string)
    requires IsLabel(letter) && AllDigits(digits)
    ensures var r := Accept(number, letter, body, digits);
      var t := Trim(body);
      var marks := MarkValue(digits);
      && (marks > 10 || marks < 2 ==> r == None)
      && (2 <= marks <= 10 && IsHeader(t) ==> r == None)
      && (2 <= marks <= 10 && !IsHeader(t) && !(|t| > 0 && |t| > 20 && |t| < 500) ==> r == None)
      && (2 <= marks <= 10 && !IsHeader(t) && 20 < |t| < 500 ==>
            var c := Clean(t);
            && (|c| < 15 || !HasAsciiLetter(c) ==> r == None)
            && (!(|c| < 15 || !HasAsciiLetter(c)) && (IsNumeral(c) || IsSingleLabel(c)) ==> r == None)
            && (!(|c| < 15 || !HasAsciiLetter(c)) && !(IsNumeral(c) || IsSingleLabel(c)) ==>
                  r == Some(Question("q" + NatToString(number) + [Fold(letter)], c, marks, ZeroPosition, []))))
  {
  }

  /** An accepted question has its mark in [2, 10], read with 0 as 8; the
      trimmed body passed the header and length checks; the id is "q", the
      section number and the lower-cased label; the text is the cleaned body,
      of at least 15 characters with a letter; the position is zero and
      there are no alternatives. */
  lemma AcceptedShape(number: nat, letter: char, body: string, digits: string)
    requires IsLabel(letter) && AllDigits(digits)
    ensures var r := Accept(number, letter, body, digits);
      r.Some? ==>
        && 2 <= r.value.marks <= 10 && r.value.marks == MarkValue(digits)
        && 20 < |Trim(body)| < 500 && !IsHeader(Trim(body))
        && 'a' <= Fold(letter) <= 'c' && r.value.id == "q" + NatToString(number) + [Fold(letter)]
        && r.value.position == ZeroPosition && r.value.alternatives == []
        && r.value.text == Clean(Trim(body)) && 15 <= |r.value.text| && HasAsciiLetter(r.value.text)
  {
  }

  /** On collapsed text without white space at its ends, the label removal
      drops the first two characters or nothing. */
  lemma StripLabelOfCollapsed(c: string)
    requires SingleSpaced(c) && NoWhiteAtEnds(c)
    ensures || StripLabel(c) == c
            || (|c| > 2 && IsLabel(c[0]) && c[1] == ' ' && StripLabel(c) == c[2..])
    ensures SingleSpaced(StripLabel(c)) && NoWhiteAtEnds(StripLabel(c))
  {
    if c != [] {
      assert RunEnd(c, 0, White) == 0;
    }
    if |c| >= 2 && IsLabel(c[0]) && IsWhite(c[1]) {
      assert |c| > 2;
      assert !IsWhite(c[2]);
      assert RunEnd(c, 1, White) == 2;
      SingleSpacedSlice(c, 2, |c|);
    }
  }

  lemma NoLineFeed(s: string)
    requires SingleSpaced(s)
    ensures NewlinesToSpace(s) == s
  {
    assert forall k :: 0 <= k < |s| ==> s[k] != '\n' by {
      forall k | 0 <= k < |s| ensures s[k] != '\n' {
        if s[k] == '\n' { assert IsWhite(s[k]); }
      }
    }
  }

  /** Cleaning a trimmed body leaves its collapsed form, minus at most one
      leading sub-part letter and its space: nothing else is removed or
      changed. The result has no white space at its ends and only single
      spaces as white space, so no line break. */
  lemma CleanOfTrimmed(t: string)
    requires NoWhiteAtEnds(t)
    ensures var c := Collapse(t);
      || Clean(t) == c
      || (|c| > 2 && IsLabel(c[0]) && c[1] == ' ' && Clean(t) == c[2..])
    ensures NoWhiteAtEnds(Clean(t)) && SingleSpaced(Clean(t)) && |Clean(t)| <= |t|
  {
    var c := Collapse(t);
    CollapseHasSingleSpaces(t);
    StripLabelOfCollapsed(c);
    NoLineFeed(StripLabel(c));
    TrimOfTrimmed(StripLabel(c));
  }

  /** The formatting check never fires: a cleaned text that passed the
      length and letter checks is neither a numeral nor a lone label. */
  lemma FormattingCheckRedundant(c: string)
    requires |c| >= 15 && HasAsciiLetter(c)
    ensures !IsNumeral(c) && !IsSingleLabel(c)
  {
    var k :| 0 <= k < |c| && IsAsciiLetter(c[k]);
    assert !IsDigit(c[k]);
  }

  /** A match is accepted exactly when its mark is in range, its trimmed
      body is no header and has 21 to 499 characters, and the cleaned text
      has at least 15 characters and a letter. */
  lemma AcceptExactly(number: nat, letter: char, body: string, digits: string)
    requires IsLabel(letter) && AllDigits(digits)
    ensures var t := Trim(body);
      Accept(number, letter, body, digits).Some? <==>
        && 2 <= MarkValue(digits) <= 10
        && !IsHeader(t)
        && 20 < |t| < 500
        && 15 <= |Clean(t)| && HasAsciiLetter(Clean(t))
  {
    var c := Clean(Trim(body));
    if |c| >= 15 && HasAsciiLetter(c) {
      FormattingCheckRedundant(c);
    }
  }

  /** A captured mark of zero (in any number of digits) is read as 8, so the
      match is judged as if its mark were 8. */
  lemma ZeroMarksReadAsEight(number: nat, letter: char, body: string, digits: string)
    requires IsLabel(letter) && AllDigits(digits)
    requires forall k :: 0 <= k < |digits| ==> digits[k] == '0'
    ensures Accept(number, letter, body, digits) == Accept(number, letter, body, "8")
    ensures MarkValue(digits) == 8
  {
    ZerosValue(digits);
    assert DigitsValue("8") == 8 by {
      assert "8"[..0] == [];
    }
    assert MarkValue(digits) == MarkValue("8");
  }

  /** A body that mentions "marks" or "introduction to", in any case, is
      rejected as a header. */
  lemma HeaderRejected(number: nat, letter: char, body: string, digits: string)
    requires IsLabel(letter) && AllDigits(digits)
    requires ContainsLit(Trim(body), "marks") || ContainsLit(Trim(body), "introduction to")
    ensures Accept(number, letter, body, digits) == None
  {
    var t := Trim(body);
    if ContainsLit(t, "marks") {
      var i :| 0 <= i <= |t| && LitAt(t, i, "marks");
      IsHeaderWhenMatched(t, 8, i);
    } else {
      var i :| 0 <= i <= |t| && LitAt(t, i, "introduction to");
      IsHeaderWhenMatched(t, 12, i);
    }
  }

  /** The collapsed body has a letter exactly when the body has one, so
      the letter check is not affected by the cleaning of white space. */
  lemma CollapseKeepsLetters(t: string)
    ensures HasAsciiLetter(Collapse(t)) <==> HasAsciiLetter(t)
  {
    CollapseKeepsNonWhite(t);
    NonWhiteLetters(t);
    NonWhiteLetters(Collapse(t));
  }

  lemma {:induction false} NonWhiteLetters(s: string)
    ensures HasAsciiLetter(NonWhite(s)) <==> HasAsciiLetter(s)
  {
    if s != [] {
      NonWhiteLetters(s[1..]);
      var head := if IsWhite(s[0]) then [] else [s[0]];
      assert NonWhite(s) == head + NonWhite(s[1..]);
      HasLetterConcat(head, NonWhite(s[1..]));
      assert s == [s[0]] + s[1..];
      HasLetterConcat([s[0]], s[1..]);
      assert HasAsciiLetter(head) <==> HasAsciiLetter([s[0]]) by {
        assert [s[0]][0] == s[0];
      }
    }
  }

  /** A concatenation has a letter exactly when one of its parts has. */
  lemma HasLetterConcat(a: string, b: string)
    ensures HasAsciiLetter(a + b) <==> HasAsciiLetter(a) || HasAsciiLetter(b)
  {
    if HasAsciiLetter(a + b) {
      var k :| 0 <= k < |a + b| && IsAsciiLetter((a + b)[k]);
      if k < |a| {
        assert a[k] == (a + b)[k];
      } else {
        assert b[k - |a|] == (a + b)[k];
      }
    }
    if HasAsciiLetter(a) {
      var k :| 0 <= k < |a| && IsAsciiLetter(a[k]);
      assert (a + b)[k] == a[k];
    }
    if HasAsciiLetter(b) {
      var k :| 0 <= k < |b| && IsAsciiLetter(b[k]);
      assert (a + b)[|a| + k] == b[k];
    }
  }
}
