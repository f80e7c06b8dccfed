/**
 * The header of the VTU paper: seven case-insensitive regular expressions,
 * each run once over the whole extracted text with `String.prototype.match`
 * (no `g` flag), whose first match, if any, becomes the field's value.
 *
 * Each pattern is written as a matcher `MatchAt(p, s, i)` giving where the
 * match that JavaScript's backtracking matcher finds at position `i` ends:
 * greedy quantifiers try the longest run first, alternatives are tried left
 * to right. Where backtracking into a quantifier can never succeed (the next
 * token cannot match a character the quantifier consumed) the matcher takes
 * the longest run directly, as the comments say.
 */
module HeaderFields {
  import opened Text
  import opened Wrappers
  import opened Matching

  /** The alternatives of `(first|second|…|eighth)`, in order. */
  const Ordinals: seq<string> :=
    ["first", "second", "third", "fourth", "fifth", "sixth", "seventh", "eighth"]

  /** The seven header patterns. */
  datatype FieldPattern =
    | University   // /visvesvaraya technological university/i
    | Course       // /(first|…|eighth).*semester.*degree/i
    | Semester     // /(first|…|eighth)/i
    | Subject      // /introduction to \w+/i
    | Time         // /time:\s*\d+\s*hours?/i
    | MaxMarks     // /max\.?\s*marks?\s*:\s*\d+/i
    | CourseCode   // /[A-Z]{2,}[CK]\d+[A-Z]*/i

  /** The alternation of the ordinals at `i`, from alternative `k` on: the
      end of the first alternative that matches. */
  function OrdinalFrom(s: string, i: nat, k: nat): (r: Option<nat>)
    requires k <= |Ordinals|
    ensures r.Some? ==> i < r.value <= |s|
    ensures r.Some? ==> exists j :: k <= j < |Ordinals| && LitAt(s, i, Ordinals[j]) && r.value == i + |Ordinals[j]|
    ensures r.None? ==> forall j :: k <= j < |Ordinals| ==> !LitAt(s, i, Ordinals[j])
    decreases |Ordinals| - k
  {
    if k == |Ordinals| then None
    else if LitAt(s, i, Ordinals[k]) then Some(i + |Ordinals[k]|)
    else OrdinalFrom(s, i, k + 1)
  }

  /** The tail `.*degree` tried with `.*` ending at `d`, then at `d - 1`, …,
      down to `lo`: the end of the match found, if any. */
  function DegreeDown(s: string, lo: nat, d: nat): (r: Option<nat>)
    requires lo <= d
    ensures r.Some? ==> lo + 6 <= r.value <= d + 6 && LitAt(s, r.value - 6, "degree")
    ensures r.Some? ==> forall j :: r.value - 6 < j <= d ==> !LitAt(s, j, "degree")
    ensures r.None? ==> forall j :: lo <= j <= d ==> !LitAt(s, j, "degree")
    decreases d - lo
  {
    if LitAt(s, d, "degree") then Some(d + 6)
    else if d == lo then None
    else DegreeDown(s, lo, d - 1)
  }

  /** `semester.*degree` at `k`: where the match that ends on the last
      `degree` of the line ends. */
  function SemesterAt(s: string, k: nat): (r: Option<nat>)
    ensures r.Some? ==> LitAt(s, k, "semester") && k + 8 + 6 <= r.value <= LineEnd(s, k + 8)
    ensures r.Some? ==> LitAt(s, r.value - 6, "degree")
  {
    if LitAt(s, k, "semester") then
      var d := DegreeDown(s, k + 8, LineEnd(s, k + 8));
      if d.Some? then
        LetterLitOnLine(s, k + 8, d.value - 6, "degree");
        d
      else None
    else None
  }

  /** `.*semester.*degree` with the first `.*` ending at `k`, then `k - 1`,
      …, down to `lo`: where `semester` starts and where the match ends. The
      first `.*` runs at most to the end of the line; so does the second,
      which starts after the literal `semester`. */
  function SemesterDown(s: string, lo: nat, k: nat): (r: Option<(nat, nat)>)
    requires lo <= k
    ensures r.Some? ==> lo <= r.value.0 <= k && SemesterAt(s, r.value.0) == Some(r.value.1)
    decreases k - lo
  {
    var here := SemesterAt(s, k);
    if here.Some? then Some((k, here.value))
    else if k == lo then None
    else SemesterDown(s, lo, k - 1)
  }

  /** `w` holds letters only. */
  predicate Letters(w: string)
  {
    forall k :: 0 <= k < |w| ==> IsAsciiLetter(w[k])
  }

  /** A literal of letters that starts on the line of `i` also ends on it. */
  lemma LetterLitOnLine(s: string, i: nat, d: nat, w: string)
    requires i <= |s| && i <= d <= LineEnd(s, i) && LitAt(s, d, w) && Letters(w)
    ensures d + |w| <= LineEnd(s, i) && LineEnd(s, d + |w|) == LineEnd(s, i)
  {
    forall k | d <= k < d + |w|
      ensures !IsLineTerminator(s[k])
    {
      assert Fold(s[k]) == w[k - d];
    }
    LineEndSame(s, i, d);
    LineEndPast(s, d, d + |w|);
    LineEndSame(s, i, d + |w|);
  }

  /** The course pattern with alternative `k` of the ordinals, and the ones
      after it when the rest of the pattern fails. */
  function CourseFrom(s: string, i: nat, k: nat): (r: Option<nat>)
    requires k <= |Ordinals|
    ensures r.Some? ==> i < r.value <= |s|
    decreases |Ordinals| - k
  {
    if k == |Ordinals| then None
    else
      var here := AltAt(s, i, Ordinals[k]);
      if here.Some? then Some(here.value.1) else CourseFrom(s, i, k + 1)
  }

  /** One alternative `w` of the course pattern: the literal, then
      `.*semester.*degree` with the first `.*` trying the whole line first. */
  function AltAt(s: string, i: nat, w: string): (r: Option<(nat, nat)>)
    ensures r.Some? ==> i + |w| <= r.value.0 && r.value.0 + 8 + 6 <= r.value.1 <= |s|
  {
    if LitAt(s, i, w) then SemesterDown(s, i + |w|, LineEnd(s, i + |w|)) else None
  }

  /** `\w+` after `introduction to `. */
  function SubjectAt(s: string, i: nat): (r: Option<nat>)
    ensures r.Some? ==> i < r.value <= |s|
  {
    var p := i + 16;
    if LitAt(s, i, "introduction to ") && p < |s| && IsWordChar(s[p]) then Some(RunEnd(s, p, Word))
    else None
  }

  /** `time:\s*\d+\s*hours?`. Each `\s*` and `\d+` is followed by a token that
      cannot match what it consumed, so only its longest run can succeed. */
  function TimeAt(s: string, i: nat): (r: Option<nat>)
    ensures r.Some? ==> i < r.value <= |s|
  {
    if !LitAt(s, i, "time:") then None
    else
      var a := RunEnd(s, i + 5, White);
      if a == |s| || !IsDigit(s[a]) then None
      else
        var c := RunEnd(s, RunEnd(s, a, Digit), White);
        if !LitAt(s, c, "hour") then None
        else if c + 4 < |s| && Fold(s[c + 4]) == 's' then Some(c + 5)
        else Some(c + 4)
  }

  /** `max\.?\s*marks?\s*:\s*\d+`. Leaving out the optional `.` or `s` when it
      is present puts it where white space or a letter is needed, so the
      greedy choice is the only one that can succeed. */
  function MaxMarksAt(s: string, i: nat): (r: Option<nat>)
    ensures r.Some? ==> i < r.value <= |s|
  {
    if !LitAt(s, i, "max") then None
    else
      var p := if i + 3 < |s| && s[i + 3] == '.' then i + 4 else i + 3;
      var a := RunEnd(s, p, White);
      if !LitAt(s, a, "mark") then None
      else
        var q := if a + 4 < |s| && Fold(s[a + 4]) == 's' then a + 5 else a + 4;
        var b := RunEnd(s, q, White);
        if b == |s| || s[b] != ':' then None
        else
          var c := RunEnd(s, b + 1, White);
          if c == |s| || !IsDigit(s[c]) then None
          else Some(RunEnd(s, c, Digit))
  }

  /** `[C K]` under the `i` flag. */
  predicate IsCK(c: char)
  {
    Fold(c) == 'c' || Fold(c) == 'k'
  }

  /** `[A-Z]{2,}[CK]\d+[A-Z]*` with `[A-Z]{2,}` holding `n` letters, then
      `n - 1`, …, down to 2. */
  function CodeDown(s: string, i: nat, n: nat): (r: Option<nat>)
    requires 2 <= n && i + n <= |s|
    requires forall k :: i <= k < i + n ==> IsAsciiLetter(s[k])
    ensures r.Some? ==> i < r.value <= |s|
    decreases n
  {
    if i + n < |s| && IsCK(s[i + n]) && i + n + 1 < |s| && IsDigit(s[i + n + 1]) then
      Some(RunEnd(s, RunEnd(s, i + n + 1, Digit), Letter))
    else if n == 2 then None
    else CodeDown(s, i, n - 1)
  }

  function CourseCodeAt(s: string, i: nat): (r: Option<nat>)
    ensures r.Some? ==> i < r.value <= |s|
  {
    if i > |s| then None
    else
      var e := RunEnd(s, i, Letter);
      if e - i >= 2 then CodeDown(s, i, e - i) else None
  }

  /** Where the match of `p` at `i` ends, if there is one. */
  function MatchAt(p: FieldPattern, s: string, i: nat): (r: Option<nat>)
    ensures r.Some? ==> i < r.value <= |s|
  {
    match p
    case University =>
      if LitAt(s, i, "visvesvaraya technological university") then Some(i + 37) else None
    case Course => CourseFrom(s, i, 0)
    case Semester => OrdinalFrom(s, i, 0)
    case Subject => SubjectAt(s, i)
    case Time => TimeAt(s, i)
    case MaxMarks => MaxMarksAt(s, i)
    case CourseCode => CourseCodeAt(s, i)
  }

  /** The matches of `p` in `text`, position by position. */
  function Matcher(p: FieldPattern, text: string): nat -> Option<nat>
  {
    j => MatchAt(p, text, j)
  }

  /** `extractPattern(text, pattern)`: the text of the first match, or
      `null` when the pattern matches nowhere. */
  function ExtractPattern(text: string, p: FieldPattern): (r: Option<string>)
    ensures r.None? <==> forall j :: 0 <= j <= |text| ==> Matcher(p, text)(j).None?
    ensures r.Some? ==> exists a :: 0 <= a <= |text| && Matcher(p, text)(a).Some?
                          && r.value == text[a..Matcher(p, text)(a).value]
                          && forall j :: 0 <= j < a ==> Matcher(p, text)(j).None?
    ensures r.Some? ==> r.value != []
  {
    match Search(Matcher(p, text), |text|, 0)
    case Some(a) =>
      assert Matcher(p, text)(a) == MatchAt(p, text, a);
      Some(text[a..Matcher(p, text)(a).value])
    case None => None
  }

  /** JavaScript's `value || fallback` for a string that may be `null`: the
      empty string is falsy too. */
  function OrElse(value: Option<string>, fallback: string): string
  {
    if value.Some? && value.value != "" then value.value else fallback
  }

  /** The header block of the paper. */
  datatype Header = Header(
    university: string,
    course: string,
    semester: string,
    examType: string,
    subject: string,
    time: string,
    maxMarks: string,
    courseCode: string)

  /** The header part of `parseVTUStructure`: each field is the first match
      of its pattern in the text, or a fixed fallback. */
  function ParseHeader(text: string): Header
  {
    Header(
      OrElse(ExtractPattern(text, University), "Visvesvaraya Technological University"),
      OrElse(ExtractPattern(text, Course), "Semester Degree Examination"),
      OrElse(ExtractPattern(text, Semester), "First/Second"),
      "B.E. Degree Examination",
      OrElse(ExtractPattern(text, Subject), "Subject"),
      OrElse(ExtractPattern(text, Time), "TIME: 03 Hours"),
      OrElse(ExtractPattern(text, MaxMarks), "Max.Marks: 100"),
      OrElse(ExtractPattern(text, CourseCode), "BETCK105C"))
  }

  /** The value of one field: the first match when the pattern matches
      somewhere, the fallback exactly when it matches nowhere. Since no match
      is empty, `||` never discards one. */
  lemma FieldValue(text: string, p: FieldPattern, fallback: string)
    ensures (forall j :: 0 <= j <= |text| ==> MatchAt(p, text, j).None?) ==>
      OrElse(ExtractPattern(text, p), fallback) == fallback
    ensures ExtractPattern(text, p).Some? ==>
      OrElse(ExtractPattern(text, p), fallback) == ExtractPattern(text, p).value
  {
  }

  /** What `time:\s*\d+\s*hours?` matches: `s[i..e]` splits into the
      literal, white space, at least one digit, white space, `hour` and an
      optional `s`. */
  ghost predicate TimeShape(s: string, i: nat, e: nat)
  {
    exists a: nat, b: nat, c: nat :: LitAt(s, i, "time:") && Span(s, i + 5, a, White) && a < b && Span(s, a, b, Digit)
      && Span(s, b, c, White) && LitAt(s, c, "hour")
      && (e == c + 4 || (e == c + 5 && c + 4 < |s| && Fold(s[c + 4]) == 's'))
  }

  /** What the time pattern matches fits it. */
  lemma TimeMatchSound(s: string, i: nat)
    requires TimeAt(s, i).Some?
    ensures TimeShape(s, i, TimeAt(s, i).value)
  {
    var a := RunEnd(s, i + 5, White);
    var b := RunEnd(s, a, Digit);
    var c := RunEnd(s, b, White);
    assert LitAt(s, i, "time:") && Span(s, i + 5, a, White) && a < b && Span(s, a, b, Digit)
      && Span(s, b, c, White) && LitAt(s, c, "hour");
  }

  /** The time pattern matches at `i` whenever the text from `i` splits
      into the literal, white space, digits, white space and `hour`. */
  lemma TimeMatchComplete(s: string, i: nat, a: nat, b: nat, c: nat)
    requires LitAt(s, i, "time:") && Span(s, i + 5, a, White) && a < b && Span(s, a, b, Digit)
    requires Span(s, b, c, White) && LitAt(s, c, "hour")
    ensures TimeAt(s, i).Some?
  {
    assert InClass(Digit, s[a]);
    assert RunEnd(s, i + 5, White) == a by {
      RunEndExact(s, i + 5, a, White);
    }
    assert RunEnd(s, a, Digit) == b by {
      assert b < c ==> InClass(White, s[b]);
      assert b == c ==> Fold(s[c + 0]) == "hour"[0];
      RunEndExact(s, a, b, Digit);
    }
    assert RunEnd(s, b, White) == c by {
      assert Fold(s[c + 0]) == "hour"[0];
      RunEndExact(s, b, c, White);
    }
  }

  /** The closed form of the course-code pattern: backtracking into
      `[A-Z]{2,}` can only succeed by giving back the last letter of the run,
      which then has to be `C` or `K` and be followed by a digit. */
  function CodeEnd(s: string, i: nat): (r: Option<nat>)
    requires i <= |s|
  {
    var e := RunEnd(s, i, Letter);
    if e - i >= 3 && IsCK(s[e - 1]) && e < |s| && IsDigit(s[e]) then
      Some(RunEnd(s, RunEnd(s, e, Digit), Letter))
    else None
  }

  /** A `C` or `K`, in either case, is a letter. */
  lemma CKIsLetter(c: char)
    requires IsCK(c)
    ensures IsAsciiLetter(c)
  {
  }

  lemma {:induction false} CodeDownClosed(s: string, i: nat, n: nat)
    requires i <= |s| && 2 <= n && i + n <= RunEnd(s, i, Letter)
    ensures forall k :: i <= k < i + n ==> IsAsciiLetter(s[k])
    ensures CodeDown(s, i, n) == (if i + n + 1 >= RunEnd(s, i, Letter) then CodeEnd(s, i) else None)
    decreases n
  {
    var e := RunEnd(s, i, Letter);
    assert forall k :: i <= k < i + n ==> InClass(Letter, s[k]);
    if i + n == e {
      assert !(i + n < |s| && IsCK(s[i + n])) by {
        if i + n < |s| && IsCK(s[i + n]) {
          CKIsLetter(s[i + n]);
        }
      }
      if n > 2 {
        CodeDownClosed(s, i, n - 1);
      } else {
        assert CodeEnd(s, i) == None;
      }
    } else if i + n + 1 == e {
      if IsCK(s[i + n]) && e < |s| && IsDigit(s[e]) {
        assert CodeDown(s, i, n) == Some(RunEnd(s, RunEnd(s, e, Digit), Letter));
      } else {
        assert CodeEnd(s, i) == None;
        if n > 2 {
          CodeDownClosed(s, i, n - 1);
        }
      }
    } else {
      assert InClass(Letter, s[i + n + 1]);
      if n > 2 {
        CodeDownClosed(s, i, n - 1);
      }
    }
  }

  /** The backtracking matcher of the course-code pattern agrees with its
      closed form at every position. */
  lemma CourseCodeClosedForm(s: string, i: nat)
    requires i <= |s|
    ensures CourseCodeAt(s, i) == CodeEnd(s, i)
  {
    var e := RunEnd(s, i, Letter);
    if e - i >= 2 {
      CodeDownClosed(s, i, e - i);
    }
  }

  /** What `(first|…|eighth).*semester.*degree` matches: `s[i..e]` starts
      with an ordinal, holds `semester` after it and ends with `degree`
      after that, all on one line. */
  ghost predicate CourseShape(s: string, i: nat, e: nat)
  {
    exists o: nat, j: nat :: CourseSplit(s, i, e, o, j)
  }

  /** The course match `s[i..e]` with ordinal `o` and `semester` at `j`. */
  predicate CourseSplit(s: string, i: nat, e: nat, o: nat, j: nat)
  {
    o < |Ordinals| && WordSplit(s, i, e, Ordinals[o], j)
  }

  /** `s[i..e]` is `w`, anything, `semester` at `j`, anything and `degree`,
      all on one line. */
  predicate WordSplit(s: string, i: nat, e: nat, w: string, j: nat)
  {
    LitAt(s, i, w) && i + |w| <= j && LitAt(s, j, "semester") && j + 8 + 6 <= e
    && e <= LineEnd(s, i) && LitAt(s, e - 6, "degree")
  }

  /** Every ordinal is made of letters. */
  lemma OrdinalLetters(o: nat)
    requires o < |Ordinals|
    ensures Letters(Ordinals[o])
  {
  }

  /** An alternative `w` of the course pattern, when it matches, leaves
      `semester` and `degree` on the line of `i`. */
  lemma CourseAltSound(s: string, i: nat, w: string)
    requires i <= |s| && Letters(w) && AltAt(s, i, w).Some?
    ensures WordSplit(s, i, AltAt(s, i, w).value.1, w, AltAt(s, i, w).value.0)
  {
    var p := i + |w|;
    AltAtUnfold(s, i, w);
    var r := SemesterDown(s, p, LineEnd(s, p)).value;
    SemesterSound(s, i, w, r.0, r.1);
  }

  /** `semester.*degree` matching at `j` on the line after `w` leaves both
      words on the line of `i`. */
  lemma SemesterSound(s: string, i: nat, w: string, j: nat, e: nat)
    requires i <= |s| && Letters(w) && LitAt(s, i, w)
    requires i + |w| <= j <= LineEnd(s, i + |w|) && SemesterAt(s, j) == Some(e)
    ensures WordSplit(s, i, e, w, j)
  {
    var p := i + |w|;
    assert LitAt(s, j, "semester") && j + 8 + 6 <= e <= LineEnd(s, j + 8) && LitAt(s, e - 6, "degree");
    LetterLitOnLine(s, i, i, w);
    LiteralLetters();
    LetterLitOnLine(s, p, j, "semester");
  }

  lemma AltAtUnfold(s: string, i: nat, w: string)
    ensures AltAt(s, i, w) == if LitAt(s, i, w) then SemesterDown(s, i + |w|, LineEnd(s, i + |w|)) else None
  {
  }

  /** The literals of the course pattern are made of letters. */
  lemma LiteralLetters()
    ensures Letters("semester") && Letters("degree")
  {
  }

  /** What the course pattern matches from alternative `k` on fits it. */
  lemma {:induction false} CourseFromSound(s: string, i: nat, k: nat)
    requires i <= |s| && k <= |Ordinals| && CourseFrom(s, i, k).Some?
    ensures CourseShape(s, i, CourseFrom(s, i, k).value)
    decreases |Ordinals| - k
  {
    var w := Ordinals[k];
    var here := AltAt(s, i, w);
    if here.Some? {
      OrdinalLetters(k);
      CourseAltSound(s, i, w);
      assert CourseSplit(s, i, here.value.1, k, here.value.0);
    } else {
      CourseFromSound(s, i, k + 1);
    }
  }

  /** What the course pattern matches fits it. */
  lemma CourseMatchSound(s: string, i: nat)
    requires i <= |s| && MatchAt(Course, s, i).Some?
    ensures CourseShape(s, i, MatchAt(Course, s, i).value)
  {
    CourseFromSound(s, i, 0);
  }

  /** `.*degree` from `lo` finds a match whenever `degree` starts at some
      `d` at most `top`. */
  lemma {:induction false} DegreeDownComplete(s: string, lo: nat, top: nat, d: nat)
    requires lo <= d <= top && LitAt(s, d, "degree")
    ensures DegreeDown(s, lo, top).Some?
    decreases top - lo
  {
    if !LitAt(s, top, "degree") && top > d {
      DegreeDownComplete(s, lo, top - 1, d);
    }
  }

  /** `semester.*degree` matches at `j` whenever `semester` starts there
      and `degree` follows it on the line. */
  lemma SemesterAtComplete(s: string, j: nat, d: nat)
    requires LitAt(s, j, "semester") && j + 8 <= d <= LineEnd(s, j + 8) && LitAt(s, d, "degree")
    ensures SemesterAt(s, j).Some?
  {
    DegreeDownComplete(s, j + 8, LineEnd(s, j + 8), d);
  }

  /** `.*semester.*degree` from `lo` finds a match whenever
      `semester.*degree` matches at some `j` at most `top`. */
  lemma {:induction false} SemesterDownComplete(s: string, lo: nat, top: nat, j: nat)
    requires lo <= j <= top && SemesterAt(s, j).Some?
    ensures SemesterDown(s, lo, top).Some?
    decreases top - lo
  {
    SemesterDownUnfold(s, lo, top);
    if top > j && SemesterAt(s, top).None? {
      SemesterDownComplete(s, lo, top - 1, j);
    }
  }

  lemma SemesterDownUnfold(s: string, lo: nat, k: nat)
    requires lo <= k
    ensures SemesterDown(s, lo, k) ==
      if SemesterAt(s, k).Some? then Some((k, SemesterAt(s, k).value))
      else if k == lo then None
      else SemesterDown(s, lo, k - 1)
  {
  }

  /** An alternative `w` of the course pattern matches whenever the text
      from `i` has the shape the pattern describes. */
  lemma CourseAltComplete(s: string, i: nat, e: nat, w: string, j: nat)
    requires i <= |s| && WordSplit(s, i, e, w, j)
    ensures AltAt(s, i, w).Some?
  {
    var p := i + |w|;
    var line := LineEnd(s, i);
    LineEndSame(s, i, p);
    LineEndSame(s, i, j + 8);
    assert LineEnd(s, j + 8) == line && LineEnd(s, p) == line;
    SemesterAtComplete(s, j, e - 6);
    SemesterDownComplete(s, p, line, j);
    AltAtUnfold(s, i, w);
  }

  /** The course pattern, from alternative `k` on, matches whenever some
      alternative from `k` on does. */
  lemma {:induction false} CourseFromComplete(s: string, i: nat, k: nat, o: nat)
    requires k <= o < |Ordinals| && AltAt(s, i, Ordinals[o]).Some?
    ensures CourseFrom(s, i, k).Some?
    decreases o - k
  {
    if k < o && AltAt(s, i, Ordinals[k]).None? {
      CourseFromComplete(s, i, k + 1, o);
    }
  }

  /** The course pattern matches at `i` exactly when the text from `i` has
      its shape. */
  lemma CourseMatchComplete(s: string, i: nat, e: nat, o: nat, j: nat)
    requires i <= |s| && CourseSplit(s, i, e, o, j)
    ensures MatchAt(Course, s, i).Some?
  {
    CourseAltComplete(s, i, e, Ordinals[o], j);
    CourseFromComplete(s, i, 0, o);
  }

  /** A text in which no pattern matches, such as the empty text, gets the
      fallback header. */
  lemma NoMatchHeader(text: string)
    requires forall p: FieldPattern, j :: 0 <= j <= |text| ==> MatchAt(p, text, j).None?
    ensures ParseHeader(text) == Header(
      "Visvesvaraya Technological University", "Semester Degree Examination", "First/Second",
      "B.E. Degree Examination", "Subject", "TIME: 03 Hours", "Max.Marks: 100", "BETCK105C")
  {
    FieldValue(text, University, "Visvesvaraya Technological University");
    FieldValue(text, Course, "Semester Degree Examination");
    FieldValue(text, Semester, "First/Second");
    FieldValue(text, Subject, "Subject");
    FieldValue(text, Time, "TIME: 03 Hours");
    FieldValue(text, MaxMarks, "Max.Marks: 100");
    FieldValue(text, CourseCode, "BETCK105C");
  }

  /** Nothing matches in the empty text. */
  lemma EmptyTextHeader()
    ensures ParseHeader("") == Header(
      "Visvesvaraya Technological University", "Semester Degree Examination", "First/Second",
      "B.E. Degree Examination", "Subject", "TIME: 03 Hours", "Max.Marks: 100", "BETCK105C")
  {
    forall p: FieldPattern, j: nat | j <= 0
      ensures MatchAt(p, "", j).None?
    {
    }
    NoMatchHeader("");
  }
}
