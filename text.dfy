/**
 * Character classes and string helpers shared by the extraction and layout
 * code. A string is a sequence of characters; every predicate here follows the
 * meaning the corresponding JavaScript regular-expression construct has without
 * the `u` flag.
 */
module Text {

  /** JavaScript's `\s`: the WhiteSpace and LineTerminator code points. This is
      also the set that `String.prototype.trim` strips. */
  predicate IsWhite(c: char)
  {
    c == '\t' || c == '\n' || c == '\U{B}' || c == '\U{C}' || c == '\r' || c == ' '
    || c == '\U{A0}' || c == '\U{1680}' || ('\U{2000}' <= c <= '\U{200A}')
    || c == '\U{2028}' || c == '\U{2029}' || c == '\U{202F}' || c == '\U{205F}'
    || c == '\U{3000}' || c == '\U{FEFF}'
  }

  /** The characters that `.` does not match. Each of them is also white. */
  predicate IsLineTerminator(c: char)
  {
    c == '\n' || c == '\r' || c == '\U{2028}' || c == '\U{2029}'
  }

  /** `\d` */
  predicate IsDigit(c: char)
  {
    '0' <= c <= '9'
  }

  /** `[a-zA-Z]`, and `[A-Z]` under the `i` flag. */
  predicate IsAsciiLetter(c: char)
  {
    'a' <= c <= 'z' || 'A' <= c <= 'Z'
  }

  /** `\w` */
  predicate IsWordChar(c: char)
  {
    IsAsciiLetter(c) || IsDigit(c) || c == '_'
  }

  /** `[a-cA-C]`, which is also what `[a-c]` matches under the `i` flag. */
  predicate IsLabel(c: char)
  {
    'a' <= c <= 'c' || 'A' <= c <= 'C'
  }

  /** The case folding of a case-insensitive match against a letter of the
      patterns modelled here. Without the `u` flag JavaScript compares
      characters after upper-casing them, but never maps a character at or
      above U+0080 to one below it. Every letter in these patterns is ASCII, so
      a text character matches a pattern letter exactly when it is that letter
      in either ASCII case, which is what comparing folded characters decides.
      The one non-ASCII literal, the en dash of the module-heading pattern, has
      no case variant and is compared exactly. */
  function Fold(c: char): (f: char)
    ensures IsAsciiLetter(c) <==> IsAsciiLetter(f)
    ensures !IsAsciiLetter(c) ==> f == c
    ensures 'a' <= c <= 'z' ==> f == c
  {
    if 'A' <= c <= 'Z' then (c as int + 32) as char else c
  }

  /** The classes that the models scan runs of. */
  datatype CharClass = White | Digit | Letter | Word

  predicate InClass(cc: CharClass, c: char)
  {
    match cc
    case White => IsWhite(c)
    case Digit => IsDigit(c)
    case Letter => IsAsciiLetter(c)
    case Word => IsWordChar(c)
  }

  /** Where the maximal run of `cc` characters that begins at `i` ends: what a
      greedy `\s*`, `\d*`, `[A-Z]*` or `\w*` consumes. */
  function RunEnd(s: string, i: nat, cc: CharClass): (j: nat)
    requires i <= |s|
    ensures i <= j <= |s|
    ensures forall k :: i <= k < j ==> InClass(cc, s[k])
    ensures j == |s| || !InClass(cc, s[j])
    decreases |s| - i
  {
    if i < |s| && InClass(cc, s[i]) then RunEnd(s, i + 1, cc) else i
  }

  /** Every character of `s[lo..hi]` is in class `cc`. */
  predicate Span(s: string, lo: nat, hi: nat, cc: CharClass)
  {
    lo <= hi <= |s| && forall k :: lo <= k < hi ==> InClass(cc, s[k])
  }

  /** A run of `cc` characters that nothing of class `cc` follows is the
      maximal run. */
  lemma {:induction false} RunEndExact(s: string, lo: nat, hi: nat, cc: CharClass)
    requires Span(s, lo, hi, cc) && (hi == |s| || !InClass(cc, s[hi]))
    ensures RunEnd(s, lo, cc) == hi
    decreases hi - lo
  {
    if lo < hi {
      RunEndExact(s, lo + 1, hi, cc);
    }
  }

  /** Where the maximal run of white characters that ends at `j` begins. */
  function WhiteRunStart(s: string, j: nat): (i: nat)
    requires j <= |s|
    ensures i <= j
    ensures forall k :: i <= k < j ==> IsWhite(s[k])
    ensures i == 0 || !IsWhite(s[i - 1])
  {
    if j > 0 && IsWhite(s[j - 1]) then WhiteRunStart(s, j - 1) else j
  }

  /** The end of the line that position `i` lies on: the first line
      terminator at or after `i`, or the end of the string. */
  function LineEnd(s: string, i: nat): (j: nat)
    requires i <= |s|
    ensures i <= j <= |s|
    ensures j == |s| || IsLineTerminator(s[j])
    decreases |s| - i
  {
    if i < |s| && !IsLineTerminator(s[i]) then LineEnd(s, i + 1) else i
  }

  /** A stretch free of line terminators lies within the line. */
  lemma {:induction false} LineEndPast(s: string, i: nat, j: nat)
    requires i <= j <= |s|
    requires forall k :: i <= k < j ==> !IsLineTerminator(s[k])
    ensures j <= LineEnd(s, i)
    decreases |s| - i
  {
    if i < j {
      LineEndPast(s, i + 1, j);
    }
  }

  /** Every position up to the end of a line lies on that line. */
  lemma {:induction false} LineEndSame(s: string, i: nat, j: nat)
    requires i <= |s| && i <= j <= LineEnd(s, i)
    ensures LineEnd(s, j) == LineEnd(s, i)
    decreases j - i
  {
    if i < j {
      LineEndSame(s, i + 1, j);
    }
  }

  predicate NoWhiteAtEnds(s: string)
  {
    s == [] || (!IsWhite(s[0]) && !IsWhite(s[|s| - 1]))
  }

  /** Where `String.prototype.trim` starts its result. */
  function TrimStart(s: string): (a: nat)
    ensures a <= |s|
    ensures forall k :: 0 <= k < a ==> IsWhite(s[k])
  {
    RunEnd(s, 0, White)
  }

  /** `String.prototype.trim`: the slice of `s` without its leading and
      trailing white characters. */
  function Trim(s: string): (r: string)
    ensures NoWhiteAtEnds(r)
    ensures TrimStart(s) + |r| <= |s| && r == s[TrimStart(s)..TrimStart(s) + |r|]
    ensures forall k :: TrimStart(s) + |r| <= k < |s| ==> IsWhite(s[k])
  {
    var a := RunEnd(s, 0, White);
    if a == |s| then []
    else
      var b := WhiteRunStart(s, |s|);
      assert !IsWhite(s[a]);
      s[a..b]
  }

  lemma TrimOfTrimmed(s: string)
    requires NoWhiteAtEnds(s)
    ensures Trim(s) == s
  {
    var a := RunEnd(s, 0, White);
    var b := WhiteRunStart(s, |s|);
    if s != [] {
      assert a == 0 && b == |s|;
    }
  }

  lemma {:induction false} RunEndTail(s: string, i: nat, cc: CharClass)
    requires 1 <= i <= |s|
    ensures RunEnd(s, i, cc) == 1 + RunEnd(s[1..], i - 1, cc)
    decreases |s| - i
  {
    if i < |s| {
      assert s[1..][i - 1] == s[i];
      if InClass(cc, s[i]) {
        RunEndTail(s, i + 1, cc);
      }
    }
  }

  lemma {:induction false} WhiteRunStartTail(s: string, j: nat)
    requires 1 <= j <= |s| && WhiteRunStart(s, j) >= 1
    ensures WhiteRunStart(s, j) == 1 + WhiteRunStart(s[1..], j - 1)
  {
    if IsWhite(s[j - 1]) {
      assert s[1..][j - 2] == s[j - 1];
      WhiteRunStartTail(s, j - 1);
    } else if j >= 2 {
      assert s[1..][j - 2] == s[j - 1];
    }
  }

  /** Trimming ignores a leading white character. */
  lemma TrimDropWhite(s: string)
    requires |s| > 0 && IsWhite(s[0])
    ensures Trim(s) == Trim(s[1..])
  {
    var t := s[1..];
    var a := RunEnd(s, 0, White);
    var a' := RunEnd(t, 0, White);
    assert a == 1 + a' by {
      assert a == RunEnd(s, 1, White);
      RunEndTail(s, 1, White);
    }
    if a < |s| {
      var b := WhiteRunStart(s, |s|);
      var b' := WhiteRunStart(t, |t|);
      assert b == 1 + b' by {
        assert !IsWhite(s[a]);
        WhiteRunStartTail(s, |s|);
      }
      assert Trim(s) == s[a..b] by {
        assert !IsWhite(s[a]);
      }
      assert Trim(t) == t[a'..b'] by {
        assert t[a'] == s[a];
      }
      assert s[a..b] == t[a'..b'];
    }
  }

  /** The characters of `s` that are not white, in order. */
  function NonWhite(s: string): string
  {
    if s == [] then []
    else (if IsWhite(s[0]) then [] else [s[0]]) + NonWhite(s[1..])
  }

  function HasAsciiLetter(s: string): bool
  {
    exists k :: 0 <= k < |s| && IsAsciiLetter(s[k])
  }

  /** `s.replace(/\s+/g, ' ')`: every maximal run of white characters becomes
      one space. */
  function Collapse(s: string): (r: string)
    ensures |r| <= |s|
    ensures |r| == 0 <==> |s| == 0
    ensures |s| > 0 ==> (IsWhite(r[0]) <==> IsWhite(s[0]))
    ensures |s| > 0 ==> (IsWhite(r[|r| - 1]) <==> IsWhite(s[|s| - 1]))
    decreases |s|
  {
    if s == [] then []
    else if IsWhite(s[0]) then
      [' '] + Collapse(s[RunEnd(s, 0, White)..])
    else
      [s[0]] + Collapse(s[1..])
  }

  /** The only white characters are single spaces: no run of white space,
      no line break, no tab. */
  predicate SingleSpaced(s: string)
  {
    && (forall k :: 0 <= k < |s| && IsWhite(s[k]) ==> s[k] == ' ')
    && (forall k :: 0 <= k < |s| - 1 ==> !(IsWhite(s[k]) && IsWhite(s[k + 1])))
  }

  lemma SingleSpacedSlice(s: string, a: nat, b: nat)
    requires SingleSpaced(s) && a <= b <= |s|
    ensures SingleSpaced(s[a..b])
  {
    assert forall k :: 0 <= k < b - a ==> s[a..b][k] == s[a + k];
  }

  /** After collapsing, the only white character left is the space, and no
      two white characters are adjacent. */
  lemma {:induction false} CollapseHasSingleSpaces(s: string)
    ensures SingleSpaced(Collapse(s))
    decreases |s|
  {
    if s != [] {
      var j := if IsWhite(s[0]) then RunEnd(s, 0, White) else 1;
      var rest := Collapse(s[j..]);
      CollapseHasSingleSpaces(s[j..]);
      var c := if IsWhite(s[0]) then ' ' else s[0];
      assert IsWhite(c) ==> rest == [] || !IsWhite(rest[0]) by {
        if IsWhite(s[0]) && j < |s| {
          assert s[j..][0] == s[j];
        }
      }
      SingleSpacedCons(c, rest);
      assert Collapse(s) == [c] + rest;
    }
  }

  lemma SingleSpacedCons(c: char, r: string)
    requires SingleSpaced(r)
    requires IsWhite(c) ==> c == ' ' && (r == [] || !IsWhite(r[0]))
    ensures SingleSpaced([c] + r)
  {
    assert forall k :: 1 <= k < |r| + 1 ==> ([c] + r)[k] == r[k - 1];
  }

  /** Collapsing changes only white characters: the other characters stay,
      in order. */
  lemma {:induction false} CollapseKeepsNonWhite(s: string)
    ensures NonWhite(Collapse(s)) == NonWhite(s)
    decreases |s|
  {
    if s != [] {
      if IsWhite(s[0]) {
        var j := RunEnd(s, 0, White);
        NonWhiteSkipsWhite(s, j);
        CollapseKeepsNonWhite(s[j..]);
        assert ([' '] + Collapse(s[j..]))[1..] == Collapse(s[j..]);
      } else {
        CollapseKeepsNonWhite(s[1..]);
        assert ([s[0]] + Collapse(s[1..]))[1..] == Collapse(s[1..]);
      }
    }
  }

  /** A text that ends in a non-white character is collapsed on its own:
      none of its white runs reaches past its end. */
  lemma {:induction false} CollapseAppend(x: string, z: string)
    requires x == [] || !IsWhite(x[|x| - 1])
    ensures Collapse(x + z) == Collapse(x) + Collapse(z)
    decreases |x|
  {
    if x == [] {
      assert x + z == z;
    } else if IsWhite(x[0]) {
      var j := RunEnd(x, 0, White);
      RunEndOfPrefix(x, z, j);
      CollapseAppend(x[j..], z);
      CollapseAppendWhiteStep(x, z, j);
    } else {
      CollapseAppend(x[1..], z);
      CollapseAppendStep(x, z);
    }
  }

  /** The step of `CollapseAppend` for a text that starts with a white run
      ending at `j`. */
  lemma CollapseAppendWhiteStep(x: string, z: string, j: nat)
    requires x != [] && IsWhite(x[0]) && j < |x| && j == RunEnd(x, 0, White)
    requires RunEnd(x + z, 0, White) == j
    requires Collapse(x[j..] + z) == Collapse(x[j..]) + Collapse(z)
    ensures Collapse(x + z) == Collapse(x) + Collapse(z)
  {
    var xz := x + z;
    var t := x[j..];
    SliceOfAppend(x, z, j);
    CollapseWhiteHead(xz, j);
    CollapseWhiteHead(x, j);
    ConsConcat(Collapse(xz), [' '], Collapse(t + z), Collapse(t), Collapse(z), Collapse(x));
  }

  /** A leading white run ending at `j` collapses to one space. */
  lemma CollapseWhiteHead(s: string, j: nat)
    requires s != [] && IsWhite(s[0]) && j == RunEnd(s, 0, White)
    ensures Collapse(s) == [' '] + Collapse(s[j..])
  {
  }

  /** The step of `CollapseAppend` for a text that starts non-white. */
  lemma CollapseAppendStep(x: string, z: string)
    requires x != [] && !IsWhite(x[0])
    requires Collapse(x[1..] + z) == Collapse(x[1..]) + Collapse(z)
    ensures Collapse(x + z) == Collapse(x) + Collapse(z)
  {
    var xz := x + z;
    var t := x[1..];
    SliceOfAppend(x, z, 1);
    CollapseNonWhiteHead(xz);
    CollapseNonWhiteHead(x);
    ConsConcat(Collapse(xz), [x[0]], Collapse(t + z), Collapse(t), Collapse(z), Collapse(x));
  }

  /** A leading non-white character is kept. */
  lemma CollapseNonWhiteHead(s: string)
    requires s != [] && !IsWhite(s[0])
    ensures Collapse(s) == [s[0]] + Collapse(s[1..])
  {
  }

  /** Slicing `x + z` from inside `x`. */
  lemma SliceOfAppend(x: string, z: string, j: nat)
    requires j <= |x|
    ensures (x + z)[j..] == x[j..] + z
    ensures j < |x| ==> (x + z)[0] == x[0]
  {
  }

  /** Rebracketing a concatenation whose head is `c`. */
  lemma ConsConcat(whole: string, c: string, r: string, a: string, b: string, ca: string)
    requires whole == c + r && r == a + b && ca == c + a
    ensures whole == ca + b
  {
    Assoc(c, a, b);
  }

  /** Concatenation is associative. */
  lemma Assoc<T>(a: seq<T>, b: seq<T>, c: seq<T>)
    ensures a + (b + c) == (a + b) + c
  {
  }

  /** A white run of `x` that starts at 0 and ends inside `x` ends at the same
      place in `x + z`. */
  lemma RunEndOfPrefix(x: string, z: string, j: nat)
    requires x != [] && !IsWhite(x[|x| - 1]) && j == RunEnd(x, 0, White)
    ensures j < |x| && RunEnd(x + z, 0, White) == j
  {
    assert forall k :: 0 <= k <= j && k < |x| ==> (x + z)[k] == x[k];
    RunEndExact(x + z, 0, j, White);
  }

  /** A non-empty white run in front of a text that does not start white
      becomes exactly one space. */
  lemma CollapseWhiteRun(w: string, y: string)
    requires w != [] && forall k :: 0 <= k < |w| ==> IsWhite(w[k])
    requires y == [] || !IsWhite(y[0])
    ensures Collapse(w + y) == [' '] + Collapse(y)
  {
    assert (w + y)[0] == w[0];
    assert Span(w + y, 0, |w|, White) by {
      assert forall k :: 0 <= k < |w| ==> (w + y)[k] == w[k];
    }
    assert |w| < |w + y| ==> (w + y)[|w|] == y[0];
    RunEndExact(w + y, 0, |w|, White);
    assert (w + y)[|w|..] == y;
  }

  /** Collapsing puts one space exactly where a white run stood between two
      non-white characters (or the ends of the text), and collapses the two
      sides on their own. */
  lemma CollapseWordBoundary(x: string, w: string, y: string)
    requires x == [] || !IsWhite(x[|x| - 1])
    requires w != [] && forall k :: 0 <= k < |w| ==> IsWhite(w[k])
    requires y == [] || !IsWhite(y[0])
    ensures Collapse(x + w + y) == Collapse(x) + " " + Collapse(y)
  {
    var r := w + y;
    assert x + w + y == x + r;
    CollapseAppend(x, r);
    CollapseWhiteRun(w, y);
    SpaceBetween(Collapse(x + r), Collapse(x), Collapse(r), Collapse(y));
  }

  /** Rebracketing the single space between two collapsed sides. */
  lemma SpaceBetween(whole: string, a: string, r: string, b: string)
    requires whole == a + r && r == [' '] + b
    ensures whole == a + " " + b
  {
  }

  /** A text without white space is left as it is. */
  lemma {:induction false} CollapseNoWhite(s: string)
    requires forall k :: 0 <= k < |s| ==> !IsWhite(s[k])
    ensures Collapse(s) == s
    decreases |s|
  {
    if s != [] {
      CollapseNoWhite(s[1..]);
      assert [s[0]] + s[1..] == s;
    }
  }

  lemma {:induction false} NonWhiteSkipsWhite(s: string, j: nat)
    requires j <= |s|
    requires forall k :: 0 <= k < j ==> IsWhite(s[k])
    ensures NonWhite(s) == NonWhite(s[j..])
  {
    if j > 0 {
      assert s[1..][j - 1..] == s[j..];
      NonWhiteSkipsWhite(s[1..], j - 1);
    }
  }

  /** `s.replace(/\n+/g, ' ')`: every maximal run of line feeds becomes one
      space. */
  function NewlinesToSpace(s: string): (r: string)
    ensures (forall k :: 0 <= k < |s| ==> s[k] != '\n') ==> r == s
    decreases |s|
  {
    if s == [] then []
    else if s[0] == '\n' then
      [' '] + NewlinesToSpace(s[NewlineRunEnd(s, 0)..])
    else
      [s[0]] + NewlinesToSpace(s[1..])
  }

  /** No line feed is left, and the text never grows. */
  lemma {:induction false} NewlinesGone(s: string)
    ensures |NewlinesToSpace(s)| <= |s|
    ensures forall k :: 0 <= k < |NewlinesToSpace(s)| ==> NewlinesToSpace(s)[k] != '\n'
    decreases |s|
  {
    if s != [] {
      var j := if s[0] == '\n' then NewlineRunEnd(s, 0) else 1;
      NewlinesGone(s[j..]);
      var c := if s[0] == '\n' then ' ' else s[0];
      NewlinesHead(s, j, c);
    }
  }

  /** A text that ends in something other than a line feed is handled on its
      own: none of its line-feed runs reaches past its end. */
  lemma {:induction false} NewlinesAppend(x: string, z: string)
    requires x == [] || x[|x| - 1] != '\n'
    ensures NewlinesToSpace(x + z) == NewlinesToSpace(x) + NewlinesToSpace(z)
    decreases |x|
  {
    if x == [] {
      assert x + z == z;
    } else if x[0] == '\n' {
      var j := NewlineRunEnd(x, 0);
      assert j < |x| && NewlineRunEnd(x + z, 0) == j by {
        assert forall k :: 0 <= k <= j && k < |x| ==> (x + z)[k] == x[k];
        NewlineRunEndExact(x + z, 0, j);
      }
      NewlinesAppend(x[j..], z);
      NewlinesAppendStep(x, z, j, ' ');
    } else {
      NewlinesAppend(x[1..], z);
      NewlinesAppendStep(x, z, 1, x[0]);
    }
  }

  /** The step of `NewlinesAppend`: the text up to `j` becomes `c`. */
  lemma NewlinesAppendStep(x: string, z: string, j: nat, c: char)
    requires x != [] && j <= |x|
    requires x[0] == '\n' ==> c == ' ' && j == NewlineRunEnd(x, 0) && NewlineRunEnd(x + z, 0) == j
    requires x[0] != '\n' ==> c == x[0] && j == 1
    requires NewlinesToSpace(x[j..] + z) == NewlinesToSpace(x[j..]) + NewlinesToSpace(z)
    ensures NewlinesToSpace(x + z) == NewlinesToSpace(x) + NewlinesToSpace(z)
  {
    var xz := x + z;
    var t := x[j..];
    SliceOfAppend(x, z, j);
    NewlinesHead(xz, j, c);
    NewlinesHead(x, j, c);
    ConsConcat(NewlinesToSpace(xz), [c], NewlinesToSpace(t + z), NewlinesToSpace(t),
      NewlinesToSpace(z), NewlinesToSpace(x));
  }

  /** One step of `NewlinesToSpace`: a leading run of line feeds ending at `j`
      becomes a space, any other first character stays. */
  lemma NewlinesHead(s: string, j: nat, c: char)
    requires s != [] && j <= |s|
    requires s[0] == '\n' ==> c == ' ' && j == NewlineRunEnd(s, 0)
    requires s[0] != '\n' ==> c == s[0] && j == 1
    ensures NewlinesToSpace(s) == [c] + NewlinesToSpace(s[j..])
  {
  }

  /** A non-empty run of line feeds in front of a text that does not start
      with one becomes exactly one space. */
  lemma NewlinesRun(w: string, y: string)
    requires w != [] && forall k :: 0 <= k < |w| ==> w[k] == '\n'
    requires y == [] || y[0] != '\n'
    ensures NewlinesToSpace(w + y) == [' '] + NewlinesToSpace(y)
  {
    assert (w + y)[0] == w[0];
    assert forall k :: 0 <= k < |w| ==> (w + y)[k] == w[k];
    assert |w| < |w + y| ==> (w + y)[|w|] == y[0];
    NewlineRunEndExact(w + y, 0, |w|);
    assert (w + y)[|w|..] == y;
  }

  /** Line feeds become one space exactly where a run of them stood between
      two other characters (or the ends of the text), and the two sides are
      handled on their own. */
  lemma NewlinesBoundary(x: string, w: string, y: string)
    requires x == [] || x[|x| - 1] != '\n'
    requires w != [] && forall k :: 0 <= k < |w| ==> w[k] == '\n'
    requires y == [] || y[0] != '\n'
    ensures NewlinesToSpace(x + w + y) == NewlinesToSpace(x) + " " + NewlinesToSpace(y)
  {
    var r := w + y;
    assert x + w + y == x + r;
    NewlinesAppend(x, r);
    NewlinesRun(w, y);
    SpaceBetween(NewlinesToSpace(x + r), NewlinesToSpace(x), NewlinesToSpace(r), NewlinesToSpace(y));
  }

  /** Where the run of line feeds that begins at `i` ends: what `\n+`
      consumes. */
  function NewlineRunEnd(s: string, i: nat): (j: nat)
    requires i < |s| && s[i] == '\n'
    ensures i < j <= |s|
    ensures forall k :: i <= k < j ==> s[k] == '\n'
    ensures j == |s| || s[j] != '\n'
    decreases |s| - i
  {
    if i + 1 < |s| && s[i + 1] == '\n' then NewlineRunEnd(s, i + 1) else i + 1
  }

  /** A run of line feeds that no line feed follows is the whole run. */
  lemma {:induction false} NewlineRunEndExact(s: string, lo: nat, hi: nat)
    requires lo < hi <= |s| && forall k :: lo <= k < hi ==> s[k] == '\n'
    requires hi == |s| || s[hi] != '\n'
    ensures NewlineRunEnd(s, lo) == hi
    decreases hi - lo
  {
    if lo + 1 < hi {
      NewlineRunEndExact(s, lo + 1, hi);
    }
  }

  /** The string of `n` in decimal, as JavaScript prints an integer. */
  function NatToString(n: nat): (r: string)
    ensures |r| > 0 && AllDigits(r)
    ensures DigitsValue(r) == n
    ensures |r| > 1 ==> r[0] != '0'
  {
    if n < 10 then [DigitChar(n)]
    else
      var r := NatToString(n / 10) + [DigitChar(n % 10)];
      assert r[..|r| - 1] == NatToString(n / 10);
      r
  }

  function DigitChar(d: nat): (c: char)
    requires d < 10
    ensures IsDigit(c) && c as int - '0' as int == d
  {
    ('0' as int + d) as char
  }

  predicate AllDigits(s: string)
  {
    forall k :: 0 <= k < |s| ==> IsDigit(s[k])
  }

  /** A run of digits inside a string is a digit string. */
  lemma SpanDigits(s: string, lo: nat, hi: nat)
    requires Span(s, lo, hi, Digit)
    ensures AllDigits(s[lo..hi])
  {
    forall k | 0 <= k < hi - lo
      ensures IsDigit(s[lo..hi][k])
    {
      assert s[lo..hi][k] == s[lo + k];
      assert InClass(Digit, s[lo + k]);
    }
  }

  /** `parseInt` of a string of decimal digits. */
  function DigitsValue(ds: string): nat
    requires AllDigits(ds)
  {
    if ds == [] then 0
    else 10 * DigitsValue(ds[..|ds| - 1]) + (ds[|ds| - 1] as int - '0' as int)
  }

  /** Printing the value of a digit string without leading zeros gives the
      string back. */
  lemma {:induction false} CanonicalDigitsRoundTrip(ds: string)
    requires |ds| > 0 && AllDigits(ds)
    requires |ds| > 1 ==> ds[0] != '0'
    ensures NatToString(DigitsValue(ds)) == ds
  {
    var init := ds[..|ds| - 1];
    var d := ds[|ds| - 1] as int - '0' as int;
    if |ds| == 1 {
      assert DigitsValue(ds) == d;
      assert [DigitChar(d)] == ds;
    } else {
      CanonicalDigitsRoundTrip(init);
      PositiveLeadingDigit(init);
      var v := DigitsValue(init);
      assert DigitsValue(ds) == 10 * v + d;
      assert (10 * v + d) / 10 == v && (10 * v + d) % 10 == d;
      assert ds == init + [DigitChar(d)];
    }
  }

  lemma {:induction false} PositiveLeadingDigit(ds: string)
    requires |ds| > 0 && AllDigits(ds) && ds[0] != '0'
    ensures DigitsValue(ds) > 0
  {
    if |ds| > 1 {
      PositiveLeadingDigit(ds[..|ds| - 1]);
    }
  }

  /** A string of zeros has the value 0. */
  lemma {:induction false} ZerosValue(ds: string)
    requires forall k :: 0 <= k < |ds| ==> ds[k] == '0'
    ensures AllDigits(ds) && DigitsValue(ds) == 0
  {
    if ds != [] {
      ZerosValue(ds[..|ds| - 1]);
    }
  }

  /** The literal `w` (written in lower case) occurs at `i` in `s`, compared
      case-insensitively: what a literal in a regular expression with the `i`
      flag matches. */
  predicate LitAt(s: string, i: nat, w: string)
  {
    i + |w| <= |s| && forall k :: 0 <= k < |w| ==> Fold(s[i + k]) == w[k]
  }

  /** `s` contains the literal `w` somewhere, case-insensitively. */
  predicate ContainsLit(s: string, w: string)
  {
    exists i :: 0 <= i <= |s| && LitAt(s, i, w)
  }
}
