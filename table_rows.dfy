/**
 * The table body of the printable paper, `generateTableRows`: for each
 * module a header row, then the module's questions grouped by question
 * number in ascending order, each group sorted by sub-part, with an `OR`
 * row between consecutive groups. The first row of a group carries the
 * question-number cell, which spans the whole group.
 *
 * The rows are first described as values (`Row`) and then rendered with the
 * exact HTML templates of the source.
 */
module TableRows {
  import opened Text
  import opened Wrappers
  import opened QuestionPaper
  import opened VtuStructure
  import Extraction

  /** `id.match(/q\d+([abc])/)?.[1]`, searching from position `i`. Giving
      back digits to the greedy `\d+` would put a digit where `[abc]` has to
      match, so only the longest run of digits can succeed. */
  function SubPartFrom(id: string, i: nat): Option<char>
    decreases |id| - i
  {
    if i + 1 < |id| && id[i] == 'q' && IsDigit(id[i + 1])
       && RunEnd(id, i + 1, Digit) < |id| && 'a' <= id[RunEnd(id, i + 1, Digit)] <= 'c'
    then Some(id[RunEnd(id, i + 1, Digit)])
    else if i + 1 >= |id| then None
    else SubPartFrom(id, i + 1)
  }

  /** The sub-part of a question, `'a'` when its id has none: both the sort
      key and the text of the sub-part cell. */
  function SubKey(id: string): (c: char)
    ensures 'a' <= c <= 'c'
  {
    SubPartFromRange(id, 0);
    SubPartFrom(id, 0).GetOr('a')
  }

  /** What the sub-part pattern captures is one of `a`, `b` and `c`. */
  lemma {:induction false} SubPartFromRange(id: string, i: nat)
    ensures SubPartFrom(id, i).Some? ==> 'a' <= SubPartFrom(id, i).value <= 'c'
    decreases |id| - i
  {
    if !(i + 1 < |id| && id[i] == 'q' && IsDigit(id[i + 1])
         && RunEnd(id, i + 1, Digit) < |id| && 'a' <= id[RunEnd(id, i + 1, Digit)] <= 'c')
       && i + 1 < |id| {
      SubPartFromRange(id, i + 1);
    }
  }

  /** The ids that extraction gives out read back as their sub-part letter. */
  lemma SubKeyOfId(id: string, n: nat)
    requires Extraction.IdFor(id, n)
    ensures SubKey(id) == id[|id| - 1]
  {
    var ds := id[1..|id| - 1];
    assert IsDigit(id[1]) by {
      assert id[1] == ds[0];
    }
    assert Span(id, 1, |id| - 1, Digit) by {
      forall k | 1 <= k < |id| - 1
        ensures IsDigit(id[k])
      {
        assert id[k] == ds[k - 1];
      }
    }
    RunEndExact(id, 1, |id| - 1, Digit);
  }

  /** The sort key of a question. */
  function SubOf(q: Question): char
  {
    SubKey(q.id)
  }

  /** The elements whose key is `c`, in the order given. */
  function WithKey<T>(xs: seq<T>, key: T -> char, c: char): seq<T>
  {
    if xs == [] then []
    else (if key(xs[0]) == c then [xs[0]] else []) + WithKey(xs[1..], key, c)
  }

  /** A stable sort on the keys `a` < `b` < `c`: the elements of one key
      keep their order. */
  function SortByKey<T>(xs: seq<T>, key: T -> char): seq<T>
  {
    WithKey(xs, key, 'a') + WithKey(xs, key, 'b') + WithKey(xs, key, 'c')
  }

  /** `questions.sort` with `localeCompare` on the sub-parts, which orders
      `a`, `b` and `c` as their code points do; the sort is stable. */
  function SortBySub(qs: seq<Question>): seq<Question>
  {
    SortByKey(qs, SubOf)
  }

  /** Every element of `WithKey(xs, key, c)` has the key `c`. */
  lemma {:induction false} WithKeyKeys<T>(xs: seq<T>, key: T -> char, c: char)
    ensures forall x :: x in WithKey(xs, key, c) ==> key(x) == c
  {
    if xs != [] {
      WithKeyKeys(xs[1..], key, c);
    }
  }

  /** Filtering again by the same key changes nothing. */
  lemma {:induction false} WithKeyTwice<T>(xs: seq<T>, key: T -> char, c: char, d: char)
    ensures WithKey(WithKey(xs, key, c), key, d) == if c == d then WithKey(xs, key, c) else []
  {
    if xs != [] {
      var rest := WithKey(xs[1..], key, c);
      WithKeyTwice(xs[1..], key, c, d);
      if key(xs[0]) == c {
        var f := [xs[0]] + rest;
        assert WithKey(xs, key, c) == f;
        assert f[0] == xs[0] && f[1..] == rest;
      } else {
        assert WithKey(xs, key, c) == rest;
      }
    }
  }

  lemma {:induction false} WithKeyAppend<T>(xs: seq<T>, ys: seq<T>, key: T -> char, c: char)
    ensures WithKey(xs + ys, key, c) == WithKey(xs, key, c) + WithKey(ys, key, c)
  {
    if xs == [] {
      assert xs + ys == ys;
    } else {
      WithKeyAppend(xs[1..], ys, key, c);
      var zs := xs + ys;
      assert zs[0] == xs[0] && zs[1..] == xs[1..] + ys;
      var h := if key(xs[0]) == c then [xs[0]] else [];
      assert WithKey(zs, key, c) == h + (WithKey(xs[1..], key, c) + WithKey(ys, key, c));
      Assoc(h, WithKey(xs[1..], key, c), WithKey(ys, key, c));
    }
  }

  /** The three filters split the elements when every key is `a`, `b` or
      `c`. */
  lemma {:induction false} WithKeySplit<T>(xs: seq<T>, key: T -> char)
    requires forall x :: 'a' <= key(x) <= 'c'
    ensures multiset(WithKey(xs, key, 'a')) + multiset(WithKey(xs, key, 'b')) + multiset(WithKey(xs, key, 'c'))
      == multiset(xs)
  {
    if xs != [] {
      var x, t := xs[0], xs[1..];
      WithKeySplit(t, key);
      assert multiset(xs) == multiset{x} + multiset(t) by {
        assert xs == [x] + t;
      }
      var a, b, c := multiset(WithKey(t, key, 'a')), multiset(WithKey(t, key, 'b')), multiset(WithKey(t, key, 'c'));
      WithKeyCons(xs, key, 'a');
      WithKeyCons(xs, key, 'b');
      WithKeyCons(xs, key, 'c');
      MultisetShift(x, a, b, c);
    }
  }

  /** One more element in any of three parts is one more in their sum. */
  lemma MultisetShift<T>(x: T, p: multiset<T>, q: multiset<T>, r: multiset<T>)
    ensures (multiset{x} + p) + q + r == multiset{x} + (p + q + r)
    ensures p + (multiset{x} + q) + r == multiset{x} + (p + q + r)
    ensures p + q + (multiset{x} + r) == multiset{x} + (p + q + r)
  {
  }

  /** The filter of a non-empty list, as multisets: its head if it has the
      key, then the filter of its tail. */
  lemma WithKeyCons<T>(xs: seq<T>, key: T -> char, c: char)
    requires xs != []
    ensures multiset(WithKey(xs, key, c))
      == (if key(xs[0]) == c then multiset{xs[0]} else multiset{}) + multiset(WithKey(xs[1..], key, c))
  {
  }

  /** The sort gives a permutation. */
  lemma SortByKeyPermutes<T>(xs: seq<T>, key: T -> char)
    requires forall x :: 'a' <= key(x) <= 'c'
    ensures multiset(SortByKey(xs, key)) == multiset(xs) && |SortByKey(xs, key)| == |xs|
  {
    WithKeySplit(xs, key);
    assert |multiset(SortByKey(xs, key))| == |multiset(xs)|;
  }

  /** The sort orders the elements by key. */
  lemma SortByKeyOrdered<T>(xs: seq<T>, key: T -> char)
    ensures forall i, j :: 0 <= i < j < |SortByKey(xs, key)| ==> key(SortByKey(xs, key)[i]) <= key(SortByKey(xs, key)[j])
  {
    var a, b, c := WithKey(xs, key, 'a'), WithKey(xs, key, 'b'), WithKey(xs, key, 'c');
    WithKeyKeys(xs, key, 'a');
    WithKeyKeys(xs, key, 'b');
    WithKeyKeys(xs, key, 'c');
    var r := SortByKey(xs, key);
    forall i, j | 0 <= i < j < |r|
      ensures key(r[i]) <= key(r[j])
    {
      if j < |a| {
        assert r[i] in a && r[j] in a;
      } else if j < |a| + |b| {
        assert r[j] == b[j - |a|];
        assert r[j] in b;
      } else {
        assert r[j] == c[j - |a| - |b|];
        assert r[j] in c;
        if i >= |a| + |b| {
          assert r[i] == c[i - |a| - |b|];
          assert r[i] in c;
        }
      }
    }
  }

  /** The sort keeps the order of the elements of one key. */
  lemma SortByKeyStable<T>(xs: seq<T>, key: T -> char, d: char)
    requires forall x :: 'a' <= key(x) <= 'c'
    ensures WithKey(SortByKey(xs, key), key, d) == WithKey(xs, key, d)
  {
    var a, b, c := WithKey(xs, key, 'a'), WithKey(xs, key, 'b'), WithKey(xs, key, 'c');
    var r := WithKey(a, key, d) + WithKey(b, key, d) + WithKey(c, key, d);
    assert WithKey(SortByKey(xs, key), key, d) == r by {
      WithKeyAppend(a + b, c, key, d);
      WithKeyAppend(a, b, key, d);
    }
    assert r == WithKey(xs, key, d) by {
      WithKeyTwice(xs, key, 'a', d);
      WithKeyTwice(xs, key, 'b', d);
      WithKeyTwice(xs, key, 'c', d);
      if d == 'a' {
        assert r == a + [] + [];
      } else if d == 'b' {
        assert r == [] + b + [];
      } else if d == 'c' {
        assert r == [] + [] + c;
      } else {
        WithKeyNone(xs, key, d);
        assert r == [] + [] + [];
      }
    }
  }

  /** No element has a key outside `a`..`c`. */
  lemma {:induction false} WithKeyNone<T>(xs: seq<T>, key: T -> char, d: char)
    requires forall x :: 'a' <= key(x) <= 'c'
    requires !('a' <= d <= 'c')
    ensures WithKey(xs, key, d) == []
  {
    if xs != [] {
      WithKeyNone(xs[1..], key, d);
    }
  }

  /** Sorting by sub-part gives the same questions in ascending order of
      sub-part, and the questions of one sub-part in their order. */
  lemma SortBySubCorrect(qs: seq<Question>)
    ensures multiset(SortBySub(qs)) == multiset(qs) && |SortBySub(qs)| == |qs|
    ensures forall i, j :: 0 <= i < j < |SortBySub(qs)| ==> SubOf(SortBySub(qs)[i]) <= SubOf(SortBySub(qs)[j])
    ensures forall c :: WithKey(SortBySub(qs), SubOf, c) == WithKey(qs, SubOf, c)
  {
    SortByKeyPermutes(qs, SubOf);
    SortByKeyOrdered(qs, SubOf);
    forall c
      ensures WithKey(SortBySub(qs), SubOf, c) == WithKey(qs, SubOf, c)
    {
      SortByKeyStable(qs, SubOf, c);
    }
  }

  /** Sorting keeps the number of questions. */
  lemma SortBySubLength(qs: seq<Question>)
    ensures |SortBySub(qs)| == |qs|
  {
    SortByKeyPermutes(qs, SubOf);
  }

  /** One row of the table. */
  datatype Row =
    | ModuleHeader(name: string)
      /** `qCell` holds the row span and the number of the question-number
          cell, on the first row of a group only. */
    | QuestionRow(qCell: Option<(nat, nat)>, sub: char, text: string, marks: int)
    | OrRow

  /** `${n}` for an integer. */
  function IntToString(i: int): string
  {
    if i < 0 then "-" + NatToString(-i) else NatToString(i)
  }

  /** The question-number cell, or nothing. */
  function QnoCell(cell: Option<(nat, nat)>): string
  {
    match cell
    case None => ""
    case Some((span, n)) =>
      "<td class=\"qno-col\" rowspan=\"" + NatToString(span) + "\">Q" + NatToString(n) + "</td>"
  }

  /** The HTML template of each kind of row. */
  function Render(r: Row): string
  {
    match r
    case ModuleHeader(name) =>
      "\n        <tr class=\"module-header\">\n            <td colspan=\"4\">" + name
      + "</td>\n        </tr>\n      "
    case QuestionRow(cell, sub, text, marks) =>
      "\n            <tr class=\"question-row\">\n                " + QnoCell(cell)
      + "\n                <td class=\"subq-col\">" + [sub]
      + "</td>\n                <td class=\"question-col\">\n                    <div class=\"question-content\">\n                        <span class=\"question-text\">"
      + text
      + "</span>\n                    </div>\n                </td>\n                <td class=\"marks-col\">"
      + IntToString(marks) + "</td>\n            </tr>\n          "
    case OrRow =>
      "\n            <tr class=\"or-row\">\n                <td colspan=\"4\"><strong>OR</strong></td>\n            </tr>\n          "
  }

  /** The strings of `xs` one after the other. */
  function Join<T>(xs: seq<T>, f: T -> string): string
    decreases |xs|, 1
  {
    if xs == [] then "" else JoinRest(xs, f)
  }

  /** The strings of a non-empty `xs`: those of all but the last element,
      then that of the last. */
  function JoinRest<T>(xs: seq<T>, f: T -> string): string
    requires xs != []
    decreases |xs|, 0
  {
    Join(xs[..|xs| - 1], f) + f(xs[|xs| - 1])
  }

  lemma {:induction false} JoinAppend<T>(a: seq<T>, b: seq<T>, f: T -> string)
    ensures Join(a + b, f) == Join(a, f) + Join(b, f)
    decreases |b|
  {
    if b == [] {
      assert a + b == a;
    } else {
      var init := b[..|b| - 1];
      JoinAppend(a, init, f);
      assert (a + b)[..|a + b| - 1] == a + init;
      assert (a + b)[|a + b| - 1] == b[|b| - 1];
    }
  }

  /** Appending one more element's string to a text that ends with the
      strings of `xs`. */
  lemma JoinSnoc<T>(pre: string, xs: seq<T>, x: T, f: T -> string)
    ensures pre + Join(xs, f) + f(x) == pre + Join(xs + [x], f)
  {
    assert (xs + [x])[..|xs|] == xs;
  }

  /** A text followed by the string of `x`. */
  lemma JoinOne<T>(pre: string, x: T, f: T -> string)
    ensures pre + f(x) == pre + Join([x], f)
  {
    assert [x][..0] == [];
    assert Join([x], f) == JoinRest([x], f) == "" + f(x);
  }

  /** Appending the strings of `ys` to a text that ends with the strings of
      `xs`. */
  lemma JoinThen<T>(pre: string, xs: seq<T>, ys: seq<T>, f: T -> string)
    ensures pre + Join(xs, f) + Join(ys, f) == pre + Join(xs + ys, f)
  {
    JoinAppend(xs, ys, f);
  }

  /** `s[..g]` is `s[..g - 1]` with one more element. */
  lemma SliceSnoc<T>(s: seq<T>, g: nat)
    requires 0 < g <= |s|
    ensures s[..g] == s[..g - 1] + [s[g - 1]]
  {
  }

  /** The HTML of a sequence of rows. */
  function RenderAll(rows: seq<Row>): string
  {
    Join(rows, Render)
  }

  /** `selectedQuestions[question.id] || question.text`: the rephrased text
      when one is selected and not empty. */
  function TextFor(q: Question, selected: map<string, string>): string
  {
    if q.id in selected && selected[q.id] != "" then selected[q.id] else q.text
  }

  /** What the row of a question shows of it: sub-part, text and marks. */
  datatype Line = Line(sub: char, text: string, marks: int)

  function LineOf(q: Question, selected: map<string, string>): Line
  {
    Line(SubOf(q), TextFor(q, selected), q.marks)
  }

  /** The lines of the questions `qs`, in order. */
  function LinesOf(qs: seq<Question>, selected: map<string, string>): (ls: seq<Line>)
    ensures |ls| == |qs|
  {
    seq(|qs|, i requires 0 <= i < |qs| => LineOf(qs[i], selected))
  }

  /** The row of line `l`, number `subIndex` in a group of `size` questions
      numbered `qNum`. */
  function QuestionRowOf(l: Line, subIndex: nat, size: nat, qNum: nat): Row
  {
    QuestionRow(if subIndex == 0 then Some((size, qNum)) else None, l.sub, l.text, l.marks)
  }

  /** The rows of the first `n` lines of a group. */
  function GroupLayout(lines: seq<Line>, qNum: nat, n: nat): seq<Row>
    requires n <= |lines|
  {
    if n == 0 then [] else GroupLayout(lines, qNum, n - 1) + [QuestionRowOf(lines[n - 1], n - 1, |lines|, qNum)]
  }

  /** A question number with the lines of its questions, in the order they
      are shown. */
  datatype QGroup = QGroup(qNum: nat, lines: seq<Line>)

  /** The groups of the numbers `ks`, in that order, each sorted by
      sub-part. */
  function SortedGroups(qs: seq<Question>, ks: seq<nat>, selected: map<string, string>): (gs: seq<QGroup>)
    ensures |gs| == |ks|
  {
    seq(|ks|, i requires 0 <= i < |ks| => QGroup(ks[i], LinesOf(SortBySub(Group(qs, ks[i])), selected)))
  }

  /** Group `g`: its rows, then an `OR` row unless it is the last group. */
  function GroupBlock(groups: seq<QGroup>, g: nat): seq<Row>
    requires g < |groups|
  {
    GroupLayout(groups[g].lines, groups[g].qNum, |groups[g].lines|) + (if g < |groups| - 1 then [OrRow] else [])
  }

  /** The blocks of the groups, in order. */
  function Blocks(groups: seq<QGroup>): (bs: seq<seq<Row>>)
    ensures |bs| == |groups|
  {
    seq(|groups|, i requires 0 <= i < |groups| => GroupBlock(groups, i))
  }

  /** The rows of the blocks one after the other. */
  function Flatten<T>(bs: seq<seq<T>>): seq<T>
  {
    if bs == [] then [] else Flatten(bs[..|bs| - 1]) + bs[|bs| - 1]
  }

  /** The groups of a module in ascending order of question number. */
  function ModuleGroups(mod: Module, selected: map<string, string>): seq<QGroup>
  {
    SortedGroups(mod.questions, SortAsc(Keys(mod.questions)), selected)
  }

  /** The rows of one module. */
  function ModuleLayout(mod: Module, selected: map<string, string>): seq<Row>
  {
    [ModuleHeader(mod.name)] + Flatten(Blocks(ModuleGroups(mod, selected)))
  }

  /** The rows of the first `m` modules. */
  function TableLayout(modules: seq<Module>, selected: map<string, string>, m: nat): seq<Row>
    requires m <= |modules|
  {
    if m == 0 then [] else TableLayout(modules, selected, m - 1) + ModuleLayout(modules[m - 1], selected)
  }

  /** The question-number cell a row holds, if any. */
  function CellOf(r: Row): seq<(nat, nat)>
  {
    if r.QuestionRow? && r.qCell.Some? then [r.qCell.value] else []
  }

  /** The question-number cells of `rows`, in order. */
  function Cells(rows: seq<Row>): seq<(nat, nat)>
  {
    if rows == [] then [] else Cells(rows[..|rows| - 1]) + CellOf(rows[|rows| - 1])
  }

  predicate IsOr(r: Row)
  {
    r.OrRow?
  }

  predicate IsQuestion(r: Row)
  {
    r.QuestionRow?
  }

  /** How many of `rows` satisfy `p`. */
  function Count(rows: seq<Row>, p: Row -> bool): nat
  {
    if rows == [] then 0 else Count(rows[..|rows| - 1], p) + (if p(rows[|rows| - 1]) then 1 else 0)
  }

  lemma {:induction false} CellsAppend(a: seq<Row>, b: seq<Row>)
    ensures Cells(a + b) == Cells(a) + Cells(b)
    decreases |b|
  {
    if b == [] {
      assert a + b == a;
    } else {
      var init, last := b[..|b| - 1], b[|b| - 1];
      CellsAppend(a, init);
      assert b == init + [last];
      Assoc(a, init, [last]);
      CellsSnoc(a + init, last);
      CellsSnoc(init, last);
      Assoc(Cells(a), Cells(init), CellOf(last));
    }
  }

  lemma {:induction false} CountAppend(a: seq<Row>, b: seq<Row>, p: Row -> bool)
    ensures Count(a + b, p) == Count(a, p) + Count(b, p)
    decreases |b|
  {
    if b == [] {
      assert a + b == a;
    } else {
      var init, last := b[..|b| - 1], b[|b| - 1];
      CountAppend(a, init, p);
      assert b == init + [last];
      Assoc(a, init, [last]);
      CountSnoc(a + init, last, p);
      CountSnoc(init, last, p);
    }
  }

  /** Row `i` of a group is the row of its line `i`: only the first one
      carries the question-number cell. */
  lemma {:induction false} GroupLayoutAt(lines: seq<Line>, qNum: nat, n: nat)
    requires n <= |lines|
    ensures |GroupLayout(lines, qNum, n)| == n
    ensures forall i :: 0 <= i < n ==> GroupLayout(lines, qNum, n)[i] == QuestionRowOf(lines[i], i, |lines|, qNum)
  {
    if n > 0 {
      GroupLayoutAt(lines, qNum, n - 1);
    }
  }

  /** A group has one question-number cell, spanning the whole group and
      showing its number, one row per question and no `OR` row. */
  lemma GroupLayoutShape(lines: seq<Line>, qNum: nat, n: nat)
    requires n <= |lines|
    ensures Cells(GroupLayout(lines, qNum, n)) == if n == 0 then [] else [(|lines|, qNum)]
    ensures Count(GroupLayout(lines, qNum, n), IsOr) == 0
    ensures Count(GroupLayout(lines, qNum, n), IsQuestion) == n
  {
    GroupLayoutCells(lines, qNum, n);
    GroupLayoutCounts(lines, qNum, n);
  }

  lemma {:induction false} GroupLayoutCells(lines: seq<Line>, qNum: nat, n: nat)
    requires n <= |lines|
    ensures Cells(GroupLayout(lines, qNum, n)) == if n == 0 then [] else [(|lines|, qNum)]
  {
    if n > 0 {
      GroupLayoutCells(lines, qNum, n - 1);
      var init := GroupLayout(lines, qNum, n - 1);
      var row := QuestionRowOf(lines[n - 1], n - 1, |lines|, qNum);
      assert GroupLayout(lines, qNum, n) == init + [row];
      CellsSnoc(init, row);
      if n == 1 {
        assert CellOf(row) == [(|lines|, qNum)];
        assert Cells(init) + CellOf(row) == [(|lines|, qNum)];
      } else {
        assert CellOf(row) == [];
        assert Cells(init) + CellOf(row) == [(|lines|, qNum)];
      }
    }
  }

  lemma {:induction false} GroupLayoutCounts(lines: seq<Line>, qNum: nat, n: nat)
    requires n <= |lines|
    ensures Count(GroupLayout(lines, qNum, n), IsOr) == 0
    ensures Count(GroupLayout(lines, qNum, n), IsQuestion) == n
  {
    if n > 0 {
      GroupLayoutCounts(lines, qNum, n - 1);
      var init := GroupLayout(lines, qNum, n - 1);
      var row := QuestionRowOf(lines[n - 1], n - 1, |lines|, qNum);
      assert GroupLayout(lines, qNum, n) == init + [row];
      CountSnoc(init, row, IsOr);
      CountSnoc(init, row, IsQuestion);
    }
  }

  lemma CellsSnoc(rows: seq<Row>, r: Row)
    ensures Cells(rows + [r]) == Cells(rows) + CellOf(r)
  {
    assert (rows + [r])[..|rows|] == rows;
  }

  lemma CountSnoc(rows: seq<Row>, r: Row, p: Row -> bool)
    ensures Count(rows + [r], p) == Count(rows, p) + (if p(r) then 1 else 0)
  {
    assert (rows + [r])[..|rows|] == rows;
  }

  /** The rows of a group show its questions in ascending order of
      sub-part, each with its selected text and its marks, the first row
      with the question-number cell and the others without. */
  lemma GroupRowsOrdered(group: seq<Question>, qNum: nat, selected: map<string, string>)
    ensures |SortBySub(group)| == |group|
    ensures var rows := GroupLayout(LinesOf(SortBySub(group), selected), qNum, |group|);
      && |rows| == |group|
      && (forall i :: 0 <= i < |rows| ==>
            && rows[i].QuestionRow? && (rows[i].qCell.Some? <==> i == 0)
            && rows[i].sub == SubOf(SortBySub(group)[i])
            && rows[i].text == TextFor(SortBySub(group)[i], selected)
            && rows[i].marks == SortBySub(group)[i].marks)
      && (forall i, j :: 0 <= i < j < |rows| ==> rows[i].sub <= rows[j].sub)
  {
    SortBySubCorrect(group);
    GroupLayoutAt(LinesOf(SortBySub(group), selected), qNum, |group|);
  }

  /** The block of group `g`: one cell for its number, one row per
      question, and an `OR` row unless it is the last group. */
  lemma GroupBlockShape(groups: seq<QGroup>, g: nat)
    requires g < |groups| && groups[g].lines != []
    ensures Cells(GroupBlock(groups, g)) == [(|groups[g].lines|, groups[g].qNum)]
    ensures Count(GroupBlock(groups, g), IsOr) == if g < |groups| - 1 then 1 else 0
    ensures Count(GroupBlock(groups, g), IsQuestion) == |groups[g].lines|
    ensures g == |groups| - 1 ==> !IsOr(GroupBlock(groups, g)[|GroupBlock(groups, g)| - 1])
  {
    var lines := groups[g].lines;
    var rows := GroupLayout(lines, groups[g].qNum, |lines|);
    GroupLayoutShape(lines, groups[g].qNum, |lines|);
    GroupLayoutAt(lines, groups[g].qNum, |lines|);
    var tail: seq<Row> := if g < |groups| - 1 then [OrRow] else [];
    CellsAppend(rows, tail);
    CountAppend(rows, tail, IsOr);
    CountAppend(rows, tail, IsQuestion);
    assert Cells(tail) == [] && Count(tail, IsOr) == |tail| && Count(tail, IsQuestion) == 0 by {
      if tail != [] {
        assert tail[..0] == [];
      }
    }
    if tail == [] {
      assert rows + tail == rows;
    }
  }

  /** Every group has at least one question. */
  predicate NonEmptyGroups(groups: seq<QGroup>)
  {
    forall i :: 0 <= i < |groups| ==> groups[i].lines != []
  }

  /** One more block adds its rows at the end. */
  lemma FlattenSnoc<T>(bs: seq<seq<T>>, g: nat)
    requires g < |bs|
    ensures Flatten(bs[..g + 1]) == Flatten(bs[..g]) + bs[g]
  {
    assert bs[..g + 1][..g] == bs[..g];
  }

  /** A non-empty sequence is its front with its last element. */
  lemma LastSplit<T>(s: seq<T>)
    requires s != []
    ensures s == s[..|s| - 1] + [s[|s| - 1]]
  {
  }

  /** Blocks with one cell each give those cells in order. */
  lemma {:induction false} FlattenCells(bs: seq<seq<Row>>, cs: seq<(nat, nat)>)
    requires |cs| == |bs| && forall i :: 0 <= i < |bs| ==> Cells(bs[i]) == [cs[i]]
    ensures Cells(Flatten(bs)) == cs
  {
    if bs != [] {
      var n := |bs|;
      FlattenCells(bs[..n - 1], cs[..n - 1]);
      CellsAppend(Flatten(bs[..n - 1]), bs[n - 1]);
      LastSplit(cs);
    }
  }

  /** Blocks with one row satisfying `p` each. */
  lemma {:induction false} FlattenCount(bs: seq<seq<Row>>, p: Row -> bool)
    requires forall i :: 0 <= i < |bs| ==> Count(bs[i], p) == 1
    ensures Count(Flatten(bs), p) == |bs|
  {
    if bs != [] {
      var n := |bs|;
      FlattenCount(bs[..n - 1], p);
      CountAppend(Flatten(bs[..n - 1]), bs[n - 1], p);
    }
  }

  /** How many questions the groups hold. */
  function Sizes(groups: seq<QGroup>): nat
  {
    if groups == [] then 0 else Sizes(groups[..|groups| - 1]) + |groups[|groups| - 1].lines|
  }

  /** Blocks with as many rows satisfying `p` as their groups have
      questions. */
  lemma {:induction false} FlattenSizes(bs: seq<seq<Row>>, p: Row -> bool, groups: seq<QGroup>)
    requires |bs| == |groups| && forall i :: 0 <= i < |bs| ==> Count(bs[i], p) == |groups[i].lines|
    ensures Count(Flatten(bs), p) == Sizes(groups)
  {
    if bs != [] {
      var n := |bs|;
      FlattenSizes(bs[..n - 1], p, groups[..n - 1]);
      CountAppend(Flatten(bs[..n - 1]), bs[n - 1], p);
    }
  }

  /** The sorted groups of the numbers `ks` hold as many questions as the
      groups themselves. */
  lemma {:induction false} SortedGroupsSizes(qs: seq<Question>, ks: seq<nat>, selected: map<string, string>)
    ensures Sizes(SortedGroups(qs, ks, selected)) == |GroupsOf(qs, ks)|
  {
    if ks != [] {
      var n := |ks|;
      var gs := SortedGroups(qs, ks, selected);
      SortedGroupsSizes(qs, ks[..n - 1], selected);
      SortedGroupsInit(qs, ks, selected);
      SortBySubLength(Group(qs, ks[n - 1]));
      assert |gs[n - 1].lines| == |Group(qs, ks[n - 1])|;
    }
  }

  lemma SortedGroupsInit(qs: seq<Question>, ks: seq<nat>, selected: map<string, string>)
    requires ks != []
    ensures SortedGroups(qs, ks, selected)[..|ks| - 1] == SortedGroups(qs, ks[..|ks| - 1], selected)
  {
  }

  /** The groups of a module: one per question number of the module, in
      ascending order, each as large as the questions of that number, so
      none is empty and together they hold every question. */
  lemma ModuleGroupsShape(mod: Module, selected: map<string, string>)
    ensures |ModuleGroups(mod, selected)| == |Keys(mod.questions)|
    ensures NonEmptyGroups(ModuleGroups(mod, selected))
    ensures forall i :: 0 <= i < |ModuleGroups(mod, selected)| ==>
      ModuleGroups(mod, selected)[i].qNum == SortAsc(Keys(mod.questions))[i]
      && |ModuleGroups(mod, selected)[i].lines| == |Group(mod.questions, ModuleGroups(mod, selected)[i].qNum)|
    ensures Sizes(ModuleGroups(mod, selected)) == |mod.questions|
  {
    var qs := mod.questions;
    var ks := SortAsc(Keys(qs));
    var groups := ModuleGroups(mod, selected);
    SortedKeys(qs);
    KeysExact(qs);
    forall i | 0 <= i < |ks|
      ensures groups[i].lines != [] && |groups[i].lines| == |Group(qs, ks[i])|
    {
      assert ks[i] in ks;
      GroupPresent(qs, ks[i]);
      SortBySubLength(Group(qs, ks[i]));
    }
    SortedGroupsSizes(qs, ks, selected);
    GroupsOfAll(qs, ks);
    assert |multiset(GroupsOf(qs, ks))| == |GroupsOf(qs, ks)|;
  }

  /** The question-number cells of a module: one per group, in the order of
      the groups, each spanning the group and showing its number. */
  lemma ModuleLayoutCells(mod: Module, selected: map<string, string>)
    ensures |Cells(ModuleLayout(mod, selected))| == |ModuleGroups(mod, selected)|
    ensures forall i :: 0 <= i < |ModuleGroups(mod, selected)| ==>
      Cells(ModuleLayout(mod, selected))[i]
        == (|ModuleGroups(mod, selected)[i].lines|, ModuleGroups(mod, selected)[i].qNum)
  {
    var groups := ModuleGroups(mod, selected);
    ModuleGroupsShape(mod, selected);
    var bs := Blocks(groups);
    var cs: seq<(nat, nat)> := seq(|groups|, i requires 0 <= i < |groups| => (|groups[i].lines|, groups[i].qNum));
    forall i | 0 <= i < |bs|
      ensures Cells(bs[i]) == [cs[i]]
    {
      GroupBlockShape(groups, i);
    }
    FlattenCells(bs, cs);
    var header := [ModuleHeader(mod.name)];
    CellsAppend(header, Flatten(bs));
    assert header[..0] == [];
  }

  /** The blocks of non-empty groups hold one `OR` row between each two
      consecutive groups. */
  lemma BlocksOrs(groups: seq<QGroup>)
    requires NonEmptyGroups(groups)
    ensures Count(Flatten(Blocks(groups)), IsOr) == if groups == [] then 0 else |groups| - 1
  {
    var bs := Blocks(groups);
    if bs != [] {
      var n := |bs|;
      var init := bs[..n - 1];
      forall i | 0 <= i < |init|
        ensures Count(init[i], IsOr) == 1
      {
        assert init[i] == bs[i];
        GroupBlockShape(groups, i);
      }
      FlattenCount(init, IsOr);
      GroupBlockShape(groups, n - 1);
      assert bs[..n] == bs;
      FlattenSnoc(bs, n - 1);
      CountAppend(Flatten(init), bs[n - 1], IsOr);
    }
  }

  /** The `OR` rows of a module: one between consecutive groups. */
  lemma ModuleLayoutOrs(mod: Module, selected: map<string, string>)
    ensures Count(ModuleLayout(mod, selected), IsOr)
      == if ModuleGroups(mod, selected) == [] then 0 else |ModuleGroups(mod, selected)| - 1
  {
    var groups := ModuleGroups(mod, selected);
    ModuleGroupsShape(mod, selected);
    BlocksOrs(groups);
    var header := [ModuleHeader(mod.name)];
    CountAppend(header, Flatten(Blocks(groups)), IsOr);
    assert header[..0] == [];
  }

  /** The question rows of a module: one per question. */
  lemma ModuleLayoutQuestions(mod: Module, selected: map<string, string>)
    ensures Count(ModuleLayout(mod, selected), IsQuestion) == |mod.questions|
  {
    var groups := ModuleGroups(mod, selected);
    ModuleGroupsShape(mod, selected);
    var bs := Blocks(groups);
    forall i | 0 <= i < |bs|
      ensures Count(bs[i], IsQuestion) == |groups[i].lines|
    {
      GroupBlockShape(groups, i);
    }
    FlattenSizes(bs, IsQuestion, groups);
    var header := [ModuleHeader(mod.name)];
    CountAppend(header, Flatten(bs), IsQuestion);
    assert header[..0] == [];
  }

  /** A module's rows start with its header and do not end with `OR`. */
  lemma ModuleLayoutEnds(mod: Module, selected: map<string, string>)
    ensures ModuleLayout(mod, selected)[0] == ModuleHeader(mod.name)
    ensures !IsOr(ModuleLayout(mod, selected)[|ModuleLayout(mod, selected)| - 1])
  {
    var groups := ModuleGroups(mod, selected);
    ModuleGroupsShape(mod, selected);
    var bs := Blocks(groups);
    if bs != [] {
      var n := |bs|;
      GroupBlockShape(groups, n - 1);
      assert bs[..n] == bs;
      FlattenSnoc(bs, n - 1);
      assert Flatten(bs) == Flatten(bs[..n - 1]) + bs[n - 1];
    }
  }

  /** One iteration of the `forEach` over a group: the row of question
      number `subIndex`, with the question-number cell on the first. */
  method AppendQuestionRow(rows0: string, rows: string, ghost lines: seq<Line>, line: Line,
                           subIndex: nat, size: nat, qNum: nat)
    returns (next: string)
    requires subIndex < |lines| == size && line == lines[subIndex]
    requires rows == rows0 + RenderAll(GroupLayout(lines, qNum, subIndex))
    ensures next == rows0 + RenderAll(GroupLayout(lines, qNum, subIndex + 1))
  {
    var row := QuestionRowOf(line, subIndex, size, qNum);
    JoinSnoc(rows0, GroupLayout(lines, qNum, subIndex), row, Render);
    next := rows + Render(row);
  }

  /** The `forEach` over the sorted questions of one group. */
  method AppendGroupRows(rows0: string, sortedQuestions: seq<Question>, qNum: nat, selected: map<string, string>)
    returns (rows: string)
    ensures rows == rows0 + RenderAll(GroupLayout(LinesOf(sortedQuestions, selected), qNum, |sortedQuestions|))
  {
    ghost var lines := LinesOf(sortedQuestions, selected);
    rows := rows0;
    var subIndex := 0;
    while subIndex < |sortedQuestions|
      invariant 0 <= subIndex <= |sortedQuestions|
      invariant rows == rows0 + RenderAll(GroupLayout(lines, qNum, subIndex))
    {
      var question := sortedQuestions[subIndex];
      var line := LineOf(question, selected);
      rows := AppendQuestionRow(rows0, rows, lines, line, subIndex, |sortedQuestions|, qNum);
      subIndex := subIndex + 1;
    }
  }

  /** The rows of group `g`, then the `OR` row unless it is the last
      group. */
  method AppendBlock(rows0: string, ghost groups: seq<QGroup>, groupCount: nat, g: nat, qNum: nat,
                     sortedQuestions: seq<Question>, selected: map<string, string>)
    returns (rows: string)
    requires g < |groups| == groupCount && groups[g] == QGroup(qNum, LinesOf(sortedQuestions, selected))
    ensures rows == rows0 + RenderAll(GroupBlock(groups, g))
  {
    ghost var groupRows := GroupLayout(groups[g].lines, qNum, |sortedQuestions|);
    rows := AppendGroupRows(rows0, sortedQuestions, qNum, selected);
    if g < groupCount - 1 {
      JoinSnoc(rows0, groupRows, OrRow, Render);
      rows := rows + Render(OrRow);
    } else {
      assert GroupBlock(groups, g) == groupRows;
    }
  }

  /** The groups of the numbers `sortedQGroups` in turn. */
  method AppendGroups(rows0: string, qs: seq<Question>, questionGroups: map<nat, seq<Question>>,
                      sortedQGroups: seq<nat>, selected: map<string, string>)
    returns (rows: string)
    requires forall k :: k in sortedQGroups ==> k in questionGroups && questionGroups[k] == Group(qs, k)
    ensures rows == rows0 + RenderAll(Flatten(Blocks(SortedGroups(qs, sortedQGroups, selected))))
  {
    ghost var groups := SortedGroups(qs, sortedQGroups, selected);
    ghost var bs := Blocks(groups);
    assert bs[..0] == [];
    rows := rows0;
    var groupIndex := 0;
    while groupIndex < |sortedQGroups|
      invariant 0 <= groupIndex <= |sortedQGroups|
      invariant rows == rows0 + RenderAll(Flatten(bs[..groupIndex]))
    {
      var qNum := sortedQGroups[groupIndex];
      var questions := questionGroups[qNum];
      var sortedQuestions := SortBySub(questions);
      assert groups[groupIndex] == QGroup(qNum, LinesOf(sortedQuestions, selected));
      rows := AppendBlock(rows, groups, |sortedQGroups|, groupIndex, qNum, sortedQuestions, selected);
      JoinThen(rows0, Flatten(bs[..groupIndex]), bs[groupIndex], Render);
      FlattenSnoc(bs, groupIndex);
      groupIndex := groupIndex + 1;
    }
    assert bs[..|bs|] == bs;
  }

  /** The rows of one module: its header, then the groups in ascending
      order of question number. */
  method AppendModuleRows(rows0: string, mod: Module, selected: map<string, string>) returns (rows: string)
    ensures rows == rows0 + RenderAll(ModuleLayout(mod, selected))
  {
    var header := ModuleHeader(mod.name);
    JoinOne(rows0, header, Render);
    rows := rows0 + Render(header);
    var questionGroups, keys := GroupByNumber(mod.questions);
    var sortedQGroups := SortAsc(keys);
    KeysExact(mod.questions);
    SortAscCorrect(keys);
    forall k | k in sortedQGroups
      ensures k in keys
    {
      assert k in multiset(sortedQGroups);
    }
    ghost var body := Flatten(Blocks(SortedGroups(mod.questions, sortedQGroups, selected)));
    assert ModuleLayout(mod, selected) == [header] + body;
    rows := AppendGroups(rows, mod.questions, questionGroups, sortedQGroups, selected);
    JoinThen(rows0, [header], body, Render);
  }

  lemma TableLayoutSnoc(modules: seq<Module>, selected: map<string, string>, m: nat)
    requires m < |modules|
    ensures RenderAll(TableLayout(modules, selected, m + 1))
      == RenderAll(TableLayout(modules, selected, m)) + RenderAll(ModuleLayout(modules[m], selected))
  {
    JoinAppend(TableLayout(modules, selected, m), ModuleLayout(modules[m], selected), Render);
  }

  /** `generateTableRows`: the rows of every module, in order. */
  method GenerateTableRows(modules: seq<Module>, selected: map<string, string>) returns (rows: string)
    ensures rows == RenderAll(TableLayout(modules, selected, |modules|))
  {
    rows := "";
    var moduleIndex := 0;
    while moduleIndex < |modules|
      invariant 0 <= moduleIndex <= |modules|
      invariant rows == RenderAll(TableLayout(modules, selected, moduleIndex))
    {
      TableLayoutSnoc(modules, selected, moduleIndex);
      rows := AppendModuleRows(rows, modules[moduleIndex], selected);
      moduleIndex := moduleIndex + 1;
    }
  }
}
