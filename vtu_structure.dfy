/**
 * The module layout of `parseVTUStructure`: questions are grouped by the
 * question number in their id, the numbers are sorted, and each pair of
 * consecutive numbers (1 and 2, 3 and 4, …) forms one module of the paper.
 * The header fields come from `HeaderFields`.
 */
module VtuStructure {
  import opened Text
  import opened Wrappers
  import opened QuestionPaper
  import opened HeaderFields
  import Extraction

  /** `parseInt(id.match(/q(\d+)/)?.[1] || '0')` from position `i` on: the
      value of the digits after the first `q` that a digit follows, or 0. */
  function QNumFrom(id: string, i: nat): nat
    decreases |id| - i
  {
    if i + 1 < |id| && id[i] == 'q' && IsDigit(id[i + 1]) then
      var e := RunEnd(id, i + 1, Digit);
      SpanDigits(id, i + 1, e);
      DigitsValue(id[i + 1..e])
    else if i + 1 >= |id| then 0
    else QNumFrom(id, i + 1)
  }

  /** The question number of an id. */
  function QNum(id: string): nat
  {
    QNumFrom(id, 0)
  }

  /** The ids that extraction gives out read back as their question number. */
  lemma QNumOfId(id: string, n: nat)
    requires Extraction.IdFor(id, n)
    ensures QNum(id) == n
  {
    var ds := id[1..|id| - 1];
    assert IsDigit(id[1]) by {
      assert id[1] == ds[0];
    }
    assert Span(id, 1, |id| - 1, Digit) by {
      forall k | 1 <= k < |id| - 1
        ensures IsDigit(id[k])
      {
        assert id[k] == ds[k - 1];
      }
    }
    RunEndExact(id, 1, |id| - 1, Digit);
  }

  /** The questions whose number is `k`, in the order given: the list that
      `questionsByQNumber` holds for `k`. */
  function Group(qs: seq<Question>, k: nat): seq<Question>
  {
    if qs == [] then []
    else
      var last := qs[|qs| - 1];
      Group(qs[..|qs| - 1], k) + (if QNum(last.id) == k then [last] else [])
  }

  /** The keys of `questionsByQNumber`, in the order a JavaScript `Map` keeps
      them: the order in which each number first appears. */
  function Keys(qs: seq<Question>): seq<nat>
  {
    if qs == [] then []
    else
      var ks := Keys(qs[..|qs| - 1]);
      var n := QNum(qs[|qs| - 1].id);
      if n in ks then ks else ks + [n]
  }

  /** No number is listed twice. */
  predicate Distinct(ks: seq<nat>)
  {
    forall i, j :: 0 <= i < j < |ks| ==> ks[i] != ks[j]
  }

  /** The keys are distinct numbers, exactly those of the questions. */
  lemma {:induction false} KeysExact(qs: seq<Question>)
    ensures Distinct(Keys(qs))
    ensures forall k :: k in Keys(qs) <==> exists q :: q in qs && QNum(q.id) == k
  {
    if qs != [] {
      var init := qs[..|qs| - 1];
      KeysExact(init);
      assert qs == init + [qs[|qs| - 1]];
    }
  }

  /** A number that no question has has an empty group. */
  lemma {:induction false} GroupAbsent(qs: seq<Question>, k: nat)
    requires k !in Keys(qs)
    ensures Group(qs, k) == []
  {
    if qs != [] {
      GroupAbsent(qs[..|qs| - 1], k);
    }
  }

  /** A key's group is never empty. */
  lemma {:induction false} GroupPresent(qs: seq<Question>, k: nat)
    requires k in Keys(qs)
    ensures |Group(qs, k)| > 0
  {
    var init := qs[..|qs| - 1];
    if k in Keys(init) {
      GroupPresent(init, k);
    }
  }

  /** A group holds exactly the questions with its number. */
  lemma {:induction false} GroupMembers(qs: seq<Question>, k: nat)
    ensures forall q :: q in Group(qs, k) <==> q in qs && QNum(q.id) == k
  {
    if qs != [] {
      var init := qs[..|qs| - 1];
      GroupMembers(init, k);
      assert qs == init + [qs[|qs| - 1]];
    }
  }

  /** `x` put into the ascending list `ks`. */
  function Insert(x: nat, ks: seq<nat>): seq<nat>
  {
    if ks == [] || x <= ks[0] then [x] + ks else [ks[0]] + Insert(x, ks[1..])
  }

  /** `Array.prototype.sort` with the comparator `(a, b) => a - b`: the
      numbers in ascending order. */
  function SortAsc(ks: seq<nat>): seq<nat>
  {
    if ks == [] then [] else Insert(ks[0], SortAsc(ks[1..]))
  }

  /** Every number is smaller than the next one. */
  predicate Ascending(ks: seq<nat>)
  {
    forall i, j :: 0 <= i < j < |ks| ==> ks[i] < ks[j]
  }

  /** A number below every number of an ascending list can go in front. */
  lemma AscendingCons(h: nat, t: seq<nat>)
    requires Ascending(t) && forall y :: y in t ==> h < y
    ensures Ascending([h] + t)
  {
    var r := [h] + t;
    forall i, j | 0 <= i < j < |r|
      ensures r[i] < r[j]
    {
      assert r[j] == t[j - 1];
      if i > 0 {
        assert r[i] == t[i - 1];
      } else {
        assert t[j - 1] in t;
      }
    }
  }

  /** Inserting a new number keeps a list ascending and adds just it. */
  lemma {:induction false} InsertAscending(x: nat, ks: seq<nat>)
    requires Ascending(ks) && x !in ks
    ensures Ascending(Insert(x, ks))
    ensures multiset(Insert(x, ks)) == multiset{x} + multiset(ks)
  {
    if ks == [] || x <= ks[0] {
      InsertFront(x, ks);
    } else {
      var t := ks[1..];
      AscendingTail(ks);
      assert x !in t;
      InsertAscending(x, t);
      InsertLater(x, ks);
    }
  }

  /** A number no larger than the head goes in front. */
  lemma InsertFront(x: nat, ks: seq<nat>)
    requires Ascending(ks) && x !in ks && (ks == [] || x <= ks[0])
    ensures Ascending(Insert(x, ks))
  {
    forall y | y in ks
      ensures x < y
    {
      var j :| 0 <= j < |ks| && ks[j] == y;
      assert ks[0] <= ks[j] by {
        if j > 0 {
          assert ks[0] < ks[j];
        }
      }
    }
    AscendingCons(x, ks);
  }

  /** The tail of an ascending list is ascending. */
  lemma AscendingTail(ks: seq<nat>)
    requires Ascending(ks) && ks != []
    ensures Ascending(ks[1..])
  {
    var t := ks[1..];
    forall i, j | 0 <= i < j < |t|
      ensures t[i] < t[j]
    {
      assert t[i] == ks[i + 1] && t[j] == ks[j + 1];
    }
  }

  /** A number larger than the head goes into the tail, behind the head. */
  lemma InsertLater(x: nat, ks: seq<nat>)
    requires Ascending(ks) && ks != [] && ks[0] < x
    requires Ascending(Insert(x, ks[1..]))
    requires multiset(Insert(x, ks[1..])) == multiset{x} + multiset(ks[1..])
    ensures Ascending(Insert(x, ks))
    ensures multiset(Insert(x, ks)) == multiset{x} + multiset(ks)
  {
    var t := ks[1..];
    var r := Insert(x, t);
    assert Insert(x, ks) == [ks[0]] + r;
    HeadBelowTail(ks);
    ConsBelow(ks[0], x, t, r);
    assert multiset(ks) == multiset{ks[0]} + multiset(t) by {
      assert ks == [ks[0]] + t;
    }
  }

  /** A number below `x` and below every number of `t` can go in front of
      an ascending list that holds just `x` and `t`. */
  lemma ConsBelow(h: nat, x: nat, t: seq<nat>, r: seq<nat>)
    requires h < x && forall y :: y in t ==> h < y
    requires Ascending(r) && multiset(r) == multiset{x} + multiset(t)
    ensures Ascending([h] + r)
  {
    forall y | y in r
      ensures h < y
    {
      assert y in multiset(r);
      if y != x {
        assert y in multiset(t);
        assert y in t;
      }
    }
    AscendingCons(h, r);
  }

  /** The head of an ascending list is below the rest of it. */
  lemma HeadBelowTail(ks: seq<nat>)
    requires Ascending(ks) && ks != []
    ensures forall y :: y in ks[1..] ==> ks[0] < y
  {
    forall y | y in ks[1..]
      ensures ks[0] < y
    {
      var j :| 0 <= j < |ks[1..]| && ks[1..][j] == y;
      assert ks[j + 1] == y;
    }
  }

  /** Sorting distinct numbers gives them in ascending order, each once. */
  lemma {:induction false} SortAscCorrect(ks: seq<nat>)
    requires Distinct(ks)
    ensures Ascending(SortAsc(ks))
    ensures multiset(SortAsc(ks)) == multiset(ks)
  {
    if ks != [] {
      var rest := ks[1..];
      assert Distinct(rest);
      SortAscCorrect(rest);
      assert ks == [ks[0]] + rest;
      assert ks[0] !in multiset(SortAsc(rest));
      InsertAscending(ks[0], SortAsc(rest));
    }
  }

  /** The groups of the numbers `ks` one after the other. */
  function GroupsOf(qs: seq<Question>, ks: seq<nat>): seq<Question>
  {
    if ks == [] then [] else GroupsOf(qs, ks[..|ks| - 1]) + Group(qs, ks[|ks| - 1])
  }

  /** One more number adds its group at the end. */
  lemma GroupsOfSnoc(qs: seq<Question>, ks: seq<nat>, k: nat)
    ensures GroupsOf(qs, ks + [k]) == GroupsOf(qs, ks) + Group(qs, k)
  {
    assert (ks + [k])[..|ks|] == ks;
  }

  /** One module of the paper. */
  datatype Module = Module(name: string, questions: seq<Question>)

  /** The name `Module - ${moduleNum}`. */
  function ModuleName(m: nat): string
  {
    "Module - " + NatToString(m)
  }

  /** The smaller of two numbers. */
  function Min(a: nat, b: nat): nat
  {
    if a < b then a else b
  }

  /** The questions of module `m + 1`: the groups of numbers `ks[2 * m]` and
      `ks[2 * m + 1]`, if there is one. */
  function PairOf(qs: seq<Question>, ks: seq<nat>, m: nat): seq<Question>
    requires 2 * m < |ks|
  {
    GroupsOf(qs, ks[2 * m..Min(2 * m + 2, |ks|)])
  }

  /** Module `m + 1` and the ones after it, to the end of `ks`. */
  function ModulesFrom(qs: seq<Question>, ks: seq<nat>, m: nat): seq<Module>
    decreases |ks| - 2 * m
  {
    if 2 * m >= |ks| then []
    else [Module(ModuleName(m + 1), PairOf(qs, ks, m))] + ModulesFrom(qs, ks, m + 1)
  }

  /** The modules of the paper. */
  function Modules(qs: seq<Question>): seq<Module>
  {
    ModulesFrom(qs, SortAsc(Keys(qs)), 0)
  }

  /** The instructions line of every paper. */
  const Instructions := "Answer any FIVE full questions, choosing at least ONE question from each Module."

  /** The structure the HTML layout fills in. */
  datatype VtuPaper = VtuPaper(header: Header, instructions: string, modules: seq<Module>)

  /** Module `j + 1` in the list that starts at module `m + 1`. */
  lemma {:induction false} ModulesFromAt(qs: seq<Question>, ks: seq<nat>, m: nat, j: nat)
    requires m <= j && 2 * j < |ks|
    ensures j - m < |ModulesFrom(qs, ks, m)|
    ensures ModulesFrom(qs, ks, m)[j - m] == Module(ModuleName(j + 1), PairOf(qs, ks, j))
    decreases j - m
  {
    var rest := ModulesFrom(qs, ks, m + 1);
    ModulesFromUnfold(qs, ks, m);
    if m < j {
      ModulesFromAt(qs, ks, m + 1, j);
      assert ModulesFrom(qs, ks, m)[j - m] == rest[j - (m + 1)];
    }
  }

  /** Two numbers per module, the last one possibly alone. */
  lemma {:induction false} ModulesFromCount(qs: seq<Question>, ks: seq<nat>, m: nat)
    ensures |ModulesFrom(qs, ks, m)| == if 2 * m >= |ks| then 0 else (|ks| - 2 * m + 1) / 2
    decreases |ks| - 2 * m
  {
    if 2 * m < |ks| {
      ModulesFromUnfold(qs, ks, m);
      ModulesFromCount(qs, ks, m + 1);
      var r := |ks| - 2 * m;
      assert (r + 1) / 2 == 1 + (if r <= 2 then 0 else (r - 2 + 1) / 2);
    }
  }

  /** The groups of `ks` hold exactly the questions whose number is in `ks`. */
  lemma {:induction false} GroupsOfMembers(qs: seq<Question>, ks: seq<nat>)
    ensures forall q :: q in GroupsOf(qs, ks) <==> q in qs && QNum(q.id) in ks
  {
    if ks != [] {
      var init := ks[..|ks| - 1];
      GroupsOfMembers(qs, init);
      GroupMembers(qs, ks[|ks| - 1]);
      assert ks == init + [ks[|ks| - 1]];
    }
  }

  /** The sorted numbers are distinct, ascending, and are all the numbers of
      the questions. */
  lemma SortedKeys(qs: seq<Question>)
    ensures Ascending(SortAsc(Keys(qs))) && |SortAsc(Keys(qs))| == |Keys(qs)|
    ensures forall k :: k in SortAsc(Keys(qs)) <==> exists q :: q in qs && QNum(q.id) == k
  {
    KeysExact(qs);
    SortAscCorrect(Keys(qs));
    assert |multiset(SortAsc(Keys(qs)))| == |multiset(Keys(qs))|;
    forall k
      ensures k in SortAsc(Keys(qs)) <==> k in Keys(qs)
    {
      assert k in SortAsc(Keys(qs)) <==> k in multiset(SortAsc(Keys(qs)));
    }
  }

  /** Module `m + 1` of the numbers `ks`, all of them numbers of questions:
      its name, and exactly the questions numbered `ks[2 * m]` or
      `ks[2 * m + 1]`, of which there is at least one. */
  lemma PairContents(qs: seq<Question>, ks: seq<nat>, m: nat)
    requires 2 * m < |ks|
    requires forall k :: k in ks ==> exists q :: q in qs && QNum(q.id) == k
    ensures m < |ModulesFrom(qs, ks, 0)|
    ensures ModulesFrom(qs, ks, 0)[m].name == ModuleName(m + 1)
    ensures forall q :: q in ModulesFrom(qs, ks, 0)[m].questions
                     <==> q in qs && QNum(q.id) in ks[2 * m..Min(2 * m + 2, |ks|)]
    ensures |ModulesFrom(qs, ks, 0)[m].questions| > 0
  {
    ModulesFromAt(qs, ks, 0, m);
    var pair := ks[2 * m..Min(2 * m + 2, |ks|)];
    var mod := ModulesFrom(qs, ks, 0)[m];
    assert mod.questions == GroupsOf(qs, pair);
    GroupsOfMembers(qs, pair);
    assert |mod.questions| > 0 by {
      assert ks[2 * m] in ks;
      var q :| q in qs && QNum(q.id) == ks[2 * m];
      assert pair[0] == ks[2 * m];
      assert q in mod.questions;
    }
  }

  /** The paper has one module per two numbers, rounded up; module `m + 1`
      is named `Module - m + 1` and holds exactly the questions numbered
      `ks[2 * m]` or `ks[2 * m + 1]` of the sorted numbers `ks`, so none is
      empty. */
  lemma ModuleContents(qs: seq<Question>, m: nat)
    requires m < |Modules(qs)|
    ensures |Modules(qs)| == (|Keys(qs)| + 1) / 2
    ensures var ks := SortAsc(Keys(qs));
      && 2 * m < |ks|
      && Modules(qs)[m].name == ModuleName(m + 1)
      && (forall q :: q in Modules(qs)[m].questions <==> q in qs && QNum(q.id) in ks[2 * m..Min(2 * m + 2, |ks|)])
      && |Modules(qs)[m].questions| > 0
  {
    var ks := SortAsc(Keys(qs));
    SortedKeys(qs);
    ModulesFromCount(qs, ks, 0);
    PairContents(qs, ks, m);
  }

  /** Modules come in ascending order of question number: every question of
      an earlier module has a smaller number than every question of a later
      one. */
  lemma ModulesAscending(qs: seq<Question>, m1: nat, m2: nat, q1: Question, q2: Question)
    requires m1 < m2 < |Modules(qs)|
    requires q1 in Modules(qs)[m1].questions && q2 in Modules(qs)[m2].questions
    ensures QNum(q1.id) < QNum(q2.id)
  {
    var ks := SortAsc(Keys(qs));
    ModuleContents(qs, m1);
    ModuleContents(qs, m2);
    var a :| 2 * m1 <= a < Min(2 * m1 + 2, |ks|) && ks[a] == QNum(q1.id);
    var b :| 2 * m2 <= b < Min(2 * m2 + 2, |ks|) && ks[b] == QNum(q2.id);
    SortedKeys(qs);
  }

  /** Questions with the same number land in the same module. */
  lemma SameNumberSameModule(qs: seq<Question>, m1: nat, m2: nat, q1: Question, q2: Question)
    requires m1 < |Modules(qs)| && m2 < |Modules(qs)|
    requires q1 in Modules(qs)[m1].questions && q2 in Modules(qs)[m2].questions
    requires QNum(q1.id) == QNum(q2.id)
    ensures m1 == m2
  {
    if m1 < m2 {
      ModulesAscending(qs, m1, m2, q1, q2);
    } else if m2 < m1 {
      ModulesAscending(qs, m2, m1, q2, q1);
    }
  }

  /** The questions of the modules, one module after the other. */
  function AllQuestions(mods: seq<Module>): seq<Question>
  {
    if mods == [] then [] else mods[0].questions + AllQuestions(mods[1..])
  }

  /** The groups of two lists of numbers, one after the other. */
  lemma {:induction false} GroupsOfAppend(qs: seq<Question>, a: seq<nat>, b: seq<nat>)
    ensures GroupsOf(qs, a + b) == GroupsOf(qs, a) + GroupsOf(qs, b)
    decreases |b|
  {
    if b == [] {
      assert a + b == a;
    } else {
      var init := b[..|b| - 1];
      GroupsOfAppend(qs, a, init);
      assert (a + b)[..|a + b| - 1] == a + init;
      assert (a + b)[|a + b| - 1] == b[|b| - 1];
    }
  }

  /** The modules from module `m + 1` on hold the groups of the numbers from
      `ks[2 * m]` on. */
  lemma {:induction false} ModulesFromQuestions(qs: seq<Question>, ks: seq<nat>, m: nat)
    requires 2 * m <= |ks|
    ensures AllQuestions(ModulesFrom(qs, ks, m)) == GroupsOf(qs, ks[2 * m..])
    decreases |ks| - 2 * m
  {
    if 2 * m < |ks| {
      var hi := Min(2 * m + 2, |ks|);
      var mods := ModulesFrom(qs, ks, m);
      assert mods[1..] == ModulesFrom(qs, ks, m + 1);
      if hi < |ks| {
        ModulesFromQuestions(qs, ks, m + 1);
      } else {
        assert ModulesFrom(qs, ks, m + 1) == [];
      }
      GroupsOfAppend(qs, ks[2 * m..hi], ks[hi..]);
      assert ks[2 * m..] == ks[2 * m..hi] + ks[hi..];
    } else {
      assert ks[2 * m..] == [];
    }
  }

  /** The group of `k` after one more question. */
  lemma GroupSnoc(init: seq<Question>, q: Question, k: nat)
    ensures Group(init + [q], k) == Group(init, k) + (if QNum(q.id) == k then [q] else [])
  {
    assert (init + [q])[..|init|] == init;
  }

  /** One more question shows up once in the groups of distinct numbers if
      its number is among them, and not at all otherwise. */
  lemma {:induction false} GroupsOfSnocQuestion(init: seq<Question>, q: Question, ks: seq<nat>)
    requires Distinct(ks)
    ensures multiset(GroupsOf(init + [q], ks))
      == multiset(GroupsOf(init, ks)) + (if QNum(q.id) in ks then multiset{q} else multiset{})
  {
    if ks != [] {
      var front := ks[..|ks| - 1];
      var k := ks[|ks| - 1];
      assert Distinct(front);
      assert ks == front + [k];
      assert k !in front;
      GroupsOfSnocQuestion(init, q, front);
      GroupSnoc(init, q, k);
    }
  }

  /** No question, no groups. */
  lemma {:induction false} GroupsOfNone(ks: seq<nat>)
    ensures GroupsOf([], ks) == []
  {
    if ks != [] {
      GroupsOfNone(ks[..|ks| - 1]);
    }
  }

  /** The groups of distinct numbers that cover every question hold each
      question exactly as often as the list does. */
  lemma {:induction false} GroupsOfAll(qs: seq<Question>, ks: seq<nat>)
    requires Distinct(ks) && forall q :: q in qs ==> QNum(q.id) in ks
    ensures multiset(GroupsOf(qs, ks)) == multiset(qs)
  {
    if qs == [] {
      GroupsOfNone(ks);
    } else {
      var init := qs[..|qs| - 1];
      var q := qs[|qs| - 1];
      assert qs == init + [q];
      GroupsOfAll(init, ks);
      GroupsOfSnocQuestion(init, q, ks);
    }
  }

  /** Every question lands in a module, as often as it was given. */
  lemma EveryQuestionPlaced(qs: seq<Question>)
    ensures multiset(AllQuestions(Modules(qs))) == multiset(qs)
  {
    var ks := SortAsc(Keys(qs));
    SortedKeys(qs);
    ModulesFromQuestions(qs, ks, 0);
    assert ks[0..] == ks;
    GroupsOfAll(qs, ks);
  }

  /** The `forEach` that fills `questionsByQNumber`: `byNum` and `keys`
      together are that `Map`, `keys` holding its keys in insertion order. */
  method GroupByNumber(questions: seq<Question>) returns (byNum: map<nat, seq<Question>>, keys: seq<nat>)
    ensures keys == Keys(questions)
    ensures forall k :: k in byNum <==> k in keys
    ensures forall k :: k in byNum ==> byNum[k] == Group(questions, k)
  {
    byNum := map[];
    keys := [];
    var i := 0;
    while i < |questions|
      invariant 0 <= i <= |questions|
      invariant keys == Keys(questions[..i])
      invariant forall k :: k in byNum <==> k in keys
      invariant forall k :: k in byNum ==> byNum[k] == Group(questions[..i], k)
    {
      var q := questions[i];
      var qNum := QNum(q.id);
      assert questions[..i + 1][..i] == questions[..i];
      if qNum !in byNum {
        GroupAbsent(questions[..i], qNum);
        byNum := byNum[qNum := []];
        keys := keys + [qNum];
      }
      byNum := byNum[qNum := byNum[qNum] + [q]];
      i := i + 1;
    }
    assert questions[..i] == questions;
  }

  /** The inner loop: the questions of the numbers `sorted[i]` and
      `sorted[i + 1]`, if there is one. */
  method CollectPair(questions: seq<Question>, byNum: map<nat, seq<Question>>, sorted: seq<nat>, i: nat)
    returns (moduleQuestions: seq<Question>)
    requires i < |sorted|
    requires forall j :: 0 <= j < |sorted| ==> sorted[j] in byNum && byNum[sorted[j]] == Group(questions, sorted[j])
    requires forall j :: 0 <= j < |sorted| ==> sorted[j] in Keys(questions)
    ensures moduleQuestions == GroupsOf(questions, sorted[i..Min(i + 2, |sorted|)])
    ensures |moduleQuestions| > 0
  {
    moduleQuestions := [];
    var hi := Min(i + 2, |sorted|);
    var j := i;
    while j < hi
      invariant i <= j <= hi
      invariant moduleQuestions == GroupsOf(questions, sorted[i..j])
      invariant j > i ==> |moduleQuestions| > 0
    {
      var qNum := sorted[j];
      var qQuestions := if qNum in byNum then byNum[qNum] else [];
      assert qQuestions == Group(questions, qNum);
      GroupPresent(questions, qNum);
      GroupsOfStep(questions, sorted, i, j);
      moduleQuestions := moduleQuestions + qQuestions;
      j := j + 1;
    }
  }

  /** One more number taken from a slice of the sorted numbers. */
  lemma GroupsOfStep(qs: seq<Question>, ks: seq<nat>, i: nat, j: nat)
    requires i <= j < |ks|
    ensures GroupsOf(qs, ks[i..j + 1]) == GroupsOf(qs, ks[i..j]) + Group(qs, ks[j])
  {
    assert ks[i..j + 1] == ks[i..j] + [ks[j]];
    GroupsOfSnoc(qs, ks[i..j], ks[j]);
  }

  /** The loop over the sorted numbers, two at a time, that builds the
      modules. */
  method BuildModules(questions: seq<Question>, byNum: map<nat, seq<Question>>, sorted: seq<nat>)
    returns (modules: seq<Module>)
    requires forall j :: 0 <= j < |sorted| ==> sorted[j] in byNum && byNum[sorted[j]] == Group(questions, sorted[j])
    requires forall j :: 0 <= j < |sorted| ==> sorted[j] in Keys(questions)
    ensures modules == ModulesFrom(questions, sorted, 0)
  {
    modules := [];
    var i := 0;
    ghost var m := 0;
    while i < |sorted|
      invariant i == 2 * m && 0 <= i <= |sorted| + 1
      invariant modules + ModulesFrom(questions, sorted, m) == ModulesFrom(questions, sorted, 0)
    {
      var moduleNum := i / 2 + 1;
      assert moduleNum == m + 1;
      var moduleName := ModuleName(moduleNum);
      var moduleQuestions := CollectPair(questions, byNum, sorted, i);
      ghost var rest := ModulesFrom(questions, sorted, m + 1);
      ModulesFromUnfold(questions, sorted, m);
      Assoc(modules, [Module(moduleName, moduleQuestions)], rest);
      if |moduleQuestions| > 0 {
        modules := modules + [Module(moduleName, moduleQuestions)];
      }
      i := i + 2;
      m := m + 1;
    }
  }

  /** Module `m + 1` followed by the ones after it. */
  lemma ModulesFromUnfold(qs: seq<Question>, ks: seq<nat>, m: nat)
    requires 2 * m < |ks|
    ensures ModulesFrom(qs, ks, m) == [Module(ModuleName(m + 1), PairOf(qs, ks, m))] + ModulesFrom(qs, ks, m + 1)
  {
  }

  /** The grouping, the sort and the module loop of `parseVTUStructure`. */
  method ParseModules(questions: seq<Question>) returns (modules: seq<Module>)
    ensures modules == Modules(questions)
  {
    var byNum, keys := GroupByNumber(questions);
    KeysExact(questions);
    var sorted := SortAsc(keys);
    SortAscCorrect(keys);
    forall j | 0 <= j < |sorted|
      ensures sorted[j] in keys
    {
      assert sorted[j] in multiset(sorted);
    }
    modules := BuildModules(questions, byNum, sorted);
  }

  /** `parseVTUStructure`: the header, the fixed instructions and the
      modules. */
  method ParseVtuStructure(text: string, questions: seq<Question>) returns (paper: VtuPaper)
    ensures paper == VtuPaper(ParseHeader(text), Instructions, Modules(questions))
  {
    var header := ParseHeader(text);
    var modules := ParseModules(questions);
    paper := VtuPaper(header, Instructions, modules);
  }
}
