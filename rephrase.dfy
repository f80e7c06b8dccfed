/**
 * The base text of `generateSimilarQuestions`: the question without its
 * leading instruction word, as
 * `.replace(/^(Explain|Describe|Analyze|Compare|Evaluate|Write|Discuss).*?(?=\s)/i, '').trim()`
 * computes it.
 */
module Rephrase {
  import opened Text
  import opened Wrappers

  /** The alternatives of the pattern, in the order they are tried. */
  const Verbs: seq<string> := ["explain", "describe", "analyze", "compare", "evaluate", "write", "discuss"]

  /** The lazy `.*?` followed by `(?=\s)`, from `i`: the first white
      character at or after `i`. The dot would stop at a line terminator,
      but every line terminator is white, so the scan meets white first. */
  function FirstWhite(s: string, i: nat): (r: Option<nat>)
    ensures r.Some? ==> i <= r.value < |s| && IsWhite(s[r.value])
    ensures r.Some? ==> forall k :: i <= k < r.value ==> !IsWhite(s[k])
    ensures r.None? ==> forall k :: i <= k < |s| ==> !IsWhite(s[k])
    decreases |s| - i
  {
    if i >= |s| then None
    else if IsWhite(s[i]) then Some(i)
    else if !IsLineTerminator(s[i]) then FirstWhite(s, i + 1)
    else None
  }

  /** The pattern anchored at 0, trying the alternatives from `k` on: where
      the removed prefix ends. */
  function VerbMatch(s: string, k: nat): (r: Option<nat>)
    ensures r.Some? ==> r.value < |s|
    decreases |Verbs| - k
  {
    if k >= |Verbs| then None
    else if LitAt(s, 0, Verbs[k]) then
      match FirstWhite(s, |Verbs[k]|)
      case Some(e) => Some(e)
      case None => VerbMatch(s, k + 1)
    else VerbMatch(s, k + 1)
  }

  function BaseContent(s: string): (r: string)
    ensures NoWhiteAtEnds(r)
  {
    match VerbMatch(s, 0)
    case None => Trim(s)
    case Some(e) => Trim(s[e..])
  }

  /** At most one alternative can match: no two verbs agree, case folded,
      on their common first characters. */
  lemma VerbsExclusive(s: string, j: nat, k: nat)
    requires j < k < |Verbs|
    ensures !(LitAt(s, 0, Verbs[j]) && LitAt(s, 0, Verbs[k]))
  {
    assert Verbs[j][0] != Verbs[k][0] || Verbs[j][1] != Verbs[k][1];
    assert LitAt(s, 0, Verbs[j]) ==> Fold(s[0]) == Verbs[j][0] && Fold(s[1]) == Verbs[j][1];
    assert LitAt(s, 0, Verbs[k]) ==> Fold(s[0]) == Verbs[k][0] && Fold(s[1]) == Verbs[k][1];
  }

  lemma {:induction false} VerbMatchFrom(s: string, k: nat, v: nat)
    requires k <= v < |Verbs| && LitAt(s, 0, Verbs[v])
    ensures VerbMatch(s, k) == FirstWhite(s, |Verbs[v]|)
    decreases v - k
  {
    if k < v {
      VerbsExclusive(s, k, v);
      VerbMatchFrom(s, k + 1, v);
    } else {
      forall j | v < j < |Verbs| ensures !LitAt(s, 0, Verbs[j]) {
        VerbsExclusive(s, v, j);
      }
      NoVerbMatch(s, v + 1);
    }
  }

  lemma {:induction false} NoVerbMatch(s: string, k: nat)
    requires forall v :: k <= v < |Verbs| ==> !LitAt(s, 0, Verbs[v])
    ensures VerbMatch(s, k) == None
    decreases |Verbs| - k
  {
    if k < |Verbs| {
      NoVerbMatch(s, k + 1);
    }
  }

  /** When the text starts with one of the verbs, in any case, and white
      space follows later, everything up to that white space is removed and
      the rest trimmed; when it starts with a verb but no white space
      follows, or with no verb at all, the base is the trimmed text. */
  lemma BaseContentCases(s: string)
    ensures forall v :: 0 <= v < |Verbs| && LitAt(s, 0, Verbs[v]) ==>
      BaseContent(s) == match FirstWhite(s, |Verbs[v]|) case Some(e) => Trim(s[e..]) case None => Trim(s)
    ensures (forall v :: 0 <= v < |Verbs| ==> !LitAt(s, 0, Verbs[v])) ==> BaseContent(s) == Trim(s)
  {
    forall v | 0 <= v < |Verbs| && LitAt(s, 0, Verbs[v])
      ensures BaseContent(s) == match FirstWhite(s, |Verbs[v]|) case Some(e) => Trim(s[e..]) case None => Trim(s)
    {
      VerbMatchFrom(s, 0, v);
    }
    if forall v :: 0 <= v < |Verbs| ==> !LitAt(s, 0, Verbs[v]) {
      NoVerbMatch(s, 0);
    }
  }

  /** A verb written in any case, one white character and a rest: the base
      is the trimmed rest. */
  lemma VerbStripped(v: nat, w: string, c: char, rest: string)
    requires v < |Verbs| && |w| == |Verbs[v]| && LitAt(w, 0, Verbs[v])
    requires IsWhite(c)
    ensures BaseContent(w + [c] + rest) == Trim(rest)
  {
    var s := w + [c] + rest;
    assert LitAt(s, 0, Verbs[v]) by {
      assert forall k :: 0 <= k < |w| ==> s[k] == w[k];
    }
    assert s[|w|] == c;
    assert FirstWhite(s, |w|) == Some(|w|);
    VerbMatchFrom(s, 0, v);
    assert s[|w|..] == [c] + rest;
    TrimDropWhite([c] + rest);
    assert ([c] + rest)[1..] == rest;
  }

  /** The worked example: "Explain the working of a sol-gel process." has the
      base "the working of a sol-gel process.". */
  lemma SolGelExample()
    ensures BaseContent("Explain the working of a sol-gel process.") == "the working of a sol-gel process."
  {
    var rest := "the working of a sol-gel process.";
    SolGelSplit();
    assert LitAt("Explain", 0, Verbs[0]);
    VerbStripped(0, "Explain", ' ', rest);
    SolGelRestTrimmed();
  }

  /** The example is the verb, a space and the rest. */
  lemma SolGelSplit()
    ensures "Explain the working of a sol-gel process." == "Explain" + [' '] + "the working of a sol-gel process."
  {
  }

  /** The rest of the example has no white space at its ends. */
  lemma SolGelRestTrimmed()
    ensures Trim("the working of a sol-gel process.") == "the working of a sol-gel process."
  {
    var rest := "the working of a sol-gel process.";
    assert NoWhiteAtEnds(rest);
    TrimOfTrimmed(rest);
  }
}
