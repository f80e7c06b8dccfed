/**
 * The scan for sub-questions inside one section: the global pattern
 * `/([a-c])\s+(.*?)(?=\s+(\d+))/gi`, written as a scanner that tries the
 * alternatives in the order JavaScript's backtracking matcher does.
 */
module SubQuestion {
  import opened Text
  import opened Wrappers

  /** One match. The label is `s[start]`; `\s+` covers `s[start + 1..bodyStart]`;
      the captured body is `s[bodyStart..bodyEnd]` and the match ends at
      `bodyEnd`; the lookahead sees white space and then the mark digits
      `s[markStart..markEnd]`, which are not consumed. */
  datatype SubMatch = SubMatch(start: nat, bodyStart: nat, bodyEnd: nat, markStart: nat, markEnd: nat)

  /** What every match satisfies. */
  predicate WellFormed(s: string, m: SubMatch)
  {
    && m.start < m.bodyStart <= m.bodyEnd < m.markStart < m.markEnd <= |s|
    && IsLabel(s[m.start])
    && (forall k :: m.start < k < m.bodyStart ==> IsWhite(s[k]))
    && (forall k :: m.bodyStart <= k < m.bodyEnd ==> !IsLineTerminator(s[k]))
    && (forall k :: m.bodyEnd <= k < m.markStart ==> IsWhite(s[k]))
    && (forall k :: m.markStart <= k < m.markEnd ==> IsDigit(s[k]))
    && (m.markEnd == |s| || !IsDigit(s[m.markEnd]))
  }

  /** The lookahead `(?=\s+(\d+))` at `e`: the span of the digits it captures.
      `\s+` takes all the white space, since a digit is not white. */
  function MarkAhead(s: string, e: nat): (r: Option<(nat, nat)>)
    requires e <= |s|
    ensures r.Some? ==> e < r.value.0 < r.value.1 <= |s|
    ensures r.Some? ==> forall k :: e <= k < r.value.0 ==> IsWhite(s[k])
    ensures r.Some? ==> forall k :: r.value.0 <= k < r.value.1 ==> IsDigit(s[k])
    ensures r.Some? ==> r.value.1 == |s| || !IsDigit(s[r.value.1])
  {
    if e < |s| && IsWhite(s[e]) then
      var d := RunEnd(s, e, White);
      if d < |s| && IsDigit(s[d]) then Some((d, RunEnd(s, d, Digit))) else None
    else None
  }

  /** The lazy `(.*?)` followed by the lookahead: the body end is tried at
      `e`, `e + 1`, ... and `.` cannot step over a line terminator. */
  function LazyBodyEnd(s: string, e: nat): (r: Option<nat>)
    requires e <= |s|
    ensures r.Some? ==> e <= r.value <= |s| && MarkAhead(s, r.value).Some?
    ensures r.Some? ==> forall k :: e <= k < r.value ==> !IsLineTerminator(s[k]) && MarkAhead(s, k).None?
    decreases |s| - e
  {
    if MarkAhead(s, e).Some? then Some(e)
    else if e < |s| && !IsLineTerminator(s[e]) then LazyBodyEnd(s, e + 1)
    else None
  }

  /** The rest of the pattern after the label at `p`, with `\s+` holding `k`
      white characters; when the rest fails, `\s+` gives one back. */
  function TryWhite(s: string, p: nat, k: nat): (r: Option<SubMatch>)
    requires p + 1 + k <= |s|
    requires forall j :: p < j < p + 1 + k ==> IsWhite(s[j])
    ensures r.Some? ==> r.value.start == p && p + 1 < r.value.bodyStart <= p + 1 + k
    ensures r.Some? ==> r.value.bodyStart <= r.value.bodyEnd < r.value.markStart < r.value.markEnd <= |s|
    ensures r.Some? ==> forall j :: p < j < r.value.bodyStart ==> IsWhite(s[j])
    ensures r.Some? ==> forall j :: r.value.bodyStart <= j < r.value.bodyEnd ==> !IsLineTerminator(s[j]) && MarkAhead(s, j).None?
    ensures r.Some? ==> MarkAhead(s, r.value.bodyEnd) == Some((r.value.markStart, r.value.markEnd))
    decreases k
  {
    if k == 0 then None
    else
      match LazyBodyEnd(s, p + 1 + k)
      case Some(e) =>
        var mark := MarkAhead(s, e).value;
        Some(SubMatch(p, p + 1 + k, e, mark.0, mark.1))
      case None => TryWhite(s, p, k - 1)
  }

  /** The pattern tried at position `p`: a label, then `\s+` starting greedy. */
  function MatchAt(s: string, p: nat): (r: Option<SubMatch>)
    ensures r.Some? ==> r.value.start == p && WellFormed(s, r.value)
    ensures r.Some? ==> forall j :: r.value.bodyStart <= j < r.value.bodyEnd ==> MarkAhead(s, j).None?
  {
    if p < |s| && IsLabel(s[p]) then
      var r := TryWhite(s, p, RunEnd(s, p + 1, White) - (p + 1));
      r
    else None
  }

  /** `exec` with `lastIndex` at `from`: the match at the first position at or
      after `from` where the pattern matches. */
  function Exec(s: string, from: nat): (r: Option<SubMatch>)
    ensures r.Some? ==> from <= r.value.start && WellFormed(s, r.value)
    ensures r.Some? ==> MatchAt(s, r.value.start) == r
    ensures r.Some? ==> forall p :: from <= p < r.value.start ==> MatchAt(s, p).None?
    ensures r.None? ==> forall p :: from <= p ==> MatchAt(s, p).None?
    decreases |s| - from
  {
    if from >= |s| then None
    else
      match MatchAt(s, from)
      case Some(m) => Some(m)
      case None =>
        var r := Exec(s, from + 1);
        NoMatchBefore(s, from, if r.Some? then r.value.start else |s| + 1);
        r
  }

  /** No match at `from` and none from `from + 1` up to `hi`: none from
      `from` up to `hi`. */
  lemma NoMatchBefore(s: string, from: nat, hi: nat)
    requires MatchAt(s, from).None?
    requires forall p :: from + 1 <= p < hi ==> MatchAt(s, p).None?
    ensures forall p :: from <= p < hi ==> MatchAt(s, p).None?
  {
  }

  /** Every match of the global `exec` loop started at `from`, in order: each
      search resumes where the previous match ended. */
  function ScanMatches(s: string, from: nat): (ms: seq<SubMatch>)
    ensures forall i :: 0 <= i < |ms| ==> from <= ms[i].start && WellFormed(s, ms[i])
    ensures forall i :: 0 <= i < |ms| - 1 ==> ms[i].bodyEnd <= ms[i + 1].start
    decreases |s| - from
  {
    match Exec(s, from)
    case None => []
    case Some(m) =>
      var rest := ScanMatches(s, m.bodyEnd);
      PrependMatch(s, from, m, rest);
      [m] + rest
  }

  /** A match followed by the matches found after its end. */
  lemma PrependMatch(s: string, from: nat, m: SubMatch, rest: seq<SubMatch>)
    requires from <= m.start && WellFormed(s, m)
    requires forall i :: 0 <= i < |rest| ==> m.bodyEnd <= rest[i].start && WellFormed(s, rest[i])
    requires forall i :: 0 <= i < |rest| - 1 ==> rest[i].bodyEnd <= rest[i + 1].start
    ensures var ms := [m] + rest;
      && (forall i :: 0 <= i < |ms| ==> from <= ms[i].start && WellFormed(s, ms[i]))
      && (forall i :: 0 <= i < |ms| - 1 ==> ms[i].bodyEnd <= ms[i + 1].start)
  {
    var ms := [m] + rest;
    assert forall i :: 0 < i < |ms| ==> ms[i] == rest[i - 1];
  }
}
