/**
 * Pulling the style sheet and the body out of a generated HTML page, as the
 * print path does before it builds the printable document. Each is one
 * case-insensitive regular expression `<tag[^>]*>([\s\S]*?)</tag>` run once
 * with `String.prototype.match`; the first capture group is the result.
 */
module HtmlExtract {
  import opened Text
  import opened Wrappers
  import opened Matching

  /** The two elements that are extracted. */
  datatype Tag = Style | Body

  /** The literal that opens the element, without its closing `>`. */
  function Open(t: Tag): (w: string)
    ensures |w| >= 1 && w[0] == '<'
  {
    match t
    case Style => "<style"
    case Body => "<body"
  }

  /** The literal end tag. */
  function Close(t: Tag): (w: string)
    ensures |w| >= 1 && w[0] == '<'
  {
    match t
    case Style => "</style>"
    case Body => "</body>"
  }

  /** `[^>]*>` from `i`: the first `>` at or after `i`. */
  function CharFrom(s: string, i: nat, c: char): (r: Option<nat>)
    requires i <= |s|
    ensures r.Some? ==> i <= r.value < |s| && s[r.value] == c
    ensures r.Some? ==> forall k :: i <= k < r.value ==> s[k] != c
    ensures r.None? ==> forall k :: i <= k < |s| ==> s[k] != c
    decreases |s| - i
  {
    if i == |s| then None
    else if s[i] == c then Some(i)
    else CharFrom(s, i + 1, c)
  }

  /** The lazy `[\s\S]*?` followed by the literal `w`: the first place at or
      after `i` where `w` starts. */
  function LitFrom(s: string, i: nat, w: string): (r: Option<nat>)
    requires i <= |s|
    ensures r.Some? ==> i <= r.value && LitAt(s, r.value, w)
    ensures r.Some? ==> forall k :: i <= k < r.value ==> !LitAt(s, k, w)
    ensures r.None? ==> forall k :: i <= k <= |s| ==> !LitAt(s, k, w)
    decreases |s| - i
  {
    if LitAt(s, i, w) then Some(i)
    else if i == |s| then None
    else LitFrom(s, i + 1, w)
  }

  /** The pattern with opening literal `open` and end tag `close` at
      position `a`: the bounds of the captured content. `[^>]*` stops at the
      first `>`, the only place where the `>` after it can match, so
      backtracking into it never finds another match; the lazy group then
      takes the shortest content that the end tag follows. */
  function TagAt(s: string, a: nat, open: string, close: string): (r: Option<(nat, nat)>)
    ensures r.Some? ==> a < r.value.0 <= r.value.1 <= |s|
  {
    if !LitAt(s, a, open) then None
    else match CharFrom(s, a + |open|, '>')
      case None => None
      case Some(q) =>
        match LitFrom(s, q + 1, close)
        case None => None
        case Some(e) => Some((q + 1, e))
  }

  /** The matches of the pattern of `t` in `html`, position by position. */
  function Tagger(html: string, t: Tag): nat -> Option<(nat, nat)>
  {
    a => TagAt(html, a, Open(t), Close(t))
  }

  /** The first capture group of the first match, or `null`. */
  function Capture(html: string, t: Tag): (r: Option<string>)
    ensures r.None? <==> forall a :: 0 <= a <= |html| ==> Tagger(html, t)(a).None?
    ensures r.Some? ==> exists a :: 0 <= a <= |html| && Tagger(html, t)(a).Some?
                          && r.value == html[Tagger(html, t)(a).value.0..Tagger(html, t)(a).value.1]
                          && forall j :: 0 <= j < a ==> Tagger(html, t)(j).None?
  {
    match Search(Tagger(html, t), |html|, 0)
    case Some(a) =>
      assert Tagger(html, t)(a) == TagAt(html, a, Open(t), Close(t));
      var (c, e) := TagAt(html, a, Open(t), Close(t)).value;
      Some(html[c..e])
    case None => None
  }

  /** `extractCSSFromHTML`: the content of the first style element, or the
      empty string. */
  function ExtractCss(html: string): string
  {
    match Capture(html, Style)
    case Some(css) => css
    case None => ""
  }

  /** `extractBodyFromHTML`: the content of the first body element, or the
      whole page when there is none. */
  function ExtractBody(html: string): string
  {
    match Capture(html, Body)
    case Some(body) => body
    case None => html
  }

  /** What the pattern matches at `a` with content `s[c..e]`: the opening
      literal, attributes free of `>`, the `>`, content in which the end tag
      does not start, and the end tag. */
  predicate TagShape(s: string, a: nat, open: string, close: string, c: nat, e: nat)
  {
    && LitAt(s, a, open) && a + |open| < c <= |s| && s[c - 1] == '>'
    && (forall k :: a + |open| <= k < c - 1 ==> s[k] != '>')
    && c <= e && LitAt(s, e, close)
    && (forall k :: c <= k < e ==> !LitAt(s, k, close))
  }

  /** The first `c` is unique. */
  lemma {:induction false} CharFromExact(s: string, i: nat, c: char, q: nat)
    requires i <= q < |s| && s[q] == c
    requires forall k :: i <= k < q ==> s[k] != c
    ensures CharFrom(s, i, c) == Some(q)
    decreases q - i
  {
    if i < q {
      CharFromExact(s, i + 1, c, q);
    }
  }

  /** The first occurrence of a literal is unique. */
  lemma {:induction false} LitFromExact(s: string, i: nat, w: string, e: nat)
    requires i <= e && LitAt(s, e, w)
    requires forall k :: i <= k < e ==> !LitAt(s, k, w)
    ensures LitFrom(s, i, w) == Some(e)
    decreases e - i
  {
    if i < e {
      LitFromExact(s, i + 1, w, e);
    }
  }

  /** The matcher at `a` gives content `s[c..e]` exactly when the text has
      the shape of the pattern there. */
  lemma TagAtShape(s: string, a: nat, open: string, close: string, c: nat, e: nat)
    ensures TagAt(s, a, open, close) == Some((c, e)) <==> TagShape(s, a, open, close, c, e)
  {
    if TagShape(s, a, open, close, c, e) {
      CharFromExact(s, a + |open|, '>', c - 1);
      LitFromExact(s, c, close, e);
    }
  }

  /** A literal inside a slice is a literal of the whole string. */
  lemma LitAtSlice(s: string, lo: nat, hi: nat, k: nat, w: string)
    requires lo <= hi <= |s| && LitAt(s[lo..hi], k, w)
    ensures LitAt(s, lo + k, w)
  {
    forall j | 0 <= j < |w|
      ensures Fold(s[lo + k + j]) == w[j]
    {
      assert s[lo..hi][k + j] == s[lo + k + j];
    }
  }

  /** The captured content never holds the end tag: the lazy group stops at
      the first one. */
  lemma CaptureStopsAtClose(html: string, t: Tag)
    requires Capture(html, t).Some?
    ensures forall k :: 0 <= k <= |Capture(html, t).value| ==> !LitAt(Capture(html, t).value, k, Close(t))
  {
    var c, e := CaptureSpan(html, t);
    SliceFreeOfLit(html, c, e, Close(t));
  }

  /** The captured content is the content of a match of the pattern. */
  lemma CaptureSpan(html: string, t: Tag) returns (c: nat, e: nat)
    requires Capture(html, t).Some?
    ensures c <= e <= |html| && Capture(html, t).value == html[c..e]
    ensures forall k :: c <= k < e ==> !LitAt(html, k, Close(t))
  {
    var a := Search(Tagger(html, t), |html|, 0).value;
    assert Tagger(html, t)(a) == TagAt(html, a, Open(t), Close(t));
    c, e := TagAt(html, a, Open(t), Close(t)).value.0, TagAt(html, a, Open(t), Close(t)).value.1;
    TagAtShape(html, a, Open(t), Close(t), c, e);
  }

  /** A slice in which the literal `w` does not start in the whole string
      does not hold `w` either. */
  lemma SliceFreeOfLit(s: string, lo: nat, hi: nat, w: string)
    requires lo <= hi <= |s| && |w| >= 1
    requires forall k :: lo <= k < hi ==> !LitAt(s, k, w)
    ensures forall k :: 0 <= k <= hi - lo ==> !LitAt(s[lo..hi], k, w)
  {
    forall k | 0 <= k <= hi - lo && LitAt(s[lo..hi], k, w)
      ensures false
    {
      LitAtSlice(s, lo, hi, k, w);
    }
  }

  /** Folding leaves `w` as it is: it has no capital letter. */
  predicate Folded(w: string)
  {
    forall j :: 0 <= j < |w| ==> Fold(w[j]) == w[j]
  }

  /** A lower-case literal occurs where it was put. */
  lemma LitAtConcat(a: string, w: string, b: string)
    requires Folded(w)
    ensures LitAt(a + w + b, |a|, w)
  {
    assert forall j :: 0 <= j < |w| ==> (a + w + b)[|a| + j] == w[j];
  }

  /** A literal that starts with `<` does not start at a character that is
      not `<`. */
  lemma NotLitAt(s: string, k: nat, w: string)
    requires k < |s| && |w| >= 1 && w[0] == '<' && s[k] != '<'
    ensures !LitAt(s, k, w)
  {
    assert Fold(s[k + 0]) != w[0];
  }

  /** An element written out with opening literal `open`, no attributes and
      content free of `<` has the shape of the pattern, whatever the
      literals. */
  lemma WrappedShape(open: string, close: string, x: string)
    requires Folded(open) && Folded(close) && |close| >= 1 && close[0] == '<'
    requires forall k :: 0 <= k < |x| ==> x[k] != '<'
    ensures TagShape(open + ">" + x + close, 0, open, close, |open| + 1, |open| + 1 + |x|)
    ensures (open + ">" + x + close)[|open| + 1..|open| + 1 + |x|] == x
  {
    var px := open + ">" + x;
    var html := px + close;
    assert LitAt(html, 0, open) by {
      LitAtConcat([], open, ">" + x + close);
      assert [] + open + (">" + x + close) == html;
    }
    assert LitAt(html, |px|, close) by {
      LitAtConcat(px, close, []);
      assert px + close + [] == html;
    }
    assert html[|open|] == '>';
    forall k | |open| + 1 <= k < |px|
      ensures !LitAt(html, k, close)
    {
      assert html[k] == x[k - |open| - 1] by {
        assert html[k] == px[k];
      }
      NotLitAt(html, k, close);
    }
  }

  /** A page that is one element of `t` around content free of `<` gives
      that content back. */
  lemma WrappedContent(t: Tag, x: string)
    requires forall k :: 0 <= k < |x| ==> x[k] != '<'
    ensures Capture(Open(t) + ">" + x + Close(t), t) == Some(x)
  {
    var html := Open(t) + ">" + x + Close(t);
    var c := |Open(t)| + 1;
    var e := c + |x|;
    assert Folded(Open(t)) && Folded(Close(t));
    WrappedShape(Open(t), Close(t), x);
    TagAtShape(html, 0, Open(t), Close(t), c, e);
    CaptureAtStart(html, t, c, e);
  }

  /** A match at the very start is the first match. */
  lemma CaptureAtStart(html: string, t: Tag, c: nat, e: nat)
    requires Tagger(html, t)(0) == Some((c, e))
    ensures c <= e <= |html| && Capture(html, t) == Some(html[c..e])
  {
    assert Search(Tagger(html, t), |html|, 0) == Some(0);
  }

  /** Without a `<body` anywhere the page itself is the body. */
  lemma NoBodyIsPage(html: string)
    requires forall a :: 0 <= a <= |html| ==> !LitAt(html, a, "<body")
    ensures ExtractBody(html) == html
  {
    assert forall a :: 0 <= a <= |html| ==> Tagger(html, Body)(a).None?;
  }

  /** Without a `<style` anywhere there is no style sheet. */
  lemma NoStyleIsEmpty(html: string)
    requires forall a :: 0 <= a <= |html| ==> !LitAt(html, a, "<style")
    ensures ExtractCss(html) == ""
  {
    assert forall a :: 0 <= a <= |html| ==> Tagger(html, Style)(a).None?;
  }
}
