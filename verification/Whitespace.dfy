/** Whitespace, trimming, and the characters that whitespace leaves. */
module Whitespace {
  import opened Prelude

  datatype Range = Range(first: char, last: char)

  /** The characters with Unicode's White_Space property, as `char::is_whitespace` has it. */
  const SPACES: seq<Range> := [
    Range('\U{3000}', '\U{3000}'), Range('\U{205F}', '\U{205F}'), Range('\U{202F}', '\U{202F}'),
    Range('\U{2028}', '\U{2029}'), Range('\U{2000}', '\U{200A}'), Range('\U{1680}', '\U{1680}'),
    Range('\U{A0}', '\U{A0}'), Range('\U{85}', '\U{85}'), Range(' ', ' '), Range('\U{9}', '\U{D}')]

  /** The character lies in one of the first `n` ranges. */
  predicate InRanges(c: char, ranges: seq<Range>, n: nat)
    requires n <= |ranges|
  {
    n > 0 && (ranges[n - 1].first <= c <= ranges[n - 1].last || InRanges(c, ranges, n - 1))
  }

  predicate IsSpace(c: char) {
    InRanges(c, SPACES, |SPACES|)
  }

  /** The same, character by character. */
  lemma IsSpaceIff(c: char)
    ensures IsSpace(c) <==>
            || c == ' ' || '\t' <= c <= '\r'
            || c in "\U{85}\U{A0}\U{1680}\U{2028}\U{2029}\U{202F}\U{205F}\U{3000}"
            || '\U{2000}' <= c <= '\U{200A}'
  {
    assert InRanges(c, SPACES, 1) <==> c == '\U{3000}';
    assert InRanges(c, SPACES, 2) <==> InRanges(c, SPACES, 1) || c == '\U{205F}';
    assert InRanges(c, SPACES, 3) <==> InRanges(c, SPACES, 2) || c == '\U{202F}';
    assert InRanges(c, SPACES, 4) <==> InRanges(c, SPACES, 3) || '\U{2028}' <= c <= '\U{2029}';
    assert InRanges(c, SPACES, 5) <==> InRanges(c, SPACES, 4) || '\U{2000}' <= c <= '\U{200A}';
    assert InRanges(c, SPACES, 6) <==> InRanges(c, SPACES, 5) || c == '\U{1680}';
    assert InRanges(c, SPACES, 7) <==> InRanges(c, SPACES, 6) || c == '\U{A0}';
    assert InRanges(c, SPACES, 8) <==> InRanges(c, SPACES, 7) || c == '\U{85}';
    assert InRanges(c, SPACES, 9) <==> InRanges(c, SPACES, 8) || c == ' ';
    assert InRanges(c, SPACES, 10) <==> InRanges(c, SPACES, 9) || '\t' <= c <= '\r';
  }

  /** Where trimming starts: the first position from `lo` that is not whitespace. */
  function TrimLo(s: string, lo: nat, hi: nat): (r: nat)
    requires lo <= hi <= |s|
    ensures lo <= r <= hi
    decreases hi - lo
  {
    if lo < hi && IsSpace(s[lo]) then TrimLo(s, lo + 1, hi) else lo
  }

  /** Where trimming ends: behind the last position before `hi` that is not whitespace. */
  function TrimHi(s: string, lo: nat, hi: nat): (r: nat)
    requires lo <= hi <= |s|
    ensures lo <= r <= hi
  {
    if lo < hi && IsSpace(s[hi - 1]) then TrimHi(s, lo, hi - 1) else hi
  }

  /** The positions from `lo` up to but not including `hi`. */
  datatype Span = Span(lo: nat, hi: nat)

  /** The part of a window that is left when both ends are trimmed. */
  function TrimSpan(s: string, w: Span): (r: Span)
    requires w.lo <= w.hi <= |s|
    ensures w.lo <= r.lo <= r.hi <= w.hi
  {
    var lo := TrimLo(s, w.lo, w.hi);
    Span(lo, TrimHi(s, lo, w.hi))
  }

  function Trim(s: string): string {
    var r := TrimSpan(s, Span(0, |s|));
    s[r.lo..r.hi]
  }

  /** The characters that are not whitespace among the first `n`, in order. */
  function InkFirst(s: string, n: nat): string
    requires n <= |s|
  {
    if n == 0 then []
    else if IsSpace(s[n - 1]) then InkFirst(s, n - 1)
    else InkFirst(s, n - 1) + [s[n - 1]]
  }

  /** The characters that are not whitespace, in order. */
  function Ink(s: string): string {
    InkFirst(s, |s|)
  }

  lemma {:induction false} InkPrefix(x: string, y: string, n: nat)
    requires n <= |x|
    ensures InkFirst(x + y, n) == InkFirst(x, n)
  {
    if n > 0 {
      InkPrefix(x, y, n - 1);
    }
  }

  lemma {:induction false} InkBeyond(x: string, y: string, n: nat)
    requires n <= |y|
    ensures InkFirst(x + y, |x| + n) == Ink(x) + InkFirst(y, n)
  {
    if n == 0 {
      InkPrefix(x, y, |x|);
    } else {
      InkBeyond(x, y, n - 1);
    }
  }

  lemma InkConcat(x: string, y: string)
    ensures Ink(x + y) == Ink(x) + Ink(y)
  {
    InkBeyond(x, y, |y|);
  }

  lemma {:induction false} InkOfFirst(s: string, n: nat)
    requires n <= |s|
    ensures InkFirst(s, n) == [] <==> forall i :: 0 <= i < n ==> IsSpace(s[i])
  {
    if n > 0 {
      InkOfFirst(s, n - 1);
    }
  }

  lemma InkOfSpace(s: string)
    ensures Ink(s) == [] <==> forall i :: 0 <= i < |s| ==> IsSpace(s[i])
  {
    InkOfFirst(s, |s|);
  }

  predicate AllSpace(s: string, lo: nat, hi: nat)
    requires lo <= hi <= |s|
  {
    forall i :: lo <= i < hi ==> IsSpace(s[i])
  }

  lemma {:induction false} TrimLoSkipsSpace(s: string, lo: nat, hi: nat)
    requires lo <= hi <= |s|
    ensures AllSpace(s, lo, TrimLo(s, lo, hi))
    ensures TrimLo(s, lo, hi) < hi ==> !IsSpace(s[TrimLo(s, lo, hi)])
    decreases hi - lo
  {
    if lo < hi && IsSpace(s[lo]) {
      TrimLoSkipsSpace(s, lo + 1, hi);
    }
  }

  lemma {:induction false} TrimHiSkipsSpace(s: string, lo: nat, hi: nat)
    requires lo <= hi <= |s|
    ensures AllSpace(s, TrimHi(s, lo, hi), hi)
    ensures TrimHi(s, lo, hi) > lo ==> !IsSpace(s[TrimHi(s, lo, hi) - 1])
  {
    if lo < hi && IsSpace(s[hi - 1]) {
      TrimHiSkipsSpace(s, lo, hi - 1);
    }
  }

  /** A trimmed window loses only whitespace and keeps ink at both ends. */
  lemma TrimSpanSkipsSpace(s: string, w: Span)
    requires w.lo <= w.hi <= |s|
    ensures var r := TrimSpan(s, w);
      && AllSpace(s, w.lo, r.lo) && AllSpace(s, r.hi, w.hi)
      && (r.lo < r.hi ==> !IsSpace(s[r.lo]) && !IsSpace(s[r.hi - 1]))
  {
    var lo := TrimLo(s, w.lo, w.hi);
    TrimLoSkipsSpace(s, w.lo, w.hi);
    TrimHiSkipsSpace(s, lo, w.hi);
  }

  lemma SpaceHasNoInk(s: string, lo: nat, hi: nat)
    requires lo <= hi <= |s| && AllSpace(s, lo, hi)
    ensures Ink(s[lo..hi]) == []
  {
    InkOfSpace(s[lo..hi]);
  }

  /** Trimming a window removes no ink. */
  lemma TrimSpanInk(s: string, w: Span)
    requires w.lo <= w.hi <= |s|
    ensures var r := TrimSpan(s, w);
      Ink(s[r.lo..r.hi]) == Ink(s[w.lo..w.hi])
  {
    var r := TrimSpan(s, w);
    var x, y, z := s[w.lo..r.lo], s[r.lo..r.hi], s[r.hi..w.hi];
    TrimSpanSkipsSpace(s, w);
    SpaceHasNoInk(s, w.lo, r.lo);
    SpaceHasNoInk(s, r.hi, w.hi);
    assert s[w.lo..w.hi] == x + (y + z);
    InkConcat(x, y + z);
    InkConcat(y, z);
    assert [] + (Ink(y) + []) == Ink(y);
  }

  /** Trimming removes no ink, and leaves nothing exactly when there was no ink. */
  lemma TrimKeepsInk(s: string)
    ensures Ink(Trim(s)) == Ink(s)
    ensures Trim(s) == [] <==> Ink(s) == []
    ensures |Trim(s)| <= |s|
  {
    var r := TrimSpan(s, Span(0, |s|));
    TrimSpanInk(s, Span(0, |s|));
    assert s[0..|s|] == s;
    if r.lo < r.hi {
      TrimSpanSkipsSpace(s, Span(0, |s|));
      assert Trim(s)[0] == s[r.lo];
    }
    InkOfSpace(Trim(s));
  }

  lemma InkPlusBlank(x: string, blank: string)
    requires forall i :: 0 <= i < |blank| ==> IsSpace(blank[i])
    ensures Ink(x + blank) == Ink(x)
  {
    InkConcat(x, blank);
    InkOfSpace(blank);
  }

  // ---- the ink of a list of texts ----

  /** The ink of the first `n` texts, in order. */
  function InkUpto(parts: seq<string>, n: nat): string
    requires n <= |parts|
  {
    if n == 0 then [] else InkUpto(parts, n - 1) + Ink(parts[n - 1])
  }

  /** The ink of all the texts, in order. */
  function InkAll(parts: seq<string>): string {
    InkUpto(parts, |parts|)
  }

  lemma {:induction false} InkUptoPrefix(x: seq<string>, y: seq<string>, n: nat)
    requires n <= |x|
    ensures InkUpto(x + y, n) == InkUpto(x, n)
  {
    if n > 0 {
      InkUptoPrefix(x, y, n - 1);
    }
  }

  lemma Associative(a: string, b: string, c: string)
    ensures (a + b) + c == a + (b + c)
  {
  }

  lemma {:induction false} InkUptoBeyond(x: seq<string>, y: seq<string>, n: nat)
    requires n <= |y|
    ensures InkUpto(x + y, |x| + n) == InkAll(x) + InkUpto(y, n)
  {
    if n == 0 {
      InkUptoPrefix(x, y, |x|);
    } else {
      InkUptoBeyond(x, y, n - 1);
      Associative(InkAll(x), InkUpto(y, n - 1), Ink(y[n - 1]));
      assert (x + y)[|x| + n - 1] == y[n - 1];
    }
  }

  lemma InkAllConcat(x: seq<string>, y: seq<string>)
    ensures InkAll(x + y) == InkAll(x) + InkAll(y)
  {
    InkUptoBeyond(x, y, |y|);
  }

  lemma InkAllSnoc(x: seq<string>, last: string)
    ensures InkAll(x + [last]) == InkAll(x) + Ink(last)
  {
    InkUptoPrefix(x, [last], |x|);
  }

  lemma InkAllOne(x: string)
    ensures InkAll([x]) == Ink(x)
  {
    assert InkUpto([x], 1) == InkUpto([x], 0) + Ink(x);
  }

  // ---- texts with more put in ----

  /** `x` is `y` with some characters left out. */
  predicate Within(x: string, y: string)
    decreases |y|
  {
    if x == [] then true
    else if y == [] then false
    else
      var xs, ys := x[..|x| - 1], y[..|y| - 1];
      (x[|x| - 1] == y[|y| - 1] && Within(xs, ys)) || Within(x, ys)
  }

  lemma {:induction false} WithinMore(x: string, y: string, more: string)
    requires Within(x, y)
    ensures Within(x, y + more)
    decreases |more|
  {
    if more == [] {
      assert y + more == y;
    } else {
      var init := more[..|more| - 1];
      WithinMore(x, y, init);
      assert (y + more)[..|y + more| - 1] == y + init;
    }
  }

  lemma {:induction false} WithinWithoutLast(x: string, y: string)
    requires x != [] && Within(x, y)
    ensures Within(x[..|x| - 1], y)
  {
    var xs, ys := x[..|x| - 1], y[..|y| - 1];
    if !Within(xs, ys) {
      WithinWithoutLast(x, ys);
    }
    WithinMore(xs, ys, [y[|y| - 1]]);
    assert y == ys + [y[|y| - 1]];
  }

  lemma {:induction false} WithinFront(x: string, z: string, y: string)
    requires Within(x + z, y)
    ensures Within(x, y)
    decreases |z|
  {
    if z == [] {
      assert x + z == x;
    } else {
      WithinWithoutLast(x + z, y);
      assert (x + z)[..|x + z| - 1] == x + z[..|z| - 1];
      WithinFront(x, z[..|z| - 1], y);
    }
  }

  lemma {:induction false} WithinBoth(x: string, y: string, z: string)
    requires Within(x, y)
    ensures Within(x + z, y + z)
    decreases |z|
  {
    if z == [] {
      assert x + z == x && y + z == y;
    } else {
      var init := z[..|z| - 1];
      WithinBoth(x, y, init);
      assert (x + z)[..|x + z| - 1] == x + init && (y + z)[..|y + z| - 1] == y + init;
    }
  }

  lemma {:induction false} WithinConcat(x: string, y: string, z: string, w: string)
    requires Within(x, y) && Within(z, w)
    ensures Within(x + z, y + w)
    decreases |w|
  {
    if z == [] {
      WithinMore(x, y, w);
      assert x + z == x;
    } else {
      var zs, ws := z[..|z| - 1], w[..|w| - 1];
      assert (x + z)[..|x + z| - 1] == x + zs && (y + w)[..|y + w| - 1] == y + ws;
      if z[|z| - 1] == w[|w| - 1] && Within(zs, ws) {
        WithinConcat(x, y, zs, ws);
      } else {
        WithinConcat(x, y, z, ws);
      }
    }
  }
}
