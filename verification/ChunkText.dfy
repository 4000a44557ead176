/** Splitting a text into overlapping windows that end at natural breaks. */
module ChunkText {
  import opened Prelude
  import opened Whitespace

  // ---- where a window ends ----

  datatype Kind = Paragraph | Sentence | Space

  predicate BreaksAfter(kind: Kind, chars: string, start: nat, i: nat)
    requires i < |chars|
  {
    match kind
    case Paragraph => chars[i] == '\n' && i > start && chars[i - 1] == '\n'
    case Sentence =>
      chars[i] in ".!?\U{2026}" && (i + 1 < |chars| ==> IsSpace(chars[i + 1]))
    case Space => IsSpace(chars[i])
  }

  /** The last break of a kind in [lo, hi). */
  function LastBreak(kind: Kind, chars: string, start: nat, lo: nat, hi: nat): (r: Option<nat>)
    requires hi <= |chars|
    ensures r.Some? ==> lo <= r.value < hi && BreaksAfter(kind, chars, start, r.value)
    ensures forall i :: (if r.Some? then r.value + 1 else lo) <= i < hi ==>
              !BreaksAfter(kind, chars, start, i)
  {
    if hi <= lo then None
    else if BreaksAfter(kind, chars, start, hi - 1) then Some(hi - 1)
    else LastBreak(kind, chars, start, lo, hi - 1)
  }

  /** The least length a window may be cut to: six tenths of its full length. */
  function MinEnd(start: nat, hardEnd: nat): nat
    requires start <= hardEnd
  {
    start + (hardEnd - start) * 6 / 10
  }

  /** The end of a window: behind the last paragraph break in its last four tenths, else behind
      the last sentence, else behind the last whitespace, else where it is full. */
  function BreakPoint(chars: string, start: nat, hardEnd: nat): (r: nat)
    requires start < hardEnd <= |chars|
    ensures start < r <= hardEnd
  {
    var lo := MinEnd(start, hardEnd);
    match LastBreak(Paragraph, chars, start, lo, hardEnd)
    case Some(i) => i + 1
    case None =>
      match LastBreak(Sentence, chars, start, lo, hardEnd)
      case Some(i) => i + 1
      case None =>
        match LastBreak(Space, chars, start, lo, hardEnd)
        case Some(i) => i + 1
        case None => hardEnd
  }

  method SearchBack(kind: Kind, chars: string, start: nat, lo: nat, hi: nat) returns (r: Option<nat>)
    requires lo <= hi <= |chars|
    ensures r == LastBreak(kind, chars, start, lo, hi)
  {
    for i := hi downto lo
      invariant LastBreak(kind, chars, start, lo, hi) == LastBreak(kind, chars, start, lo, i)
    {
      if BreaksAfter(kind, chars, start, i) {
        return Some(i);
      }
    }
    r := None;
  }

  method FindBreak(chars: string, start: nat, hardEnd: nat) returns (r: nat)
    requires start < hardEnd <= |chars|
    ensures r == BreakPoint(chars, start, hardEnd)
  {
    var lo := MinEnd(start, hardEnd);
    var i := SearchBack(Paragraph, chars, start, lo, hardEnd);
    if i.Some? {
      return i.value + 1;
    }
    i := SearchBack(Sentence, chars, start, lo, hardEnd);
    if i.Some? {
      return i.value + 1;
    }
    i := SearchBack(Space, chars, start, lo, hardEnd);
    if i.Some? {
      return i.value + 1;
    }
    r := hardEnd;
  }

  // ---- the windows ----

  function WindowEnd(chars: string, size: nat, start: nat): (r: nat)
    requires size >= 1 && start < |chars|
    ensures start < r <= |chars| && r - start <= size
  {
    var hardEnd := Min(start + size, |chars|);
    if hardEnd == |chars| then hardEnd else BreakPoint(chars, start, hardEnd)
  }

  function NextStart(start: nat, end: nat, overlap: nat): nat {
    var next := SaturatingSub(end, overlap);
    if next > start then next else end
  }

  function Windows(chars: string, size: nat, overlap: nat, start: nat): seq<Span>
    requires size >= 1
    decreases |chars| - start
  {
    if start >= |chars| then []
    else
      var end := WindowEnd(chars, size, start);
      if end >= |chars| then [Span(start, end)]
      else [Span(start, end)] + Windows(chars, size, overlap, NextStart(start, end, overlap))
  }

  /** Window `i` has at most `size` characters, and the next one starts later than it, no later
      than its end, and shares at most `overlap` characters with it. */
  ghost predicate WellPlaced(w: seq<Span>, length: nat, size: nat, overlap: nat, i: nat)
    requires i < |w|
  {
    && w[i].lo < w[i].hi <= length
    && w[i].hi - w[i].lo <= size
    && (i + 1 < |w| ==> w[i].lo < w[i + 1].lo <= w[i].hi && w[i].hi - w[i + 1].lo <= overlap)
  }

  lemma {:induction false} WindowsWellPlaced(chars: string, size: nat, overlap: nat, start: nat)
    requires size >= 1 && start < |chars|
    ensures var w := Windows(chars, size, overlap, start);
      && w != [] && w[0].lo == start && w[|w| - 1].hi == |chars|
      && forall i :: 0 <= i < |w| ==> WellPlaced(w, |chars|, size, overlap, i)
    decreases |chars| - start
  {
    var end := WindowEnd(chars, size, start);
    if end < |chars| {
      var next := NextStart(start, end, overlap);
      WindowsWellPlaced(chars, size, overlap, next);
      var w, rest := Windows(chars, size, overlap, start), Windows(chars, size, overlap, next);
      forall i | 0 <= i < |w|
        ensures WellPlaced(w, |chars|, size, overlap, i)
      {
        assert i > 0 ==> WellPlaced(rest, |chars|, size, overlap, i - 1);
      }
    }
  }

  lemma {:induction false} WindowsCover(chars: string, size: nat, overlap: nat, start: nat, p: nat)
    returns (i: nat)
    requires size >= 1 && start <= p < |chars|
    ensures var w := Windows(chars, size, overlap, start);
      i < |w| && w[i].lo <= p < w[i].hi
    decreases |chars| - start
  {
    var end := WindowEnd(chars, size, start);
    if p < end {
      i := 0;
    } else {
      i := WindowsCover(chars, size, overlap, NextStart(start, end, overlap), p);
      i := i + 1;
    }
  }

  // ---- what breaks and windows are, in terms of characters ----

  /** The text up to position `p` ends in a blank line that began after `start`, in a sentence, or in
      whitespace, for the ranks 0, 1 and 2. */
  ghost predicate EndsPart(chars: string, start: nat, rank: nat, p: nat)
    requires start < p <= |chars|
  {
    match rank
    case 0 => p - start >= 2 && chars[p - 2..p] == "\n\n"
    case 1 =>
      && (chars[p - 1] == '.' || chars[p - 1] == '!' || chars[p - 1] == '?' || chars[p - 1] == '\U{2026}')
      && (p == |chars| || IsSpace(chars[p]))
    case _ => IsSpace(chars[p - 1])
  }

  /** A window from `start` to `hardEnd` is not cut below six tenths of its length. */
  predicate MayCut(start: nat, hardEnd: nat, p: nat) {
    start + (hardEnd - start) * 6 / 10 < p <= hardEnd
  }

  ghost predicate NoneFrom(chars: string, start: nat, hardEnd: nat, rank: nat, from: nat)
    requires start <= from && hardEnd <= |chars|
  {
    forall p :: from < p <= hardEnd && MayCut(start, hardEnd, p) ==> !EndsPart(chars, start, rank, p)
  }

  /** The cut is the last one of the first rank that has any. */
  ghost predicate CutsAt(chars: string, start: nat, hardEnd: nat, rank: nat, r: nat)
    requires start < r <= hardEnd <= |chars|
  {
    && MayCut(start, hardEnd, r) && EndsPart(chars, start, rank, r) && NoneFrom(chars, start, hardEnd, rank, r)
    && (rank > 0 ==> NoneFrom(chars, start, hardEnd, 0, start))
    && (rank > 1 ==> NoneFrom(chars, start, hardEnd, 1, start))
  }

  lemma BreaksAfterMeaning(chars: string, start: nat, i: nat)
    requires start <= i < |chars|
    ensures BreaksAfter(Paragraph, chars, start, i) <==> EndsPart(chars, start, 0, i + 1)
    ensures BreaksAfter(Sentence, chars, start, i) <==> EndsPart(chars, start, 1, i + 1)
    ensures BreaksAfter(Space, chars, start, i) <==> EndsPart(chars, start, 2, i + 1)
  {
    if i > start {
      assert chars[i - 1..i + 1] == [chars[i - 1], chars[i]];
    }
  }

  function RankOf(kind: Kind): nat {
    match kind
    case Paragraph => 0
    case Sentence => 1
    case Space => 2
  }

  lemma LastBreakMeaning(kind: Kind, chars: string, start: nat, hardEnd: nat)
    requires start < hardEnd <= |chars|
    ensures match LastBreak(kind, chars, start, MinEnd(start, hardEnd), hardEnd)
      case None => NoneFrom(chars, start, hardEnd, RankOf(kind), start)
      case Some(i) =>
        && start < i + 1 <= hardEnd && MayCut(start, hardEnd, i + 1)
        && EndsPart(chars, start, RankOf(kind), i + 1) && NoneFrom(chars, start, hardEnd, RankOf(kind), i + 1)
  {
    var last := LastBreak(kind, chars, start, MinEnd(start, hardEnd), hardEnd);
    if last.Some? {
      BreaksAfterMeaning(chars, start, last.value);
    }
    NoBreakMeaning(kind, chars, start, hardEnd, if last.Some? then last.value + 1 else MinEnd(start, hardEnd));
  }

  lemma NoBreakMeaning(kind: Kind, chars: string, start: nat, hardEnd: nat, from: nat)
    requires start < hardEnd <= |chars| && start <= from
    requires forall i :: from <= i < hardEnd ==> !BreaksAfter(kind, chars, start, i)
    ensures forall p :: from < p <= hardEnd ==> !EndsPart(chars, start, RankOf(kind), p)
  {
    forall p | from < p <= hardEnd
      ensures !EndsPart(chars, start, RankOf(kind), p)
    {
      BreaksAfterMeaning(chars, start, p - 1);
      assert !BreaksAfter(kind, chars, start, p - 1);
    }
  }

  /** A full window is cut behind the last blank line in its last four tenths, else behind the last
      sentence there, else behind the last whitespace there, else not at all. */
  lemma BreakPointMeaning(chars: string, start: nat, hardEnd: nat)
    requires start < hardEnd <= |chars|
    ensures var r := BreakPoint(chars, start, hardEnd);
      || (exists rank: nat :: rank < 3 && CutsAt(chars, start, hardEnd, rank, r))
      || (r == hardEnd && forall rank: nat :: rank < 3 ==> NoneFrom(chars, start, hardEnd, rank, start))
  {
    LastBreakMeaning(Paragraph, chars, start, hardEnd);
    LastBreakMeaning(Sentence, chars, start, hardEnd);
    LastBreakMeaning(Space, chars, start, hardEnd);
    var r, lo := BreakPoint(chars, start, hardEnd), MinEnd(start, hardEnd);
    if LastBreak(Paragraph, chars, start, lo, hardEnd).Some? {
      assert CutsAt(chars, start, hardEnd, 0, r);
    } else if LastBreak(Sentence, chars, start, lo, hardEnd).Some? {
      assert CutsAt(chars, start, hardEnd, 1, r);
    } else if LastBreak(Space, chars, start, lo, hardEnd).Some? {
      assert CutsAt(chars, start, hardEnd, 2, r);
    }
  }

  /** Window `i` ends where the text does, or where it is cut; then the next one begins `overlap`
      characters before that, or right there when that would be no progress. */
  ghost predicate GoesOn(chars: string, w: seq<Span>, size: nat, overlap: nat, i: nat)
    requires i < |w| && size > 0
  {
    && w[i].lo < |chars|
    && w[i].hi == (if w[i].lo + size >= |chars| then |chars| else BreakPoint(chars, w[i].lo, w[i].lo + size))
    && (w[i].hi == |chars| <==> i + 1 == |w|)
    && (i + 1 < |w| ==> w[i + 1].lo == if w[i].hi - overlap > w[i].lo then w[i].hi - overlap else w[i].hi)
  }

  lemma GoesOnBehind(chars: string, first: Span, rest: seq<Span>, size: nat, overlap: nat, i: nat)
    requires i < |rest| && size > 0 && GoesOn(chars, rest, size, overlap, i)
    ensures GoesOn(chars, [first] + rest, size, overlap, i + 1)
  {
    var w := [first] + rest;
    assert w[i + 1] == rest[i] && (i + 1 < |rest| ==> w[i + 2] == rest[i + 1]);
  }

  lemma FirstGoesOn(chars: string, first: Span, rest: seq<Span>, size: nat, overlap: nat)
    requires size > 0 && first.lo < |chars| && first.hi == WindowEnd(chars, size, first.lo)
    requires first.hi == |chars| <==> rest == []
    requires rest != [] ==> rest[0].lo == NextStart(first.lo, first.hi, overlap)
    ensures GoesOn(chars, [first] + rest, size, overlap, 0)
  {
    hide BreakPoint;
    var w := [first] + rest;
    assert w[0] == first && (rest != [] ==> w[1] == rest[0]);
  }

  ghost predicate AllGoOn(chars: string, w: seq<Span>, size: nat, overlap: nat)
    requires size > 0
  {
    forall i :: 0 <= i < |w| ==> GoesOn(chars, w, size, overlap, i)
  }

  lemma ConsGoesOn(chars: string, first: Span, rest: seq<Span>, size: nat, overlap: nat)
    requires size > 0 && GoesOn(chars, [first] + rest, size, overlap, 0) && AllGoOn(chars, rest, size, overlap)
    ensures AllGoOn(chars, [first] + rest, size, overlap)
  {
    forall i | 0 <= i < |[first] + rest|
      ensures GoesOn(chars, [first] + rest, size, overlap, i)
    {
      if i > 0 {
        GoesOnBehind(chars, first, rest, size, overlap, i - 1);
      }
    }
  }

  lemma {:induction false} WindowsGoOn(chars: string, size: nat, overlap: nat, start: nat)
    requires size >= 1 && start < |chars|
    ensures var w := Windows(chars, size, overlap, start);
      w != [] && w[0].lo == start && AllGoOn(chars, w, size, overlap)
    decreases |chars| - start
  {
    var first := Span(start, WindowEnd(chars, size, start));
    var rest := [];
    if first.hi < |chars| {
      var next := NextStart(start, first.hi, overlap);
      rest := Windows(chars, size, overlap, next);
      WindowsGoOn(chars, size, overlap, next);
    }
    assert Windows(chars, size, overlap, start) == [first] + rest;
    FirstGoesOn(chars, first, rest, size, overlap);
    ConsGoesOn(chars, first, rest, size, overlap);
  }

  /** The windows of a text one after the other; a size of zero counts as one, and the overlap is less
      than the size. */
  lemma TextWindowsGoOn(text: string, size: nat, overlap: nat)
    requires text != []
    ensures var w := TextWindows(text, size, overlap);
      var full := if size == 0 then 1 else size;
      var shared := if overlap < full then overlap else full - 1;
      w != [] && w[0].lo == 0 && AllGoOn(text, w, full, shared)
  {
    WindowsGoOn(text, Max(size, 1), ClampedOverlap(size, overlap), 0);
  }

  // ---- the chunks ----

  ghost predicate Inside(chars: string, windows: seq<Span>) {
    forall i :: 0 <= i < |windows| ==> windows[i].lo <= windows[i].hi <= |chars|
  }

  /** The first `n` windows, trimmed, without the blank ones. */
  ghost function Spans(chars: string, windows: seq<Span>, n: nat): (r: seq<Span>)
    requires Inside(chars, windows) && n <= |windows|
    ensures Inside(chars, r)
  {
    if n == 0 then []
    else
      var s := TrimSpan(chars, windows[n - 1]);
      var before := Spans(chars, windows, n - 1);
      if s.lo < s.hi then before + [s] else before
  }

  function Trimmed(chars: string, w: Span): string
    requires w.lo <= w.hi <= |chars|
  {
    var s := TrimSpan(chars, w);
    chars[s.lo..s.hi]
  }

  /** The texts of the first `n` windows, trimmed, without the blank ones. */
  ghost function Slices(chars: string, windows: seq<Span>, n: nat): seq<string>
    requires Inside(chars, windows) && n <= |windows|
  {
    if n == 0 then []
    else
      var slice := Trimmed(chars, windows[n - 1]);
      var before := Slices(chars, windows, n - 1);
      if slice == [] then before else before + [slice]
  }

  /** Each slice is the text at its span. */
  ghost predicate Aligned(chars: string, spans: seq<Span>, slices: seq<string>)
    requires Inside(chars, spans)
  {
    && |slices| == |spans|
    && forall j :: 0 <= j < |slices| ==> slices[j] == chars[spans[j].lo..spans[j].hi]
  }

  lemma AlignedSnoc(chars: string, spans: seq<Span>, slices: seq<string>, span: Span)
    requires Inside(chars, spans) && span.lo <= span.hi <= |chars| && Aligned(chars, spans, slices)
    ensures Inside(chars, spans + [span])
    ensures Aligned(chars, spans + [span], slices + [chars[span.lo..span.hi]])
  {
  }

  lemma {:induction false} SlicesAtSpans(chars: string, windows: seq<Span>, n: nat)
    requires Inside(chars, windows) && n <= |windows|
    ensures Aligned(chars, Spans(chars, windows, n), Slices(chars, windows, n))
  {
    if n > 0 {
      SlicesAtSpans(chars, windows, n - 1);
      AlignedSnoc(chars, Spans(chars, windows, n - 1), Slices(chars, windows, n - 1),
                  TrimSpan(chars, windows[n - 1]));
    }
  }

  function ClampedOverlap(size: nat, overlap: nat): nat {
    Min(overlap, Max(size, 1) - 1)
  }

  function TextWindows(text: string, size: nat, overlap: nat): seq<Span> {
    Windows(text, Max(size, 1), ClampedOverlap(size, overlap), 0)
  }

  /** The windows of a text, each fit and each starting where the one before leaves no gap. */
  lemma TextWindowsPlaced(text: string, size: nat, overlap: nat)
    ensures var w := TextWindows(text, size, overlap);
      && Inside(text, w)
      && forall i :: 0 <= i < |w| ==> WellPlaced(w, |text|, Max(size, 1), ClampedOverlap(size, overlap), i)
  {
    if text != [] {
      WindowsWellPlaced(text, Max(size, 1), ClampedOverlap(size, overlap), 0);
      var w := TextWindows(text, size, overlap);
      forall i | 0 <= i < |w|
        ensures w[i].lo <= w[i].hi <= |text|
      {
        assert WellPlaced(w, |text|, Max(size, 1), ClampedOverlap(size, overlap), i);
      }
    }
  }

  /** There are none exactly for the empty text; else they start at its front and end at its end. */
  lemma TextWindowsSpan(text: string, size: nat, overlap: nat)
    ensures var w := TextWindows(text, size, overlap);
      && (text == [] <==> w == [])
      && (w != [] ==> w[0].lo == 0 && w[|w| - 1].hi == |text|)
  {
    if text != [] {
      WindowsWellPlaced(text, Max(size, 1), ClampedOverlap(size, overlap), 0);
    }
  }

  ghost function TextSpans(text: string, size: nat, overlap: nat): (r: seq<Span>)
    ensures Inside(text, r)
  {
    TextWindowsPlaced(text, size, overlap);
    var w := TextWindows(text, size, overlap);
    Spans(text, w, |w|)
  }

  /** The chunks of a text: slices of it, one for every window that is not blank. */
  ghost function TextChunks(text: string, size: nat, overlap: nat): seq<string> {
    TextWindowsPlaced(text, size, overlap);
    var w := TextWindows(text, size, overlap);
    Slices(text, w, |w|)
  }

  lemma {:induction false} SpanOfWindow(chars: string, windows: seq<Span>, n: nat, i: nat) returns (j: nat)
    requires Inside(chars, windows) && i < n <= |windows|
    requires TrimSpan(chars, windows[i]).lo < TrimSpan(chars, windows[i]).hi
    ensures j < |Spans(chars, windows, n)| && Spans(chars, windows, n)[j] == TrimSpan(chars, windows[i])
  {
    var before := Spans(chars, windows, n - 1);
    if i == n - 1 {
      j := |before|;
    } else {
      j := SpanOfWindow(chars, windows, n - 1, i);
      assert Spans(chars, windows, n)[j] == before[j];
    }
  }

  ghost predicate Tight(chars: string, span: Span, size: nat)
    requires span.lo <= span.hi <= |chars|
  {
    && 0 < span.hi - span.lo <= size
    && !IsSpace(chars[span.lo]) && !IsSpace(chars[span.hi - 1])
  }

  lemma {:induction false} SpansAreTight(chars: string, windows: seq<Span>, n: nat, size: nat)
    requires Inside(chars, windows) && n <= |windows|
    requires forall i :: 0 <= i < |windows| ==> windows[i].hi - windows[i].lo <= size
    ensures forall j :: 0 <= j < |Spans(chars, windows, n)| ==> Tight(chars, Spans(chars, windows, n)[j], size)
  {
    if n > 0 {
      SpansAreTight(chars, windows, n - 1, size);
      TrimSpanSkipsSpace(chars, windows[n - 1]);
    }
  }

  lemma ChunksAtSpans(text: string, size: nat, overlap: nat)
    ensures Aligned(text, TextSpans(text, size, overlap), TextChunks(text, size, overlap))
  {
    var w := TextWindows(text, size, overlap);
    TextWindowsPlaced(text, size, overlap);
    SlicesAtSpans(text, w, |w|);
  }

  lemma TextSpansAreTight(text: string, size: nat, overlap: nat)
    ensures var spans := TextSpans(text, size, overlap);
      forall j :: 0 <= j < |spans| ==> Tight(text, spans[j], Max(size, 1))
  {
    var w := TextWindows(text, size, overlap);
    TextWindowsPlaced(text, size, overlap);
    forall i | 0 <= i < |w|
      ensures w[i].hi - w[i].lo <= Max(size, 1)
    {
      assert WellPlaced(w, |text|, Max(size, 1), ClampedOverlap(size, overlap), i);
    }
    SpansAreTight(text, w, |w|, Max(size, 1));
  }

  /** No chunk is empty, none is longer than the size, and none starts or ends in whitespace. */
  lemma TextChunksFit(text: string, size: nat, overlap: nat)
    ensures forall j :: 0 <= j < |TextChunks(text, size, overlap)| ==>
      var c := TextChunks(text, size, overlap)[j];
      0 < |c| <= Max(size, 1) && !IsSpace(c[0]) && !IsSpace(c[|c| - 1])
  {
    var spans, chunks := TextSpans(text, size, overlap), TextChunks(text, size, overlap);
    TextSpansAreTight(text, size, overlap);
    ChunksAtSpans(text, size, overlap);
    forall j | 0 <= j < |chunks|
      ensures var c := chunks[j];
        0 < |c| <= Max(size, 1) && !IsSpace(c[0]) && !IsSpace(c[|c| - 1])
    {
      assert Tight(text, spans[j], Max(size, 1));
      assert chunks[j] == text[spans[j].lo..spans[j].hi];
    }
  }

  /** Every character that is not whitespace appears in some chunk, which is the text around it. */
  lemma TextChunksCover(text: string, size: nat, overlap: nat, p: nat) returns (span: Span)
    requires p < |text| && !IsSpace(text[p])
    ensures span.lo <= p < span.hi <= |text|
    ensures text[span.lo..span.hi] in TextChunks(text, size, overlap)
  {
    var w := TextWindows(text, size, overlap);
    TextWindowsPlaced(text, size, overlap);
    var i := WindowsCover(text, Max(size, 1), ClampedOverlap(size, overlap), 0, p);
    TrimSpanSkipsSpace(text, w[i]);
    var j := SpanOfWindow(text, w, |w|, i);
    ChunksAtSpans(text, size, overlap);
    span := TextSpans(text, size, overlap)[j];
    assert TextChunks(text, size, overlap)[j] == text[span.lo..span.hi];
  }

  /** Where the first `n` windows end. */
  function EndOf(windows: seq<Span>, n: nat): nat
    requires n <= |windows|
  {
    if n == 0 then 0 else windows[n - 1].hi
  }

  ghost predicate Adjacent(windows: seq<Span>, i: nat)
    requires i < |windows|
  {
    windows[i].lo == EndOf(windows, i)
  }

  /** The ink of the first `n` windows. */
  function WindowInk(chars: string, windows: seq<Span>, n: nat): string
    requires n <= |windows| && forall i :: 0 <= i < |windows| ==> windows[i].lo <= windows[i].hi <= |chars|
  {
    if n == 0 then []
    else WindowInk(chars, windows, n - 1) + Ink(chars[windows[n - 1].lo..windows[n - 1].hi])
  }

  lemma {:induction false} SlicesInk(chars: string, windows: seq<Span>, n: nat)
    requires Inside(chars, windows) && n <= |windows|
    ensures InkAll(Slices(chars, windows, n)) == WindowInk(chars, windows, n)
  {
    if n > 0 {
      var before, slice := Slices(chars, windows, n - 1), Trimmed(chars, windows[n - 1]);
      SlicesInk(chars, windows, n - 1);
      TrimSpanInk(chars, windows[n - 1]);
      if slice == [] {
        assert Slices(chars, windows, n) == before;
        InkOfSpace(slice);
      } else {
        assert Slices(chars, windows, n) == before + [slice];
        InkAllSnoc(before, slice);
      }
    }
  }

  lemma {:induction false} TilesConserve(chars: string, windows: seq<Span>, n: nat)
    requires Inside(chars, windows) && n <= |windows|
    requires forall i :: 0 <= i < |windows| ==> Adjacent(windows, i)
    ensures EndOf(windows, n) <= |chars|
    ensures WindowInk(chars, windows, n) == Ink(chars[..EndOf(windows, n)])
  {
    if n > 0 {
      var w := windows[n - 1];
      assert Adjacent(windows, n - 1);
      TilesConserve(chars, windows, n - 1);
      InkConcat(chars[..w.lo], chars[w.lo..w.hi]);
      assert chars[..w.lo] + chars[w.lo..w.hi] == chars[..w.hi];
    }
  }

  /** Without overlap the chunks in order hold exactly the text's ink. */
  lemma TextChunksConserve(text: string, size: nat, overlap: nat)
    requires ClampedOverlap(size, overlap) == 0
    ensures InkAll(TextChunks(text, size, overlap)) == Ink(text)
  {
    var w := TextWindows(text, size, overlap);
    TextWindowsPlaced(text, size, overlap);
    TextWindowsSpan(text, size, overlap);
    if text != [] {
      forall i | 0 <= i < |w|
        ensures Adjacent(w, i)
      {
        assert i > 0 ==> WellPlaced(w, |text|, Max(size, 1), 0, i - 1);
      }
      SlicesInk(text, w, |w|);
      TilesConserve(text, w, |w|);
      assert text[..|text|] == text;
    }
  }

  /** No window leaves a gap behind the one before. */
  ghost predicate NoGap(windows: seq<Span>, i: nat)
    requires i < |windows|
  {
    windows[i].lo <= EndOf(windows, i)
  }

  lemma {:induction false} WindowsKeepInk(chars: string, windows: seq<Span>, n: nat)
    requires Inside(chars, windows) && n <= |windows|
    requires forall i :: 0 <= i < |windows| ==> NoGap(windows, i)
    ensures EndOf(windows, n) <= |chars|
    ensures Within(Ink(chars[..EndOf(windows, n)]), WindowInk(chars, windows, n))
  {
    if n > 0 {
      var w, end := windows[n - 1], EndOf(windows, n - 1);
      assert NoGap(windows, n - 1);
      WindowsKeepInk(chars, windows, n - 1);
      var front, again, slice := chars[..w.lo], chars[w.lo..end], chars[w.lo..w.hi];
      InkConcat(front, again);
      assert front + again == chars[..end];
      InkConcat(front, slice);
      assert front + slice == chars[..w.hi];
      var done := WindowInk(chars, windows, n - 1);
      WithinFront(Ink(front), Ink(again), done);
      WithinBoth(Ink(front), done, Ink(slice));
    }
  }

  /** Whatever the size and overlap, the chunks in order hold the text's ink in its order, and at
      most repeat some of it. */
  lemma TextChunksLoseNothing(text: string, size: nat, overlap: nat, chunks: seq<string>)
    requires chunks == TextChunks(text, size, overlap)
    ensures Within(Ink(text), InkAll(chunks))
  {
    var w := TextWindows(text, size, overlap);
    TextWindowsPlaced(text, size, overlap);
    TextWindowsSpan(text, size, overlap);
    if text != [] {
      forall i | 0 <= i < |w|
        ensures NoGap(w, i)
      {
        assert i > 0 ==> WellPlaced(w, |text|, Max(size, 1), ClampedOverlap(size, overlap), i - 1);
      }
      SlicesInk(text, w, |w|);
      WindowsKeepInk(text, w, |w|);
      assert text[..|text|] == text;
    }
  }

  /** The windowing loop. */
  method ChunkWindows(text: string, size: nat, overlap: nat, ghost windows: seq<Span>)
    returns (chunks: seq<string>)
    requires size >= 1 && windows == Windows(text, size, overlap, 0) && Inside(text, windows)
    ensures chunks == Slices(text, windows, |windows|)
  {
    chunks := [];
    var start := 0;
    ghost var n := 0;
    while start < |text|
      invariant n <= |windows|
      invariant windows[n..] == Windows(text, size, overlap, start)
      invariant chunks == Slices(text, windows, n)
      decreases |text| - start
    {
      NextWindow(text, size, overlap, windows, n, start);
      var hardEnd := Min(start + size, |text|);
      var end := hardEnd;
      if hardEnd != |text| {
        end := FindBreak(text, start, hardEnd);
      }
      var piece := Trimmed(text, Span(start, end));
      if piece != [] {
        chunks := chunks + [piece];
      }
      n := n + 1;
      if end >= |text| {
        return;
      }
      var next := SaturatingSub(end, overlap);
      start := if next > start then next else end;
    }
    assert n == |windows|;
  }

  method Split(text: string, size: nat, overlap: nat) returns (chunks: seq<string>)
    ensures chunks == TextChunks(text, size, overlap)
  {
    if text == [] {
      return [];
    }
    if |text| <= Max(size, 1) {
      var s := Trim(text);
      OneWindow(text, size, overlap);
      return if s == [] then [] else [s];
    }
    TextWindowsPlaced(text, size, overlap);
    chunks := ChunkWindows(text, Max(size, 1), ClampedOverlap(size, overlap), TextWindows(text, size, overlap));
  }

  lemma NextWindow(text: string, size: nat, overlap: nat, windows: seq<Span>, n: nat, start: nat)
    requires size >= 1 && start < |text| && n <= |windows|
    requires windows[n..] == Windows(text, size, overlap, start)
    ensures n < |windows| && windows[n] == Span(start, WindowEnd(text, size, start))
    ensures var end := WindowEnd(text, size, start);
      if end >= |text| then n + 1 == |windows|
      else windows[n + 1..] == Windows(text, size, overlap, NextStart(start, end, overlap))
  {
    assert windows[n] == windows[n..][0];
    assert windows[n + 1..] == windows[n..][1..];
  }

  lemma OneWindow(text: string, size: nat, overlap: nat)
    requires 0 < |text| <= Max(size, 1)
    ensures TextChunks(text, size, overlap) == if Trim(text) == [] then [] else [Trim(text)]
  {
    var w := TextWindows(text, size, overlap);
    assert w == [Span(0, |text|)];
    assert text[0..|text|] == text;
    assert Slices(text, w, 0) == [];
    assert Slices(text, w, 1) == if Trim(text) == [] then [] else [] + [Trim(text)];
  }
}
