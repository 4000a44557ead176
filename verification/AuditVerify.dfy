/** Verification of the whole log: the sealed segments in order, then the active file. */
module AuditVerify {
  import opened Prelude
  import opened AuditChain
  import opened AuditStore
  import Sorting

  /** `entries_checked` and `first_violation`; `ok` is the absence of a violation. */
  datatype VerifyResult = VerifyResult(checked: nat, violation: Option<Violation>)

  predicate ByStart(x: Segment, y: Segment) {
    x.summary.seqStart <= y.summary.seqStart
  }

  function FirstLine(lines: seq<Line>): Option<Line> {
    if lines == [] then None
    else if lines[0].Blank? then FirstLine(lines[1..])
    else Some(lines[0])
  }

  /** Where the check of a file without segments starts: at its own first entry when that is not
      number one, as after pruning. */
  function Anchor(lines: seq<Line>): (nat, Mac) {
    match FirstLine(lines)
    case Some(Record(e)) => if e.seqNo > 1 then (e.seqNo, e.prevHmac) else (1, GENESIS_HMAC)
    case _ => (1, GENESIS_HMAC)
  }

  function Start(segments: seq<Segment>, active: seq<Line>): (nat, Mac) {
    if segments == [] then Anchor(active)
    else
      var first := segments[0].summary;
      (first.seqStart, if first.seqStart == 1 then GENESIS_HMAC else first.firstPrevHmac)
  }

  /** Segment `i` ends in the MAC that its manifest row claims. */
  ghost predicate LastHmacMatches(segments: seq<Segment>, prev0: Mac, i: nat)
    requires i < |segments|
  {
    EndHmac(Entries(JoinedFirst(segments, i + 1)), prev0) == segments[i].summary.lastHmac
  }

  /** The log put together from ordered segments and the active file is one correct chain. */
  ghost predicate Sound(mac: Body -> Mac, segments: seq<Segment>, active: seq<Line>) {
    var start := Start(segments, active);
    && Accepted(mac, Joined(segments) + active, start.0, start.1)
    && forall i :: 0 <= i < |segments| ==> LastHmacMatches(segments, start.1, i)
  }

  // ---- what a report may say ----

  /** Where the chain stands behind these lines. */
  function ChainEnd(lines: seq<Line>, start: (nat, Mac)): (nat, Mac) {
    (start.0 + |Entries(lines)|, EndHmac(Entries(lines), start.1))
  }

  /** The report is right about line `k`, met where the chain stands behind the lines before. */
  ghost predicate BlamesLine(mac: Body -> Mac, lines: seq<Line>, start: (nat, Mac), k: nat, v: Violation) {
    && k < |lines|
    && Blames(mac, lines[k], ChainEnd(lines[..k], start).0, ChainEnd(lines[..k], start).1, v)
  }

  /** Segment `i`, which ends before line `k`, is the first that does not end in the MAC its
      manifest row claims, and the report says so. */
  ghost predicate BlamesSegment(segments: seq<Segment>, prev0: Mac, k: nat, v: Violation, i: nat) {
    && i < |segments|
    && k == |JoinedFirst(segments, i + 1)|
    && !LastHmacMatches(segments, prev0, i)
    && (forall j :: 0 <= j < i ==> LastHmacMatches(segments, prev0, j))
    && v == Violation(segments[i].summary.seqEnd, SegmentMismatch)
  }

  /** The segments that end before line `k` end in the MACs their manifest rows claim. */
  ghost predicate MatchUpto(segments: seq<Segment>, prev0: Mac, k: nat) {
    forall i :: 0 <= i < |segments| && |JoinedFirst(segments, i + 1)| <= k ==> LastHmacMatches(segments, prev0, i)
  }

  /** The report is about the first thing that is wrong. */
  ghost predicate Blamed(mac: Body -> Mac, segments: seq<Segment>, active: seq<Line>, k: nat, v: Violation) {
    var lines, start := Joined(segments) + active, Start(segments, active);
    || (BlamesLine(mac, lines, start, k, v) && MatchUpto(segments, start.1, k))
    || exists i :: BlamesSegment(segments, start.1, k, v, i)
  }

  method VerifyLog(mac: Body -> Mac, active: seq<Line>) returns (r: VerifyResult, ghost k: nat)
    ensures k <= |active| && (r.violation.None? <==> k == |active|)
    ensures r.violation.None? <==> Sound(mac, [], active)
    ensures Accepted(mac, active[..k], Anchor(active).0, Anchor(active).1)
    ensures r.checked == |Entries(active[..k])|
    ensures r.violation.Some? ==> Blamed(mac, [], active, k, r.violation.value)
  {
    var start := Anchor(active);
    var cur := new Cursor(start.0, start.1);
    var v;
    v, k := Walk(active, mac, cur);
    assert Joined([]) + active == active;
    r := VerifyResult(cur.checked, v);
  }

  /** Check the next stretch of the log, given that the lines before it are accepted. */
  method WalkOn(mac: Body -> Mac, content: seq<Line>, cur: Cursor, ghost done: seq<Line>,
                ghost start: (nat, Mac))
    returns (v: Option<Violation>, ghost k: nat)
    requires Accepted(mac, done, start.0, start.1)
    requires cur.Behind(Entries(done), start.0, start.1, 0)
    modifies cur
    ensures k <= |content| && (v.None? <==> k == |content|)
    ensures Accepted(mac, done + content[..k], start.0, start.1)
    ensures v.None? <==> Accepted(mac, done + content, start.0, start.1)
    ensures cur.Behind(Entries(done + content[..k]), start.0, start.1, 0)
    ensures v.Some? ==> BlamesLine(mac, done + content, start, |done| + k, v.value)
  {
    v, k := Walk(content, mac, cur);
    assert (done + content)[..|done| + k] == done + content[..k];
    AcceptedConcat(mac, done, content, start.0, start.1);
    AcceptedConcat(mac, done, content[..k], start.0, start.1);
    EntriesConcat(done, content[..k]);
    LinkedConcat(mac, Entries(done), Entries(content[..k]), start.0, start.1);
  }

  /** Everything before segment `i` is in order, and the cursor stands there. */
  ghost predicate Reached(mac: Body -> Mac, segments: seq<Segment>, start: (nat, Mac), i: nat, cur: Cursor)
    requires i <= |segments|
    reads cur
  {
    && Accepted(mac, JoinedFirst(segments, i), start.0, start.1)
    && cur.Behind(Entries(JoinedFirst(segments, i)), start.0, start.1, 0)
    && forall j :: 0 <= j < i ==> LastHmacMatches(segments, start.1, j)
  }

  /** The log is not sound, the report is about the first thing that is wrong, and the cursor stands
      behind the `k` lines before it. */
  ghost predicate Stopped(mac: Body -> Mac, segments: seq<Segment>, active: seq<Line>, k: nat, v: Violation,
                          cur: Cursor)
    reads cur
  {
    var lines, start := Joined(segments) + active, Start(segments, active);
    && k <= |lines|
    && Accepted(mac, lines[..k], start.0, start.1)
    && cur.Behind(Entries(lines[..k]), start.0, start.1, 0)
    && !Sound(mac, segments, active)
    && Blamed(mac, segments, active, k, v)
  }

  method VerifySegment(mac: Body -> Mac, segments: seq<Segment>, i: nat, cur: Cursor, ghost active: seq<Line>)
    returns (v: Option<Violation>, ghost k: nat)
    requires i < |segments| && Reached(mac, segments, Start(segments, active), i, cur)
    modifies cur
    ensures v.None? ==> Reached(mac, segments, Start(segments, active), i + 1, cur)
    ensures v.Some? ==> Stopped(mac, segments, active, k, v.value, cur)
  {
    var seg := segments[i];
    v, k := WalkOn(mac, seg.content, cur, JoinedFirst(segments, i), Start(segments, active));
    k := SegmentVerdict(mac, segments, active, i, k, v);
    if v.Some? {
      return;
    }
    ghost var front, start := JoinedFirst(segments, i + 1), Start(segments, active);
    assert Accepted(mac, front, start.0, start.1) && cur.Behind(Entries(front), start.0, start.1, 0);
    if cur.prevHmac != seg.summary.lastHmac {
      BlameSegment(mac, segments, active, i);
      v := Some(Violation(seg.summary.seqEnd, SegmentMismatch));
    } else {
      OneMoreMatches(segments, start.1, i);
    }
  }

  lemma OneMoreMatches(segments: seq<Segment>, prev0: Mac, i: nat)
    requires i < |segments| && EndHmac(Entries(JoinedFirst(segments, i + 1)), prev0) == segments[i].summary.lastHmac
    requires forall j :: 0 <= j < i ==> LastHmacMatches(segments, prev0, j)
    ensures forall j :: 0 <= j < i + 1 ==> LastHmacMatches(segments, prev0, j)
  {
  }

  /** What walking segment `i` says about the log. */
  lemma SegmentVerdict(mac: Body -> Mac, segments: seq<Segment>, active: seq<Line>, i: nat, n: nat,
                       v: Option<Violation>) returns (k: nat)
    requires i < |segments| && n <= |segments[i].content| && (v.None? <==> n == |segments[i].content|)
    requires var content, done, start := segments[i].content, JoinedFirst(segments, i), Start(segments, active);
      && Accepted(mac, done + content[..n], start.0, start.1)
      && (v.Some? ==> !Accepted(mac, done + content, start.0, start.1))
      && (v.Some? ==> BlamesLine(mac, done + content, start, |done| + n, v.value))
      && forall j :: 0 <= j < i ==> LastHmacMatches(segments, start.1, j)
    ensures k <= |Joined(segments) + active|
    ensures (Joined(segments) + active)[..k] == JoinedFirst(segments, i) + segments[i].content[..n]
    ensures v.None? ==> k == |JoinedFirst(segments, i + 1)|
                        && JoinedFirst(segments, i) + segments[i].content[..n] == JoinedFirst(segments, i + 1)
    ensures v.Some? ==> !Sound(mac, segments, active) && Blamed(mac, segments, active, k, v.value)
  {
    var content, done := segments[i].content, JoinedFirst(segments, i);
    k := |done| + n;
    JoinedPrefix(segments, i + 1, |segments|);
    PrefixAccepted(mac, JoinedFirst(segments, i + 1), Joined(segments) + active, Start(segments, active));
    assert (done + content)[..k] == done + content[..n];
    if v.Some? {
      BlameInSegment(mac, segments, active, i, k, v.value);
    } else {
      assert content[..n] == content;
    }
  }

  /** Check the sealed segments in order. */
  method VerifySegments(mac: Body -> Mac, sorted: seq<Segment>, cur: Cursor, ghost active: seq<Line>)
    returns (v: Option<Violation>, ghost k: nat)
    requires cur.Behind([], Start(sorted, active).0, Start(sorted, active).1, 0)
    modifies cur
    ensures v.None? ==> Reached(mac, sorted, Start(sorted, active), |sorted|, cur)
    ensures v.Some? ==> Stopped(mac, sorted, active, k, v.value, cur)
  {
    k := 0;
    for i := 0 to |sorted|
      invariant Reached(mac, sorted, Start(sorted, active), i, cur)
    {
      v, k := VerifySegment(mac, sorted, i, cur, active);
      if v.Some? {
        return;
      }
    }
    v := None;
  }

  lemma BlamesLineLater(mac: Body -> Mac, front: seq<Line>, lines: seq<Line>, start: (nat, Mac), k: nat,
                        v: Violation)
    requires front <= lines && BlamesLine(mac, front, start, k, v)
    ensures BlamesLine(mac, lines, start, k, v)
  {
    assert lines[k] == front[k] && lines[..k] == front[..k];
  }

  lemma MatchBelow(segments: seq<Segment>, prev0: Mac, i: nat, k: nat)
    requires i < |segments| && k < |JoinedFirst(segments, i + 1)|
    requires forall j :: 0 <= j < i ==> LastHmacMatches(segments, prev0, j)
    ensures MatchUpto(segments, prev0, k)
  {
    hide JoinedFirst, LastHmacMatches;
    forall j | 0 <= j < |segments| && |JoinedFirst(segments, j + 1)| <= k
      ensures LastHmacMatches(segments, prev0, j)
    {
      if j >= i {
        JoinedLonger(segments, i + 1, j + 1);
      }
    }
  }

  lemma JoinedLonger(segments: seq<Segment>, n: nat, m: nat)
    requires n <= m <= |segments|
    ensures |JoinedFirst(segments, n)| <= |JoinedFirst(segments, m)|
  {
    JoinedPrefix(segments, n, m);
  }

  /** A line blamed in segment `i`, with the segments before it matching. */
  lemma BlameInSegment(mac: Body -> Mac, segments: seq<Segment>, active: seq<Line>, i: nat, k: nat, v: Violation)
    requires i < |segments| && k < |JoinedFirst(segments, i + 1)|
    requires var start := Start(segments, active);
      && BlamesLine(mac, JoinedFirst(segments, i + 1), start, k, v)
      && forall j :: 0 <= j < i ==> LastHmacMatches(segments, start.1, j)
    ensures Blamed(mac, segments, active, k, v)
  {
    var lines, start := Joined(segments) + active, Start(segments, active);
    JoinedPrefix(segments, i + 1, |segments|);
    BlamesLineLater(mac, JoinedFirst(segments, i + 1), lines, start, k, v);
    MatchBelow(segments, start.1, i, k);
  }

  /** A segment that does not end as claimed, the first such. */
  lemma BlameSegment(mac: Body -> Mac, segments: seq<Segment>, active: seq<Line>, i: nat)
    requires i < |segments|
    requires var prev0 := Start(segments, active).1;
      && !LastHmacMatches(segments, prev0, i)
      && forall j :: 0 <= j < i ==> LastHmacMatches(segments, prev0, j)
    ensures !Sound(mac, segments, active)
    ensures Blamed(mac, segments, active, |JoinedFirst(segments, i + 1)|,
                   Violation(segments[i].summary.seqEnd, SegmentMismatch))
  {
    assert BlamesSegment(segments, Start(segments, active).1, |JoinedFirst(segments, i + 1)|,
                         Violation(segments[i].summary.seqEnd, SegmentMismatch), i);
  }

  /** Check everything: no violation exactly when the segments and the active file are sound
      together; `k` lines of the logical log are accepted and their entries counted, and a
      violation is the first thing that is wrong. */
  method VerifyAll(mac: Body -> Mac, segments: seq<Segment>, active: seq<Line>)
    returns (r: VerifyResult, ghost k: nat)
    ensures r.violation.None? <==> Sound(mac, Sorting.StableSort(ByStart, segments), active)
    ensures r.violation.None? ==>
            r.checked == |Entries(Joined(Sorting.StableSort(ByStart, segments)) + active)|
    ensures var sorted := Sorting.StableSort(ByStart, segments);
      var lines, start := Joined(sorted) + active, Start(sorted, active);
      && k <= |lines|
      && Accepted(mac, lines[..k], start.0, start.1)
      && r.checked == |Entries(lines[..k])|
      && (r.violation.Some? ==> Blamed(mac, sorted, active, k, r.violation.value))
  {
    var sorted := Sorting.StableSort(ByStart, segments);
    if sorted == [] {
      assert Joined([]) + active == active;
      r, k := VerifyLog(mac, active);
      assert active[..|active|] == active;
      return;
    }
    var start := Start(sorted, active);
    ghost var lines := Joined(sorted) + active;
    var cur := new Cursor(start.0, start.1);
    var v;
    v, k := VerifySegments(mac, sorted, cur, active);
    if v.None? {
      ghost var done := Joined(sorted);
      v, k := WalkOn(mac, active, cur, done, start);
      assert lines[..|done| + k] == done + active[..k];
      k := |done| + k;
      assert v.None? ==> lines[..k] == lines;
    }
    r := VerifyResult(cur.checked, v);
  }

  lemma PrefixAccepted(mac: Body -> Mac, front: seq<Line>, lines: seq<Line>, start: (nat, Mac))
    requires front <= lines
    ensures Accepted(mac, lines, start.0, start.1) ==> Accepted(mac, front, start.0, start.1)
  {
    assert lines == front + lines[|front|..];
    AcceptedConcat(mac, front, lines[|front|..], start.0, start.1);
  }

  lemma {:induction false} JoinedFirstOf(segments: seq<Segment>, more: seq<Segment>, n: nat)
    requires n <= |segments|
    ensures JoinedFirst(segments + more, n) == JoinedFirst(segments, n)
  {
    if n > 0 {
      JoinedFirstOf(segments, more, n - 1);
    }
  }

  lemma {:induction false} JoinedDrop(segments: seq<Segment>, k: nat, n: nat)
    requires k + n <= |segments|
    ensures JoinedFirst(segments, k + n) == JoinedFirst(segments, k) + JoinedFirst(segments[k..], n)
  {
    if n > 0 {
      JoinedDrop(segments, k, n - 1);
    }
  }

  lemma {:induction false} JoinedPrefix(segments: seq<Segment>, n: nat, m: nat)
    requires n <= m <= |segments|
    ensures JoinedFirst(segments, n) <= JoinedFirst(segments, m)
  {
    if n < m {
      JoinedPrefix(segments, n, m - 1);
    }
  }
}
