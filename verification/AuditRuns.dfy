/** What every run of the audit log keeps. */
module AuditRuns {
  import opened Prelude
  import opened AuditChain
  import opened AuditStore
  import opened AuditVerify
  import Sorting

  // ---- the invariant ----

  /** The lines behind the last one that cannot be read. */
  function Since(lines: seq<Line>): seq<Line> {
    if lines == [] then []
    else
      var last := lines[|lines| - 1];
      if last.Unreadable() then [] else Since(lines[..|lines| - 1]) + [last]
  }

  /** The entries behind the last line that cannot be read. */
  function Chained(lines: seq<Line>): seq<Entry> {
    Entries(Since(lines))
  }

  /** The entries are one correct chain and the handle stands at its end. */
  ghost predicate ChainInv(mac: Body -> Mac, es: seq<Entry>, seqNo: nat, lastHmac: Mac) {
    if es == [] then seqNo == 0 ==> lastHmac == GENESIS_HMAC
    else
      && es[0].seqNo >= 1
      && (es[0].seqNo == 1 ==> es[0].prevHmac == GENESIS_HMAC)
      && Linked(mac, es, es[0].seqNo, es[0].prevHmac)
      && seqNo == es[|es| - 1].seqNo
      && lastHmac == es[|es| - 1].hmac
  }

  ghost predicate InOrder(es: seq<Entry>, i: nat, j: nat)
    requires i < |es| && j < |es|
  {
    es[i].ts <= es[j].ts && es[i].seqNo < es[j].seqNo
  }

  /** Time never went backwards between entries and their numbers rise, up to the handle's number
      and the present. */
  ghost predicate Orderly(es: seq<Entry>, seqNo: nat, now: Time) {
    && (forall i, j :: 0 <= i < j < |es| ==> InOrder(es, i, j))
    && (es != [] ==> es[0].seqNo >= 1 && es[|es| - 1].seqNo <= seqNo && es[|es| - 1].ts <= now)
  }

  /** Every manifest row describes a segment with at least one entry. */
  ghost predicate Described(segments: seq<Segment>) {
    forall i :: 0 <= i < |segments| ==>
      SummaryOf(Entries(segments[i].content)) == Some(segments[i].summary)
  }

  /** The handle writes where readers look, and what was written since the last unreadable line is
      one correct chain that it continues. */
  ghost predicate Inv(mac: Body -> Mac, log: Log, now: Time) {
    && log.unlinked.None?
    && Described(log.segments)
    && ChainInv(mac, Chained(log.Logical()), log.seqNo, log.lastHmac)
    && Orderly(log.Retained(), log.seqNo, now)
  }

  lemma InvLater(mac: Body -> Mac, log: Log, before: Time, now: Time)
    requires Inv(mac, log, before) && before <= now
    ensures Inv(mac, log, now)
  {
  }

  // ---- unreadable lines ----

  lemma SinceSnoc(lines: seq<Line>, last: Line)
    ensures Since(lines + [last]) == if last.Unreadable() then [] else Since(lines) + [last]
    ensures Chained(lines + [last]) ==
            if last.Unreadable() then [] else if last.Record? then Chained(lines) + [last.entry] else Chained(lines)
  {
    assert (lines + [last])[..|lines|] == lines;
    EntriesSnoc(Since(lines), last);
  }

  lemma {:induction false} SinceReadable(lines: seq<Line>)
    requires Readable(lines)
    ensures Since(lines) == lines && Chained(lines) == Entries(lines)
  {
    if lines != [] {
      var init, last := lines[..|lines| - 1], lines[|lines| - 1];
      SinceReadable(init);
      assert lines == init + [last] && last in lines;
    }
  }

  lemma ChainedBoth(x: seq<Line>, y: seq<Line>, last: Line, n: nat) returns (k: nat)
    requires n <= |Chained(x)| && Chained(y) == Chained(x)[n..]
    ensures k <= |Chained(x + [last])| && Chained(y + [last]) == Chained(x + [last])[k..]
  {
    var a, b := Chained(x), Chained(y);
    SinceSnoc(x, last);
    SinceSnoc(y, last);
    k := if last.Unreadable() then 0 else n;
    assert last.Record? ==> (a + [last.entry])[n..] == b + [last.entry];
  }

  /** Behind a line that is dropped the chain is the same or starts later. */
  lemma {:induction false} ChainedDropped(x: seq<Line>, y: seq<Line>) returns (k: nat)
    ensures k <= |Chained(x + y)| && Chained(y) == Chained(x + y)[k..]
  {
    if y == [] {
      assert x + y == x;
      k := |Chained(x)|;
    } else {
      var init, last := y[..|y| - 1], y[|y| - 1];
      k := ChainedDropped(x, init);
      assert y == init + [last] && x + y == (x + init) + [last];
      k := ChainedBoth(x + init, init, last, k);
    }
  }

  lemma {:induction false} ChainedIsSuffix(lines: seq<Line>) returns (k: nat)
    ensures k <= |Entries(lines)| && Chained(lines) == Entries(lines)[k..]
  {
    if lines == [] {
      k := 0;
    } else {
      var init, last := lines[..|lines| - 1], lines[|lines| - 1];
      k := ChainedIsSuffix(init);
      assert lines == init + [last];
      SinceSnoc(init, last);
      EntriesSnoc(init, last);
      if last.Unreadable() {
        k := |Entries(lines)|;
      }
    }
  }

  lemma ChainInvSuffix(mac: Body -> Mac, es: seq<Entry>, seqNo: nat, lastHmac: Mac, k: nat)
    requires ChainInv(mac, es, seqNo, lastHmac) && k <= |es|
    ensures ChainInv(mac, es[k..], seqNo, lastHmac)
  {
    if k < |es| {
      LinkedSuffix(mac, es, es[0].seqNo, es[0].prevHmac, k);
      assert es[k..][0] == es[k] && es[k..][|es| - k - 1] == es[|es| - 1];
    } else if es != [] {
      assert LinkedAt(mac, es, es[0].seqNo, es[0].prevHmac, |es| - 1);
    }
  }

  lemma OrderlySuffix(es: seq<Entry>, seqNo: nat, now: Time, k: nat)
    requires Orderly(es, seqNo, now) && k <= |es|
    ensures Orderly(es[k..], seqNo, now)
  {
    forall i, j | 0 <= i < j < |es[k..]|
      ensures InOrder(es[k..], i, j)
    {
      assert InOrder(es, k + i, k + j);
    }
    assert 0 < k < |es| ==> InOrder(es, 0, k);
  }

  // ---- where a segment's entries lie in the log ----

  /** How many entries the first `i` segments hold. */
  function Upto(segments: seq<Segment>, i: nat): nat
    requires i <= |segments|
  {
    if i == 0 then 0 else Upto(segments, i - 1) + |Entries(segments[i - 1].content)|
  }

  lemma {:induction false} UptoCounts(segments: seq<Segment>, i: nat)
    requires i <= |segments|
    ensures |Entries(JoinedFirst(segments, i))| == Upto(segments, i)
  {
    if i > 0 {
      UptoCounts(segments, i - 1);
      EntriesConcat(JoinedFirst(segments, i - 1), segments[i - 1].content);
    }
  }

  lemma SpanOfParts(x: seq<Entry>, y: seq<Entry>, z: seq<Entry>)
    ensures (x + (y + z))[|x|..|x| + |y|] == y
  {
  }

  lemma LogicalParts(log: Log, i: nat) returns (rest: seq<Line>)
    requires i < |log.segments|
    ensures log.Logical() == JoinedFirst(log.segments, i) + (log.segments[i].content + rest)
  {
    var front, content := JoinedFirst(log.segments, i), log.segments[i].content;
    JoinedPrefix(log.segments, i + 1, |log.segments|);
    rest := log.Logical()[|front + content|..];
    assert log.Logical() == (front + content) + rest;
  }

  /** Segment `i` holds one nonempty stretch of the retained entries. */
  lemma SegmentSpan(log: Log, i: nat)
    requires i < |log.segments| && Described(log.segments)
    ensures Upto(log.segments, i) < Upto(log.segments, i + 1) <= |log.Retained()|
    ensures log.Retained()[Upto(log.segments, i)..Upto(log.segments, i + 1)]
            == Entries(log.segments[i].content)
  {
    var front, content := JoinedFirst(log.segments, i), log.segments[i].content;
    UptoCounts(log.segments, i);
    var rest := LogicalParts(log, i);
    EntriesConcat(front, content + rest);
    EntriesConcat(content, rest);
    SpanOfParts(Entries(front), Entries(content), Entries(rest));
  }

  lemma {:induction false} UptoMonotone(log: Log, i: nat, j: nat)
    requires i <= j <= |log.segments| && Described(log.segments)
    ensures Upto(log.segments, i) <= Upto(log.segments, j)
    decreases j - i
  {
    if i < j {
      SegmentSpan(log, i);
      UptoMonotone(log, i + 1, j);
    }
  }

  /** A segment's manifest row, read off the retained entries. */
  lemma SegmentEnds(log: Log, i: nat)
    requires i < |log.segments| && Described(log.segments)
    ensures Upto(log.segments, i) < Upto(log.segments, i + 1) <= |log.Retained()|
    ensures var es, s := log.Retained(), log.segments[i].summary;
      var first, last := es[Upto(log.segments, i)], es[Upto(log.segments, i + 1) - 1];
      && s.seqStart == first.seqNo && s.firstPrevHmac == first.prevHmac
      && s.seqEnd == last.seqNo && s.lastHmac == last.hmac && s.tsLast == last.ts
  {
    SegmentSpan(log, i);
    var es := Entries(log.segments[i].content);
    var lo, hi := Upto(log.segments, i), Upto(log.segments, i + 1);
    assert es[0] == log.Retained()[lo] && es[hi - lo - 1] == log.Retained()[hi - 1];
  }

  lemma SpansOrdered(log: Log, i: nat, j: nat)
    requires Described(log.segments) && i < j < |log.segments|
    ensures Upto(log.segments, i) < Upto(log.segments, i + 1) <= Upto(log.segments, j)
            < Upto(log.segments, j + 1) <= |log.Retained()|
  {
    SegmentSpan(log, i);
    SegmentSpan(log, j);
    UptoMonotone(log, i + 1, j);
  }

  /** Of two entries the later has the greater number. */
  lemma Later(log: Log, seqNo: nat, now: Time, p: nat, q: nat)
    requires Orderly(log.Retained(), seqNo, now) && p <= q < |log.Retained()|
    ensures log.Retained()[p].seqNo <= log.Retained()[q].seqNo
    ensures p < q ==> log.Retained()[p].seqNo < log.Retained()[q].seqNo
    ensures log.Retained()[p].ts <= log.Retained()[q].ts
  {
    assert p < q ==> InOrder(log.Retained(), p, q);
  }

  /** Manifest rows are in order of sequence numbers. */
  lemma SegmentsOrdered(mac: Body -> Mac, log: Log, now: Time, i: nat, j: nat)
    requires Inv(mac, log, now) && i < j < |log.segments|
    ensures log.segments[i].summary.seqStart <= log.segments[j].summary.seqStart
    ensures log.segments[i].summary.seqEnd < log.segments[j].summary.seqEnd
  {
    SpansOrdered(log, i, j);
    SegmentEnds(log, i);
    SegmentEnds(log, j);
    Later(log, log.seqNo, now, Upto(log.segments, i), Upto(log.segments, j));
    Later(log, log.seqNo, now, Upto(log.segments, i + 1) - 1, Upto(log.segments, j + 1) - 1);
  }

  ghost predicate RowsInOrder(segments: seq<Segment>, i: nat, j: nat)
    requires i < |segments| && j < |segments|
  {
    segments[i].summary.tsLast <= segments[j].summary.tsLast
  }

  lemma SegmentsInTimeOrder(mac: Body -> Mac, log: Log, now: Time)
    requires Inv(mac, log, now)
    ensures forall i, j :: 0 <= i < j < |log.segments| ==> RowsInOrder(log.segments, i, j)
  {
    forall i, j | 0 <= i < j < |log.segments|
      ensures RowsInOrder(log.segments, i, j)
    {
      SpansOrdered(log, i, j);
      SegmentEnds(log, i);
      SegmentEnds(log, j);
      assert InOrder(log.Retained(), Upto(log.segments, i + 1) - 1, Upto(log.segments, j + 1) - 1);
    }
  }

  // ---- the invariant makes verification succeed ----

  lemma {:induction false} FirstRecord(lines: seq<Line>)
    requires Readable(lines)
    ensures FirstLine(lines) == if Entries(lines) == [] then None else Some(Record(Entries(lines)[0]))
  {
    if lines != [] {
      assert lines[0] in lines && forall line :: line in lines[1..] ==> line in lines;
      FirstRecord(lines[1..]);
      EntriesConcat([lines[0]], lines[1..]);
      assert [lines[0]] + lines[1..] == lines;
      EntriesSnoc([], lines[0]);
      assert [] + [lines[0]] == [lines[0]];
    }
  }

  lemma StartIsFirstEntry(mac: Body -> Mac, log: Log, now: Time)
    requires Inv(mac, log, now) && Readable(log.Logical()) && log.Retained() != []
    ensures Start(log.segments, log.active) == (log.Retained()[0].seqNo, log.Retained()[0].prevHmac)
  {
    SinceReadable(log.Logical());
    if log.segments == [] {
      assert log.Logical() == log.active;
      FirstRecord(log.active);
    } else {
      SegmentEnds(log, 0);
    }
  }

  lemma SegmentsInStartOrder(mac: Body -> Mac, log: Log, now: Time)
    requires Inv(mac, log, now)
    ensures Sorting.StableSort(ByStart, log.segments) == log.segments
  {
    forall i, j | 0 <= i < j < |log.segments|
      ensures ByStart(log.segments[i], log.segments[j])
    {
      SegmentsOrdered(mac, log, now, i, j);
    }
    Sorting.SortedIsFixed(ByStart, log.segments);
  }

  lemma SegmentEndMatches(log: Log, prev0: Mac, i: nat)
    requires Described(log.segments) && i < |log.segments|
    ensures LastHmacMatches(log.segments, prev0, i)
  {
    SegmentSpan(log, i);
    EntriesConcat(JoinedFirst(log.segments, i), log.segments[i].content);
  }

  /** Every log that satisfies the invariant passes verification exactly when every line of it can
      be read. */
  lemma InvIsSound(mac: Body -> Mac, log: Log, now: Time)
    requires Inv(mac, log, now)
    ensures Sorting.StableSort(ByStart, log.segments) == log.segments
    ensures Sound(mac, log.segments, log.active) <==> Readable(log.Logical())
  {
    SegmentsInStartOrder(mac, log, now);
    if Readable(log.Logical()) {
      var start := Start(log.segments, log.active);
      SinceReadable(log.Logical());
      assert Accepted(mac, log.Logical(), start.0, start.1) by {
        if log.Retained() != [] {
          StartIsFirstEntry(mac, log, now);
        }
      }
      forall i | 0 <= i < |log.segments|
        ensures LastHmacMatches(log.segments, start.1, i)
      {
        SegmentEndMatches(log, start.1, i);
      }
    }
  }

  // ---- each operation keeps it ----

  /** What is added to the entries that can be read back. */
  function ReadBack(e: Entry): seq<Entry> {
    if e.event.Parses() then [e] else []
  }

  /** What a written line adds to the log. */
  lemma WrittenAdds(log: Log, e: Entry)
    requires log.unlinked.None?
    ensures Written(log, e).Logical() == log.Logical() + [LineOf(e)]
    ensures Written(log, e).Retained() == log.Retained() + ReadBack(e)
    ensures Chained(Written(log, e).Logical()) == if e.event.Parses() then Chained(log.Logical()) + [e] else []
  {
    assert Written(log, e).Logical() == log.Logical() + [LineOf(e)];
    EntriesSnoc(log.Logical(), LineOf(e));
    SinceSnoc(log.Logical(), LineOf(e));
  }

  lemma WrittenKeepsInv(mac: Body -> Mac, log: Log, before: Time, now: Time, actor: string, event: Event)
    requires Inv(mac, log, before) && before <= now
    ensures var e := NextEntry(mac, log, now, actor, event);
      && Inv(mac, Written(log, e), now)
      && Written(log, e).Logical() == log.Logical() + [LineOf(e)]
      && Written(log, e).Retained() == log.Retained() + ReadBack(e)
  {
    var e := NextEntry(mac, log, now, actor, event);
    var r, es, chain := Written(log, e), log.Retained(), Chained(log.Logical());
    WrittenAdds(log, e);
    if event.Parses() {
      ChainSnoc(mac, chain, log.seqNo, log.lastHmac, e);
      OrderlySnoc(es, log.seqNo, before, e);
      assert ChainInv(mac, chain + [e], r.seqNo, r.lastHmac) && Orderly(es + [e], r.seqNo, now);
    } else {
      assert es + [] == es;
      assert ChainInv(mac, [], r.seqNo, r.lastHmac) && Orderly(es, r.seqNo, now);
    }
  }

  lemma ChainSnoc(mac: Body -> Mac, es: seq<Entry>, seqNo: nat, lastHmac: Mac, e: Entry)
    requires ChainInv(mac, es, seqNo, lastHmac)
    requires e.seqNo == seqNo + 1 && e.prevHmac == lastHmac && e.hmac == mac(e.Covered())
    ensures ChainInv(mac, es + [e], e.seqNo, e.hmac)
  {
    if es == [] {
      assert LinkedAt(mac, [e], e.seqNo, e.prevHmac, 0);
      assert es + [e] == [e];
    } else {
      var seq0, prev0 := es[0].seqNo, es[0].prevHmac;
      assert LinkedAt(mac, es, seq0, prev0, |es| - 1);
      assert LinkedAt(mac, [e], seq0 + |es|, EndHmac(es, prev0), 0);
      LinkedConcat(mac, es, [e], seq0, prev0);
    }
  }

  lemma OrderlySnoc(es: seq<Entry>, seqNo: nat, before: Time, e: Entry)
    requires Orderly(es, seqNo, before) && before <= e.ts && seqNo < e.seqNo
    ensures Orderly(es + [e], e.seqNo, e.ts)
  {
    forall i, j | 0 <= i < j < |es + [e]|
      ensures InOrder(es + [e], i, j)
    {
      assert j < |es| ==> InOrder(es, i, j);
      assert i < |es| - 1 ==> InOrder(es, i, |es| - 1);
    }
  }

  /** Rotation is invisible: the logical log, the sequence number and the running MAC stay, and the
      handle is never left behind. */
  lemma RotationInvisible(mac: Body -> Mac, width: Line -> nat, log: Log, cfg: RotateConfig, now: Time)
    ensures var r := Rotated(width, log, cfg, now);
      && r.Logical() == log.Logical()
      && r.seqNo == log.seqNo && r.lastHmac == log.lastHmac && r.rotate == log.rotate
      && (log.unlinked.None? ==> r.unlinked.None?)
      && (forall before :: Inv(mac, log, before) ==> Inv(mac, r, before))
  {
    var r := Rotated(width, log, cfg, now);
    if Due(width, log.Held(), log.active, cfg, now) {
      JoinedFirstOf(log.segments, [Sealed(log.active)], |log.segments|);
    }
  }

  lemma AppendedKeepsInv(mac: Body -> Mac, width: Line -> nat, log: Log, before: Time, now: Time,
                         actor: string, event: Event)
    requires Inv(mac, log, before) && before <= now
    ensures var r := Appended(mac, width, log, now, actor, event);
      Inv(mac, r, now) && r.Retained() == log.Retained() + ReadBack(NextEntry(mac, log, now, actor, event))
  {
    WrittenKeepsInv(mac, log, before, now, actor, event);
    var written := Written(log, NextEntry(mac, log, now, actor, event));
    RotationInvisible(mac, width, written, RotateConfig(log.rotate.maxBytes, 0), now);
  }

  /** With rows in order of time, the unexpired segments are a suffix. */
  lemma {:induction false} UnexpiredIsSuffix(segments: seq<Segment>, n: nat, cutoff: Time) returns (k: nat)
    requires n <= |segments|
    requires forall i, j :: 0 <= i < j < |segments| ==> RowsInOrder(segments, i, j)
    ensures k <= n && Unexpired(segments, n, cutoff) == segments[k..n]
    ensures k > 0 ==> segments[k - 1].summary.tsLast < cutoff
    ensures k < n ==> segments[k].summary.tsLast >= cutoff
  {
    if n == 0 {
      k := 0;
    } else {
      k := UnexpiredIsSuffix(segments, n - 1, cutoff);
      assert k < n - 1 ==> RowsInOrder(segments, k, n - 1);
      if segments[n - 1].summary.tsLast < cutoff {
        k := n;
      }
    }
  }

  /** Dropping whole segments from the front drops their entries from the front. */
  lemma SegmentsDropped(mac: Body -> Mac, log: Log, now: Time, k: nat)
    requires Inv(mac, log, now) && k <= |log.segments|
    ensures Upto(log.segments, k) <= |log.Retained()|
    ensures var r := log.(segments := log.segments[k..]);
      Inv(mac, r, now) && r.Retained() == log.Retained()[Upto(log.segments, k)..]
  {
    var r := log.(segments := log.segments[k..]);
    RetainedDropped(log, k);
    LogicalDropped(log, k);
    var c := ChainedDropped(JoinedFirst(log.segments, k), r.Logical());
    DescribedDropped(log.segments, k);
    ChainInvSuffix(mac, Chained(log.Logical()), log.seqNo, log.lastHmac, c);
    OrderlySuffix(log.Retained(), log.seqNo, now, Upto(log.segments, k));
  }

  lemma DescribedDropped(segments: seq<Segment>, k: nat)
    requires Described(segments) && k <= |segments|
    ensures Described(segments[k..])
  {
    assert forall i :: 0 <= i < |segments[k..]| ==> segments[k..][i] == segments[k + i];
  }

  lemma LogicalDropped(log: Log, k: nat)
    requires k <= |log.segments|
    ensures log.Logical() == JoinedFirst(log.segments, k) + log.(segments := log.segments[k..]).Logical()
  {
    JoinedDrop(log.segments, k, |log.segments| - k);
  }

  lemma RetainedDropped(log: Log, k: nat)
    requires k <= |log.segments|
    ensures Upto(log.segments, k) <= |log.Retained()|
    ensures var r := log.(segments := log.segments[k..]);
      r.Retained() == log.Retained()[Upto(log.segments, k)..]
  {
    var r, front := log.(segments := log.segments[k..]), JoinedFirst(log.segments, k);
    LogicalDropped(log, k);
    UptoCounts(log.segments, k);
    EntriesConcat(front, r.Logical());
  }

  /** Everything up to the end of a segment that ended before the cutoff is older than it. */
  lemma OlderUpto(mac: Body -> Mac, log: Log, now: Time, k: nat, cutoff: Time)
    requires Inv(mac, log, now) && k <= |log.segments|
    requires k > 0 ==> log.segments[k - 1].summary.tsLast < cutoff
    ensures Upto(log.segments, k) <= |log.Retained()|
    ensures forall i :: 0 <= i < Upto(log.segments, k) ==> log.Retained()[i].ts < cutoff
  {
    if k > 0 {
      SegmentEnds(log, k - 1);
      var es, last := log.Retained(), Upto(log.segments, k) - 1;
      forall i | 0 <= i < Upto(log.segments, k)
        ensures es[i].ts < cutoff
      {
        assert i < last ==> InOrder(es, i, last);
      }
    }
  }

  /** Under the invariant, segment retention drops the first `k` segments. */
  lemma ExpiredDropsFirst(mac: Body -> Mac, log: Log, now: Time, retainDays: nat) returns (k: nat)
    requires Inv(mac, log, now)
    ensures k <= |log.segments|
    ensures Expired(log, now, retainDays) == log.(segments := log.segments[k..])
    ensures k > 0 ==> Overdue(log.segments[k - 1].summary.tsLast, now, retainDays)
  {
    if retainDays == 0 {
      k := 0;
    } else {
      SegmentsInTimeOrder(mac, log, now);
      k := UnexpiredIsSuffix(log.segments, |log.segments|, now - retainDays * DAY);
      assert log.segments[k..|log.segments|] == log.segments[k..];
    }
  }

  /** Segment retention removes a prefix of the entries, all of them overdue. */
  lemma ExpiredKeepsInv(mac: Body -> Mac, log: Log, now: Time, retainDays: nat) returns (n: nat)
    requires Inv(mac, log, now)
    ensures Inv(mac, Expired(log, now, retainDays), now)
    ensures n <= |log.Retained()| && Expired(log, now, retainDays).Retained() == log.Retained()[n..]
    ensures forall i :: 0 <= i < n ==> Overdue(log.Retained()[i].ts, now, retainDays)
  {
    var k := ExpiredDropsFirst(mac, log, now, retainDays);
    var r := log.(segments := log.segments[k..]);
    n := Upto(log.segments, k);
    assert Inv(mac, r, now) && n <= |log.Retained()| && r.Retained() == log.Retained()[n..] by {
      SegmentsDropped(mac, log, now, k);
    }
    assert retainDays == 0 ==> k == 0;
    OlderUpto(mac, log, now, k, now - retainDays * DAY);
  }

  lemma {:induction false} LatestIsLast(segments: seq<Segment>)
    requires segments != []
    requires forall i :: 0 <= i < |segments| ==>
               segments[i].summary.seqEnd <= segments[|segments| - 1].summary.seqEnd
    ensures LatestSegment(segments) == segments[|segments| - 1]
  {
    LatestIsMember(segments);
    if |segments| > 1 {
      LatestIsMember(segments[..|segments| - 1]);
    }
  }

  lemma {:induction false} LatestIsMember(segments: seq<Segment>)
    requires segments != []
    ensures LatestSegment(segments) in segments
  {
    if |segments| > 1 {
      LatestIsMember(segments[..|segments| - 1]);
    }
  }

  lemma TailOfSegments(mac: Body -> Mac, log: Log, now: Time)
    requires Inv(mac, log, now) && log.segments != [] && Entries(log.active) == []
    ensures log.Retained() != []
    ensures var last := log.Retained()[|log.Retained()| - 1];
      Tail(log.segments, log.active) == (last.seqNo, last.hmac)
  {
    var last := |log.segments| - 1;
    forall i | 0 <= i < last
      ensures log.segments[i].summary.seqEnd <= log.segments[last].summary.seqEnd
    {
      SegmentsOrdered(mac, log, now, i, last);
    }
    LatestIsLast(log.segments);
    EntriesConcat(Joined(log.segments), log.active);
    UptoCounts(log.segments, |log.segments|);
    SegmentEnds(log, last);
  }

  /** What opening the files finds is the last retained entry. */
  lemma TailIsLast(mac: Body -> Mac, log: Log, now: Time)
    requires Inv(mac, log, now) && log.Retained() != []
    ensures var last := log.Retained()[|log.Retained()| - 1];
      Tail(log.segments, log.active) == (last.seqNo, last.hmac)
  {
    var es, tail := log.Retained(), Entries(log.active);
    EntriesConcat(Joined(log.segments), log.active);
    if tail == [] {
      assert log.segments != [];
      TailOfSegments(mac, log, now);
    } else {
      var last := tail[|tail| - 1];
      assert es[|es| - 1] == last;
      Later(log, log.seqNo, now, 0, |es| - 1);
      assert last.seqNo >= 1;
      assert EndHmac(tail, GENESIS_HMAC) == last.hmac;
    }
  }

  lemma TailOfNothing(log: Log)
    requires Described(log.segments) && log.Retained() == []
    ensures Tail(log.segments, log.active) == (0, GENESIS_HMAC)
  {
    EntriesConcat(Joined(log.segments), log.active);
    if log.segments != [] {
      SegmentSpan(log, 0);
    }
    assert log.segments == [];
  }

  /** Reopening keeps the invariant and changes nothing on disk. It restores the handle exactly when
      an entry follows the last unreadable line, and numbers from one when no entry is left. */
  lemma ReopenRestores(mac: Body -> Mac, log: Log, now: Time)
    requires Inv(mac, log, now)
    ensures Reopened(log).Logical() == log.Logical() && Inv(mac, Reopened(log), now)
    ensures Chained(log.Logical()) != [] ==>
            Reopened(log).seqNo == log.seqNo && Reopened(log).lastHmac == log.lastHmac
    ensures log.Retained() == [] ==>
            Reopened(log).seqNo == 0 && Reopened(log).lastHmac == GENESIS_HMAC
  {
    var k := ChainedIsSuffix(log.Logical());
    if log.Retained() != [] {
      TailIsLast(mac, log, now);
      Later(log, log.seqNo, now, 0, |log.Retained()| - 1);
    } else {
      TailOfNothing(log);
    }
  }
}
