/** What the audit log's operations do, in terms of what goes in and what comes out. */
module AuditMeaning {
  import opened Prelude
  import opened AuditChain
  import opened AuditStore
  import opened AuditVerify
  import opened AuditRuns
  import opened AuditPruning
  import opened AuditTheorems

  // ---- appending ----

  /** The entry says what was asked for, is next in number, and carries the chain on. */
  ghost predicate Continues(mac: Body -> Mac, log: Log, now: Time, actor: string, event: Event, e: Entry) {
    && e.ts == now && e.actor == actor && e.event == event
    && e.seqNo == log.seqNo + 1 && e.prevHmac == log.lastHmac
    && e.hmac == mac(Body(now, log.seqNo + 1, actor, log.lastHmac, event))
  }

  /** An append adds one line at the end of the file in the handle and moves the handle's number and
      MAC to it. Unless rotation follows nothing else changes; if the handle is attached the logical
      log grows by that line in any case. */
  lemma AppendWrites(mac: Body -> Mac, width: Line -> nat, log: Log, now: Time, actor: string, event: Event)
    returns (e: Entry)
    ensures Continues(mac, log, now, actor, event, e)
    ensures var r := Appended(mac, width, log, now, actor, event);
      var line := if event.kind == "workspace_shredded" then Clashing(e) else Record(e);
      && r.seqNo == e.seqNo && r.lastHmac == e.hmac && r.rotate == log.rotate
      && (log.unlinked.None? ==> r.Logical() == log.Logical() + [line])
      && (log.unlinked.Some? ==> r.Logical() == log.Logical())
      && (r.segments == log.segments ==>
            if log.unlinked.None? then r.active == log.active + [line] && r.unlinked.None?
            else r.active == log.active && r.unlinked == Some(log.unlinked.value + [line]))
  {
    e := NextEntry(mac, log, now, actor, event);
    AppendReachesDiskIff(mac, width, log, now, actor, event);
    RotationInvisible(mac, width, Written(log, e), RotateConfig(log.rotate.maxBytes, 0), now);
  }

  // ---- what a run tells ----

  datatype Fact = Fact(ts: Time, actor: string, event: Event)

  /** What an operation asks to be recorded and can be read back. */
  function Asks(op: Op): seq<Fact> {
    match op
    case Append(now, actor, event) =>
      if event.kind == "workspace_shredded" then [] else [Fact(now, actor, event)]
    case _ => []
  }

  /** The same of a run, in order. */
  function Asked(ops: seq<Op>): seq<Fact> {
    if ops == [] then [] else Asks(ops[0]) + Asked(ops[1..])
  }

  /** What entries tell. */
  function Told(es: seq<Entry>): (r: seq<Fact>)
    ensures |r| == |es| && forall i :: 0 <= i < |es| ==> r[i] == Fact(es[i].ts, es[i].actor, es[i].event)
  {
    seq(|es|, i requires 0 <= i < |es| => Fact(es[i].ts, es[i].actor, es[i].event))
  }

  lemma MadeTells(mac: Body -> Mac, log: Log, op: Op)
    ensures Told(Made(mac, log, op)) == Asks(op)
  {
  }

  lemma ToldConcat(x: seq<Entry>, y: seq<Entry>)
    ensures Told(x + y) == Told(x) + Told(y)
  {
  }

  lemma {:induction false} HistoryTells(mac: Body -> Mac, width: Line -> nat, log: Log, ops: seq<Op>)
    ensures Told(History(mac, width, log, ops)) == Asked(ops)
    decreases |ops|
  {
    if ops != [] {
      var next := Step(mac, width, log, ops[0]);
      MadeTells(mac, log, ops[0]);
      ToldConcat(Made(mac, log, ops[0]), History(mac, width, next, ops[1..]));
      HistoryTells(mac, width, next, ops[1..]);
    }
  }

  /** After a quiet run the entries retained tell, in order, the last of what the run was asked to record;
      whatever it was asked before was overdue. */
  lemma QuietRunTells(mac: Body -> Mac, width: Line -> nat, start: Time, ops: seq<Op>) returns (n: nat)
    requires Clocked(start, ops) && Quiet(mac, width, FRESH, ops)
    ensures n <= |Asked(ops)| && Told(Run(mac, width, FRESH, ops).Retained()) == Asked(ops)[n..]
    ensures forall i :: 0 <= i < n ==> Over(ops, Asked(ops)[i].ts)
  {
    EveryQuietRunVerifies(mac, width, start, ops);
    HistoryTells(mac, width, FRESH, ops);
    var all, kept := History(mac, width, FRESH, ops), Run(mac, width, FRESH, ops).Retained();
    n :| Accounts(all, kept, ops, n);
    var asked := Asked(ops);
    assert Told(kept) == Told(all)[n..];
    forall i | 0 <= i < n
      ensures Over(ops, asked[i].ts)
    {
      assert asked[i].ts == all[i].ts && Over(ops, all[i].ts);
    }
  }

  /** Retention is over for an entry exactly when it is more than that many days of 24 hours old. */
  lemma EndsMeaning(op: Op, ts: Time)
    ensures op.Ends(ts) <==>
            match op
            case Retain(now, days) => days > 0 && now - ts > days * 86_400_000_000_000
            case Prune(now, days) => days > 0 && now - ts > days * 86_400_000_000_000
            case Sweep(at, _, days) => days > 0 && at.pruning - ts > days * 86_400_000_000_000
            case ClosedSweep(now, days) => days > 0 && now - ts > days * 86_400_000_000_000
            case _ => false
  {
  }

  // ---- when a file is sealed ----

  lemma {:induction false} FileSizeConcat(width: Line -> nat, x: seq<Line>, y: seq<Line>)
    ensures FileSize(width, x + y) == FileSize(width, x) + FileSize(width, y)
  {
    if x == [] {
      assert x + y == y;
    } else {
      assert (x + y)[1..] == x[1..] + y;
      FileSizeConcat(width, x[1..], y);
    }
  }

  /** Rotation seals the active file exactly when it holds an entry and either the file in the handle
      has reached the size limit or the first entry is older than that many days of 24 hours. */
  lemma RotatesIff(width: Line -> nat, log: Log, cfg: RotateConfig, now: Time)
    ensures var r, es := Rotated(width, log, cfg, now), Entries(log.active);
      && (r.segments != log.segments <==>
            && log.Held() != [] && es != []
            && (|| (cfg.maxBytes > 0 && FileSize(width, log.Held()) >= cfg.maxBytes)
                || (cfg.maxAgeDays > 0 && now - es[0].ts > cfg.maxAgeDays * 86_400_000_000_000)))
      && (r.segments == log.segments ==> r == log)
      && (r.segments != log.segments ==>
            && |r.segments| == |log.segments| + 1 && r.segments[..|log.segments|] == log.segments
            && r.segments[|log.segments|].content == log.active
            && r.active == [] && r.unlinked == None
            && r.seqNo == log.seqNo && r.lastHmac == log.lastHmac && r.rotate == log.rotate)
  {
    var r := Rotated(width, log, cfg, now);
    assert Entries([]) == [];
    if Due(width, log.Held(), log.active, cfg, now) {
      assert |r.segments| == |log.segments| + 1;
    }
  }

  // ---- what retention and pruning take ----

  /** The elements of `kept` are those of `all` at these positions, in order. */
  ghost predicate Picked<T>(all: seq<T>, kept: seq<T>, at: seq<nat>) {
    && |at| == |kept|
    && (forall i, j :: 0 <= i < j < |at| ==> at[i] < at[j])
    && (forall i :: 0 <= i < |at| ==> at[i] < |all| && kept[i] == all[at[i]])
  }

  /** The segment's last entry is more than that many days of 24 hours old. */
  ghost predicate SegmentOver(segment: Segment, now: Time, retainDays: nat) {
    retainDays > 0 && now - segment.summary.tsLast > retainDays * 86_400_000_000_000
  }

  ghost predicate LineOver(line: Line, now: Time, retainDays: nat) {
    retainDays > 0 && line.Record? && now - line.entry.ts > retainDays * 86_400_000_000_000
  }

  lemma PickedMore<T>(all: seq<T>, kept: seq<T>, at: seq<nat>, n: nat)
    requires n < |all| && Picked(all, kept, at) && forall i :: 0 <= i < |at| ==> at[i] < n
    ensures Picked(all, kept + [all[n]], at + [n]) && forall i :: 0 <= i < |at + [n]| ==> (at + [n])[i] < n + 1
  {
  }

  ghost predicate TakesUnexpired(segments: seq<Segment>, n: nat, cutoff: Time, kept: seq<Segment>, at: seq<nat>)
    requires n <= |segments|
  {
    && Picked(segments, kept, at) && (forall i :: 0 <= i < |at| ==> at[i] < n)
    && forall k :: 0 <= k < n ==> (k in at <==> segments[k].summary.tsLast >= cutoff)
  }

  lemma {:induction false} UnexpiredTakes(segments: seq<Segment>, n: nat, cutoff: Time, kept: seq<Segment>)
    returns (at: seq<nat>)
    requires n <= |segments| && kept == Unexpired(segments, n, cutoff)
    ensures TakesUnexpired(segments, n, cutoff, kept, at)
  {
    at := [];
    if n > 0 {
      at := UnexpiredTakes(segments, n - 1, cutoff, Unexpired(segments, n - 1, cutoff));
      if segments[n - 1].summary.tsLast >= cutoff {
        PickedMore(segments, Unexpired(segments, n - 1, cutoff), at, n - 1);
        at := at + [n - 1];
      }
    }
    hide Unexpired;
  }

  /** Retention drops exactly the segments that are over and changes nothing else. */
  lemma RetentionTakes(log: Log, now: Time, retainDays: nat) returns (at: seq<nat>)
    ensures var r := Expired(log, now, retainDays);
      && Picked(log.segments, r.segments, at) && r.(segments := log.segments) == log
      && forall k :: 0 <= k < |log.segments| ==> (k in at <==> !SegmentOver(log.segments[k], now, retainDays))
  {
    if retainDays == 0 {
      at := seq(|log.segments|, i => i);
      assert forall k :: 0 <= k < |at| ==> at[k] == k;
    } else {
      var cutoff := now - retainDays * DAY;
      at := UnexpiredTakes(log.segments, |log.segments|, cutoff, Expired(log, now, retainDays).segments);
    }
  }

  lemma {:induction false} KeptTakes(lines: seq<Line>, cutoff: Time) returns (at: seq<nat>)
    ensures Picked(lines, KeptLines(lines, cutoff), at)
    ensures forall k :: 0 <= k < |lines| ==>
              (k in at <==> !lines[k].Blank? && !(lines[k].Record? && lines[k].entry.ts < cutoff))
    ensures Stale(Entries(lines), cutoff) > 0 <==>
            exists k :: 0 <= k < |lines| && lines[k].Record? && lines[k].entry.ts < cutoff
  {
    at := [];
    if lines != [] {
      var n := |lines| - 1;
      var init, last := lines[..n], lines[n];
      at := KeptTakes(init, cutoff);
      assert lines == init + [last];
      EntriesSnoc(init, last);
      if last.Record? {
        StaleSnoc(Entries(init), last.entry, cutoff);
      }
      assert forall k :: 0 <= k < n ==> lines[k] == init[k];
      if PruneKeeps(last, cutoff) {
        at := at + [n];
      }
    }
  }

  /** Pruning puts a file without the entries that are over, and without blank lines, under the log's name,
      if there is such an entry; the handle keeps the file it had. */
  lemma PruningTakes(log: Log, now: Time, retainDays: nat) returns (at: seq<nat>)
    ensures var r := Pruned(log, now, retainDays);
      if exists k :: 0 <= k < |log.active| && LineOver(log.active[k], now, retainDays) then
        && Picked(log.active, r.active, at)
        && (forall k :: 0 <= k < |log.active| ==>
              (k in at <==> !log.active[k].Blank? && !LineOver(log.active[k], now, retainDays)))
        && r == log.(active := r.active, unlinked := Some(log.Held()))
      else r == log
  {
    at := [];
    if retainDays > 0 {
      at := KeptTakes(log.active, now - retainDays * DAY);
      assert forall line :: LineOver(line, now, retainDays) <==>
                            line.Record? && line.entry.ts < now - retainDays * DAY;
    }
  }

  // ---- when a log is sound ----

  /** Without blank lines in front, the first line; if every line can be read, the first entry. */
  lemma {:induction false} FirstLineIsFirstEntry(lines: seq<Line>)
    requires Readable(lines)
    ensures FirstLine(lines) == if Entries(lines) == [] then None else Some(Record(Entries(lines)[0]))
  {
    if lines != [] {
      assert lines == [lines[0]] + lines[1..];
      EntriesConcat([lines[0]], lines[1..]);
      EntriesSnoc([], lines[0]);
      assert [] + [lines[0]] == [lines[0]];
      assert forall line :: line in lines[1..] ==> line in lines;
      assert lines[0] in lines;
      if lines[0].Blank? {
        FirstLineIsFirstEntry(lines[1..]);
      }
    }
  }

  /** A log without segments is sound exactly when every line can be read and the entries are a chain
      from the first on; if that has number one, it names 64 zeros as the MAC before it. */
  lemma SoundFileIff(mac: Body -> Mac, lines: seq<Line>)
    ensures var es := Entries(lines);
      Sound(mac, [], lines) <==>
      && Readable(lines)
      && (es != [] ==>
            && es[0].seqNo >= 1
            && (es[0].seqNo == 1 ==>
                  es[0].prevHmac == "0000000000000000000000000000000000000000000000000000000000000000")
            && Linked(mac, es, es[0].seqNo, es[0].prevHmac))
  {
    var es := Entries(lines);
    assert Joined([]) + lines == lines;
    if Readable(lines) {
      FirstLineIsFirstEntry(lines);
      if es != [] && Linked(mac, es, 1, GENESIS_HMAC) {
        assert LinkedAt(mac, es, 1, GENESIS_HMAC, 0);
      }
    }
  }

  /** What is read up to the end of segment `i` ends in the MAC that its manifest row claims. */
  ghost predicate EndsAsClaimed(segments: seq<Segment>, before: Mac, i: nat)
    requires i < |segments|
  {
    var es := Entries(JoinedFirst(segments, i + 1));
    segments[i].summary.lastHmac == if es == [] then before else es[|es| - 1].hmac
  }

  /** A log with segments, in order of their first numbers, is sound exactly when every line can be read, the
      entries are a chain from the number and MAC that the first manifest row claims, where number one
      stands for 64 zeros, and the entries up to the end of each segment end in the MAC its row claims. */
  lemma SoundWithSegmentsIff(mac: Body -> Mac, segments: seq<Segment>, active: seq<Line>)
    requires segments != []
    ensures var lines, first := Joined(segments) + active, segments[0].summary;
      var before := if first.seqStart == 1 then "0000000000000000000000000000000000000000000000000000000000000000"
                    else first.firstPrevHmac;
      Sound(mac, segments, active) <==>
      && Readable(lines) && Linked(mac, Entries(lines), first.seqStart, before)
      && forall i :: 0 <= i < |segments| ==> EndsAsClaimed(segments, before, i)
  {
    hide Linked, Readable, Joined, Entries;
    var first := segments[0].summary;
    var before := if first.seqStart == 1 then GENESIS_HMAC else first.firstPrevHmac;
    forall i | 0 <= i < |segments|
      ensures EndsAsClaimed(segments, before, i) <==> LastHmacMatches(segments, before, i)
    {
    }
  }
}
