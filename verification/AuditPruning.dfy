/** The retention passes: pruning of the active file, closed or under an open handle. */
module AuditPruning {
  import opened Prelude
  import opened AuditChain
  import opened AuditStore
  import opened AuditRuns

  // ---- what pruning leaves ----

  function NotStale(es: seq<Entry>, cutoff: Time): seq<Entry> {
    if es == [] then []
    else
      var init := NotStale(es[..|es| - 1], cutoff);
      if es[|es| - 1].ts < cutoff then init else init + [es[|es| - 1]]
  }

  lemma {:induction false} KeptEntries(lines: seq<Line>, cutoff: Time)
    ensures Entries(KeptLines(lines, cutoff)) == NotStale(Entries(lines), cutoff)
  {
    if lines != [] {
      var init, last := lines[..|lines| - 1], lines[|lines| - 1];
      KeptEntries(init, cutoff);
      var kept := KeptLines(init, cutoff);
      EntriesSnoc(kept, last);
      assert kept + [] == kept;
      if last.Record? {
        assert Entries(lines)[..|Entries(init)|] == Entries(init);
      }
    }
  }

  lemma {:induction false} StaleIsPrefix(es: seq<Entry>, cutoff: Time)
    requires forall i, j :: 0 <= i < j < |es| ==> InOrder(es, i, j)
    ensures Stale(es, cutoff) <= |es|
    ensures NotStale(es, cutoff) == es[Stale(es, cutoff)..]
    ensures forall i :: 0 <= i < |es| ==> (es[i].ts < cutoff <==> i < Stale(es, cutoff))
  {
    if es != [] {
      var init, last := es[..|es| - 1], |es| - 1;
      forall i, j | 0 <= i < j < |init|
        ensures InOrder(init, i, j)
      {
        assert InOrder(es, i, j);
      }
      StaleIsPrefix(init, cutoff);
      assert init != [] ==> init[last - 1].ts == es[last - 1].ts && InOrder(es, last - 1, last);
      assert es == init + [es[last]];
    }
  }

  lemma KeptSnoc(lines: seq<Line>, last: Line, cutoff: Time)
    ensures KeptLines(lines + [last], cutoff) ==
            if PruneKeeps(last, cutoff) then KeptLines(lines, cutoff) + [last] else KeptLines(lines, cutoff)
  {
    var kept := KeptLines(lines, cutoff);
    assert (lines + [last])[..|lines|] == lines;
    assert kept + [] == kept;
  }

  /** Pruning keeps unreadable lines. */
  lemma {:induction false} KeptReadable(lines: seq<Line>, cutoff: Time)
    ensures Readable(lines) <==> Readable(KeptLines(lines, cutoff))
  {
    if lines != [] {
      var init, last := lines[..|lines| - 1], lines[|lines| - 1];
      KeptReadable(init, cutoff);
      KeptSnoc(init, last, cutoff);
      assert lines == init + [last];
      ReadableSnoc(init, last);
      ReadableSnoc(KeptLines(init, cutoff), last);
    }
  }

  lemma ReadableSnoc(lines: seq<Line>, last: Line)
    ensures Readable(lines + [last]) <==> Readable(lines) && !last.Unreadable()
  {
    assert last in lines + [last] && forall line :: line in lines ==> line in lines + [last];
  }

  lemma KeptSinceSnoc(init: seq<Line>, last: Line, cutoff: Time)
    requires Since(KeptLines(init, cutoff)) == KeptLines(Since(init), cutoff)
    ensures Since(KeptLines(init + [last], cutoff)) == KeptLines(Since(init + [last]), cutoff)
  {
    KeptSnoc(init, last, cutoff);
    SinceSnoc(KeptLines(init, cutoff), last);
    SinceSnoc(init, last);
    KeptSnoc(Since(init), last, cutoff);
    assert KeptLines([], cutoff) == [];
    hide Since, KeptLines;
  }

  /** What is behind the last unreadable line is pruned like a file of its own. */
  lemma {:induction false} KeptSince(lines: seq<Line>, cutoff: Time)
    ensures Since(KeptLines(lines, cutoff)) == KeptLines(Since(lines), cutoff)
  {
    if lines != [] {
      var init, last := lines[..|lines| - 1], lines[|lines| - 1];
      KeptSince(init, cutoff);
      KeptSinceSnoc(init, last, cutoff);
      assert lines == init + [last];
    }
  }

  lemma KeptChained(lines: seq<Line>, cutoff: Time)
    ensures Chained(KeptLines(lines, cutoff)) == NotStale(Chained(lines), cutoff)
  {
    KeptSince(lines, cutoff);
    KeptEntries(Since(lines), cutoff);
  }

  lemma ActiveInOrder(mac: Body -> Mac, log: Log, now: Time)
    requires Inv(mac, log, now)
    ensures forall i, j :: 0 <= i < j < |Entries(log.active)| ==> InOrder(Entries(log.active), i, j)
  {
    var p, es := |Entries(Joined(log.segments))|, Entries(log.active);
    EntriesConcat(Joined(log.segments), log.active);
    forall i, j | 0 <= i < j < |es|
      ensures InOrder(es, i, j)
    {
      assert InOrder(log.Retained(), p + i, p + j);
    }
  }

  /** Pruning the active file drops exactly its entries older than the cutoff, a prefix of it. */
  lemma PrunedActive(mac: Body -> Mac, log: Log, now: Time, cutoff: Time)
    requires Inv(mac, log, now)
    ensures var es, r, n := Entries(log.active), PrunedFile(log.active, cutoff), Stale(Entries(log.active), cutoff);
      && n <= |es|
      && Entries(r) == es[n..]
      && (Readable(r) <==> Readable(log.active))
      && (forall i :: 0 <= i < |es| ==> (es[i].ts < cutoff <==> i < n))
  {
    ActiveInOrder(mac, log, now);
    StaleIsPrefix(Entries(log.active), cutoff);
    KeptEntries(log.active, cutoff);
    KeptReadable(log.active, cutoff);
  }

  /** Of the chain, too, pruning drops a prefix. */
  lemma PrunedChain(mac: Body -> Mac, log: Log, now: Time, cutoff: Time) returns (k: nat)
    requires Inv(mac, log, now) && log.segments == []
    ensures k <= |Chained(log.active)| && Chained(KeptLines(log.active, cutoff)) == Chained(log.active)[k..]
  {
    var es := Entries(log.active);
    var c := ChainedIsSuffix(log.active);
    ActiveInOrder(mac, log, now);
    forall i, j | 0 <= i < j < |es[c..]|
      ensures InOrder(es[c..], i, j)
    {
      assert InOrder(es, c + i, c + j);
    }
    StaleIsPrefix(es[c..], cutoff);
    KeptChained(log.active, cutoff);
    k := Stale(es[c..], cutoff);
  }

  // ---- over a closed log ----

  /** Pruning a closed log is safe when nothing is stale or no segment comes before the active file. */
  lemma PrunedKeepsInv(mac: Body -> Mac, log: Log, now: Time, cutoff: Time)
    requires Inv(mac, log, now)
    requires log.segments == [] || Stale(Entries(log.active), cutoff) == 0
    ensures Inv(mac, log.(active := PrunedFile(log.active, cutoff)), now)
    ensures var n := Stale(Entries(log.active), cutoff);
      && n <= |log.Retained()|
      && log.(active := PrunedFile(log.active, cutoff)).Retained() == log.Retained()[n..]
      && (forall i :: 0 <= i < n ==> log.Retained()[i].ts < cutoff)
  {
    var r, n := log.(active := PrunedFile(log.active, cutoff)), Stale(Entries(log.active), cutoff);
    PrunedActive(mac, log, now, cutoff);
    if n == 0 {
      assert r == log;
    } else {
      assert log.Logical() == log.active && r.Logical() == r.active;
      var k := PrunedChain(mac, log, now, cutoff);
      ChainInvSuffix(mac, Chained(log.Logical()), log.seqNo, log.lastHmac, k);
      OrderlySuffix(log.Retained(), log.seqNo, now, n);
    }
  }

  /** Pruning right after segment retention at the same cutoff is safe. */
  lemma PrunedAfterExpired(mac: Body -> Mac, log: Log, now: Time, retainDays: nat)
    requires retainDays > 0 && Inv(mac, Expired(log, now, retainDays), now)
    ensures var kept, cutoff := Expired(log, now, retainDays), now - retainDays * DAY;
      kept.segments == [] || Stale(Entries(kept.active), cutoff) == 0
  {
    UnexpiredSurvives(log.segments, |log.segments|, now - retainDays * DAY);
    ActiveAfterSegments(mac, Expired(log, now, retainDays), now, now - retainDays * DAY);
  }

  lemma PrefixesOverdue(es: seq<Entry>, n: nat, m: nat, now: Time, retainDays: nat)
    requires n + m <= |es|
    requires forall i :: 0 <= i < n ==> Overdue(es[i].ts, now, retainDays)
    requires forall i :: 0 <= i < m ==> Overdue(es[n..][i].ts, now, retainDays)
    ensures es[n..][m..] == es[n + m..]
    ensures forall i :: 0 <= i < n + m ==> Overdue(es[i].ts, now, retainDays)
  {
    assert forall i :: n <= i < n + m ==> es[i] == es[n..][i - n];
  }

  /** Reading the disk does not depend on the handle. */
  lemma ReopenedLater(log: Log, r: Log)
    requires r.segments == log.segments && r.active == log.active && r.rotate == log.rotate
    ensures Reopened(r) == Reopened(log)
  {
  }

  /** Retention and pruning of a closed log, then opening it, drop a prefix of the logical log, all
      of it overdue, and keep the invariant. */
  lemma ClosedSweptKeepsInv(mac: Body -> Mac, log: Log, now: Time, retainDays: nat) returns (n: nat)
    requires Inv(mac, log, now)
    ensures Inv(mac, ClosedSwept(log, now, retainDays), now)
    ensures n <= |log.Retained()| && ClosedSwept(log, now, retainDays).Retained() == log.Retained()[n..]
    ensures forall i :: 0 <= i < n ==> Overdue(log.Retained()[i].ts, now, retainDays)
  {
    n := ExpiredKeepsInv(mac, log, now, retainDays);
    var kept := Expired(log, now, retainDays);
    if retainDays == 0 {
      ReopenRestores(mac, kept, now);
    } else {
      PrunedAfterExpired(mac, log, now, retainDays);
      var m := ClosedPrunedKeepsInv(mac, kept, now, retainDays);
      PrefixesOverdue(log.Retained(), n, m, now, retainDays);
      n := n + m;
    }
  }

  lemma ClosedPrunedKeepsInv(mac: Body -> Mac, log: Log, now: Time, retainDays: nat) returns (n: nat)
    requires Inv(mac, log, now) && retainDays > 0
    requires log.segments == [] || Stale(Entries(log.active), now - retainDays * DAY) == 0
    ensures var r := Reopened(Pruned(log, now, retainDays));
      Inv(mac, r, now) && n <= |log.Retained()| && r.Retained() == log.Retained()[n..]
    ensures forall i :: 0 <= i < n ==> Overdue(log.Retained()[i].ts, now, retainDays)
  {
    var cutoff := now - retainDays * DAY;
    PrunedKeepsInv(mac, log, now, cutoff);
    var pruned := log.(active := PrunedFile(log.active, cutoff));
    n := Stale(Entries(log.active), cutoff);
    ReopenRestores(mac, pruned, now);
    ReopenedLater(pruned, Pruned(log, now, retainDays));
  }

  // ---- under an open handle ----

  /** The pass finds nothing stale outside sealed segments. */
  ghost predicate SparesActive(width: Line -> nat, log: Log, cfg: RotateConfig, at: Readings, retainDays: nat) {
    retainDays == 0 ||
    Stale(Entries(Rotated(width, log.(rotate := cfg), cfg, at.rotating).active), at.pruning - retainDays * DAY) == 0
  }

  /** The daemon's pass keeps the invariant exactly when it prunes nothing; otherwise it leaves the
      handle on a file that no reader finds. When it prunes nothing it drops a prefix of the
      entries, all of them overdue. */
  lemma SweptKeepsInvIff(mac: Body -> Mac, width: Line -> nat, log: Log, cfg: RotateConfig, at: Readings,
                         retainDays: nat) returns (n: nat)
    requires Inv(mac, log, at.rotating) && at.Ordered()
    ensures var r := Swept(width, log, cfg, at, retainDays);
      && (r.unlinked.None? <==> SparesActive(width, log, cfg, at, retainDays))
      && (Inv(mac, r, at.pruning) <==> SparesActive(width, log, cfg, at, retainDays))
      && (SparesActive(width, log, cfg, at, retainDays) ==>
            && n <= |log.Retained()| && r.Retained() == log.Retained()[n..]
            && forall i :: 0 <= i < n ==> Overdue(log.Retained()[i].ts, at.retaining, retainDays))
  {
    n := ExpiredInSweep(mac, width, log, cfg, at, retainDays);
    InvLater(mac, BeforePruning(width, log, cfg, at, retainDays), at.retaining, at.pruning);
  }

  /** The first two parts of a pass. */
  lemma ExpiredInSweep(mac: Body -> Mac, width: Line -> nat, log: Log, cfg: RotateConfig, at: Readings,
                       retainDays: nat) returns (n: nat)
    requires Inv(mac, log, at.rotating) && at.Ordered()
    ensures var r := BeforePruning(width, log, cfg, at, retainDays);
      Inv(mac, r, at.retaining) && n <= |log.Retained()| && r.Retained() == log.Retained()[n..]
    ensures forall i :: 0 <= i < n ==> Overdue(log.Retained()[i].ts, at.retaining, retainDays)
  {
    var rotated := Rotated(width, log.(rotate := cfg), cfg, at.rotating);
    RotatedKeepsInv(mac, width, log, cfg, at.rotating);
    InvLater(mac, rotated, at.rotating, at.retaining);
    n := ExpiredKeepsInv(mac, rotated, at.retaining, retainDays);
  }

  /** Rotation by age leaves nothing for pruning if retention is longer by at least what the pass takes. */
  lemma AgeRotationSpares(mac: Body -> Mac, width: Line -> nat, log: Log, cfg: RotateConfig, at: Readings,
                          retainDays: nat)
    requires Inv(mac, log, at.rotating) && cfg.maxAgeDays >= 1
    requires at.pruning - at.rotating <= (retainDays - cfg.maxAgeDays) * DAY
    ensures SparesActive(width, log, cfg, at, retainDays)
  {
    var r, cutoff := Rotated(width, log.(rotate := cfg), cfg, at.rotating), at.pruning - retainDays * DAY;
    RotatedKeepsInv(mac, width, log, cfg, at.rotating);
    PrunedActive(mac, r, at.rotating, cutoff);
    assert cutoff <= at.rotating - cfg.maxAgeDays * DAY;
    assert Entries(r.active) != [] ==> Entries(r.active)[0].ts >= at.rotating - cfg.maxAgeDays * DAY;
  }

  lemma PrunedFileIsFresh(mac: Body -> Mac, log: Log, now: Time, cutoff: Time)
    requires Inv(mac, log, now)
    ensures forall e :: e in Entries(PrunedFile(log.active, cutoff)) ==> e.ts >= cutoff
  {
    hide Inv, PrunedFile, Stale, Entries;
    PrunedActive(mac, log, now, cutoff);
  }

  lemma PrunedLeavesNothingStale(mac: Body -> Mac, log: Log, now: Time, retainDays: nat)
    requires Inv(mac, log, now) && retainDays > 0
    ensures forall e :: e in Entries(Pruned(log, now, retainDays).active) ==> e.ts >= now - retainDays * DAY
  {
    hide Inv, KeptLines, Stale, Entries;
    PrunedFileIsFresh(mac, log, now, now - retainDays * DAY);
  }

  /** After a pass nothing older than the cutoff is left in the file that readers find. */
  lemma SweptLeavesNothingStale(mac: Body -> Mac, width: Line -> nat, log: Log, cfg: RotateConfig, at: Readings,
                                retainDays: nat)
    requires Inv(mac, log, at.rotating) && at.Ordered() && retainDays > 0
    ensures forall e :: e in Entries(Swept(width, log, cfg, at, retainDays).active) ==>
              e.ts >= at.pruning - retainDays * DAY
  {
    var kept := BeforePruning(width, log, cfg, at, retainDays);
    var _ := ExpiredInSweep(mac, width, log, cfg, at, retainDays);
    InvLater(mac, kept, at.retaining, at.pruning);
    PrunedLeavesNothingStale(mac, kept, at.pruning, retainDays);
  }

  /** The first part of a sweep. */
  lemma RotatedKeepsInv(mac: Body -> Mac, width: Line -> nat, log: Log, cfg: RotateConfig, now: Time)
    requires Inv(mac, log, now)
    ensures var r := Rotated(width, log.(rotate := cfg), cfg, now);
      Inv(mac, r, now) && r.Logical() == log.Logical()
  {
    var base := log.(rotate := cfg);
    assert base.Logical() == log.Logical();
    assert Inv(mac, base, now);
    RotationInvisible(mac, width, base, cfg, now);
  }

  /** An appended entry reaches the files that readers find exactly when the handle writes there. */
  lemma AppendReachesDiskIff(mac: Body -> Mac, width: Line -> nat, log: Log, now: Time, actor: string,
                             event: Event)
    ensures var e, r := NextEntry(mac, log, now, actor, event), Appended(mac, width, log, now, actor, event);
      && r.Logical() == (if log.unlinked.None? then log.Logical() + [LineOf(e)] else log.Logical())
      && (r.Logical() == log.Logical() + [LineOf(e)] <==> log.unlinked.None?)
  {
    var written := Written(log, NextEntry(mac, log, now, actor, event));
    RotationInvisible(mac, width, written, RotateConfig(log.rotate.maxBytes, 0), now);
    assert log.unlinked.None? ==> written.Logical() == log.Logical() + [LineOf(NextEntry(mac, log, now, actor, event))];
  }

  // ---- the active file lies behind the segments ----

  lemma ActiveStartsAfter(mac: Body -> Mac, log: Log, now: Time)
    requires Inv(mac, log, now) && log.segments != [] && Entries(log.active) != []
    ensures log.segments[|log.segments| - 1].summary.tsLast <= Entries(log.active)[0].ts
  {
    var last, p := |log.segments| - 1, Upto(log.segments, |log.segments|);
    assert p < |log.Retained()| && log.Retained()[p] == Entries(log.active)[0] by {
      UptoCounts(log.segments, |log.segments|);
      EntriesConcat(Joined(log.segments), log.active);
    }
    SegmentEnds(log, last);
    assert InOrder(log.Retained(), p - 1, p);
  }

  /** Behind a segment that ends no earlier than the cutoff nothing is stale. */
  lemma ActiveAfterSegments(mac: Body -> Mac, log: Log, now: Time, cutoff: Time)
    requires Inv(mac, log, now)
    requires log.segments != [] ==> log.segments[|log.segments| - 1].summary.tsLast >= cutoff
    ensures log.segments == [] || Stale(Entries(log.active), cutoff) == 0
  {
    if log.segments != [] && Entries(log.active) != [] {
      ActiveStartsAfter(mac, log, now);
      PrunedActive(mac, log, now, cutoff);
    }
  }

  lemma {:induction false} UnexpiredSurvives(segments: seq<Segment>, n: nat, cutoff: Time)
    requires n <= |segments|
    ensures forall i :: 0 <= i < |Unexpired(segments, n, cutoff)| ==>
              Unexpired(segments, n, cutoff)[i].summary.tsLast >= cutoff
  {
    if n > 0 {
      UnexpiredSurvives(segments, n - 1, cutoff);
    }
  }
}
