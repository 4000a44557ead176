/** The main results about the audit log: which runs verify, and when pruning is safe. */
module AuditTheorems {
  import opened Prelude
  import opened AuditChain
  import opened AuditStore
  import opened AuditVerify
  import opened AuditRuns
  import opened AuditPruning
  import Sorting

  /** `Sweep` and `Prune` act on the files under an open handle, as the daemon's pass and a prune
      request do; `ClosedSweep` runs the retention passes between closing the log and opening it. */
  datatype Op =
    | Append(now: Time, actor: string, event: Event)
    | Rotate(now: Time, cfg: RotateConfig)
    | Retain(now: Time, retainDays: nat)
    | Prune(now: Time, retainDays: nat)
    | Sweep(at: Readings, cfg: RotateConfig, retainDays: nat)
    | ClosedSweep(now: Time, retainDays: nat)
    | SetRotation(cfg: RotateConfig)
    | Reopen
  {
    /** The last clock reading of the operation, or the one before it when it reads no clock. */
    function Clock(last: Time): Time {
      if SetRotation? || Reopen? then last else if Sweep? then at.pruning else now
    }

    /** The clock has not gone backwards. */
    predicate Follows(last: Time) {
      if Sweep? then last <= at.rotating && at.Ordered() else last <= Clock(last)
    }

    /** The operation's retention is over for an entry of this time. */
    predicate Ends(ts: Time) {
      match this
      case Retain(now, retainDays) => Overdue(ts, now, retainDays)
      case Prune(now, retainDays) => Overdue(ts, now, retainDays)
      case Sweep(at, _, retainDays) => Overdue(ts, at.pruning, retainDays)
      case ClosedSweep(now, retainDays) => Overdue(ts, now, retainDays)
      case _ => false
    }
  }

  function Step(mac: Body -> Mac, width: Line -> nat, log: Log, op: Op): Log {
    match op
    case Append(now, actor, event) => Appended(mac, width, log, now, actor, event)
    case Rotate(now, cfg) => Rotated(width, log, cfg, now)
    case Retain(now, retainDays) => Expired(log, now, retainDays)
    case Prune(now, retainDays) => Pruned(log, now, retainDays)
    case Sweep(at, cfg, retainDays) => Swept(width, log, cfg, at, retainDays)
    case ClosedSweep(now, retainDays) => ClosedSwept(log, now, retainDays)
    case SetRotation(cfg) => log.(rotate := cfg)
    case Reopen => Reopened(log)
  }

  /** The entries an operation adds that can be read back. */
  function Made(mac: Body -> Mac, log: Log, op: Op): seq<Entry> {
    if op.Append? then ReadBack(NextEntry(mac, log, op.now, op.actor, op.event)) else []
  }

  function Run(mac: Body -> Mac, width: Line -> nat, log: Log, ops: seq<Op>): Log
    decreases |ops|
  {
    if ops == [] then log else Run(mac, width, Step(mac, width, log, ops[0]), ops[1..])
  }

  /** Every such entry of a run, in order, whatever became of it later. */
  function History(mac: Body -> Mac, width: Line -> nat, log: Log, ops: seq<Op>): seq<Entry>
    decreases |ops|
  {
    if ops == [] then []
    else Made(mac, log, ops[0]) + History(mac, width, Step(mac, width, log, ops[0]), ops[1..])
  }

  /** The clock never goes backwards. */
  predicate Clocked(last: Time, ops: seq<Op>)
    decreases |ops|
  {
    ops == [] || (ops[0].Follows(last) && Clocked(ops[0].Clock(last), ops[1..]))
  }

  /** The operation prunes nothing from under the open handle. */
  ghost predicate Spares(width: Line -> nat, log: Log, op: Op) {
    match op
    case Prune(now, retainDays) => retainDays == 0 || Stale(Entries(log.active), now - retainDays * DAY) == 0
    case Sweep(at, cfg, retainDays) => SparesActive(width, log, cfg, at, retainDays)
    case _ => true
  }

  /** No operation of the run prunes anything from under the open handle. */
  ghost predicate Quiet(mac: Body -> Mac, width: Line -> nat, log: Log, ops: seq<Op>)
    decreases |ops|
  {
    ops == [] || (Spares(width, log, ops[0]) && Quiet(mac, width, Step(mac, width, log, ops[0]), ops[1..]))
  }

  /** All along the run the handle writes to the file that readers find. */
  ghost predicate AlwaysAttached(mac: Body -> Mac, width: Line -> nat, log: Log, ops: seq<Op>)
    decreases |ops|
  {
    && log.unlinked.None?
    && (ops == [] || AlwaysAttached(mac, width, Step(mac, width, log, ops[0]), ops[1..]))
  }

  /** One operation keeps the invariant exactly when it prunes nothing from under the handle, which is
      otherwise left behind. What is retained is then a suffix of what was there and what was added,
      and what is not was overdue. */
  lemma StepKeepsInvIff(mac: Body -> Mac, width: Line -> nat, log: Log, last: Time, op: Op) returns (n: nat)
    requires Inv(mac, log, last) && op.Follows(last)
    ensures var r := Step(mac, width, log, op);
      && (Inv(mac, r, op.Clock(last)) <==> Spares(width, log, op))
      && (r.unlinked.None? <==> Spares(width, log, op))
    ensures Spares(width, log, op) ==>
            var all := log.Retained() + Made(mac, log, op);
            && n <= |all| && Step(mac, width, log, op).Retained() == all[n..]
            && forall i :: 0 <= i < n ==> op.Ends(all[i].ts)
  {
    n := 0;
    var es, now := log.Retained(), op.Clock(last);
    assert es + [] == es && es[0..] == es;
    if op.Sweep? {
      InvLater(mac, log, last, op.at.rotating);
      n := SweptKeepsInvIff(mac, width, log, op.cfg, op.at, op.retainDays);
    } else {
      InvLater(mac, log, last, now);
      match op {
        case Append(_, actor, event) => AppendedKeepsInv(mac, width, log, last, now, actor, event);
        case Rotate(_, cfg) => RotationInvisible(mac, width, log, cfg, now);
        case Retain(_, retainDays) => n := ExpiredKeepsInv(mac, log, now, retainDays);
        case Prune(_, retainDays) => assert Spares(width, log, op) ==> Pruned(log, now, retainDays) == log;
        case ClosedSweep(_, retainDays) => n := ClosedSweptKeepsInv(mac, log, now, retainDays);
        case SetRotation(cfg) => assert log.(rotate := cfg).Logical() == log.Logical();
        case Reopen => ReopenRestores(mac, log, last);
      }
    }
  }

  /** Some operation's retention is over for an entry of this time. */
  ghost predicate Over(ops: seq<Op>, ts: Time) {
    exists op :: op in ops && op.Ends(ts)
  }

  /** What a run retains of all there was: a suffix, and the rest is overdue. */
  ghost predicate Accounts(all: seq<Entry>, kept: seq<Entry>, ops: seq<Op>, n: nat) {
    && n <= |all| && kept == all[n..]
    && forall i :: 0 <= i < n ==> Over(ops, all[i].ts)
  }

  lemma OverLater(ops: seq<Op>, ts: Time)
    requires ops != [] && (ops[0].Ends(ts) || Over(ops[1..], ts))
    ensures Over(ops, ts)
  {
    if ops[0].Ends(ts) {
      assert ops[0] in ops;
    } else {
      var op :| op in ops[1..] && op.Ends(ts);
      assert op in ops;
    }
  }

  /** What was due at the first operation and at the others was due in the run. */
  lemma AccountsTogether(x: seq<Entry>, y: seq<Entry>, z: seq<Entry>, kept: seq<Entry>, ops: seq<Op>, k: nat, n: nat)
    requires ops != [] && k <= |x + y| && forall i :: 0 <= i < k ==> ops[0].Ends((x + y)[i].ts)
    requires Accounts((x + y)[k..] + z, kept, ops[1..], n)
    ensures Accounts(x + (y + z), kept, ops, k + n)
  {
    var all, later := x + (y + z), (x + y)[k..] + z;
    assert later == all[k..];
    forall i | 0 <= i < k + n
      ensures Over(ops, all[i].ts)
    {
      if i < k {
        assert all[i] == (x + y)[i];
      } else {
        assert all[i] == later[i - k];
      }
      OverLater(ops, all[i].ts);
    }
  }

  lemma AccountsForAll(es: seq<Entry>, ops: seq<Op>)
    ensures Accounts(es + [], es, ops, 0)
  {
    assert es + [] == es;
  }

  lemma {:induction false} RunKeepsInv(mac: Body -> Mac, width: Line -> nat, log: Log, last: Time, ops: seq<Op>)
    returns (end: Time, n: nat)
    requires Inv(mac, log, last) && Clocked(last, ops) && Quiet(mac, width, log, ops)
    ensures Inv(mac, Run(mac, width, log, ops), end)
    ensures Accounts(log.Retained() + History(mac, width, log, ops), Run(mac, width, log, ops).Retained(), ops, n)
    decreases |ops|
  {
    hide Step, Made, Inv, Accounts, Spares, Entries, Joined;
    if ops == [] {
      end, n := last, 0;
      AccountsForAll(log.Retained(), ops);
    } else {
      var op, next := ops[0], Step(mac, width, log, ops[0]);
      var es, made, later := log.Retained(), Made(mac, log, op), History(mac, width, next, ops[1..]);
      var kept := Run(mac, width, next, ops[1..]).Retained();
      var k := StepKeepsInvIff(mac, width, log, last, op);
      assert next.Retained() == (es + made)[k..];
      end, n := RunKeepsInv(mac, width, next, op.Clock(last), ops[1..]);
      AccountsTogether(es, made, later, kept, ops, k, n);
      n := k + n;
    }
  }

  /** In every run the handle is never left behind exactly when nothing is pruned from under it. */
  lemma {:induction false} AttachedIffQuiet(mac: Body -> Mac, width: Line -> nat, log: Log, last: Time, ops: seq<Op>)
    requires Inv(mac, log, last) && Clocked(last, ops)
    ensures AlwaysAttached(mac, width, log, ops) <==> Quiet(mac, width, log, ops)
    decreases |ops|
  {
    if ops != [] {
      var _ := StepKeepsInvIff(mac, width, log, last, ops[0]);
      if Spares(width, log, ops[0]) {
        AttachedIffQuiet(mac, width, Step(mac, width, log, ops[0]), ops[0].Clock(last), ops[1..]);
      }
    }
  }

  /** What a run should keep: the log verifies unless a line of it cannot be read, and of all entries
      ever appended that can be read back it holds a suffix; every other one was overdue at some
      operation of the run. */
  ghost predicate Kept(mac: Body -> Mac, width: Line -> nat, ops: seq<Op>) {
    var r, all := Run(mac, width, FRESH, ops), History(mac, width, FRESH, ops);
    && (Sound(mac, Sorting.StableSort(ByStart, r.segments), r.active) <==> Readable(r.Logical()))
    && exists n :: Accounts(all, r.Retained(), ops, n)
  }

  lemma FreshKeepsInv(mac: Body -> Mac, now: Time)
    ensures FRESH.Retained() == [] && Inv(mac, FRESH, now)
  {
    assert FRESH.Logical() == [];
  }

  /** After every run from an empty log under a nondecreasing clock that prunes nothing from under the
      open handle, `VerifyAll` finds no violation (the log is sound) exactly when no unreadable line
      is retained, and nothing that was appended is missing but what was overdue. */
  lemma EveryQuietRunVerifies(mac: Body -> Mac, width: Line -> nat, start: Time, ops: seq<Op>)
    requires Clocked(start, ops) && Quiet(mac, width, FRESH, ops)
    ensures Kept(mac, width, ops)
    ensures var r := Run(mac, width, FRESH, ops);
      Sorting.StableSort(ByStart, r.segments) == r.segments
  {
    FreshKeepsInv(mac, start);
    var end, n := RunKeepsInv(mac, width, FRESH, start, ops);
    var log, made := Run(mac, width, FRESH, ops), History(mac, width, FRESH, ops);
    InvIsSound(mac, log, end);
    assert [] + made == made;
    assert Accounts(made, log.Retained(), ops, n);
  }

  /** Verifying after such a run reports no violation exactly when no unreadable line is retained, and
      then counts every retained entry. */
  method VerifyAfterRun(mac: Body -> Mac, width: Line -> nat, start: Time, ops: seq<Op>)
    returns (r: VerifyResult)
    requires Clocked(start, ops) && Quiet(mac, width, FRESH, ops)
    ensures r.violation == None <==> Readable(Run(mac, width, FRESH, ops).Logical())
    ensures r.violation == None ==> r.checked == |Run(mac, width, FRESH, ops).Retained()|
  {
    var log := Run(mac, width, FRESH, ops);
    EveryQuietRunVerifies(mac, width, start, ops);
    ghost var k;
    r, k := VerifyAll(mac, log.segments, log.active);
  }

  // ---- shredding ----

  /** The operation appends nothing that cannot be read back. */
  predicate Legible(op: Op) {
    op.Append? ==> op.event.Parses()
  }

  lemma ExpiredReadable(mac: Body -> Mac, log: Log, now: Time, retainDays: nat)
    requires Inv(mac, log, now) && Readable(log.Logical())
    ensures Readable(Expired(log, now, retainDays).Logical())
  {
    var k := ExpiredDropsFirst(mac, log, now, retainDays);
    LogicalDropped(log, k);
  }

  lemma PrunedReadable(log: Log, now: Time, retainDays: nat)
    requires Readable(log.Logical())
    ensures Readable(Pruned(log, now, retainDays).Logical())
  {
    var r := Pruned(log, now, retainDays);
    KeptReadable(log.active, now - retainDays * DAY);
    assert forall line :: line in log.active ==> line in log.Logical();
    assert forall line :: line in Joined(log.segments) ==> line in log.Logical();
  }

  lemma SweptReadable(mac: Body -> Mac, width: Line -> nat, log: Log, cfg: RotateConfig, at: Readings, retainDays: nat)
    requires Inv(mac, log, at.rotating) && at.Ordered() && Readable(log.Logical())
    ensures Readable(Swept(width, log, cfg, at, retainDays).Logical())
  {
    var rotated := Rotated(width, log.(rotate := cfg), cfg, at.rotating);
    RotatedKeepsInv(mac, width, log, cfg, at.rotating);
    InvLater(mac, rotated, at.rotating, at.retaining);
    ExpiredReadable(mac, rotated, at.retaining, retainDays);
    PrunedReadable(BeforePruning(width, log, cfg, at, retainDays), at.pruning, retainDays);
  }

  lemma ClosedSweptReadable(mac: Body -> Mac, log: Log, now: Time, retainDays: nat)
    requires Inv(mac, log, now) && Readable(log.Logical())
    ensures Readable(ClosedSwept(log, now, retainDays).Logical())
  {
    ExpiredReadable(mac, log, now, retainDays);
    PrunedReadable(Expired(log, now, retainDays), now, retainDays);
  }

  lemma AppendedReadable(mac: Body -> Mac, width: Line -> nat, log: Log, now: Time, actor: string, event: Event)
    requires event.Parses() && Readable(log.Logical())
    ensures Readable(Appended(mac, width, log, now, actor, event).Logical())
  {
    AppendReachesDiskIff(mac, width, log, now, actor, event);
    ReadableSnoc(log.Logical(), LineOf(NextEntry(mac, log, now, actor, event)));
  }

  lemma StepReadable(mac: Body -> Mac, width: Line -> nat, log: Log, last: Time, op: Op)
    requires Inv(mac, log, last) && op.Follows(last)
    requires Legible(op) && Readable(log.Logical())
    ensures Readable(Step(mac, width, log, op).Logical())
  {
    InvLater(mac, log, last, if op.Sweep? then op.at.rotating else op.Clock(last));
    var lines, r := log.Logical(), Step(mac, width, log, op);
    match op {
      case Append(now, actor, event) => AppendedReadable(mac, width, log, now, actor, event);
      case Rotate(now, cfg) => RotationInvisible(mac, width, log, cfg, now);
      case Retain(now, retainDays) => ExpiredReadable(mac, log, now, retainDays);
      case Prune(now, retainDays) => PrunedReadable(log, now, retainDays);
      case Sweep(at, cfg, retainDays) => SweptReadable(mac, width, log, cfg, at, retainDays);
      case ClosedSweep(now, retainDays) => ClosedSweptReadable(mac, log, now, retainDays);
      case SetRotation(cfg) => assert r.Logical() == lines;
      case Reopen => assert r.Logical() == lines;
    }
  }

  /** Without shredding events every line of such a run can be read, and the log verifies. */
  lemma {:induction false} LegibleRunReadable(mac: Body -> Mac, width: Line -> nat, log: Log, last: Time, ops: seq<Op>)
    requires Inv(mac, log, last) && Clocked(last, ops) && Quiet(mac, width, log, ops)
    requires Readable(log.Logical()) && forall op :: op in ops ==> Legible(op)
    ensures Readable(Run(mac, width, log, ops).Logical())
    decreases |ops|
  {
    if ops != [] {
      assert ops[0] in ops && forall op :: op in ops[1..] ==> op in ops;
      var _ := StepKeepsInvIff(mac, width, log, last, ops[0]);
      StepReadable(mac, width, log, last, ops[0]);
      LegibleRunReadable(mac, width, Step(mac, width, log, ops[0]), ops[0].Clock(last), ops[1..]);
    }
  }

  /** A shredding event that is appended is not read back: verification fails from then on. */
  lemma ShreddingFails(mac: Body -> Mac, width: Line -> nat, now: Time, actor: string, payload: string)
    ensures var r := Run(mac, width, FRESH, [Append(now, actor, Event("workspace_shredded", payload))]);
      !Sound(mac, Sorting.StableSort(ByStart, r.segments), r.active)
  {
    var op := Append(now, actor, Event("workspace_shredded", payload));
    var next := Step(mac, width, FRESH, op);
    assert Run(mac, width, FRESH, [op]) == Run(mac, width, next, []) == next;
    EveryQuietRunVerifies(mac, width, now, [op]);
    AppendReachesDiskIff(mac, width, FRESH, now, actor, op.event);
    var e := NextEntry(mac, FRESH, now, actor, op.event);
    ReadableSnoc(FRESH.Logical(), LineOf(e));
  }

  // ---- pruning without segment retention ----

  /** With a segment in front, a changed active file is sound exactly when it still continues the
      chain of the segments. */
  lemma SoundWithActive(mac: Body -> Mac, log: Log, now: Time, active: seq<Line>)
    requires Inv(mac, log, now) && Readable(log.Logical()) && log.segments != []
    ensures var start, front := Start(log.segments, log.active), Entries(Joined(log.segments));
      Sound(mac, log.segments, active) <==>
      Accepted(mac, active, start.0 + |front|, EndHmac(front, start.1))
  {
    InvIsSound(mac, log, now);
    var front, start := Joined(log.segments), Start(log.segments, log.active);
    assert Start(log.segments, active) == start;
    AcceptedConcat(mac, front, log.active, start.0, start.1);
    AcceptedConcat(mac, front, active, start.0, start.1);
  }

  lemma PruneBehindSegments(mac: Body -> Mac, log: Log, now: Time, cutoff: Time)
    requires Inv(mac, log, now) && Readable(log.Logical())
    requires log.segments != [] && Stale(Entries(log.active), cutoff) > 0
    ensures Sound(mac, log.segments, PrunedFile(log.active, cutoff)) <==>
            Stale(Entries(log.active), cutoff) == |Entries(log.active)|
  {
    var n, active := Stale(Entries(log.active), cutoff), PrunedFile(log.active, cutoff);
    var start, front := Start(log.segments, log.active), Entries(Joined(log.segments));
    var seq1, prev1 := start.0 + |front|, EndHmac(front, start.1);
    SoundWithActive(mac, log, now, active);
    assert Accepted(mac, log.active, seq1, prev1) by {
      InvIsSound(mac, log, now);
      SoundWithActive(mac, log, now, log.active);
    }
    assert n <= |Entries(log.active)| && Entries(active) == Entries(log.active)[n..] && Readable(active) by {
      PrunedActive(mac, log, now, cutoff);
    }
    if n < |Entries(log.active)| {
      GapIsNotLinked(mac, Entries(log.active), seq1, prev1, n);
    }
  }

  lemma ReadableParts(x: seq<Line>, y: seq<Line>)
    ensures Readable(x + y) <==> Readable(x) && Readable(y)
  {
    assert forall line :: line in x || line in y <==> line in x + y;
  }

  /** Pruning alone leaves files that verify exactly when every line can be read and there is no
      segment before the active file, or nothing is pruned, or the whole active file is. */
  lemma PruneAloneVerifiesIff(mac: Body -> Mac, log: Log, now: Time, cutoff: Time)
    requires Inv(mac, log, now)
    ensures var n := Stale(Entries(log.active), cutoff);
      Sound(mac, Sorting.StableSort(ByStart, log.segments), PrunedFile(log.active, cutoff)) <==>
      Readable(log.Logical()) && (log.segments == [] || n == 0 || n == |Entries(log.active)|)
  {
    var pruned := log.(active := PrunedFile(log.active, cutoff));
    SegmentsInStartOrder(mac, log, now);
    PrunedActive(mac, log, now, cutoff);
    ReadableParts(Joined(log.segments), log.active);
    ReadableParts(Joined(log.segments), pruned.active);
    assert Readable(pruned.Logical()) <==> Readable(log.Logical());
    if log.segments == [] || Stale(Entries(log.active), cutoff) == 0 {
      PrunedKeepsInv(mac, log, now, cutoff);
      InvIsSound(mac, pruned, now);
    } else if Readable(log.Logical()) {
      PruneBehindSegments(mac, log, now, cutoff);
    }
  }

  /** A chain that lost its first entries does not fit where it was. */
  lemma GapIsNotLinked(mac: Body -> Mac, es: seq<Entry>, seq0: nat, prev0: Mac, n: nat)
    requires Linked(mac, es, seq0, prev0) && 0 < n < |es|
    ensures !Linked(mac, es[n..], seq0, prev0)
  {
    assert LinkedAt(mac, es, seq0, prev0, n);
    assert !LinkedAt(mac, es[n..], seq0, prev0, 0);
  }

  /** Pruning from under the handle leaves files that verify on the same condition. */
  lemma PrunedVerifiesIff(mac: Body -> Mac, log: Log, now: Time, retainDays: nat)
    requires Inv(mac, log, now) && retainDays > 0
    ensures var r, n := Pruned(log, now, retainDays), Stale(Entries(log.active), now - retainDays * DAY);
      Sound(mac, Sorting.StableSort(ByStart, r.segments), r.active) <==>
      Readable(log.Logical()) && (log.segments == [] || n == 0 || n == |Entries(log.active)|)
  {
    PruneAloneVerifiesIff(mac, log, now, now - retainDays * DAY);
  }

  /** Right after a pass the files verify exactly when every line can be read and, behind a kept
      segment, pruning removed nothing or the whole active file. */
  lemma SweptVerifiesIff(mac: Body -> Mac, width: Line -> nat, log: Log, cfg: RotateConfig, at: Readings,
                         retainDays: nat)
    requires Inv(mac, log, at.rotating) && at.Ordered() && retainDays > 0
    ensures var r, kept := Swept(width, log, cfg, at, retainDays), BeforePruning(width, log, cfg, at, retainDays);
      var n := Stale(Entries(kept.active), at.pruning - retainDays * DAY);
      Sound(mac, Sorting.StableSort(ByStart, r.segments), r.active) <==>
      Readable(kept.Logical()) && (kept.segments == [] || n == 0 || n == |Entries(kept.active)|)
  {
    hide Sound, Readable, Stale, Entries, BeforePruning, Inv, Pruned;
    var kept := BeforePruning(width, log, cfg, at, retainDays);
    var _ := ExpiredInSweep(mac, width, log, cfg, at, retainDays);
    InvLater(mac, kept, at.retaining, at.pruning);
    PrunedVerifiesIff(mac, kept, at.pruning, retainDays);
  }

  /** When retention and pruning read the same clock they do, if every line could be read before. */
  lemma SweptStillVerifies(mac: Body -> Mac, width: Line -> nat, log: Log, cfg: RotateConfig, at: Readings,
                           retainDays: nat)
    requires Inv(mac, log, at.rotating) && at.rotating <= at.retaining == at.pruning && retainDays > 0
    requires Readable(log.Logical())
    ensures var r := Swept(width, log, cfg, at, retainDays);
      Sound(mac, Sorting.StableSort(ByStart, r.segments), r.active)
  {
    hide Sound, Stale, Entries, Inv, Swept, Pruned, Readable;
    NothingStaleBehind(mac, width, log, cfg, at, retainDays);
    SweptVerifiesIff(mac, width, log, cfg, at, retainDays);
  }

  lemma NothingStaleBehind(mac: Body -> Mac, width: Line -> nat, log: Log, cfg: RotateConfig, at: Readings,
                           retainDays: nat)
    requires Inv(mac, log, at.rotating) && at.Ordered() && retainDays > 0 && Readable(log.Logical())
    ensures var kept := BeforePruning(width, log, cfg, at, retainDays);
      && Readable(kept.Logical())
      && (kept.segments == [] || Stale(Entries(kept.active), at.retaining - retainDays * DAY) == 0)
  {
    var rotated := Rotated(width, log.(rotate := cfg), cfg, at.rotating);
    RotatedKeepsInv(mac, width, log, cfg, at.rotating);
    InvLater(mac, rotated, at.rotating, at.retaining);
    ExpiredReadable(mac, rotated, at.retaining, retainDays);
    var _ := ExpiredKeepsInv(mac, rotated, at.retaining, retainDays);
    PrunedAfterExpired(mac, rotated, at.retaining, retainDays);
  }
}
