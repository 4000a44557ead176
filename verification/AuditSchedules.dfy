/** Which retention schedules of the daemon are safe, and runs in which the others are not. */
module AuditSchedules {
  import opened Prelude
  import opened AuditChain
  import opened AuditStore
  import opened AuditVerify
  import opened AuditRuns
  import opened AuditPruning
  import opened AuditTheorems
  import Sorting

  // ---- what a daemon with one configuration does ----

  /** A daemon's rotation and retention, and how long a pass over its log may take. */
  datatype Schedule = Schedule(cfg: RotateConfig, retainDays: nat, longest: nat) {
    /** The operations of a daemon that always has this configured. */
    predicate Allows(op: Op) {
      match op
      case Append(_, _, _) => true
      case Sweep(at, c, d) => c == cfg && d == retainDays && at.pruning - at.rotating <= longest
      case SetRotation(c) => c == cfg
      case Reopen => true
      case _ => false
    }

    /** Retention is off, or longer than rotation by age by at least what a pass may take. */
    predicate Safe() {
      retainDays == 0 || (cfg.maxAgeDays >= 1 && longest <= (retainDays - cfg.maxAgeDays) * DAY)
    }

    /** A pass that prunes just after an entry of time zero has become overdue, begun as early as
        it may be. */
    function LatePass(): Readings {
      var end := retainDays * DAY + 1;
      Readings(Max(end - longest, 1), end, end)
    }
  }

  lemma {:induction false} SafeIsQuiet(mac: Body -> Mac, width: Line -> nat, log: Log, last: Time, ops: seq<Op>,
                                       s: Schedule)
    requires Inv(mac, log, last) && Clocked(last, ops) && s.Safe()
    requires forall op :: op in ops ==> s.Allows(op)
    ensures Quiet(mac, width, log, ops)
    decreases |ops|
  {
    if ops != [] {
      var op := ops[0];
      assert op in ops && forall o :: o in ops[1..] ==> o in ops;
      if op.Sweep? && s.retainDays > 0 {
        InvLater(mac, log, last, op.at.rotating);
        AgeRotationSpares(mac, width, log, s.cfg, op.at, s.retainDays);
      }
      var _ := StepKeepsInvIff(mac, width, log, last, op);
      SafeIsQuiet(mac, width, Step(mac, width, log, op), op.Clock(last), ops[1..], s);
    }
  }

  // ---- runs, step by step ----

  /** One step of a run, by the states. */
  lemma RunStep(mac: Body -> Mac, width: Line -> nat, log: Log, ops: seq<Op>, next: Log)
    requires ops != [] && Step(mac, width, log, ops[0]) == next
    ensures Run(mac, width, log, ops) == Run(mac, width, next, ops[1..])
    ensures History(mac, width, log, ops) == Made(mac, log, ops[0]) + History(mac, width, next, ops[1..])
  {
  }

  lemma RunOne(mac: Body -> Mac, width: Line -> nat, log: Log, op: Op)
    ensures Run(mac, width, log, [op]) == Step(mac, width, log, op)
    ensures History(mac, width, log, [op]) == Made(mac, log, op)
  {
    RunStep(mac, width, log, [op], Step(mac, width, log, op));
    assert [op][1..] == [] && Made(mac, log, op) + [] == Made(mac, log, op);
  }

  lemma Peel(a: Op, b: Op, c: Op, rest: seq<Op>)
    ensures var ops := [a, b, c] + rest;
      ops[1..] == [b, c] + rest && ops[1..][1..] == [c] + rest && ops[1..][1..][1..] == rest
  {
  }

  lemma RunThree(mac: Body -> Mac, width: Line -> nat, a: Op, b: Op, c: Op, rest: seq<Op>,
                 l0: Log, l1: Log, l2: Log, l3: Log)
    requires Step(mac, width, l0, a) == l1 && Step(mac, width, l1, b) == l2 && Step(mac, width, l2, c) == l3
    ensures Run(mac, width, l0, [a, b, c] + rest) == Run(mac, width, l3, rest)
  {
    var ops := [a, b, c] + rest;
    Peel(a, b, c, rest);
    RunStep(mac, width, l0, ops, l1);
    RunStep(mac, width, l1, ops[1..], l2);
    RunStep(mac, width, l2, ops[1..][1..], l3);
  }

  lemma AppendOff(mac: Body -> Mac, width: Line -> nat, log: Log, now: Time, actor: string, event: Event)
    requires log.rotate == ROTATE_OFF
    ensures Appended(mac, width, log, now, actor, event) == Written(log, NextEntry(mac, log, now, actor, event))
  {
  }

  function FirstOf(mac: Body -> Mac, actor: string, event: Event): Entry {
    NextEntry(mac, FRESH, 0, actor, event)
  }

  /** The log after an entry at time zero, rotation being off. */
  function One(mac: Body -> Mac, actor: string, event: Event): Log {
    Written(FRESH, FirstOf(mac, actor, event))
  }

  lemma OneMeans(mac: Body -> Mac, width: Line -> nat, actor: string, event: Event)
    requires event.Parses()
    ensures var e1 := FirstOf(mac, actor, event);
      && Step(mac, width, FRESH, Append(0, actor, event)) == One(mac, actor, event)
      && One(mac, actor, event) == Log([], [Record(e1)], None, 1, e1.hmac, ROTATE_OFF)
      && Entries([Record(e1)]) == [e1] && e1.ts == 0 && e1.seqNo == 1
  {
    var e1 := FirstOf(mac, actor, event);
    AppendOff(mac, width, FRESH, 0, actor, event);
    EntriesSnoc([], Record(e1));
    assert [] + [Record(e1)] == [Record(e1)];
  }

  // ---- an entry that is lost ----

  /** One entry lies in a file that is not due for rotation by size. */
  predicate ShortOne(mac: Body -> Mac, width: Line -> nat, cfg: RotateConfig, actor: string, event: Event) {
    cfg.maxBytes > 0 ==> FileSize(width, [Record(FirstOf(mac, actor, event))]) < cfg.maxBytes
  }

  /** What the late pass leaves of one entry: nothing that readers find, the handle on the old file. */
  function Detached(mac: Body -> Mac, s: Schedule, actor: string, event: Event): Log {
    var e1 := FirstOf(mac, actor, event);
    Log([], [], Some([Record(e1)]), 1, e1.hmac, s.cfg)
  }

  lemma LatePassNotDue(s: Schedule)
    requires !s.Safe()
    ensures s.LatePass().Ordered() && 1 <= s.LatePass().rotating
    ensures s.cfg.maxAgeDays > 0 ==> s.LatePass().rotating - s.cfg.maxAgeDays * DAY <= 0
  {
  }

  lemma StaleAlone(e: Entry, cutoff: Time)
    requires e.ts < cutoff
    ensures Stale([e], cutoff) == 1 && KeptLines([Record(e)], cutoff) == []
  {
    StaleSnoc([], e, cutoff);
    KeptSnoc([], Record(e), cutoff);
    assert [] + [e] == [e] && [] + [Record(e)] == [Record(e)];
  }

  /** Rotation and segment retention do nothing to a log without segments that is not due. */
  lemma NothingBeforePruning(width: Line -> nat, log: Log, cfg: RotateConfig, at: Readings, retainDays: nat)
    requires log.segments == [] && !Due(width, log.Held(), log.active, cfg, at.rotating)
    ensures BeforePruning(width, log, cfg, at, retainDays) == log.(rotate := cfg)
  {
    assert log.(rotate := cfg).Held() == log.Held();
  }

  lemma LatePassDetaches(mac: Body -> Mac, width: Line -> nat, s: Schedule, actor: string, event: Event)
    requires event.Parses() && !s.Safe() && ShortOne(mac, width, s.cfg, actor, event)
    ensures Swept(width, One(mac, actor, event), s.cfg, s.LatePass(), s.retainDays) == Detached(mac, s, actor, event)
  {
    var one, at := One(mac, actor, event), s.LatePass();
    OneMeans(mac, width, actor, event);
    LatePassNotDue(s);
    NothingBeforePruning(width, one, s.cfg, at, s.retainDays);
    StaleAlone(FirstOf(mac, actor, event), at.pruning - s.retainDays * DAY);
    assert Pruned(one.(rotate := s.cfg), at.pruning, s.retainDays) == Detached(mac, s, actor, event);
  }

  function LosingRun(s: Schedule, actor: string, event: Event): seq<Op> {
    [Append(0, actor, event), Sweep(s.LatePass(), s.cfg, s.retainDays)]
    + [Append(s.LatePass().pruning, actor, event)]
  }

  lemma LosingRunAllowed(s: Schedule, actor: string, event: Event)
    requires !s.Safe()
    ensures Clocked(0, LosingRun(s, actor, event)) && forall op :: op in LosingRun(s, actor, event) ==> s.Allows(op)
  {
    var ops, now := LosingRun(s, actor, event), s.LatePass().pruning;
    LatePassNotDue(s);
    assert ops[1..][1..] == [Append(now, actor, event)] && [Append(now, actor, event)][1..] == [];
    assert Clocked(now, ops[1..][1..]);
  }

  /** After the pass an appended entry reaches no file that readers find. */
  lemma LosingRunEnds(mac: Body -> Mac, width: Line -> nat, s: Schedule, actor: string, event: Event)
    returns (e2: Entry)
    requires event.Parses() && !s.Safe() && ShortOne(mac, width, s.cfg, actor, event)
    ensures e2.ts == s.LatePass().pruning
    ensures History(mac, width, FRESH, LosingRun(s, actor, event)) == [FirstOf(mac, actor, event), e2]
    ensures Run(mac, width, FRESH, LosingRun(s, actor, event)).Retained() == []
  {
    var ops, now := LosingRun(s, actor, event), s.LatePass().pruning;
    var one, detached := One(mac, actor, event), Detached(mac, s, actor, event);
    e2 := NextEntry(mac, detached, now, actor, event);
    OneMeans(mac, width, actor, event);
    LatePassDetaches(mac, width, s, actor, event);
    RunStep(mac, width, FRESH, ops, one);
    RunStep(mac, width, one, ops[1..], detached);
    assert ops[1..][1..] == [Append(now, actor, event)];
    RunOne(mac, width, detached, Append(now, actor, event));
    AppendReachesDiskIff(mac, width, detached, now, actor, event);
    assert detached.Logical() == [];
    assert [FirstOf(mac, actor, event)] + ([] + [e2]) == [FirstOf(mac, actor, event), e2];
  }

  /** The entry appended after the pass is lost, although it has just been written. */
  lemma LosingRunLoses(mac: Body -> Mac, width: Line -> nat, s: Schedule, actor: string, event: Event)
    requires event.Parses() && !s.Safe() && ShortOne(mac, width, s.cfg, actor, event)
    ensures !Kept(mac, width, LosingRun(s, actor, event))
  {
    var ops := LosingRun(s, actor, event);
    var e2 := LosingRunEnds(mac, width, s, actor, event);
    var all := [FirstOf(mac, actor, event), e2];
    assert forall op :: op in ops ==> !op.Ends(e2.ts);
    forall n
      ensures !Accounts(all, [], ops, n)
    {
      assert Accounts(all, [], ops, n) ==> n == 2 && Over(ops, all[1].ts);
    }
  }

  ghost predicate ScheduleKeeps(mac: Body -> Mac, width: Line -> nat, s: Schedule, start: Time, ops: seq<Op>) {
    Clocked(start, ops) && (forall op :: op in ops ==> s.Allows(op)) ==> Kept(mac, width, ops)
  }

  /** A daemon with one configuration keeps its log in every run exactly when retention is off, or
      rotation by age is on and retention is longer by at least what a pass may take. */
  lemma ScheduleSafeIff(mac: Body -> Mac, width: Line -> nat, s: Schedule, actor: string, event: Event)
    requires event.Parses() && ShortOne(mac, width, s.cfg, actor, event)
    ensures (forall start, ops :: ScheduleKeeps(mac, width, s, start, ops)) <==>
            s.retainDays == 0 ||
            (s.cfg.maxAgeDays >= 1 && s.longest <= (s.retainDays - s.cfg.maxAgeDays) * DAY)
  {
    if s.Safe() {
      forall start, ops
        ensures ScheduleKeeps(mac, width, s, start, ops)
      {
        if Clocked(start, ops) && forall op :: op in ops ==> s.Allows(op) {
          FreshKeepsInv(mac, start);
          SafeIsQuiet(mac, width, FRESH, start, ops, s);
          EveryQuietRunVerifies(mac, width, start, ops);
        }
      }
    } else {
      LosingRunLoses(mac, width, s, actor, event);
      LosingRunAllowed(s, actor, event);
      assert !ScheduleKeeps(mac, width, s, 0, LosingRun(s, actor, event));
    }
  }

  // ---- files that fail verification ----

  function SecondOf(mac: Body -> Mac, now: Time, actor: string, event: Event): Entry {
    NextEntry(mac, One(mac, actor, event), now, actor, event)
  }

  /** Two entries lie in a file that is not yet due for rotation by size, but some file is. */
  predicate ShortTwo(mac: Body -> Mac, width: Line -> nat, cfg: RotateConfig, now: Time, actor: string, event: Event) {
    FileSize(width, [Record(FirstOf(mac, actor, event)), Record(SecondOf(mac, now, actor, event))]) < cfg.maxBytes
  }

  lemma FileSizeGrows(width: Line -> nat, lines: seq<Line>, last: Line)
    ensures FileSize(width, lines + [last]) == FileSize(width, lines) + width(last) + 1
    decreases |lines|
  {
    if lines != [] {
      FileSizeGrows(width, lines[1..], last);
      assert (lines + [last])[1..] == lines[1..] + [last];
    } else {
      assert [] + [last] == [last];
    }
  }

  /** Files whose first entry is sealed and whose second does not follow it. */
  lemma GapIsUnsound(mac: Body -> Mac, segments: seq<Segment>, active: seq<Line>, x: Entry, y: Entry)
    requires segments != [] && segments[0].summary.seqStart == x.seqNo
    requires Entries(Joined(segments) + active) == [x, y] && y.seqNo != x.seqNo + 1
    ensures !Sound(mac, segments, active)
  {
    var start := Start(segments, active);
    assert !LinkedAt(mac, [x, y], start.0, start.1, 1);
  }

  lemma StaleFirst(e1: Entry, e2: Entry, cutoff: Time)
    requires e1.ts < cutoff <= e2.ts
    ensures Stale([e1, e2], cutoff) == 1 && KeptLines([Record(e1), Record(e2)], cutoff) == [Record(e2)]
  {
    var r1, r2 := Record(e1), Record(e2);
    StaleAlone(e1, cutoff);
    StaleSnoc([e1], e2, cutoff);
    KeptSnoc([r1], r2, cutoff);
    assert [e1] + [e2] == [e1, e2] && [r1] + [r2] == [r1, r2] && [] + [r2] == [r2];
  }

  lemma TwoEntries(x: Entry, y: Entry)
    ensures Entries([Record(x), Record(y)]) == [x, y] && Entries([Record(y)]) == [y]
  {
    EntriesSnoc([], Record(x));
    EntriesSnoc([], Record(y));
    EntriesSnoc([Record(x)], Record(y));
    assert [] + [Record(x)] == [Record(x)] && [] + [Record(y)] == [Record(y)];
    assert [Record(x)] + [Record(y)] == [Record(x), Record(y)];
  }

  /** What the late pass leaves of two entries: the second alone, the handle on the file with both. */
  function DetachedTwo(mac: Body -> Mac, s: Schedule, actor: string, event: Event): Log {
    var e1, e2 := FirstOf(mac, actor, event), SecondOf(mac, s.LatePass().rotating, actor, event);
    Log([], [Record(e2)], Some([Record(e1), Record(e2)]), 2, e2.hmac, s.cfg)
  }

  lemma LatePassDetachesTwo(mac: Body -> Mac, width: Line -> nat, s: Schedule, actor: string, event: Event)
    requires event.Parses() && !s.Safe() && ShortTwo(mac, width, s.cfg, s.LatePass().rotating, actor, event)
    ensures Swept(width, BeforePass(mac, s, actor, event), s.cfg, s.LatePass(), s.retainDays) ==
            DetachedTwo(mac, s, actor, event)
  {
    var at := s.LatePass();
    var e1, e2 := FirstOf(mac, actor, event), SecondOf(mac, at.rotating, actor, event);
    OneMeans(mac, width, actor, event);
    TwoEntries(e1, e2);
    LatePassNotDue(s);
    var two := BeforePass(mac, s, actor, event);
    assert two == Log([], [Record(e1), Record(e2)], None, 2, e2.hmac, ROTATE_OFF);
    NothingBeforePruning(width, two, s.cfg, at, s.retainDays);
    StaleFirst(e1, e2, at.pruning - s.retainDays * DAY);
    assert Pruned(two.(rotate := s.cfg), at.pruning, s.retainDays) == DetachedTwo(mac, s, actor, event);
  }

  ghost predicate OnlyAppends(ops: seq<Op>, now: Time, actor: string, event: Event) {
    forall op :: op in ops ==> op == Append(now, actor, event)
  }

  lemma {:induction false} OnlyAppendsClocked(ops: seq<Op>, now: Time, actor: string, event: Event)
    requires OnlyAppends(ops, now, actor, event)
    ensures Clocked(now, ops)
    decreases |ops|
  {
    if ops != [] {
      assert ops[0] in ops && forall op :: op in ops[1..] ==> op in ops;
      OnlyAppendsClocked(ops[1..], now, actor, event);
    }
  }

  /** The log when rotation by size has sealed the second entry and taken the handle back. */
  ghost predicate SecondSealed(log: Log, r2: Line, cfg: RotateConfig) {
    && r2.Record? && Entries([r2]) == [r2.entry]
    && log == Log([Sealed([r2])], [], None, log.seqNo, log.lastHmac, cfg)
    && log.seqNo > r2.entry.seqNo
  }

  /** Entries appended to the unlinked file are lost until it is large enough; then one more follows. */
  lemma {:induction false} FillUp(mac: Body -> Mac, width: Line -> nat, log: Log, now: Time, actor: string,
                                  event: Event, r2: Line) returns (ops: seq<Op>, last: Log)
    requires r2.Record? && Entries([r2]) == [r2.entry] && log.seqNo >= r2.entry.seqNo
    requires log.segments == [] && log.active == [r2] && log.unlinked.Some?
    requires FileSize(width, log.unlinked.value) < log.rotate.maxBytes
    ensures OnlyAppends(ops, now, actor, event) && SecondSealed(last, r2, log.rotate)
    ensures Run(mac, width, log, ops) == Appended(mac, width, last, now, actor, event)
    decreases log.rotate.maxBytes - FileSize(width, log.unlinked.value)
  {
    var op, next := Append(now, actor, event), Appended(mac, width, log, now, actor, event);
    FileSizeGrows(width, log.unlinked.value, LineOf(NextEntry(mac, log, now, actor, event)));
    if next.unlinked.Some? {
      var rest;
      rest, last := FillUp(mac, width, next, now, actor, event, r2);
      ops := [op] + rest;
      RunStep(mac, width, log, ops, next);
      assert ops[1..] == rest;
    } else {
      ops, last := [op, op], next;
      RunStep(mac, width, log, ops, next);
      assert ops[1..] == [op];
      RunOne(mac, width, next, op);
      assert [] + [Sealed([r2])] == [Sealed([r2])];
    }
  }

  /** The next entry follows the second in the files, though others came between. */
  lemma NextLeavesGap(mac: Body -> Mac, width: Line -> nat, log: Log, now: Time, actor: string, event: Event, r2: Line)
    requires event.Parses() && SecondSealed(log, r2, log.rotate)
    ensures var r := Appended(mac, width, log, now, actor, event);
      !Sound(mac, Sorting.StableSort(ByStart, r.segments), r.active)
  {
    var e, r := NextEntry(mac, log, now, actor, event), Appended(mac, width, log, now, actor, event);
    NextInOrder(mac, width, log, now, actor, event, r2);
    NextRetained(mac, width, log, now, actor, event, r2);
    GapIsUnsound(mac, r.segments, r.active, r2.entry, e);
  }

  lemma NextRetained(mac: Body -> Mac, width: Line -> nat, log: Log, now: Time, actor: string, event: Event, r2: Line)
    requires event.Parses() && SecondSealed(log, r2, log.rotate)
    ensures Appended(mac, width, log, now, actor, event).Retained() ==
            [r2.entry, NextEntry(mac, log, now, actor, event)]
  {
    var e, r := NextEntry(mac, log, now, actor, event), Appended(mac, width, log, now, actor, event);
    SealedLogical(log, r2);
    assert r.Logical() == [r2] + [Record(e)] by {
      AppendReachesDiskIff(mac, width, log, now, actor, event);
    }
    EntriesSnoc([r2], Record(e));
    assert [r2.entry] + [e] == [r2.entry, e];
  }

  lemma SealedLogical(log: Log, r2: Line)
    requires SecondSealed(log, r2, log.rotate)
    ensures log.Logical() == [r2]
  {
    var segments := [Sealed([r2])];
    assert JoinedFirst(segments, 0) == [] && JoinedFirst(segments, 1) == [] + [r2];
  }

  lemma NextInOrder(mac: Body -> Mac, width: Line -> nat, log: Log, now: Time, actor: string, event: Event, r2: Line)
    requires event.Parses() && SecondSealed(log, r2, log.rotate)
    ensures var r := Appended(mac, width, log, now, actor, event);
      && Sorting.StableSort(ByStart, r.segments) == r.segments
      && r.segments != [] && r.segments[0].summary.seqStart == r2.entry.seqNo
  {
    var e, r := NextEntry(mac, log, now, actor, event), Appended(mac, width, log, now, actor, event);
    EntriesSnoc([], Record(e));
    assert [] + [Record(e)] == [Record(e)];
    assert Written(log, e).active == [Record(e)];
    forall i, j | 0 <= i < j < |r.segments|
      ensures ByStart(r.segments[i], r.segments[j])
    {
    }
    Sorting.SortedIsFixed(ByStart, r.segments);
  }

  /** Two entries, the late pass, and what follows. */
  function GapRun(s: Schedule, actor: string, event: Event, rest: seq<Op>): seq<Op> {
    [Append(0, actor, event), Append(s.LatePass().rotating, actor, event), Sweep(s.LatePass(), s.cfg, s.retainDays)]
    + rest
  }

  lemma GapRunAllowed(s: Schedule, actor: string, event: Event, rest: seq<Op>)
    requires !s.Safe() && OnlyAppends(rest, s.LatePass().pruning, actor, event)
    ensures var ops := GapRun(s, actor, event, rest);
      Clocked(0, ops) && forall op :: op in ops ==> s.Allows(op)
  {
    var ops, at := GapRun(s, actor, event, rest), s.LatePass();
    LatePassNotDue(s);
    OnlyAppendsClocked(rest, at.pruning, actor, event);
    Peel(ops[0], ops[1], ops[2], rest);
    assert Clocked(at.rotating, ops[1..][1..]) && Clocked(0, ops[1..]);
  }

  /** The log after the two entries. */
  function BeforePass(mac: Body -> Mac, s: Schedule, actor: string, event: Event): Log {
    Written(One(mac, actor, event), SecondOf(mac, s.LatePass().rotating, actor, event))
  }

  lemma StepsToPass(mac: Body -> Mac, width: Line -> nat, s: Schedule, actor: string, event: Event)
    requires event.Parses()
    ensures Step(mac, width, FRESH, Append(0, actor, event)) == One(mac, actor, event)
    ensures Step(mac, width, One(mac, actor, event), Append(s.LatePass().rotating, actor, event)) ==
            BeforePass(mac, s, actor, event)
  {
    OneMeans(mac, width, actor, event);
    AppendOff(mac, width, One(mac, actor, event), s.LatePass().rotating, actor, event);
  }

  lemma RunToPass(mac: Body -> Mac, width: Line -> nat, s: Schedule, actor: string, event: Event, rest: seq<Op>)
    requires event.Parses() && !s.Safe() && ShortTwo(mac, width, s.cfg, s.LatePass().rotating, actor, event)
    ensures Run(mac, width, FRESH, GapRun(s, actor, event, rest)) ==
            Run(mac, width, DetachedTwo(mac, s, actor, event), rest)
  {
    hide Run, Swept, DetachedTwo;
    var at := s.LatePass();
    var one, two := One(mac, actor, event), BeforePass(mac, s, actor, event);
    StepsToPass(mac, width, s, actor, event);
    LatePassDetachesTwo(mac, width, s, actor, event);
    RunThree(mac, width, Append(0, actor, event), Append(at.rotating, actor, event), Sweep(at, s.cfg, s.retainDays),
             rest, FRESH, one, two, DetachedTwo(mac, s, actor, event));
  }

  /** Under every unsafe schedule with rotation by size, whatever the size, there are runs after which
      the files fail verification: the second entry is sealed and the next one does not follow it. */
  lemma SweepsBreakTheChain(mac: Body -> Mac, width: Line -> nat, s: Schedule, actor: string, event: Event)
    returns (ops: seq<Op>)
    requires event.Parses() && !s.Safe()
    requires ShortTwo(mac, width, s.cfg, s.LatePass().rotating, actor, event)
    ensures Clocked(0, ops) && forall op :: op in ops ==> s.Allows(op)
    ensures var r := Run(mac, width, FRESH, ops);
      !Sound(mac, Sorting.StableSort(ByStart, r.segments), r.active)
  {
    var now, r2 := s.LatePass().pruning, Record(SecondOf(mac, s.LatePass().rotating, actor, event));
    TwoEntries(FirstOf(mac, actor, event), r2.entry);
    var rest, last := FillUp(mac, width, DetachedTwo(mac, s, actor, event), now, actor, event, r2);
    ops := GapRun(s, actor, event, rest);
    GapRunAllowed(s, actor, event, rest);
    RunToPass(mac, width, s, actor, event, rest);
    NextLeavesGap(mac, width, last, now, actor, event, r2);
  }

  /** The shipped configuration: 256 MiB, no rotation by age, 90 days. */
  const SHIPPED := RotateConfig(0x1000_0000, 0)

  /** However short its passes are, a daemon with the shipped configuration has runs that lose an entry
      and runs after which the files fail verification. */
  lemma ShippedScheduleFails(mac: Body -> Mac, width: Line -> nat, longest: nat, actor: string, event: Event)
    returns (losing: seq<Op>, breaking: seq<Op>)
    requires event.Parses() && ShortOne(mac, width, SHIPPED, actor, event)
    requires ShortTwo(mac, width, SHIPPED, Schedule(SHIPPED, 90, longest).LatePass().rotating, actor, event)
    ensures var s := Schedule(SHIPPED, 90, longest);
      && (forall op :: op in losing + breaking ==> s.Allows(op))
      && Clocked(0, losing) && !Kept(mac, width, losing)
      && Clocked(0, breaking)
    ensures var r := Run(mac, width, FRESH, breaking);
      !Sound(mac, Sorting.StableSort(ByStart, r.segments), r.active)
  {
    var s := Schedule(SHIPPED, 90, longest);
    losing := LosingRun(s, actor, event);
    LosingRunLoses(mac, width, s, actor, event);
    LosingRunAllowed(s, actor, event);
    breaking := SweepsBreakTheChain(mac, width, s, actor, event);
  }

  // ---- pruning behind a segment ----

  lemma SealOne(width: Line -> nat, log: Log, line: Line)
    requires line.Record? && log == Log([], [line], None, 1, log.lastHmac, ROTATE_OFF)
    ensures Entries([line]) == [line.entry]
    ensures Rotated(width, log, RotateConfig(1, 0), 0) == Log([Sealed([line])], [], None, 1, log.lastHmac, ROTATE_OFF)
  {
    EntriesSnoc([], line);
    assert [] + [line] == [line];
  }

  /** The log after an entry is sealed. */
  function SealedOne(mac: Body -> Mac, width: Line -> nat, actor: string, event: Event): Log {
    Rotated(width, One(mac, actor, event), RotateConfig(1, 0), 0)
  }

  /** A segment, then two entries a day apart. */
  function SegmentAndTwo(mac: Body -> Mac, width: Line -> nat, actor: string, event: Event): Log {
    var sealed := SealedOne(mac, width, actor, event);
    var more := Written(sealed, NextEntry(mac, sealed, 0, actor, event));
    Written(more, NextEntry(mac, more, DAY, actor, event))
  }

  function Preparing(actor: string, event: Event): seq<Op> {
    [Append(0, actor, event), Rotate(0, RotateConfig(1, 0)), Append(0, actor, event), Append(DAY, actor, event)]
  }

  lemma SegmentAndTwoMeans(mac: Body -> Mac, width: Line -> nat, actor: string, event: Event)
    returns (e1: Entry, e2: Entry, e3: Entry)
    requires event.Parses()
    ensures e1.ts == e2.ts == 0 && e3.ts == DAY
    ensures var log := SegmentAndTwo(mac, width, actor, event);
      && log.segments == [Sealed([Record(e1)])] && Entries([Record(e1)]) == [e1]
      && log.active == [Record(e2), Record(e3)] && log.unlinked.None? && log.rotate == ROTATE_OFF
      && Inv(mac, log, DAY)
  {
    var one := One(mac, actor, event);
    e1 := FirstOf(mac, actor, event);
    OneMeans(mac, width, actor, event);
    SealOne(width, one, Record(e1));
    var sealed := SealedOne(mac, width, actor, event);
    e2 := NextEntry(mac, sealed, 0, actor, event);
    e3 := NextEntry(mac, Written(sealed, e2), DAY, actor, event);
    SealedKeepsInv(mac, width, actor, event);
    WrittenKeepsInv(mac, sealed, 0, 0, actor, event);
    WrittenKeepsInv(mac, Written(sealed, e2), 0, DAY, actor, event);
  }

  lemma SealedKeepsInv(mac: Body -> Mac, width: Line -> nat, actor: string, event: Event)
    ensures Inv(mac, SealedOne(mac, width, actor, event), 0)
  {
    FreshKeepsInv(mac, 0);
    WrittenKeepsInv(mac, FRESH, 0, 0, actor, event);
    RotationInvisible(mac, width, One(mac, actor, event), RotateConfig(1, 0), 0);
  }

  lemma RunPreparing(mac: Body -> Mac, width: Line -> nat, actor: string, event: Event, last: Op)
    requires event.Parses()
    ensures Run(mac, width, FRESH, Preparing(actor, event) + [last]) ==
            Step(mac, width, SegmentAndTwo(mac, width, actor, event), last)
  {
    var one, sealed := One(mac, actor, event), SealedOne(mac, width, actor, event);
    var ops, more := Preparing(actor, event) + [last], Written(sealed, NextEntry(mac, sealed, 0, actor, event));
    OneMeans(mac, width, actor, event);
    SealOne(width, one, one.active[0]);
    AppendOff(mac, width, sealed, 0, actor, event);
    AppendOff(mac, width, more, DAY, actor, event);
    RunThree(mac, width, ops[0], ops[1], ops[2], ops[3..], FRESH, one, sealed, more);
    assert ops == [ops[0], ops[1], ops[2]] + ops[3..] && ops[3..][1..] == [last];
    RunStep(mac, width, more, ops[3..], SegmentAndTwo(mac, width, actor, event));
    RunOne(mac, width, SegmentAndTwo(mac, width, actor, event), last);
  }

  lemma PreparingClocked(actor: string, event: Event, last: Op)
    requires last.Follows(DAY)
    ensures Clocked(0, Preparing(actor, event) + [last])
  {
    var ops := Preparing(actor, event) + [last];
    Peel(ops[0], ops[1], ops[2], ops[3..]);
    assert ops == [ops[0], ops[1], ops[2]] + ops[3..] && ops[3..][1..] == [last] && [last][1..] == [];
    assert Clocked(DAY, [last]) && Clocked(0, ops[3..]);
    assert Clocked(0, ops[1..][1..]) && Clocked(0, ops[1..]);
  }

  /** Pruning the first of two entries behind a segment leaves a gap. */
  lemma PruneBehindSegment(mac: Body -> Mac, log: Log, e2: Entry, e3: Entry)
    requires Inv(mac, log, DAY + 1) && log.segments != []
    requires log.active == [Record(e2), Record(e3)] && e2.ts == 0 && e3.ts == DAY
    ensures var r := Pruned(log, DAY + 1, 1);
      !Sound(mac, Sorting.StableSort(ByStart, r.segments), r.active)
  {
    StaleFirst(e2, e3, 1);
    TwoEntries(e2, e3);
    PrunedVerifiesIff(mac, log, DAY + 1, 1);
  }

  /** Pruning alone can break the chain: a segment, then an active file that loses its first entry. */
  lemma PruneAloneBreaksTheChain(mac: Body -> Mac, width: Line -> nat, actor: string, event: Event)
    requires event.Parses()
    ensures var ops := Preparing(actor, event) + [Prune(DAY + 1, 1)];
      && Clocked(0, ops)
      && var r := Run(mac, width, FRESH, ops);
         !Sound(mac, Sorting.StableSort(ByStart, r.segments), r.active)
  {
    var log := SegmentAndTwo(mac, width, actor, event);
    var _, e2, e3 := SegmentAndTwoMeans(mac, width, actor, event);
    InvLater(mac, log, DAY, DAY + 1);
    PruneBehindSegment(mac, log, e2, e3);
    RunPreparing(mac, width, actor, event, Prune(DAY + 1, 1));
    PreparingClocked(actor, event, Prune(DAY + 1, 1));
  }

  lemma KeptSegment(width: Line -> nat, log: Log, at: Readings, e: Entry)
    requires log.segments == [Sealed([Record(e)])] && Entries([Record(e)]) == [e] && e.ts >= at.retaining - DAY
    requires log.rotate == ROTATE_OFF
    ensures BeforePruning(width, log, ROTATE_OFF, at, 1) == log
  {
    var segments, cutoff := log.segments, at.retaining - 1 * DAY;
    assert Unexpired(segments, 0, cutoff) == [] && [] + [segments[0]] == segments;
    assert segments[0].summary.tsLast == e.ts;
    assert Unexpired(segments, 1, cutoff) == segments;
    assert Rotated(width, log, ROTATE_OFF, at.rotating) == log;
  }

  /** So can a pass whose pruning reads the clock later than its retention: the segment is kept and an
      entry of the same age behind it is not. */
  lemma SlowPassBreaksTheChain(mac: Body -> Mac, width: Line -> nat, actor: string, event: Event)
    requires event.Parses()
    ensures var ops := Preparing(actor, event) + [Sweep(Readings(DAY, DAY, DAY + 1), ROTATE_OFF, 1)];
      && Clocked(0, ops)
      && var r := Run(mac, width, FRESH, ops);
         !Sound(mac, Sorting.StableSort(ByStart, r.segments), r.active)
  {
    var log, pass := SegmentAndTwo(mac, width, actor, event), Sweep(Readings(DAY, DAY, DAY + 1), ROTATE_OFF, 1);
    SlowPassOnSegment(mac, width, actor, event);
    assert Step(mac, width, log, pass) == Swept(width, log, ROTATE_OFF, pass.at, 1);
    RunPreparing(mac, width, actor, event, pass);
    PreparingClocked(actor, event, pass);
  }

  lemma SlowPassOnSegment(mac: Body -> Mac, width: Line -> nat, actor: string, event: Event)
    requires event.Parses()
    ensures var r := Swept(width, SegmentAndTwo(mac, width, actor, event), ROTATE_OFF, Readings(DAY, DAY, DAY + 1), 1);
      !Sound(mac, Sorting.StableSort(ByStart, r.segments), r.active)
  {
    var log := SegmentAndTwo(mac, width, actor, event);
    var e1, e2, e3 := SegmentAndTwoMeans(mac, width, actor, event);
    KeptSegment(width, log, Readings(DAY, DAY, DAY + 1), e1);
    InvLater(mac, log, DAY, DAY + 1);
    PruneBehindSegment(mac, log, e2, e3);
  }
}
