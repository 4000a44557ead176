/** The audit log on disk (sealed segments and one active file) and the handle that appends to it.

    `Log` is the abstract state and the functions on it are the specification; the class
    `AuditLog` holds the same state in fields and its methods are proved against them. Rotation is
    one atomic step: the crash window between sealing and truncating is not modelled. */
module AuditStore {
  import opened Prelude
  import opened AuditChain

  /** Time counts nanoseconds. */
  const DAY: int := 86_400_000_000_000

  datatype RotateConfig = RotateConfig(maxBytes: nat, maxAgeDays: nat) {
    predicate Enabled() {
      maxBytes > 0 || maxAgeDays > 0
    }
  }

  const ROTATE_OFF := RotateConfig(0, 0)

  datatype Summary = Summary(seqStart: nat, seqEnd: nat, entries: nat, firstPrevHmac: Mac,
                             lastHmac: Mac, tsFirst: Time, tsLast: Time)

  datatype Segment = Segment(summary: Summary, content: seq<Line>)

  /** The lines of the first `n` sealed segments, oldest first. */
  function JoinedFirst(segments: seq<Segment>, n: nat): seq<Line>
    requires n <= |segments|
  {
    if n == 0 then [] else JoinedFirst(segments, n - 1) + segments[n - 1].content
  }

  function Joined(segments: seq<Segment>): seq<Line> {
    JoinedFirst(segments, |segments|)
  }

  /** `active` is the file under the log's name. The handle writes to that file, or, when pruning has
      put another one in its place, to an `unlinked` one that no reader can find. */
  datatype Log = Log(segments: seq<Segment>, active: seq<Line>, unlinked: Option<seq<Line>>, seqNo: nat,
                     lastHmac: Mac, rotate: RotateConfig)
  {
    /** What the file in the handle holds. */
    function Held(): seq<Line> {
      if unlinked.Some? then unlinked.value else active
    }

    /** The logical log: what a reader sees of segments and active file put together. */
    function Logical(): seq<Line> {
      Joined(segments) + active
    }

    function Retained(): seq<Entry> {
      Entries(Logical())
    }
  }

  const FRESH := Log([], [], None, 0, GENESIS_HMAC, ROTATE_OFF)

  // ---- specification of the operations ----

  function SummaryOf(es: seq<Entry>): Option<Summary> {
    if es == [] then None
    else
      var last := es[|es| - 1];
      Some(Summary(es[0].seqNo, last.seqNo, |es|, es[0].prevHmac, last.hmac, es[0].ts, last.ts))
  }

  /** Bytes of a file: the text of every line and its line feed. */
  function FileSize(width: Line -> nat, lines: seq<Line>): nat {
    if lines == [] then 0 else FileSize(width, lines[1..]) + width(lines[0]) + 1
  }

  function NextEntry(mac: Body -> Mac, log: Log, now: Time, actor: string, event: Event): Entry {
    Entry(now, log.seqNo + 1, actor, event, log.lastHmac,
          mac(Body(now, log.seqNo + 1, actor, log.lastHmac, event)))
  }

  function Written(log: Log, e: Entry): Log {
    var line := LineOf(e);
    if log.unlinked.Some? then
      log.(unlinked := Some(log.unlinked.value + [line]), seqNo := e.seqNo, lastHmac := e.hmac)
    else log.(active := log.active + [line], seqNo := e.seqNo, lastHmac := e.hmac)
  }

  /** A size or age trigger fires and there is something to seal. The size is that of the file in
      the handle, everything else is read under the log's name. */
  predicate Due(width: Line -> nat, held: seq<Line>, active: seq<Line>, cfg: RotateConfig, now: Time) {
    && held != []
    && Entries(active) != []
    && (|| (cfg.maxBytes > 0 && FileSize(width, held) >= cfg.maxBytes)
        || (cfg.maxAgeDays > 0 && Entries(active)[0].ts < now - cfg.maxAgeDays * DAY))
  }

  function Sealed(active: seq<Line>): Segment
    requires Entries(active) != []
  {
    Segment(SummaryOf(Entries(active)).value, active)
  }

  function Rotated(width: Line -> nat, log: Log, cfg: RotateConfig, now: Time): Log {
    if Due(width, log.Held(), log.active, cfg, now) then
      log.(segments := log.segments + [Sealed(log.active)], active := [], unlinked := None)
    else log
  }

  function Appended(mac: Body -> Mac, width: Line -> nat, log: Log, now: Time, actor: string,
                    event: Event): Log
  {
    var written := Written(log, NextEntry(mac, log, now, actor, event));
    Rotated(width, written, RotateConfig(log.rotate.maxBytes, 0), now)
  }

  /** The segments among the first `n` that did not end before the cutoff. */
  function Unexpired(segments: seq<Segment>, n: nat, cutoff: Time): seq<Segment>
    requires n <= |segments|
  {
    if n == 0 then []
    else
      var kept := Unexpired(segments, n - 1, cutoff);
      if segments[n - 1].summary.tsLast < cutoff then kept else kept + [segments[n - 1]]
  }

  function Expired(log: Log, now: Time, retainDays: nat): Log {
    if retainDays == 0 then log
    else log.(segments := Unexpired(log.segments, |log.segments|, now - retainDays * DAY))
  }

  /** `max_by_key` on `seq_end`: the last of the segments with the greatest end. */
  function LatestSegment(segments: seq<Segment>): Segment
    requires segments != []
  {
    var last := segments[|segments| - 1];
    if |segments| == 1 then last
    else
      var best := LatestSegment(segments[..|segments| - 1]);
      if best.summary.seqEnd > last.summary.seqEnd then best else last
  }

  /** The sequence number and MAC found on opening the files. */
  function Tail(segments: seq<Segment>, active: seq<Line>): (nat, Mac) {
    var es := Entries(active);
    var seqNo := if es == [] then 0 else es[|es| - 1].seqNo;
    if seqNo == 0 && segments != [] then
      var last := LatestSegment(segments);
      (last.summary.seqEnd, last.summary.lastHmac)
    else (seqNo, EndHmac(es, GENESIS_HMAC))
  }

  function Reopened(log: Log): Log {
    var tail := Tail(log.segments, log.active);
    log.(unlinked := None, seqNo := tail.0, lastHmac := tail.1, rotate := ROTATE_OFF)
  }

  predicate PruneKeeps(line: Line, cutoff: Time) {
    match line
    case Blank => false
    case Garbled | Clashing(_) => true
    case Record(e) => e.ts >= cutoff
  }

  function KeptLines(lines: seq<Line>, cutoff: Time): seq<Line> {
    if lines == [] then []
    else
      var last := lines[|lines| - 1];
      KeptLines(lines[..|lines| - 1], cutoff) + if PruneKeeps(last, cutoff) then [last] else []
  }

  /** How many entries of a file are older than the cutoff. */
  function Stale(es: seq<Entry>, cutoff: Time): nat {
    if es == [] then 0
    else Stale(es[..|es| - 1], cutoff) + if es[|es| - 1].ts < cutoff then 1 else 0
  }

  lemma StaleSnoc(es: seq<Entry>, e: Entry, cutoff: Time)
    ensures Stale(es + [e], cutoff) == Stale(es, cutoff) + if e.ts < cutoff then 1 else 0
  {
    assert (es + [e])[..|es|] == es;
  }

  /** A file is rewritten only when some entry is removed. */
  function PrunedFile(lines: seq<Line>, cutoff: Time): seq<Line> {
    if Stale(Entries(lines), cutoff) > 0 then KeptLines(lines, cutoff) else lines
  }

  /** Pruning puts a new file under the log's name; an open handle keeps the old one. */
  function Pruned(log: Log, now: Time, retainDays: nat): Log {
    var cutoff := now - retainDays * DAY;
    if retainDays > 0 && Stale(Entries(log.active), cutoff) > 0 then
      log.(active := KeptLines(log.active, cutoff), unlinked := Some(log.Held()))
    else log
  }

  /** The clock readings of a daemon's pass: rotation, segment retention and pruning read it each. */
  datatype Readings = Readings(rotating: Time, retaining: Time, pruning: Time) {
    predicate Ordered() {
      rotating <= retaining <= pruning
    }
  }

  /** The first two parts of a daemon's pass over an audit directory: rotation and segment retention. */
  function BeforePruning(width: Line -> nat, log: Log, cfg: RotateConfig, at: Readings, retainDays: nat): Log {
    Expired(Rotated(width, log.(rotate := cfg), cfg, at.rotating), at.retaining, retainDays)
  }

  /** The whole pass, all under the open handle. */
  function Swept(width: Line -> nat, log: Log, cfg: RotateConfig, at: Readings, retainDays: nat): Log {
    Pruned(BeforePruning(width, log, cfg, at, retainDays), at.pruning, retainDays)
  }

  /** An entry of this time is older than the retention period. */
  predicate Overdue(ts: Time, now: Time, retainDays: nat) {
    retainDays > 0 && ts < now - retainDays * DAY
  }

  /** The two retention passes over a closed log, which is then opened. */
  function ClosedSwept(log: Log, now: Time, retainDays: nat): Log {
    Reopened(Pruned(Expired(log, now, retainDays), now, retainDays))
  }

  // ---- the loops over a file ----

  method Summarize(content: seq<Line>) returns (r: Option<Summary>)
    ensures r == SummaryOf(Entries(content))
  {
    var seqStart: Option<nat>, firstPrev: Mac, tsFirst: Time := None, "", 0;
    var seqEnd, lastHmac, tsLast, entries := 0, "", 0, 0;
    for i := 0 to |content|
      invariant entries == |Entries(content[..i])|
      invariant seqStart.None? <==> entries == 0
      invariant entries > 0 ==>
        SummaryOf(Entries(content[..i])) ==
        Some(Summary(seqStart.value, seqEnd, entries, firstPrev, lastHmac, tsFirst, tsLast))
    {
      assert content[..i + 1] == content[..i] + [content[i]];
      EntriesSnoc(content[..i], content[i]);
      if content[i].Record? {
        var e := content[i].entry;
        if seqStart.None? {
          seqStart, firstPrev, tsFirst := Some(e.seqNo), e.prevHmac, e.ts;
        }
        seqEnd, lastHmac, tsLast, entries := e.seqNo, e.hmac, e.ts, entries + 1;
      }
    }
    assert content[..|content|] == content;
    r := if seqStart.None? then None
         else Some(Summary(seqStart.value, seqEnd, entries, firstPrev, lastHmac, tsFirst, tsLast));
  }

  method OldestTs(content: seq<Line>) returns (r: Option<Time>)
    ensures r == if Entries(content) == [] then None else Some(Entries(content)[0].ts)
  {
    for i := 0 to |content|
      invariant Entries(content[..i]) == []
    {
      assert content[..i + 1] == content[..i] + [content[i]];
      EntriesSnoc(content[..i], content[i]);
      assert content == content[..i + 1] + content[i + 1..];
      EntriesConcat(content[..i + 1], content[i + 1..]);
      if content[i].Record? {
        return Some(content[i].entry.ts);
      }
    }
    assert content[..|content|] == content;
    return None;
  }

  method ScanTail(segments: seq<Segment>, active: seq<Line>) returns (seqNo: nat, lastHmac: Mac)
    ensures (seqNo, lastHmac) == Tail(segments, active)
  {
    seqNo, lastHmac := 0, GENESIS_HMAC;
    for i := 0 to |active|
      invariant var es := Entries(active[..i]);
        seqNo == (if es == [] then 0 else es[|es| - 1].seqNo) && lastHmac == EndHmac(es, GENESIS_HMAC)
    {
      assert active[..i + 1] == active[..i] + [active[i]];
      EntriesSnoc(active[..i], active[i]);
      if active[i].Record? {
        seqNo, lastHmac := active[i].entry.seqNo, active[i].entry.hmac;
      }
    }
    ghost var es := Entries(active);
    assert active[..|active|] == active;
    assert lastHmac == EndHmac(es, GENESIS_HMAC) && seqNo == if es == [] then 0 else es[|es| - 1].seqNo;
    if seqNo == 0 && segments != [] {
      var last := LatestSegment(segments);
      seqNo, lastHmac := last.summary.seqEnd, last.summary.lastHmac;
    }
  }

  /** Prune a closed log file; refuses to run without a retention period. */
  method PruneLog(lines: seq<Line>, now: Time, retainDays: nat)
    returns (r: Result<nat, string>, file: seq<Line>)
    ensures r.Err? <==> retainDays == 0
    ensures r.Err? ==> file == lines
    ensures r.Ok? ==> r.value == Stale(Entries(lines), now - retainDays * DAY)
    ensures r.Ok? ==> file == PrunedFile(lines, now - retainDays * DAY)
  {
    file := lines;
    if retainDays == 0 {
      return Err("refusing to prune the entire audit log"), file;
    }
    var cutoff := now - retainDays * DAY;
    var kept: seq<Line>, pruned: nat := [], 0;
    for i := 0 to |lines|
      invariant kept == KeptLines(lines[..i], cutoff)
      invariant pruned == Stale(Entries(lines[..i]), cutoff)
    {
      var line := lines[i];
      assert lines[..i + 1] == lines[..i] + [line];
      EntriesSnoc(lines[..i], line);
      if line.Record? {
        StaleSnoc(Entries(lines[..i]), line.entry, cutoff);
      }
      assert lines[..i + 1][..i] == lines[..i];
      match line {
        case Blank =>
        case Record(e) =>
          if e.ts < cutoff {
            pruned := pruned + 1;
          } else {
            kept := kept + [line];
          }
        case Garbled | Clashing(_) =>
          kept := kept + [line];
      }
    }
    assert lines[..|lines|] == lines;
    if pruned > 0 {
      file := kept;
    }
    r := Ok(pruned);
  }

  // ---- the handle ----

  class AuditLog {
    const mac: Body -> Mac
    const width: Line -> nat
    var segments: seq<Segment>
    var active: seq<Line>
    var unlinked: Option<seq<Line>>
    var seqNo: nat
    var lastHmac: Mac
    var rotate: RotateConfig

    function View(): Log
      reads this
    {
      Log(segments, active, unlinked, seqNo, lastHmac, rotate)
    }

    /** Open whatever is on disk. */
    constructor (mac: Body -> Mac, width: Line -> nat, segments: seq<Segment>, active: seq<Line>)
      ensures this.mac == mac && this.width == width
      ensures View() == Reopened(Log(segments, active, None, 0, GENESIS_HMAC, ROTATE_OFF))
    {
      this.mac, this.width, this.segments, this.active, this.unlinked := mac, width, segments, active, None;
      var tailSeq, tailHmac := ScanTail(segments, active);
      this.seqNo, this.lastHmac, this.rotate := tailSeq, tailHmac, ROTATE_OFF;
    }

    /** Close the handle and open the same files again. */
    method Reopen()
      modifies this
      ensures View() == Reopened(old(View()))
    {
      unlinked := None;
      seqNo, lastHmac := ScanTail(segments, active);
      rotate := ROTATE_OFF;
    }

    method SetRotation(cfg: RotateConfig)
      modifies this
      ensures View() == old(View()).(rotate := cfg)
    {
      rotate := cfg;
    }

    /** Write to the file in the handle. */
    method WriteLine(line: Line)
      modifies this
      ensures View() == if old(unlinked).Some? then old(View()).(unlinked := Some(old(unlinked).value + [line]))
                        else old(View()).(active := old(active) + [line])
    {
      if unlinked.Some? {
        unlinked := Some(unlinked.value + [line]);
      } else {
        active := active + [line];
      }
    }

    method Append(now: Time, actor: string, event: Event)
      modifies this
      ensures View() == Appended(mac, width, old(View()), now, actor, event)
      ensures seqNo == old(seqNo) + 1 && lastHmac == mac(Body(now, seqNo, actor, old(lastHmac), event))
      ensures segments == old(segments) ==>
                var e := Entry(now, seqNo, actor, event, old(lastHmac), lastHmac);
                var line := if event.kind == "workspace_shredded" then Clashing(e) else Record(e);
                View().Held() == old(View().Held()) + [line]
    {
      var next := seqNo + 1;
      var hmac := mac(Body(now, next, actor, lastHmac, event));
      WriteLine(LineOf(Entry(now, next, actor, event, lastHmac, hmac)));
      seqNo := next;
      lastHmac := hmac;
      if rotate.maxBytes > 0 {
        var _ := RotateLocked(RotateConfig(rotate.maxBytes, 0), now);
      }
    }

    method MaybeRotate(cfg: RotateConfig, now: Time) returns (r: Option<Segment>)
      modifies this
      ensures View() == Rotated(width, old(View()), cfg, now)
      ensures r == if Due(width, old(View()).Held(), old(active), cfg, now) then Some(Sealed(old(active))) else None
    {
      if !cfg.Enabled() {
        return None;
      }
      r := RotateLocked(cfg, now);
    }

    method RotateLocked(cfg: RotateConfig, now: Time) returns (r: Option<Segment>)
      modifies this
      ensures View() == Rotated(width, old(View()), cfg, now)
      ensures r == if Due(width, old(View()).Held(), old(active), cfg, now) then Some(Sealed(old(active))) else None
    {
      if !cfg.Enabled() {
        return None;
      }
      var len := FileSize(width, View().Held());
      if len == 0 {
        return None;
      }
      var hit := cfg.maxBytes > 0 && len >= cfg.maxBytes;
      if !hit && cfg.maxAgeDays == 0 {
        return None;
      }
      if !hit && cfg.maxAgeDays > 0 {
        var ts := OldestTs(active);
        if ts.Some? && ts.value < now - cfg.maxAgeDays * DAY {
          hit := true;
        }
      }
      if !hit {
        return None;
      }
      var sum := Summarize(active);
      if sum.None? {
        return None;
      }
      var seg := Segment(sum.value, active);
      segments := segments + [seg];
      active := [];
      unlinked := None;
      r := Some(seg);
    }

    method EnforceSegmentRetention(now: Time, retainDays: nat) returns (removed: nat)
      modifies this
      ensures View() == Expired(old(View()), now, retainDays)
      ensures removed == |old(segments)| - |segments|
    {
      removed := 0;
      if retainDays == 0 || segments == [] {
        return;
      }
      var cutoff := now - retainDays * DAY;
      var keep: seq<Segment> := [];
      for i := 0 to |segments|
        invariant View() == old(View())
        invariant keep == Unexpired(segments, i, cutoff)
        invariant removed == i - |keep|
        invariant removed == 0 ==> keep == segments[..i]
      {
        if segments[i].summary.tsLast < cutoff {
          removed := removed + 1;
        } else {
          keep := keep + [segments[i]];
        }
      }
      assert segments[..|segments|] == segments;
      if removed > 0 {
        segments := keep;
      }
    }

    /** Prune the file under the log's name while the handle is open. */
    method Prune(now: Time, retainDays: nat) returns (r: Result<nat, string>)
      modifies this
      ensures View() == Pruned(old(View()), now, retainDays)
      ensures r.Err? <==> retainDays == 0
      ensures r.Ok? ==> r.value == Stale(Entries(old(active)), now - retainDays * DAY)
    {
      var file;
      r, file := PruneLog(active, now, retainDays);
      if r.Ok? && r.value > 0 {
        unlinked := Some(View().Held());
        active := file;
      }
    }

    /** The daemon's pass over this log's directory. */
    method SweepDir(cfg: RotateConfig, at: Readings, retainDays: nat)
      modifies this
      ensures View() == Swept(width, old(View()), cfg, at, retainDays)
    {
      SetRotation(cfg);
      var _ := MaybeRotate(cfg, at.rotating);
      var _ := EnforceSegmentRetention(at.retaining, retainDays);
      if retainDays > 0 {
        var _ := Prune(at.pruning, retainDays);
      }
    }
  }
}
