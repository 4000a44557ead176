/** The per-key rate limiters for sign-in attempts and for workspaces: one window of 60 seconds per
    key, opened by a request, and stale windows thrown away when the table grows too large. */
module RateLimit {
  import opened Prelude

  const WINDOW: nat := 60
  const STALE: nat := 120
  const AUTH_CAP: nat := 4096
  const WORKSPACE_CAP: nat := 1024

  datatype Window = Window(count: nat, start: nat)

  type Table = map<string, Window>

  datatype Request = Request(key: string, time: nat)

  /** Drop the stale windows when there are more than `cap`; without a cap, never. */
  function Pruned(table: Table, now: nat, cap: Option<nat>): Table {
    if cap.Some? && |table| > cap.value then
      map k | k in table && SaturatingSub(now, table[k].start) < STALE :: table[k]
    else table
  }

  /** The window of a key after its request, and whether the request is let through. */
  function Counted(w: Window, now: nat, limit: nat): (Window, bool) {
    if SaturatingSub(now, w.start) >= WINDOW then (Window(1, now), true)
    else
      var count := SaturatingAdd(w.count, 1, U32_MAX);
      (Window(count, w.start), count <= limit)
  }

  function Found(table: Table, r: Request): Window {
    if r.key in table then table[r.key] else Window(0, r.time)
  }

  function Decide(table: Table, r: Request, limit: nat, cap: Option<nat>): (Table, bool) {
    var kept := Pruned(table, r.time, cap);
    var d := Counted(Found(kept, r), r.time, limit);
    (kept[r.key := d.0], d.1)
  }

  class RateLimiter {
    var table: Table
    const cap: nat

    constructor (cap: nat)
      ensures this.cap == cap && table == map[]
    {
      this.cap, table := cap, map[];
    }

    method CheckRate(key: string, now: nat, limit: nat) returns (ok: bool)
      modifies this
      ensures (table, ok) == Decide(old(table), Request(key, now), limit, Some(cap))
    {
      if |table| > cap {
        table := map k | k in table && SaturatingSub(now, table[k].start) < STALE :: table[k];
      }
      ghost var kept := table;
      assert kept == Pruned(old(table), now, Some(cap));
      if key !in table {
        table := table[key := Window(0, now)];
      }
      assert table == kept[key := Found(kept, Request(key, now))];
      var entry := table[key];
      if SaturatingSub(now, entry.start) >= WINDOW {
        table := table[key := Window(1, now)];
        assert table == kept[key := Window(1, now)];
        ok := true;
      } else {
        var count := SaturatingAdd(entry.count, 1, U32_MAX);
        table := table[key := Window(count, entry.start)];
        assert table == kept[key := Window(count, entry.start)];
        ok := count <= limit;
      }
    }
  }

  // ---- runs ----

  /** The table after the first `n` requests. */
  function After(reqs: seq<Request>, n: nat, limit: nat, cap: Option<nat>): Table
    requires n <= |reqs|
  {
    if n == 0 then map[] else Decide(After(reqs, n - 1, limit, cap), reqs[n - 1], limit, cap).0
  }

  /** Request `i` is let through. */
  function Admitted(reqs: seq<Request>, i: nat, limit: nat, cap: Option<nat>): bool
    requires i < |reqs|
  {
    Decide(After(reqs, i, limit, cap), reqs[i], limit, cap).1
  }

  ghost predicate NotBefore(reqs: seq<Request>, i: nat, j: nat)
    requires i < |reqs| && j < |reqs|
  {
    reqs[i].time <= reqs[j].time
  }

  /** The clock never goes backwards. */
  ghost predicate Clocked(reqs: seq<Request>) {
    forall i, j :: 0 <= i < j < |reqs| ==> NotBefore(reqs, i, j)
  }

  // ---- pruning is invisible ----

  /** The pruned table is part of the full one, and what it lacks has run out. */
  ghost predicate Agree(pruned: Table, full: Table, now: nat) {
    && (forall k :: k in pruned ==> k in full && pruned[k] == full[k])
    && (forall k :: k in full && k !in pruned ==> full[k].start + WINDOW <= now)
    && (forall k :: k in full ==> full[k].start <= now)
  }

  lemma DecideAgrees(pruned: Table, full: Table, before: nat, r: Request, limit: nat, cap: Option<nat>)
    requires limit >= 1 && before <= r.time && Agree(pruned, full, before)
    ensures var p, f := Decide(pruned, r, limit, cap), Decide(full, r, limit, None);
      p.1 == f.1 && Agree(p.0, f.0, r.time)
  {
    var kept := Pruned(pruned, r.time, cap);
    assert Agree(kept, full, r.time);
  }

  lemma {:induction false} TablesAgree(reqs: seq<Request>, n: nat, limit: nat, cap: Option<nat>, now: nat)
    requires limit >= 1 && Clocked(reqs) && n <= |reqs|
    requires forall i :: 0 <= i < n ==> reqs[i].time <= now
    ensures Agree(After(reqs, n, limit, cap), After(reqs, n, limit, None), now)
  {
    if n > 0 {
      var last := reqs[n - 1].time;
      forall i | 0 <= i < n - 1
        ensures reqs[i].time <= last
      {
        assert NotBefore(reqs, i, n - 1);
      }
      TablesAgree(reqs, n - 1, limit, cap, last);
      DecideAgrees(After(reqs, n - 1, limit, cap), After(reqs, n - 1, limit, None), last, reqs[n - 1], limit, cap);
    }
  }

  /** For every limit of at least one, the limiter that prunes decides like one that never does. */
  lemma PruningInvisible(reqs: seq<Request>, limit: nat, cap: Option<nat>, i: nat)
    requires limit >= 1 && Clocked(reqs) && i < |reqs|
    ensures Admitted(reqs, i, limit, cap) == Admitted(reqs, i, limit, None)
  {
    forall j | 0 <= j < i
      ensures reqs[j].time <= reqs[i].time
    {
      assert NotBefore(reqs, j, i);
    }
    TablesAgree(reqs, i, limit, cap, reqs[i].time);
    DecideAgrees(After(reqs, i, limit, cap), After(reqs, i, limit, None), reqs[i].time, reqs[i], limit, cap);
  }

  function Key(i: nat): string {
    seq(i, _ => 'a')
  }

  /** `n` keys at time zero, then the first of them again when its window is stale. */
  function Crowd(n: nat): seq<Request> {
    seq(n, i requires i >= 0 => Request(Key(i), 0)) + [Request(Key(0), STALE)]
  }

  /** Each of the keys has the window its first request opened. */
  ghost predicate OneEach(table: Table, i: nat) {
    && |table| == i
    && (forall k :: k in table ==> table[k] == Window(1, 0) && |k| < i)
    && (forall j: nat :: j < i ==> Key(j) in table)
  }

  lemma NewKey(table: Table, key: string, w: Window)
    requires key !in table
    ensures |table[key := w]| == |table| + 1
  {
    assert table[key := w].Keys == table.Keys + {key};
  }

  lemma OneMore(table: Table, i: nat, cap: Option<nat>)
    requires OneEach(table, i) && (cap.Some? ==> i <= cap.value)
    ensures OneEach(Decide(table, Request(Key(i), 0), 0, cap).0, i + 1)
  {
    var key, w := Key(i), Window(1, 0);
    assert |key| == i && key !in table;
    assert Pruned(table, 0, cap) == table;
    assert Found(table, Request(key, 0)) == Window(0, 0);
    var after := table[key := w];
    assert Decide(table, Request(key, 0), 0, cap).0 == after;
    NewKey(table, key, w);
    forall j: nat | j < i + 1
      ensures Key(j) in after
    {
    }
  }

  lemma {:induction false} CrowdTable(n: nat, i: nat, cap: Option<nat>)
    requires i <= n && (cap.Some? ==> n <= cap.value + 1)
    ensures OneEach(After(Crowd(n), i, 0, cap), i)
  {
    if i > 0 {
      CrowdTable(n, i - 1, cap);
      assert Crowd(n)[i - 1] == Request(Key(i - 1), 0);
      OneMore(After(Crowd(n), i - 1, 0, cap), i - 1, cap);
    }
  }

  ghost predicate SameDecision(reqs: seq<Request>, limit: nat, cap: nat, i: nat)
    requires i < |reqs|
  {
    Admitted(reqs, i, limit, Some(cap)) == Admitted(reqs, i, limit, None)
  }

  /** Pruning is invisible in every run exactly when the limit is not zero: at zero, a key that
      was pruned is refused where one that was kept opens a new window. */
  lemma PruningInvisibleIff(limit: nat, cap: nat)
    ensures (forall reqs, i: nat :: Clocked(reqs) && i < |reqs| ==> SameDecision(reqs, limit, cap, i))
            <==> limit >= 1
  {
    if limit >= 1 {
      forall reqs, i: nat | Clocked(reqs) && i < |reqs|
        ensures SameDecision(reqs, limit, cap, i)
      {
        PruningInvisible(reqs, limit, Some(cap), i);
      }
    } else {
      var n := cap + 1;
      var reqs := Crowd(n);
      CrowdTable(n, n, Some(cap));
      CrowdTable(n, n, None);
      assert Clocked(reqs);
      assert Pruned(After(reqs, n, 0, Some(cap)), STALE, Some(cap)) == map[];
      assert Key(0) in After(reqs, n, 0, None);
      assert !SameDecision(reqs, limit, cap, n);
    }
  }

  // ---- how many get through ----

  /** Requests for a key let through at times in [lo, hi), among the first `n`. */
  function Through(reqs: seq<Request>, n: nat, limit: nat, cap: Option<nat>, key: string, lo: nat, hi: nat): nat
    requires n <= |reqs|
  {
    if n == 0 then 0
    else
      var r := reqs[n - 1];
      Through(reqs, n - 1, limit, cap, key, lo, hi)
      + if r.key == key && lo <= r.time < hi && Admitted(reqs, n - 1, limit, cap) then 1 else 0
  }

  lemma {:induction false} ThroughSplits(reqs: seq<Request>, n: nat, limit: nat, cap: Option<nat>, key: string,
                                         lo: nat, mid: nat, hi: nat)
    requires n <= |reqs| && lo <= mid <= hi
    ensures Through(reqs, n, limit, cap, key, lo, hi) ==
            Through(reqs, n, limit, cap, key, lo, mid) + Through(reqs, n, limit, cap, key, mid, hi)
  {
    if n > 0 {
      ThroughSplits(reqs, n - 1, limit, cap, key, lo, mid, hi);
    }
  }

  lemma ThroughPart(reqs: seq<Request>, n: nat, limit: nat, cap: Option<nat>, key: string,
                    lo: nat, a: nat, b: nat, hi: nat)
    requires n <= |reqs| && lo <= a <= b <= hi
    ensures Through(reqs, n, limit, cap, key, a, b) <= Through(reqs, n, limit, cap, key, lo, hi)
  {
    ThroughSplits(reqs, n, limit, cap, key, lo, a, hi);
    ThroughSplits(reqs, n, limit, cap, key, a, b, hi);
  }

  lemma {:induction false} ThroughEmpty(reqs: seq<Request>, n: nat, limit: nat, cap: Option<nat>, key: string,
                                        lo: nat, hi: nat)
    requires n <= |reqs| && hi <= lo
    ensures Through(reqs, n, limit, cap, key, lo, hi) == 0
  {
    if n > 0 {
      ThroughEmpty(reqs, n - 1, limit, cap, key, lo, hi);
    }
  }

  /** What is known about a key after `n` requests, for one interval [t, t + 60): requests let
      through since its window opened are counted by it and within the limit, and one of them opened
      it; none came after it ran out; those before it in the interval are fewer than the limit, all
      in the interval fewer than twice the limit. `end` is later than every request. */
  ghost predicate Bounded(reqs: seq<Request>, n: nat, limit: nat, key: string, t: nat, end: nat)
    requires n <= |reqs|
  {
    var table := After(reqs, n, limit, None);
    if key !in table then Through(reqs, n, limit, None, key, 0, end) == 0
    else
      var w := table[key];
      && w.start < end
      && Through(reqs, n, limit, None, key, w.start, end) <= Min(w.count, limit)
      && Through(reqs, n, limit, None, key, w.start, w.start + 1) >= 1
      && Through(reqs, n, limit, None, key, w.start + WINDOW, end) == 0
      && (t < w.start < t + WINDOW ==> Through(reqs, n, limit, None, key, t, w.start) < limit)
      && Through(reqs, n, limit, None, key, t, t + WINDOW) < 2 * limit
  }

  lemma OtherKey(reqs: seq<Request>, n: nat, limit: nat, key: string, t: nat, end: nat)
    requires 0 < n <= |reqs| && reqs[n - 1].key != key
    requires Bounded(reqs, n - 1, limit, key, t, end)
    ensures Bounded(reqs, n, limit, key, t, end)
  {
  }

  /** Inside an interval with nothing let through there is nothing let through. */
  lemma NothingWithin(reqs: seq<Request>, n: nat, limit: nat, key: string, a: nat, b: nat, lo: nat, hi: nat)
    requires n <= |reqs| && a <= lo && hi <= b
    requires Through(reqs, n, limit, None, key, a, b) == 0
    ensures Through(reqs, n, limit, None, key, lo, hi) == 0
  {
    if hi <= lo {
      ThroughEmpty(reqs, n, limit, None, key, lo, hi);
    } else {
      ThroughPart(reqs, n, limit, None, key, a, lo, hi, b);
    }
  }

  lemma FirstRequest(reqs: seq<Request>, n: nat, limit: nat, key: string, t: nat, end: nat)
    requires 0 < n <= |reqs| && limit >= 1 && t + WINDOW <= end
    requires reqs[n - 1].key == key && reqs[n - 1].time < end
    requires key !in After(reqs, n - 1, limit, None)
    requires Bounded(reqs, n - 1, limit, key, t, end)
    ensures Bounded(reqs, n, limit, key, t, end)
  {
    var now := reqs[n - 1].time;
    assert After(reqs, n, limit, None)[key] == Window(1, now);
    NothingWithin(reqs, n - 1, limit, key, 0, end, now, end);
    NothingWithin(reqs, n - 1, limit, key, 0, end, t, t + WINDOW);
    NothingWithin(reqs, n - 1, limit, key, 0, end, now + WINDOW, end);
    NothingWithin(reqs, n - 1, limit, key, 0, end, t, now);
    NothingWithin(reqs, n - 1, limit, key, 0, end, now, now + 1);
  }

  lemma SameWindow(reqs: seq<Request>, n: nat, limit: nat, key: string, t: nat, end: nat)
    requires 0 < n <= |reqs| && 1 <= limit < U32_MAX && t + WINDOW <= end
    requires reqs[n - 1].key == key && reqs[n - 1].time < end
    requires key in After(reqs, n - 1, limit, None)
    requires var start := After(reqs, n - 1, limit, None)[key].start;
      start <= reqs[n - 1].time < start + WINDOW
    requires Bounded(reqs, n - 1, limit, key, t, end)
    ensures Bounded(reqs, n, limit, key, t, end)
  {
    var w, now := After(reqs, n - 1, limit, None)[key], reqs[n - 1].time;
    var s := w.start;
    assert After(reqs, n, limit, None)[key] == Window(SaturatingAdd(w.count, 1, U32_MAX), s);
    assert Through(reqs, n, limit, None, key, s, end) <= limit;
    if t <= now < t + WINDOW {
      if t < s {
        ThroughSplits(reqs, n, limit, None, key, t, s, t + WINDOW);
        ThroughPart(reqs, n, limit, None, key, s, s, t + WINDOW, end);
      } else {
        ThroughPart(reqs, n, limit, None, key, s, t, t + WINDOW, end);
      }
    }
  }

  lemma NextWindow(reqs: seq<Request>, n: nat, limit: nat, key: string, t: nat, end: nat)
    requires 0 < n <= |reqs| && limit >= 1 && t + WINDOW <= end
    requires reqs[n - 1].key == key && reqs[n - 1].time < end
    requires key in After(reqs, n - 1, limit, None)
    requires reqs[n - 1].time >= After(reqs, n - 1, limit, None)[key].start + WINDOW
    requires Bounded(reqs, n - 1, limit, key, t, end)
    ensures Bounded(reqs, n, limit, key, t, end)
  {
    var s, now := After(reqs, n - 1, limit, None)[key].start, reqs[n - 1].time;
    assert After(reqs, n, limit, None)[key] == Window(1, now);
    NothingWithin(reqs, n - 1, limit, key, s + WINDOW, end, now, end);
    NothingWithin(reqs, n - 1, limit, key, s + WINDOW, end, now + WINDOW, end);
    if t <= now < t + WINDOW {
      ThroughSplits(reqs, n - 1, limit, None, key, t, now, t + WINDOW);
      ThroughSplits(reqs, n - 1, limit, None, key, s, s + 1, end);
      ThroughPart(reqs, n - 1, limit, None, key, s + 1, t, now, end);
      NothingWithin(reqs, n - 1, limit, key, s + WINDOW, end, now, t + WINDOW);
    }
  }

  lemma {:induction false} AlwaysBounded(reqs: seq<Request>, n: nat, limit: nat, key: string, t: nat, end: nat)
    requires n <= |reqs| && 1 <= limit < U32_MAX && Clocked(reqs)
    requires t + WINDOW <= end && forall i :: 0 <= i < |reqs| ==> reqs[i].time < end
    ensures Bounded(reqs, n, limit, key, t, end)
  {
    if n > 0 {
      AlwaysBounded(reqs, n - 1, limit, key, t, end);
      if reqs[n - 1].key != key {
        OtherKey(reqs, n, limit, key, t, end);
      } else if key !in After(reqs, n - 1, limit, None) {
        FirstRequest(reqs, n, limit, key, t, end);
      } else {
        StartsArePast(reqs, n - 1, limit, reqs[n - 1].time);
        if reqs[n - 1].time < After(reqs, n - 1, limit, None)[key].start + WINDOW {
          SameWindow(reqs, n, limit, key, t, end);
        } else {
          NextWindow(reqs, n, limit, key, t, end);
        }
      }
    }
  }

  lemma StartsArePast(reqs: seq<Request>, n: nat, limit: nat, now: nat)
    requires n < |reqs| && limit >= 1 && Clocked(reqs) && now == reqs[n].time
    ensures forall k :: k in After(reqs, n, limit, None) ==> After(reqs, n, limit, None)[k].start <= now
  {
    forall j | 0 <= j < n
      ensures reqs[j].time <= now
    {
      assert NotBefore(reqs, j, n);
    }
    TablesAgree(reqs, n, limit, None, now);
  }

  lemma {:induction false} SameThrough(reqs: seq<Request>, n: nat, limit: nat, cap: Option<nat>, key: string,
                                       lo: nat, hi: nat)
    requires n <= |reqs| && limit >= 1 && Clocked(reqs)
    ensures Through(reqs, n, limit, cap, key, lo, hi) == Through(reqs, n, limit, None, key, lo, hi)
  {
    hide Admitted;
    if n > 0 {
      SameThrough(reqs, n - 1, limit, cap, key, lo, hi);
      PruningInvisible(reqs, limit, cap, n - 1);
    }
  }

  function EndOfTime(reqs: seq<Request>, n: nat): (r: nat)
    requires n <= |reqs|
    ensures forall i :: 0 <= i < n ==> reqs[i].time < r
  {
    if n == 0 then 0 else Max(EndOfTime(reqs, n - 1), reqs[n - 1].time + 1)
  }

  /** How many of a run's requests for a key are let through in the 60 seconds from `t`. */
  function InMinute(reqs: seq<Request>, limit: nat, cap: Option<nat>, key: string, t: nat): nat {
    Through(reqs, |reqs|, limit, cap, key, t, t + WINDOW)
  }

  /** In any 60 seconds fewer than twice the limit of a key's requests are let through: the one that
      opens a window comes at its start, so an interval that reaches the next window misses it. */
  lemma FewerThanTwiceTheLimit(reqs: seq<Request>, limit: nat, cap: Option<nat>, key: string, t: nat)
    requires 1 <= limit < U32_MAX && Clocked(reqs)
    ensures InMinute(reqs, limit, cap, key, t) <= 2 * limit - 1
  {
    var end := Max(EndOfTime(reqs, |reqs|), t + WINDOW);
    AlwaysBounded(reqs, |reqs|, limit, key, t, end);
    SameThrough(reqs, |reqs|, limit, cap, key, t, t + WINDOW);
    if key !in After(reqs, |reqs|, limit, None) {
      ThroughPart(reqs, |reqs|, limit, None, key, 0, t, t + WINDOW, end);
    }
  }

  // ---- the bound is reached ----

  /** A window opened at zero and filled up in its last second, then the next one filled at once. */
  function Seam(limit: nat): seq<Request> {
    seq(2 * limit, i => Request("k", if i == 0 then 0 else if i < limit then WINDOW - 1 else WINDOW))
  }

  /** The key's window after `i` requests of the seam. */
  function SeamWindow(limit: nat, i: nat): Window {
    if i <= limit then Window(i, 0) else Window(i - limit, WINDOW)
  }

  lemma SeamStep(limit: nat, i: nat)
    requires 1 <= limit < U32_MAX && i < 2 * limit
    ensures var table := if i == 0 then map[] else map["k" := SeamWindow(limit, i)];
      Decide(table, Seam(limit)[i], limit, None) == (map["k" := SeamWindow(limit, i + 1)], true)
  {
    var table := if i == 0 then map[] else map["k" := SeamWindow(limit, i)];
    var r := Seam(limit)[i];
    assert Found(table, r) == if i == 0 then Window(0, 0) else SeamWindow(limit, i);
    assert Counted(Found(table, r), r.time, limit) == (SeamWindow(limit, i + 1), true);
    assert table["k" := SeamWindow(limit, i + 1)] == map["k" := SeamWindow(limit, i + 1)];
  }

  lemma {:induction false} SeamLetsAllThrough(limit: nat, i: nat)
    requires 1 <= limit < U32_MAX && i <= 2 * limit
    ensures After(Seam(limit), i, limit, None) == if i == 0 then map[] else map["k" := SeamWindow(limit, i)]
    ensures Through(Seam(limit), i, limit, None, "k", 1, 1 + WINDOW) == SaturatingSub(i, 1)
  {
    if i > 0 {
      SeamLetsAllThrough(limit, i - 1);
      SeamStep(limit, i - 1);
      assert Admitted(Seam(limit), i - 1, limit, None);
      assert 1 <= Seam(limit)[i - 1].time < 1 + WINDOW <==> i > 1;
    }
  }

  /** Some run lets through one less than twice the limit within 60 seconds. */
  lemma BoundIsReached(limit: nat, cap: Option<nat>) returns (reqs: seq<Request>)
    requires 1 <= limit < U32_MAX
    ensures Clocked(reqs) && InMinute(reqs, limit, cap, "k", 1) == 2 * limit - 1
  {
    reqs := Seam(limit);
    assert Clocked(reqs);
    SeamLetsAllThrough(limit, 2 * limit);
    SameThrough(reqs, 2 * limit, limit, cap, "k", 1, 1 + WINDOW);
  }

  // ---- the two limits for which it fails ----

  /** At most `bound` requests are let through in any 60 seconds, over every run, key and interval. */
  ghost predicate KeepsBound(limit: nat, cap: Option<nat>, bound: nat) {
    forall reqs, key, t: nat :: Clocked(reqs) ==> InMinute(reqs, limit, cap, key, t) <= bound
  }

  /** With limit zero a request that opens a new window is let through all the same. */
  lemma ZeroLetsOneThrough(cap: Option<nat>)
    ensures !KeepsBound(0, cap, 0)
  {
    var reqs := [Request("k", 0), Request("k", WINDOW)];
    assert Clocked(reqs);
    assert After(reqs, 0, 0, cap) == map[];
    assert After(reqs, 1, 0, cap) == map["k" := Window(1, 0)];
    assert Pruned(After(reqs, 1, 0, cap), WINDOW, cap) == After(reqs, 1, 0, cap);
    assert Admitted(reqs, 1, 0, cap);
    assert InMinute(reqs, 0, cap, "k", WINDOW) >= 1;
  }

  function Burst(n: nat): seq<Request> {
    seq(n, _ => Request("k", 0))
  }

  lemma {:induction false} SaturatedLetsAllThrough(n: nat, i: nat)
    requires i <= n
    ensures After(Burst(n), i, U32_MAX, None) == if i == 0 then map[] else map["k" := Window(Min(i, U32_MAX), 0)]
    ensures Through(Burst(n), i, U32_MAX, None, "k", 0, WINDOW) == i
  {
    if i > 0 {
      SaturatedLetsAllThrough(n, i - 1);
    }
  }

  /** With the largest limit the count saturates at it and never exceeds it: there is no bound. */
  lemma LargestLetsAllThrough(cap: Option<nat>, bound: nat)
    ensures !KeepsBound(U32_MAX, cap, bound)
  {
    var n := bound + 1;
    var reqs := Burst(n);
    assert Clocked(reqs);
    SaturatedLetsAllThrough(n, n);
    SameThrough(reqs, n, U32_MAX, cap, "k", 0, WINDOW);
    assert InMinute(reqs, U32_MAX, cap, "k", 0) == n;
  }

  /** The exact bound: for the limits from one up to one below the largest 32-bit number the numbers
      that bound every run are those from one less than twice the limit on; for the largest there
      is none. */
  lemma KeepsBoundIff(limit: nat, cap: Option<nat>, bound: nat)
    requires 1 <= limit <= U32_MAX
    ensures KeepsBound(limit, cap, bound) <==> limit < U32_MAX && 2 * limit - 1 <= bound
  {
    if limit == U32_MAX {
      LargestLetsAllThrough(cap, bound);
    } else {
      var reqs := BoundIsReached(limit, cap);
      forall reqs, key, t: nat | Clocked(reqs)
        ensures InMinute(reqs, limit, cap, key, t) <= 2 * limit - 1
      {
        FewerThanTwiceTheLimit(reqs, limit, cap, key, t);
      }
    }
  }

  /** At most `limit` requests in any 60 seconds, as the limit is documented: exactly for limit one. */
  lemma DocumentedLimitIff(limit: nat, cap: Option<nat>)
    requires limit <= U32_MAX
    ensures KeepsBound(limit, cap, limit) <==> limit == 1
  {
    if limit == 0 {
      ZeroLetsOneThrough(cap);
    } else {
      KeepsBoundIff(limit, cap, limit);
    }
  }

  // ---- which requests are let through ----

  /** The last of the first `n` requests that has the key. */
  function Last(reqs: seq<Request>, n: nat, key: string): (r: Option<nat>)
    requires n <= |reqs|
    ensures r.Some? ==> r.value < n && reqs[r.value].key == key
    ensures forall i :: (if r.Some? then r.value + 1 else 0) <= i < n ==> reqs[i].key != key
  {
    if n == 0 then None else if reqs[n - 1].key == key then Some(n - 1) else Last(reqs, n - 1, key)
  }

  /** The request that opened the minute in which request `i` comes: itself, if it is the key's first or at
      least 60 seconds later than the one that opened the minute before. */
  function Opener(reqs: seq<Request>, i: nat): (r: nat)
    requires i < |reqs|
    ensures r <= i
  {
    match Last(reqs, i, reqs[i].key)
    case None => i
    case Some(p) => if reqs[i].time >= reqs[Opener(reqs, p)].time + 60 then i else Opener(reqs, p)
  }

  /** How many of the key's requests come in that minute, up to request `i`. */
  function Rank(reqs: seq<Request>, i: nat): nat
    requires i < |reqs|
  {
    match Last(reqs, i, reqs[i].key)
    case None => 1
    case Some(p) => if Opener(reqs, i) == i then 1 else Rank(reqs, p) + 1
  }

  lemma {:induction false} TableTells(reqs: seq<Request>, n: nat, limit: nat, key: string)
    requires n <= |reqs|
    ensures var table := After(reqs, n, limit, None);
      match Last(reqs, n, key)
      case None => key !in table
      case Some(p) =>
        key in table && table[key] == Window(Min(Rank(reqs, p), 0xFFFF_FFFF), reqs[Opener(reqs, p)].time)
  {
    if n > 0 {
      TableTells(reqs, n - 1, limit, key);
      var table, r := After(reqs, n - 1, limit, None), reqs[n - 1];
      assert After(reqs, n, limit, None) == Decide(table, r, limit, None).0;
    }
  }

  /** A request is let through exactly when it opens a minute of its key or is among the first `limit` of
      its minute; the count stops at the largest 32-bit number. */
  lemma LetThroughIff(reqs: seq<Request>, i: nat, limit: nat, cap: Option<nat>)
    requires limit >= 1 && Clocked(reqs) && i < |reqs|
    ensures Admitted(reqs, i, limit, cap) <==> Opener(reqs, i) == i || Min(Rank(reqs, i), 0xFFFF_FFFF) <= limit
  {
    PruningInvisible(reqs, limit, cap, i);
    TableTells(reqs, i, limit, reqs[i].key);
    var table := After(reqs, i, limit, None);
    assert Admitted(reqs, i, limit, None) == Counted(Found(table, reqs[i]), reqs[i].time, limit).1;
  }

  /** A table with more than one key above its limit holds only windows opened less than two minutes ago. */
  lemma LargeTablesAreFresh(table: Table, r: Request, limit: nat, cap: nat)
    ensures var after := Decide(table, r, limit, Some(cap)).0;
      |after| > cap + 1 ==> forall k :: k in after ==> r.time < after[k].start + 120
  {
    var kept, after := Pruned(table, r.time, Some(cap)), Decide(table, r, limit, Some(cap)).0;
    assert after.Keys == kept.Keys + {r.key};
    assert |after.Keys| <= |kept.Keys| + 1;
  }
}
