/** Workspace quotas: admission of requests and release when their guards are dropped.

    A dropped guard releases later, from a task of its own, so a guard counts as outstanding until
    its release has run. Admission is one step under the lock. */
module Usage {
  import opened Prelude

  /** What one model in use takes, and how many requests use it. */
  datatype Slot = Slot(size: nat, inFlight: nat)

  datatype Ledger = Ledger(concurrent: nat, active: map<string, Slot>)

  const EMPTY := Ledger(0, map[])

  datatype Quotas = Quotas(maxConcurrent: Option<u32>, maxModels: Option<u32>, maxMemory: Option<u64>)

  datatype Refusal = Concurrency | Models | Memory

  // ---- specification ----

  /** The bytes of all models in use, by the sizes on record. */
  ghost function Bytes(active: map<string, Slot>): nat
    decreases |active|
  {
    if active == map[] then 0
    else
      var k :| k in active;
      active[k].size + Bytes(active - {k})
  }

  lemma {:induction false} BytesWithout(active: map<string, Slot>, k: string)
    requires k in active
    ensures Bytes(active) == active[k].size + Bytes(active - {k})
    decreases |active|
  {
    var j :| j in active && Bytes(active) == active[j].size + Bytes(active - {j});
    if j != k {
      BytesWithout(active - {j}, k);
      BytesWithout(active - {k}, j);
      assert active - {j} - {k} == active - {k} - {j};
    }
  }

  lemma BytesUpdate(active: map<string, Slot>, k: string, slot: Slot)
    ensures Bytes(active[k := slot]) == slot.size + Bytes(active - {k})
  {
    BytesWithout(active[k := slot], k);
    assert active[k := slot] - {k} == active - {k};
  }

  function Acquired(u: Ledger, model: string, size: nat): Ledger {
    var slot := if model in u.active then u.active[model] else Slot(size, 0);
    Ledger(u.concurrent + 1, u.active[model := slot.(inFlight := slot.inFlight + 1)])
  }

  function Released(u: Ledger, model: string): Ledger {
    var concurrent := SaturatingSub(u.concurrent, 1);
    if model !in u.active then Ledger(concurrent, u.active)
    else
      var slot := u.active[model];
      var left := SaturatingSub(slot.inFlight, 1);
      Ledger(concurrent, if left == 0 then u.active - {model}
                         else u.active[model := slot.(inFlight := left)])
  }

  /** The number of models, cut to 32 bits. */
  function ModelCount(u: Ledger): nat {
    |u.active| % 0x1_0000_0000
  }

  /** The first limit that the request would break. */
  ghost function Refused(u: Ledger, q: Quotas, model: string, size: u64): Option<Refusal> {
    var isNew := model !in u.active;
    if q.maxConcurrent.Some? && u.concurrent >= q.maxConcurrent.value then Some(Concurrency)
    else if q.maxModels.Some? && isNew && ModelCount(u) >= q.maxModels.value then Some(Models)
    else if q.maxMemory.Some? && isNew && SaturatingAdd(Bytes(u.active), size, U64_MAX) > q.maxMemory.value
    then Some(Memory)
    else None
  }

  /** A request is admitted exactly when the ledger with it is within the request limit and, if its model
      is not in use yet, within the limits on models and on bytes, which are compared as 64-bit numbers. */
  lemma AdmittedIff(u: Ledger, q: Quotas, model: string, size: u64)
    requires |u.active| < 0x1_0000_0000
    ensures var r := Acquired(u, model, size);
      Refused(u, q, model, size).None? <==>
      && (q.maxConcurrent.None? || r.concurrent <= q.maxConcurrent.value)
      && (model !in u.active ==>
            && (q.maxModels.None? || |r.active| <= q.maxModels.value)
            && (q.maxMemory.None? || Min(Bytes(r.active), 0xFFFF_FFFF_FFFF_FFFF) <= q.maxMemory.value))
  {
    if model !in u.active {
      BytesUpdate(u.active, model, Slot(size, 1));
      assert u.active - {model} == u.active;
      assert u.active[model := Slot(size, 1)].Keys == u.active.Keys + {model};
      assert |u.active[model := Slot(size, 1)].Keys| == |u.active.Keys| + 1;
    }
  }

  // ---- the shared object ----

  class WorkspaceUsage {
    var concurrent: nat
    var active: map<string, Slot>

    function View(): Ledger
      reads this
    {
      Ledger(concurrent, active)
    }

    constructor ()
      ensures View() == EMPTY
    {
      concurrent, active := 0, map[];
    }

    method MemoryBytes() returns (bytes: nat)
      ensures bytes == Bytes(active)
    {
      bytes := 0;
      var rest := active;
      while rest != map[]
        invariant bytes + Bytes(rest) == Bytes(active)
        decreases |rest|
      {
        var k :| k in rest;
        BytesWithout(rest, k);
        bytes := bytes + rest[k].size;
        rest := rest - {k};
      }
    }

    method Acquire(model: string, size: nat)
      modifies this
      ensures View() == Acquired(old(View()), model, size)
    {
      concurrent := concurrent + 1;
      if model !in active {
        active := active[model := Slot(size, 0)];
      }
      active := active[model := active[model].(inFlight := active[model].inFlight + 1)];
    }

    method Release(model: string)
      modifies this
      ensures View() == Released(old(View()), model)
    {
      concurrent := SaturatingSub(concurrent, 1);
      if model in active {
        active := active[model := active[model].(inFlight := SaturatingSub(active[model].inFlight, 1))];
        if active[model].inFlight == 0 {
          active := active - {model};
        }
      }
    }

    /** The admission block. */
    method Admit(q: Quotas, model: string, size: u64) returns (r: Option<Refusal>)
      modifies this
      ensures r == Refused(old(View()), q, model, size)
      ensures View() == if r.None? then Acquired(old(View()), model, size) else old(View())
    {
      if q.maxConcurrent.Some? {
        if concurrent >= q.maxConcurrent.value {
          return Some(Concurrency);
        }
      }
      if q.maxModels.Some? {
        if model !in active && ModelCount(View()) >= q.maxModels.value {
          return Some(Models);
        }
      }
      if q.maxMemory.Some? {
        var bytes := MemoryBytes();
        if model !in active && SaturatingAdd(bytes, size, U64_MAX) > q.maxMemory.value {
          return Some(Memory);
        }
      }
      Acquire(model, size);
      r := None;
    }
  }

  // ---- runs ----

  /** A guard of an admitted request; its size is kept for what is stated about it. */
  datatype Guard = Guard(model: string, size: u64)

  /** Of the outstanding guards the `i`-th is released. */
  datatype Op = Request(model: string, size: u64) | Drop(i: nat)

  /** The ledger and the guards that have not been released yet. */
  datatype World = World(ledger: Ledger, guards: seq<Guard>)

  const START := World(EMPTY, [])

  ghost function Step(w: World, q: Quotas, op: Op): World {
    match op
    case Request(model, size) =>
      if Refused(w.ledger, q, model, size).Some? then w
      else World(Acquired(w.ledger, model, size), w.guards + [Guard(model, size)])
    case Drop(i) =>
      if i < |w.guards| then World(Released(w.ledger, w.guards[i].model), w.guards[..i] + w.guards[i + 1..]) else w
  }

  ghost function Run(w: World, q: Quotas, ops: seq<Op>): World
    decreases |ops|
  {
    if ops == [] then w else Run(Step(w, q, ops[0]), q, ops[1..])
  }

  /** How many of the guards are for this model. */
  function Holders(guards: seq<Guard>, model: string): nat {
    if guards == [] then 0
    else Holders(guards[..|guards| - 1], model) + if guards[|guards| - 1].model == model then 1 else 0
  }

  lemma HoldersSnoc(guards: seq<Guard>, g: Guard, model: string)
    ensures Holders(guards + [g], model) == Holders(guards, model) + if g.model == model then 1 else 0
  {
    assert (guards + [g])[..|guards|] == guards;
  }

  lemma {:induction false} HoldersConcat(x: seq<Guard>, y: seq<Guard>, model: string)
    ensures Holders(x + y, model) == Holders(x, model) + Holders(y, model)
  {
    if y == [] {
      assert x + y == x;
    } else {
      var init, last := y[..|y| - 1], y[|y| - 1];
      HoldersConcat(x, init, model);
      HoldersSnoc(x + init, last, model);
      assert x + y == (x + init) + [last];
    }
  }

  lemma HoldersWithout(guards: seq<Guard>, i: nat, model: string)
    requires i < |guards|
    ensures Holders(guards, model) ==
            Holders(guards[..i] + guards[i + 1..], model) + if guards[i].model == model then 1 else 0
  {
    var x, y := guards[..i], guards[i + 1..];
    assert guards == (x + [guards[i]]) + y;
    HoldersConcat(x + [guards[i]], y, model);
    HoldersSnoc(x, guards[i], model);
    HoldersConcat(x, y, model);
  }

  /** The ledger is exact: it counts the guards, model by model, and knows no other model. */
  ghost predicate Exact(w: World) {
    && w.ledger.concurrent == |w.guards|
    && forall k :: ExactFor(w, k)
  }

  ghost predicate ExactFor(w: World, k: string) {
    Holders(w.guards, k) == if k in w.ledger.active then w.ledger.active[k].inFlight else 0
  }

  /** The configured limits hold, memory by the sizes on record. */
  ghost predicate Within(u: Ledger, q: Quotas) {
    && (forall k :: k in u.active ==> u.active[k].inFlight >= 1 && u.active[k].size <= U64_MAX)
    && (q.maxConcurrent.Some? ==> u.concurrent <= q.maxConcurrent.value)
    && (q.maxModels.Some? ==> |u.active| <= q.maxModels.value)
    && (q.maxMemory.Some? && q.maxMemory.value < U64_MAX ==> Bytes(u.active) <= q.maxMemory.value)
  }

  lemma AcquireExact(w: World, model: string, size: u64)
    requires Exact(w)
    ensures Exact(World(Acquired(w.ledger, model, size), w.guards + [Guard(model, size)]))
  {
    var r := World(Acquired(w.ledger, model, size), w.guards + [Guard(model, size)]);
    forall k
      ensures ExactFor(r, k)
    {
      assert ExactFor(w, k);
      HoldersSnoc(w.guards, Guard(model, size), k);
    }
  }

  /** What acquiring adds: a known model costs nothing new. */
  lemma AcquireSizes(u: Ledger, model: string, size: u64)
    ensures var r, isNew := Acquired(u, model, size).active, model !in u.active;
      && |r| == |u.active| + (if isNew then 1 else 0)
      && Bytes(r) == Bytes(u.active) + (if isNew then size else 0)
  {
    var r := Acquired(u, model, size).active;
    BytesUpdate(u.active, model, r[model]);
    if model in u.active {
      BytesWithout(u.active, model);
      assert r.Keys == u.active.Keys;
    } else {
      assert u.active - {model} == u.active;
      assert r.Keys == u.active.Keys + {model};
    }
    assert |r| == |r.Keys| && |u.active| == |u.active.Keys|;
  }

  lemma AcquireKeeps(w: World, q: Quotas, model: string, size: u64)
    requires Exact(w) && Within(w.ledger, q) && Refused(w.ledger, q, model, size).None?
    ensures Exact(Step(w, q, Request(model, size)))
    ensures Within(Acquired(w.ledger, model, size), q)
  {
    AcquireExact(w, model, size);
    AcquireSizes(w.ledger, model, size);
  }

  lemma ReleaseExact(w: World, i: nat)
    requires Exact(w) && i < |w.guards|
    requires forall k :: k in w.ledger.active ==> w.ledger.active[k].inFlight >= 1
    ensures var model := w.guards[i].model;
      && w.ledger.concurrent >= 1 && model in w.ledger.active && w.ledger.active[model].inFlight >= 1
      && Exact(World(Released(w.ledger, model), w.guards[..i] + w.guards[i + 1..]))
  {
    var model := w.guards[i].model;
    var r := World(Released(w.ledger, model), w.guards[..i] + w.guards[i + 1..]);
    assert ExactFor(w, model);
    HoldersWithout(w.guards, i, model);
    forall k
      ensures ExactFor(r, k)
    {
      assert ExactFor(w, k);
      HoldersWithout(w.guards, i, k);
    }
  }

  /** Dropping a live guard never subtracts from zero. */
  lemma ReleaseKeeps(w: World, q: Quotas, i: nat)
    requires Exact(w) && Within(w.ledger, q) && i < |w.guards|
    ensures var model := w.guards[i].model;
      && w.ledger.concurrent >= 1 && model in w.ledger.active && w.ledger.active[model].inFlight >= 1
      && Within(Released(w.ledger, model), q)
    ensures Exact(Step(w, q, Drop(i)))
  {
    var model := w.guards[i].model;
    ReleaseExact(w, i);
    var active, after := w.ledger.active, Released(w.ledger, model).active;
    BytesWithout(active, model);
    if model in after {
      BytesUpdate(active, model, after[model]);
      assert after.Keys == active.Keys;
    } else {
      assert after.Keys == active.Keys - {model};
    }
    assert |after| == |after.Keys| && |active| == |active.Keys|;
  }

  lemma StepKeeps(w: World, q: Quotas, op: Op)
    requires Exact(w) && Within(w.ledger, q)
    ensures Exact(Step(w, q, op)) && Within(Step(w, q, op).ledger, q)
  {
    match op {
      case Request(model, size) =>
        if Refused(w.ledger, q, model, size).None? {
          AcquireKeeps(w, q, model, size);
        }
      case Drop(i) =>
        if i < |w.guards| {
          ReleaseKeeps(w, q, i);
        }
    }
  }

  lemma {:induction false} RunKeeps(w: World, q: Quotas, ops: seq<Op>)
    requires Exact(w) && Within(w.ledger, q)
    ensures Exact(Run(w, q, ops)) && Within(Run(w, q, ops).ledger, q)
    decreases |ops|
  {
    if ops != [] {
      StepKeeps(w, q, ops[0]);
      RunKeeps(Step(w, q, ops[0]), q, ops[1..]);
    }
  }

  /** In every run of admissions and delayed releases under fixed quotas the ledger is exact and
      the quotas hold; the number of models is never cut when it is limited. */
  lemma QuotasHold(q: Quotas, ops: seq<Op>)
    ensures Exact(Run(START, q, ops)) && Within(Run(START, q, ops).ledger, q)
    ensures q.maxModels.Some? ==> ModelCount(Run(START, q, ops).ledger) == |Run(START, q, ops).ledger.active|
  {
    RunKeeps(START, q, ops);
  }

  // ---- the sizes on record and the sizes in use ----

  ghost function Total(guards: set<Guard>): nat {
    if guards == {} then 0
    else
      var g :| g in guards;
      g.size + Total(guards - {g})
  }

  lemma {:induction false} TotalWithout(guards: set<Guard>, g: Guard)
    requires g in guards
    ensures Total(guards) == g.size + Total(guards - {g})
    decreases |guards|
  {
    var h :| h in guards && Total(guards) == h.size + Total(guards - {h});
    if h != g {
      TotalWithout(guards - {h}, g);
      TotalWithout(guards - {g}, h);
      assert guards - {h} - {g} == guards - {g} - {h};
    }
  }

  ghost function Distinct(guards: seq<Guard>): set<Guard> {
    set g | g in guards
  }

  /** The bytes of what is in use: a model that was imported again under its name while requests
      still hold the old one counts twice. */
  ghost function LiveBytes(guards: seq<Guard>): nat {
    Total(Distinct(guards))
  }

  /** What the ledger has on record, as guards. */
  ghost function OnRecord(active: map<string, Slot>): set<Guard>
    requires forall k :: k in active ==> active[k].size <= U64_MAX
  {
    set k | k in active :: Guard(k, active[k].size)
  }

  lemma OnRecordWithout(active: map<string, Slot>, k: string)
    requires forall k :: k in active ==> active[k].size <= U64_MAX
    requires k in active
    ensures OnRecord(active) - {Guard(k, active[k].size)} == OnRecord(active - {k})
  {
    forall g | g in OnRecord(active) && g != Guard(k, active[k].size)
      ensures g in OnRecord(active - {k})
    {
      assert g.model != k && g.model in active - {k};
    }
  }

  lemma {:induction false} TotalOnRecord(active: map<string, Slot>)
    requires forall k :: k in active ==> active[k].size <= U64_MAX
    ensures Total(OnRecord(active)) == Bytes(active)
    decreases |active|
  {
    if active != map[] {
      var k :| k in active;
      var g := Guard(k, active[k].size);
      BytesWithout(active, k);
      TotalWithout(OnRecord(active), g);
      OnRecordWithout(active, k);
      TotalOnRecord(active - {k});
    } else {
      assert OnRecord(active) == {};
    }
  }

  /** Every outstanding guard has the size that its model has on record. */
  ghost predicate Recorded(w: World) {
    forall g :: g in w.guards ==> g.model in w.ledger.active && w.ledger.active[g.model].size == g.size
  }

  lemma {:induction false} HeldMeans(guards: seq<Guard>, model: string) returns (g: Guard)
    requires Holders(guards, model) > 0
    ensures g in guards && g.model == model
  {
    var last := guards[|guards| - 1];
    if last.model == model {
      g := last;
    } else {
      g := HeldMeans(guards[..|guards| - 1], model);
    }
  }

  /** The models and sizes on record are those in use exactly when every outstanding guard has its
      model's recorded size; then the totals agree. */
  lemma RecordedIff(w: World)
    requires Exact(w) && forall k :: k in w.ledger.active ==> 1 <= w.ledger.active[k].inFlight
    requires forall k :: k in w.ledger.active ==> w.ledger.active[k].size <= U64_MAX
    ensures Recorded(w) <==> OnRecord(w.ledger.active) == Distinct(w.guards)
    ensures Recorded(w) ==> LiveBytes(w.guards) == Bytes(w.ledger.active)
  {
    TotalOnRecord(w.ledger.active);
    if Recorded(w) {
      forall k | k in w.ledger.active
        ensures Guard(k, w.ledger.active[k].size) in w.guards
      {
        assert ExactFor(w, k);
        var g := HeldMeans(w.guards, k);
      }
      assert OnRecord(w.ledger.active) == Distinct(w.guards);
    } else {
      var g :| g in w.guards && !(g.model in w.ledger.active && w.ledger.active[g.model].size == g.size);
      assert g in Distinct(w.guards) && g !in OnRecord(w.ledger.active);
    }
  }

  /** Every request of the run names a model with the size that `sizeOf` gives it. */
  ghost predicate OneSizeEach(ops: seq<Op>, sizeOf: string -> u64) {
    forall op :: op in ops && op.Request? ==> op.size == sizeOf(op.model)
  }

  ghost predicate AllSized(w: World, sizeOf: string -> u64) {
    && (forall k :: k in w.ledger.active ==> w.ledger.active[k].size == sizeOf(k))
    && (forall g :: g in w.guards ==> g.size == sizeOf(g.model))
  }

  lemma {:induction false} RunSized(w: World, q: Quotas, ops: seq<Op>, sizeOf: string -> u64)
    requires AllSized(w, sizeOf) && OneSizeEach(ops, sizeOf)
    ensures AllSized(Run(w, q, ops), sizeOf)
    decreases |ops|
  {
    if ops != [] {
      assert ops[0] in ops && forall op :: op in ops[1..] ==> op in ops;
      RunSized(Step(w, q, ops[0]), q, ops[1..], sizeOf);
    }
  }

  lemma {:induction false} GuardIsHeld(guards: seq<Guard>, g: Guard)
    requires g in guards
    ensures Holders(guards, g.model) > 0
  {
    if g != guards[|guards| - 1] {
      GuardIsHeld(guards[..|guards| - 1], g);
    }
  }

  /** When every model has one size throughout a run, what is on record is what is in use. */
  lemma OneSizeIsRecorded(q: Quotas, ops: seq<Op>, sizeOf: string -> u64)
    requires OneSizeEach(ops, sizeOf)
    ensures var w := Run(START, q, ops);
      Recorded(w) && LiveBytes(w.guards) == Bytes(w.ledger.active)
  {
    var w := Run(START, q, ops);
    RunSized(START, q, ops, sizeOf);
    RunKeeps(START, q, ops);
    forall g | g in w.guards
      ensures g.model in w.ledger.active
    {
      GuardIsHeld(w.guards, g);
      assert ExactFor(w, g.model);
    }
    RecordedIff(w);
  }

  // ---- where the memory quota fails ----

  /** The largest size of a file. */
  const FILE_MAX: nat := 0x7FFF_FFFF_FFFF_FFFF

  function MemoryOnly(max: u64): Quotas {
    Quotas(None, None, Some(max))
  }

  lemma RunThree(q: Quotas, a: Op, b: Op, c: Op)
    ensures Run(START, q, [a, b, c]) == Step(Step(Step(START, q, a), q, b), q, c)
  {
    var w1 := Step(START, q, a);
    var w2 := Step(w1, q, b);
    assert [a, b, c][1..] == [b, c] && [b, c][1..] == [c] && [c][1..] == [];
    assert Run(w2, q, [c]) == Run(Step(w2, q, c), q, []);
    assert Run(w1, q, [b, c]) == Run(w2, q, [c]);
  }

  function Largest(model: string): u64 {
    FILE_MAX
  }

  function ThreeModels(): seq<Op> {
    [Request("a", FILE_MAX), Request("b", FILE_MAX), Request("c", FILE_MAX)]
  }

  /** The largest quota stops nothing. */
  lemma NewPasses(w: World, model: string)
    requires model !in w.ledger.active
    ensures var r := Step(w, MemoryOnly(U64_MAX), Request(model, FILE_MAX)).ledger.active;
      r.Keys == w.ledger.active.Keys + {model} && Bytes(r) == Bytes(w.ledger.active) + FILE_MAX
  {
    AcquireSizes(w.ledger, model, FILE_MAX);
  }

  /** Three models of the largest size pass the largest quota. */
  lemma ThreeModelsPass()
    ensures Bytes(Run(START, MemoryOnly(U64_MAX), ThreeModels()).ledger.active) > U64_MAX
    ensures OneSizeEach(ThreeModels(), Largest)
  {
    var q := MemoryOnly(U64_MAX);
    var w1 := Step(START, q, Request("a", FILE_MAX));
    var w2 := Step(w1, q, Request("b", FILE_MAX));
    NewPasses(START, "a");
    NewPasses(w1, "b");
    NewPasses(w2, "c");
    RunThree(q, Request("a", FILE_MAX), Request("b", FILE_MAX), Request("c", FILE_MAX));
  }

  ghost predicate KeepsQuota(max: u64, ops: seq<Op>) {
    LiveBytes(Run(START, MemoryOnly(max), ops).guards) <= max
  }

  /** After every run the bytes in use are within the quota if every outstanding guard has its model's
      recorded size. */
  lemma RecordedKeepsQuota(max: u64, ops: seq<Op>)
    requires max < U64_MAX && Recorded(Run(START, MemoryOnly(max), ops))
    ensures KeepsQuota(max, ops)
  {
    RunKeeps(START, MemoryOnly(max), ops);
    RecordedIff(Run(START, MemoryOnly(max), ops));
  }

  lemma ThreeModelsBreakQuota()
    ensures !KeepsQuota(U64_MAX, ThreeModels())
  {
    ThreeModelsPass();
    OneSizeIsRecorded(MemoryOnly(U64_MAX), ThreeModels(), Largest);
  }

  /** The bytes in use stay within a memory quota in every run in which each model has one size,
      exactly when the quota is not the largest 64-bit number: there the saturating sum can no longer
      exceed it. */
  lemma MemoryQuotaHoldsIff(max: u64)
    ensures (forall ops, sizeOf :: OneSizeEach(ops, sizeOf) ==> KeepsQuota(max, ops)) <==> max < U64_MAX
  {
    if max < U64_MAX {
      forall ops, sizeOf | OneSizeEach(ops, sizeOf)
        ensures KeepsQuota(max, ops)
      {
        OneSizeIsRecorded(MemoryOnly(max), ops, sizeOf);
        RecordedKeepsQuota(max, ops);
      }
    } else {
      ThreeModelsPass();
      ThreeModelsBreakQuota();
    }
  }

  function Reimported(): seq<Op> {
    [Request("a", 0), Request("a", FILE_MAX), Request("a", FILE_MAX - 1), Request("a", FILE_MAX - 2)]
  }

  /** A known model is admitted whatever its size now is, and its record stays. */
  lemma KnownPasses(max: u64, w: World, model: string, size: u64)
    requires model in w.ledger.active
    ensures var slot := w.ledger.active[model];
      Step(w, MemoryOnly(max), Request(model, size)) ==
      World(Ledger(w.ledger.concurrent + 1, w.ledger.active[model := Slot(slot.size, slot.inFlight + 1)]),
            w.guards + [Guard(model, size)])
  {
  }

  lemma ReimportedRun(max: u64)
    ensures var w := Run(START, MemoryOnly(max), Reimported());
      && w.ledger.active == map["a" := Slot(0, 4)]
      && w.guards == [Guard("a", 0), Guard("a", FILE_MAX), Guard("a", FILE_MAX - 1), Guard("a", FILE_MAX - 2)]
  {
    var q, ops := MemoryOnly(max), Reimported();
    var w1 := Step(START, q, ops[0]);
    assert w1 == World(Ledger(1, map["a" := Slot(0, 1)]), [Guard("a", 0)]);
    KnownPasses(max, w1, "a", FILE_MAX);
    var w2 := Step(w1, q, ops[1]);
    KnownPasses(max, w2, "a", FILE_MAX - 1);
    var w3 := Step(w2, q, ops[2]);
    KnownPasses(max, w3, "a", FILE_MAX - 2);
    var w4 := Step(w3, q, ops[3]);
    assert ops[1..][1..] == [ops[2], ops[3]] && [ops[2], ops[3]][1..] == [ops[3]] && [ops[3]][1..] == [];
    assert Run(w3, q, [ops[3]]) == Run(w4, q, []);
    assert Run(w2, q, [ops[2], ops[3]]) == Run(w3, q, [ops[3]]);
    assert Run(START, q, ops) == Run(w1, q, ops[1..]);
  }

  lemma TotalOfTwo(all: set<Guard>, x: Guard, y: Guard)
    requires x in all && y in all && x != y
    ensures Total(all) >= x.size + y.size
  {
    TotalWithout(all, x);
    TotalWithout(all - {x}, y);
  }

  lemma TotalOfThree(all: set<Guard>, x: Guard, y: Guard, z: Guard)
    requires x in all && y in all && z in all && x != y && x != z && y != z
    ensures Total(all) >= x.size + y.size + z.size
  {
    TotalWithout(all, x);
    TotalOfTwo(all - {x}, y, z);
  }

  /** A model that is imported again and again under its name while in use passes every quota: it is
      known, so its new size is neither checked nor recorded. */
  lemma ReimportedModelPasses(max: u64)
    ensures !KeepsQuota(max, Reimported())
    ensures Bytes(Run(START, MemoryOnly(max), Reimported()).ledger.active) == 0
  {
    var w, none: map<string, Slot> := Run(START, MemoryOnly(max), Reimported()), map[];
    ReimportedRun(max);
    BytesUpdate(none, "a", Slot(0, 4));
    assert none - {"a"} == none;
    TotalOfThree(Distinct(w.guards), w.guards[1], w.guards[2], w.guards[3]);
  }
}
