/**
 One listen operation of a search: a `ValueCache` for each remote node that is
 listened to, all feeding one `OpCache`. Any order of events from the nodes and
 from the local listeners is a run.
 */
module ListenRuns {
  import opened Prelude
  import opened Values
  import opened ValueCaches
  import opened OpCaches

  datatype NodeCache = NodeCache(values: CacheMap, synced: bool)

  datatype Stack = Stack(caches: map<nat, NodeCache>, op: Op)

  datatype Event =
    | Attach(n: nat)
    | Report(n: nat, vs: seq<Value>, refreshed: seq<nat>, expired: seq<nat>, life: Life, now: int)
    | Tick(n: nat, now: int)
    | Sync(n: nat, synced: bool)
    | Detach(n: nat)
    | Listen(token: nat, filter: Filter, accepted: bool)
    | Unlisten(token: nat)

  const EMPTY: Stack := Stack(map[], Op(map[], 0, 0, map[]))

  /** What the cache concerned tells the operation about itself, in this order. */
  function Statuses(s: Stack, e: Event): (ss: seq<SyncStatus>) {
    match e
    case Attach(n) => [Added]
    case Sync(n, synced) => if n in s.caches then SyncStatuses(s.caches[n].synced, synced) else []
    case Detach(n) => if n in s.caches then DetachStatuses(s.caches[n].synced) else []
    case Report(_, _, _, _, _, _) => []
    case Tick(_, _) => []
    case Listen(_, _, _) => []
    case Unlisten(_) => []
  }

  // ----- steps

  /** The cache of node n goes from its contents to m, reporting batches that the operation takes in. */
  ghost predicate CacheStep(s: Stack, pack: Value -> Blob, n: nat, m: CacheMap, bs: seq<Batch>, op: Op)
    requires n in s.caches
  {
    Reports(s.caches[n].values, bs, m) && op == OnBatches(s.op, pack, bs)
  }

  ghost predicate Step(s: Stack, pack: Value -> Blob, e: Event, s': Stack) {
    match e
    case Attach(n) =>
      n !in s.caches && s' == Stack(s.caches[n := NodeCache(map[], false)], NodesChanged(s.op, Statuses(s, e)))
    case Report(n, vs, refreshed, expired, life, now) =>
      n in s.caches && exists bs ::
        var m := AfterValues(s.caches[n].values, vs, refreshed, expired, life, now);
        CacheStep(s, pack, n, m, bs, s'.op) && s'.caches == s.caches[n := s.caches[n].(values := m)]
    case Tick(n, now) =>
      n in s.caches && exists bs ::
        var m := AfterExpiry(s.caches[n].values, now);
        CacheStep(s, pack, n, m, bs, s'.op) && s'.caches == s.caches[n := s.caches[n].(values := m)]
    case Sync(n, synced) =>
      n in s.caches && s' == Stack(s.caches[n := s.caches[n].(synced := synced)], NodesChanged(s.op, Statuses(s, e)))
    case Detach(n) =>
      n in s.caches && exists bs, op ::
        CacheStep(s, pack, n, map[], bs, op) && s' == Stack(s.caches - {n}, NodesChanged(op, Statuses(s, e)))
    case Listen(token, filter, accepted) =>
      token !in s.op.listeners && exists cached ::
        Deliver(map[], cached, false) == Some(Passing(Known(s.op.values), filter)) &&
        s' == if cached == [] || accepted
              then s.(op := s.op.(listeners := s.op.listeners[token := Listener(filter, if cached == [] then [] else [Batch(cached, false)])]))
              else s
    case Unlisten(token) => s' == s.(op := s.op.(listeners := s.op.listeners - {token}))
  }

  /** Change of the number of synced nodes when one of them goes from a to b. */
  function SyncChange(a: bool, b: bool): int {
    (if b then 1 else 0) - (if a then 1 else 0)
  }

  // ----- the counting invariant

  function Holders(cs: map<nat, map<nat, Value>>, id: nat): (h: set<nat>) {
    set n | n in cs && id in cs[n]
  }

  /** An id is known exactly when some node holds it, and its count is the number of nodes that do. */
  ghost predicate Counts(cs: map<nat, map<nat, Value>>, m: CountMap) {
    forall id :: CountsAt(cs, m, id)
  }

  ghost predicate CountsAt(cs: map<nat, map<nat, Value>>, m: CountMap, id: nat) {
    if id in m then m[id].refCount == |Holders(cs, id)| > 0 else Holders(cs, id) == {}
  }

  lemma {:induction false} CountOneKeeps(cs: map<nat, map<nat, Value>>, m: CountMap, n: nat, v: Value, expired: bool)
    requires Counts(cs, m) && n in cs && DeliverOne(cs[n], v, expired).Some?
    ensures Counts(cs[n := DeliverOne(cs[n], v, expired).value], CountOne(m, v, expired))
  {
    hide Holders;
    var cs' := cs[n := DeliverOne(cs[n], v, expired).value];
    var m' := CountOne(m, v, expired);
    forall id
      ensures CountsAt(cs', m', id)
    {
      assert CountsAt(cs, m, id);
      HoldersAfter(cs, n, v, expired, id);
    }
  }

  lemma {:induction false} HoldersAfter(cs: map<nat, map<nat, Value>>, n: nat, v: Value, expired: bool, id: nat)
    requires n in cs && DeliverOne(cs[n], v, expired).Some?
    ensures var h, h' := Holders(cs, id), Holders(cs[n := DeliverOne(cs[n], v, expired).value], id);
            if id != v.id then h' == h
            else if expired then n in h && h' == h - {n}
            else n !in h && h' == h + {n}
  {
    var h, h' := Holders(cs, id), Holders(cs[n := DeliverOne(cs[n], v, expired).value], id);
    if id != v.id {
      assert h' == h;
    } else if expired {
      assert h' == h - {n};
    } else {
      assert h' == h + {n};
    }
  }

  lemma {:induction false} CountBatchKeeps(cs: map<nat, map<nat, Value>>, m: CountMap, n: nat, vals: seq<Value>, expired: bool)
    requires Counts(cs, m) && n in cs && Deliver(cs[n], vals, expired).Some?
    ensures Counts(cs[n := Deliver(cs[n], vals, expired).value], CountBatch(m, vals, expired).0)
    decreases |vals|
  {
    hide Counts;
    if vals == [] {
      assert cs[n := cs[n]] == cs;
    } else {
      var v := vals[0];
      var cs1 := cs[n := DeliverOne(cs[n], v, expired).value];
      CountOneKeeps(cs, m, n, v, expired);
      CountBatchKeeps(cs1, CountOne(m, v, expired), n, vals[1..], expired);
      var last := Deliver(cs[n], vals, expired).value;
      assert cs1[n := last] == cs[n := last];
    }
  }

  lemma {:induction false} CountBatchesKeep(cs: map<nat, map<nat, Value>>, op: Op, pack: Value -> Blob, n: nat, bs: seq<Batch>)
    requires Counts(cs, op.values) && n in cs && Replay(cs[n], bs).Some?
    ensures Counts(cs[n := Replay(cs[n], bs).value], OnBatches(op, pack, bs).values)
    ensures OnBatches(op, pack, bs).nodes == op.nodes && OnBatches(op, pack, bs).syncedNodes == op.syncedNodes
    decreases |bs|
  {
    hide Counts, Deliver, CountBatch, FanOut;
    if bs == [] {
      assert cs[n := cs[n]] == cs;
    } else {
      var w1 := Deliver(cs[n], bs[0].vals, bs[0].expired).value;
      CountBatchKeeps(cs, op.values, n, bs[0].vals, bs[0].expired);
      CountBatchesKeep(cs[n := w1], OnBatch(op, pack, bs[0]), pack, n, bs[1..]);
      var last := Replay(cs[n], bs).value;
      assert cs[n := w1][n := last] == cs[n := last];
    }
  }

  lemma {:induction false} BatchesExact(op: Op, pack: Value -> Blob, bs: seq<Batch>)
    requires KeyedOp(op) && AllExact(op, pack)
    ensures KeyedOp(OnBatches(op, pack, bs)) && AllExact(OnBatches(op, pack, bs), pack)
    decreases |bs|
  {
    hide KeyedOp, AllExact, OnBatch;
    if bs != [] {
      OnBatchExact(op, pack, bs[0]);
      BatchesExact(OnBatch(op, pack, bs[0]), pack, bs[1..]);
    }
  }

  // ----- the invariant of a run

  function AllContents(cs: map<nat, NodeCache>): (r: map<nat, map<nat, Value>>) {
    map n | n in cs :: Contents(cs[n].values)
  }

  function SyncedNodes(cs: map<nat, NodeCache>): (r: set<nat>) {
    set n | n in cs && cs[n].synced
  }

  ghost predicate Inv(s: Stack, pack: Value -> Blob) {
    && (forall n :: n in s.caches ==> Keyed(s.caches[n].values))
    && Counts(AllContents(s.caches), s.op.values)
    && s.op.nodes == |s.caches|
    && s.op.syncedNodes == |SyncedNodes(s.caches)|
    && KeyedOp(s.op)
    && AllExact(s.op, pack)
  }

  lemma {:induction false} CacheStepKeeps(s: Stack, pack: Value -> Blob, n: nat, m: CacheMap, bs: seq<Batch>, op: Op)
    requires Inv(s, pack) && n in s.caches && Keyed(m) && CacheStep(s, pack, n, m, bs, op)
    ensures Inv(Stack(s.caches[n := s.caches[n].(values := m)], op), pack)
  {
    hide Counts, KeyedOp, AllExact, Reports, Contents, Replay, OnBatches, Keyed;
    ReportsReplay(s.caches[n].values, bs, m);
    CountBatchesKeep(AllContents(s.caches), s.op, pack, n, bs);
    BatchesExact(s.op, pack, bs);
    UpdateCache(s.caches, n, m);
  }

  lemma {:induction false} UpdateCache(cs: map<nat, NodeCache>, n: nat, m: CacheMap)
    requires n in cs
    ensures var cs' := cs[n := cs[n].(values := m)];
            && AllContents(cs') == AllContents(cs)[n := Contents(m)]
            && SyncedNodes(cs') == SyncedNodes(cs) && |cs'| == |cs|
  {
    hide Contents;
    var cs' := cs[n := cs[n].(values := m)];
    assert AllContents(cs') == AllContents(cs)[n := Contents(m)];
    assert SyncedNodes(cs') == SyncedNodes(cs);
    assert cs'.Keys == cs.Keys;
    assert |cs'| == |cs'.Keys| && |cs| == |cs.Keys|;
  }

  lemma {:induction false} ReportsReplay(m: CacheMap, bs: seq<Batch>, m': CacheMap)
    requires Reports(m, bs, m')
    ensures Replay(Contents(m), bs) == Some(Contents(m'))
  {
  }

  lemma {:induction false} AfterExpiryKeyed(m: CacheMap, now: int)
    requires Keyed(m)
    ensures Keyed(AfterExpiry(m, now))
  {
    EvictedKeyed(Unexpired(m, now));
  }

  lemma {:induction false} AfterValuesKeyed(m: CacheMap, vs: seq<Value>, refreshed: seq<nat>, expired: seq<nat>, life: Life, now: int)
    requires Keyed(m)
    ensures Keyed(AfterValues(m, vs, refreshed, expired, life, now))
  {
    hide Keyed;
    var m1 := AddValues(m, vs, life, now).0;
    AddValuesReports(m, vs, life, now);
    RefreshKeeps(m1, refreshed, life, now);
    var m2 := RefreshValues(m1, refreshed, life, now);
    ExpireIdsReports(m2, expired);
    AfterExpiryKeyed(ExpireIds(m2, expired).0, now);
  }

  lemma {:induction false} AttachKeeps(s: Stack, pack: Value -> Blob, n: nat)
    requires Inv(s, pack) && n !in s.caches
    ensures Inv(Stack(s.caches[n := NodeCache(map[], false)], s.op.(nodes := s.op.nodes + 1)), pack)
  {
    hide AllExact, KeyedOp, Counts, SyncedNodes, AllContents, Contents;
    AttachCache(s.caches, n);
    EmptyHoldsNothing(AllContents(s.caches), s.op.values, n);
    ExactIgnoresNodes(s.op, s.op.(nodes := s.op.nodes + 1), pack);
  }

  lemma {:induction false} AttachCache(cs: map<nat, NodeCache>, n: nat)
    requires n !in cs
    ensures var cs' := cs[n := NodeCache(map[], false)];
            && n !in AllContents(cs) && AllContents(cs') == AllContents(cs)[n := map[]]
            && SyncedNodes(cs') == SyncedNodes(cs) && |cs'| == |cs| + 1
  {
    hide AllContents;
    var cs' := cs[n := NodeCache(map[], false)];
    AttachContents(cs, n);
    assert SyncedNodes(cs') == SyncedNodes(cs);
    assert cs'.Keys == cs.Keys + {n};
    assert |cs'| == |cs'.Keys| && |cs| == |cs.Keys|;
  }

  lemma {:induction false} AttachContents(cs: map<nat, NodeCache>, n: nat)
    requires n !in cs
    ensures n !in AllContents(cs) && AllContents(cs[n := NodeCache(map[], false)]) == AllContents(cs)[n := map[]]
  {
    hide Contents;
    NoContents();
    var cs' := cs[n := NodeCache(map[], false)];
    forall k | k in cs'
      ensures AllContents(cs')[k] == if k == n then map[] else AllContents(cs)[k]
    {
    }
    assert AllContents(cs') == AllContents(cs)[n := map[]];
  }

  lemma {:induction false} NoContents()
    ensures Contents(map[]) == map[]
  {
  }

  lemma {:induction false} EmptyHoldsNothing(cs: map<nat, map<nat, Value>>, m: CountMap, n: nat)
    requires Counts(cs, m) && n !in cs
    ensures Counts(cs[n := map[]], m)
  {
    var cs' := cs[n := map[]];
    forall id
      ensures CountsAt(cs', m, id)
    {
      assert CountsAt(cs, m, id);
      assert Holders(cs', id) == Holders(cs, id);
    }
  }

  lemma {:induction false} ExactIgnoresNodes(a: Op, b: Op, pack: Value -> Blob)
    requires a.values == b.values && a.listeners == b.listeners
    ensures AllExact(a, pack) <==> AllExact(b, pack)
    ensures KeyedOp(a) <==> KeyedOp(b)
  {
  }

  lemma {:induction false} SyncKeeps(s: Stack, pack: Value -> Blob, n: nat, synced: bool)
    requires Inv(s, pack) && n in s.caches
    ensures Inv(Stack(s.caches[n := s.caches[n].(synced := synced)],
                      s.op.(syncedNodes := s.op.syncedNodes + SyncChange(s.caches[n].synced, synced))), pack)
  {
    hide AllExact, KeyedOp, Counts, AllContents, SyncedNodes, Keyed;
    SyncCache(s.caches, n, synced);
    ExactIgnoresNodes(s.op, s.op.(syncedNodes := s.op.syncedNodes + SyncChange(s.caches[n].synced, synced)), pack);
  }

  lemma {:induction false} SyncCache(cs: map<nat, NodeCache>, n: nat, synced: bool)
    requires n in cs
    ensures var cs' := cs[n := cs[n].(synced := synced)];
            && AllContents(cs') == AllContents(cs) && |cs'| == |cs|
            && |SyncedNodes(cs')| == |SyncedNodes(cs)| + SyncChange(cs[n].synced, synced)
  {
    hide Contents;
    var cs' := cs[n := cs[n].(synced := synced)];
    assert cs'.Keys == cs.Keys;
    assert |cs'| == |cs'.Keys| && |cs| == |cs.Keys|;
    assert AllContents(cs') == AllContents(cs);
    assert SyncedNodes(cs') == if synced then SyncedNodes(cs) + {n} else SyncedNodes(cs) - {n};
  }

  /** Dropping an empty cache that is not synced. */
  lemma {:induction false} DropKeeps(s: Stack, pack: Value -> Blob, n: nat)
    requires Inv(s, pack) && n in s.caches && s.caches[n] == NodeCache(map[], false)
    ensures Inv(Stack(s.caches - {n}, s.op.(nodes := s.op.nodes - 1)), pack)
  {
    hide AllExact, KeyedOp;
    var cs' := s.caches - {n};
    assert cs'.Keys == s.caches.Keys - {n};
    assert SyncedNodes(cs') == SyncedNodes(s.caches);
    forall id
      ensures CountsAt(AllContents(cs'), s.op.values, id)
    {
      assert CountsAt(AllContents(s.caches), s.op.values, id);
      assert Holders(AllContents(cs'), id) == Holders(AllContents(s.caches), id);
    }
    ExactIgnoresNodes(s.op, s.op.(nodes := s.op.nodes - 1), pack);
  }

  lemma {:induction false} DetachKeeps(s: Stack, pack: Value -> Blob, n: nat, bs: seq<Batch>, op: Op)
    requires Inv(s, pack) && n in s.caches && CacheStep(s, pack, n, map[], bs, op)
    ensures Inv(Stack(s.caches - {n},
                      op.(nodes := op.nodes - 1, syncedNodes := op.syncedNodes + SyncChange(s.caches[n].synced, false))), pack)
  {
    hide Inv, CacheStep;
    var s1 := Stack(s.caches[n := s.caches[n].(values := map[])], op);
    CacheStepKeeps(s, pack, n, map[], bs, op);
    var s2 := Stack(s1.caches[n := s1.caches[n].(synced := false)],
                    s1.op.(syncedNodes := s1.op.syncedNodes + SyncChange(s1.caches[n].synced, false)));
    SyncKeeps(s1, pack, n, false);
    DropKeeps(s2, pack, n);
    assert s2.caches - {n} == s.caches - {n};
  }

  lemma {:induction false} ListenKeeps(s: Stack, pack: Value -> Blob, token: nat, filter: Filter, cached: seq<Value>)
    requires Inv(s, pack) && Deliver(map[], cached, false) == Some(Passing(Known(s.op.values), filter))
    ensures Inv(s.(op := s.op.(listeners := s.op.listeners[token := Listener(filter, if cached == [] then [] else [Batch(cached, false)])])), pack)
  {
    hide Counts, Deliver, Passing, Keyed;
    OneBatch(map[], cached, false);
  }

  /** Every event keeps the counters, the counts and every listener exact. */
  lemma {:induction false} StepKeeps(s: Stack, pack: Value -> Blob, e: Event, s': Stack)
    requires Inv(s, pack) && Step(s, pack, e, s')
    ensures Inv(s', pack)
  {
    hide Inv, CacheStep, AfterValues, AfterExpiry, Deliver, Passing, Changes, NodesChanged, SyncStatuses, DetachStatuses;
    match e
    case Attach(n) =>
      NodesChangedTally(s.op, [Added]);
      ChangesOne(Tally(s.op.nodes, s.op.syncedNodes), Added);
      AttachKeeps(s, pack, n);
    case Report(n, vs, refreshed, expired, life, now) =>
      var m := AfterValues(s.caches[n].values, vs, refreshed, expired, life, now);
      var bs :| CacheStep(s, pack, n, m, bs, s'.op);
      KeyedAt(s, pack, n);
      AfterValuesKeyed(s.caches[n].values, vs, refreshed, expired, life, now);
      CacheStepKeeps(s, pack, n, m, bs, s'.op);
      assert s' == Stack(s.caches[n := s.caches[n].(values := m)], s'.op);
    case Tick(n, now) =>
      var m := AfterExpiry(s.caches[n].values, now);
      var bs :| CacheStep(s, pack, n, m, bs, s'.op);
      KeyedAt(s, pack, n);
      AfterExpiryKeyed(s.caches[n].values, now);
      CacheStepKeeps(s, pack, n, m, bs, s'.op);
      assert s' == Stack(s.caches[n := s.caches[n].(values := m)], s'.op);
    case Sync(n, synced) =>
      NodesChangedTally(s.op, Statuses(s, e));
      StatusesAddUp(Tally(s.op.nodes, s.op.syncedNodes), s.caches[n].synced, synced);
      SyncKeeps(s, pack, n, synced);
    case Detach(n) =>
      var bs, op :| CacheStep(s, pack, n, map[], bs, op) && s' == Stack(s.caches - {n}, NodesChanged(op, Statuses(s, e)));
      NodesChangedTally(op, Statuses(s, e));
      StatusesAddUp(Tally(op.nodes, op.syncedNodes), s.caches[n].synced, false);
      DetachKeeps(s, pack, n, bs, op);
    case Listen(token, filter, accepted) =>
      var cached :| Deliver(map[], cached, false) == Some(Passing(Known(s.op.values), filter)) &&
        s' == if cached == [] || accepted
              then s.(op := s.op.(listeners := s.op.listeners[token := Listener(filter, if cached == [] then [] else [Batch(cached, false)])]))
              else s;
      if cached == [] || accepted {
        ListenKeeps(s, pack, token, filter, cached);
      }
    case Unlisten(token) => UnlistenKeeps(s, pack, token);
  }

  lemma {:induction false} KeyedAt(s: Stack, pack: Value -> Blob, n: nat)
    requires Inv(s, pack) && n in s.caches
    ensures Keyed(s.caches[n].values)
  {
  }

  lemma {:induction false} UnlistenKeeps(s: Stack, pack: Value -> Blob, token: nat)
    requires Inv(s, pack)
    ensures Inv(s.(op := s.op.(listeners := s.op.listeners - {token})), pack)
  {
    hide Counts, Keyed, Exact, Agrees;
  }

  // ----- runs

  /** ss is a run of the events es: one state before and one after each event. */
  ghost predicate IsRun(ss: seq<Stack>, pack: Value -> Blob, es: seq<Event>) {
    && |ss| == |es| + 1
    && ss[0] == EMPTY
    && forall i :: 0 <= i < |es| ==> Step(ss[i], pack, es[i], ss[i + 1])
  }

  lemma {:induction false} EmptyOk(pack: Value -> Blob)
    ensures Inv(EMPTY, pack)
  {
    forall id
      ensures CountsAt(AllContents(EMPTY.caches), EMPTY.op.values, id)
    {
      assert Holders(AllContents(EMPTY.caches), id) == {};
    }
    assert SyncedNodes(EMPTY.caches) == {};
  }

  lemma {:induction false} RunKeeps(ss: seq<Stack>, pack: Value -> Blob, es: seq<Event>, i: nat)
    requires IsRun(ss, pack, es) && i < |ss|
    ensures Inv(ss[i], pack)
  {
    hide Inv, Step;
    if i == 0 {
      EmptyOk(pack);
    } else {
      RunKeeps(ss, pack, es, i - 1);
      assert Step(ss[i - 1], pack, es[i - 1], ss[i - 1 + 1]);
      StepKeeps(ss[i - 1], pack, es[i - 1], ss[i]);
    }
  }

  /** In every state of every run, counts and counters are those of the live caches. */
  lemma {:induction false} RunCounts(ss: seq<Stack>, pack: Value -> Blob, es: seq<Event>, i: nat, id: nat)
    requires IsRun(ss, pack, es) && i < |ss|
    ensures var s := ss[i];
            var holders := set n | n in s.caches && id in s.caches[n].values;
            && (id in s.op.values <==> holders != {})
            && (id in s.op.values ==> s.op.values[id].refCount == |holders|)
            && s.op.nodes == |s.caches| && s.op.syncedNodes == |SyncedNodes(s.caches)|
            && 0 <= s.op.syncedNodes <= s.op.nodes
  {
    RunKeeps(ss, pack, es, i);
    var s := ss[i];
    var holders := set n | n in s.caches && id in s.caches[n].values;
    assert CountsAt(AllContents(s.caches), s.op.values, id);
    assert Holders(AllContents(s.caches), id) == holders;
    SubsetSize(SyncedNodes(s.caches), s.caches.Keys);
  }

  /** Nothing is counted below zero, nor more nodes as synced than there are. */
  ghost predicate InBounds(c: Tally) {
    0 <= c.synced <= c.nodes
  }

  /** In every run, also between the statuses that one event gives rise to, the two counters stay in bounds. */
  lemma {:induction false} NoUnderflow(ss: seq<Stack>, pack: Value -> Blob, es: seq<Event>, i: nat, k: nat)
    requires IsRun(ss, pack, es) && i < |es| && k <= |Statuses(ss[i], es[i])|
    ensures InBounds(Changes(Tally(ss[i].op.nodes, ss[i].op.syncedNodes), Statuses(ss[i], es[i])[..k]))
  {
    hide Changes;
    var s, st := ss[i], Statuses(ss[i], es[i]);
    var c := Tally(s.op.nodes, s.op.syncedNodes);
    RunCounts(ss, pack, es, i, 0);
    assert Changes(c, []) == c by { NoChange(c); }
    if k == 1 {
      assert st[..1] == [st[0]];
      ChangesOne(c, st[0]);
    } else if k == 2 {
      assert st[..2] == st;
      StatusesAddUp(c, true, true);
    }
    assert Step(s, pack, es[i], ss[i + 1]);
    if !es[i].Attach? && k > 0 {
      SyncedWithout(s.caches, es[i].n);
    }
  }

  lemma {:induction false} NoChange(c: Tally)
    ensures Changes(c, []) == c
  {
  }

  /** The synced nodes other than n are among the nodes other than n. */
  lemma {:induction false} SyncedWithout(cs: map<nat, NodeCache>, n: nat)
    requires n in cs
    ensures |SyncedNodes(cs)| - (if cs[n].synced then 1 else 0) <= |cs| - 1
    ensures cs[n].synced ==> |SyncedNodes(cs)| >= 1
  {
    SubsetSize(SyncedNodes(cs) - {n}, cs.Keys - {n});
    assert |cs.Keys| == |cs|;
    if cs[n].synced {
      assert n in SyncedNodes(cs);
    }
  }

  /** The log of an attached listener is in order, and leaves exactly the known values it accepts outstanding. */
  lemma {:induction false} RunListener(ss: seq<Stack>, pack: Value -> Blob, es: seq<Event>, i: nat, t: nat)
    requires IsRun(ss, pack, es) && i < |ss| && t in ss[i].op.listeners && Agrees(ss[i].op.listeners[t].filter, pack)
    ensures Exact(ss[i].op.listeners[t], Known(ss[i].op.values))
  {
    hide Exact, Agrees, Counts, Step;
    RunKeeps(ss, pack, es, i);
  }

  // ----- a filter that can tell a value from its box

  function UnitLife(): Life {
    t => 1
  }

  /** Node 0 attached, listener 1 registered, value v reported: three events on an empty stack. */
  function OneValueRun(f: Filter, pack: Value -> Blob, v: Value): (r: (seq<Stack>, seq<Event>))
    requires f.Some?
  {
    var s1 := Stack(map[0 := NodeCache(map[], false)], Op(map[], 1, 0, map[]));
    var s2 := s1.(op := s1.op.(listeners := map[1 := Listener(f, [])]));
    var s3 := Stack(map[0 := NodeCache(map[v.id := Cached(v, 0, 1)], false)],
                    Op(map[v.id := Counted(v, 1)], 1, 0, map[1 := Listener(f, [Batch(FilterBatch(f, pack, [v]), false)])]));
    ([EMPTY, s1, s2, s3], [Attach(0), Listen(1, f, true), Report(0, [v], [], [], UnitLife(), 0)])
  }

  lemma {:induction false} OneValueCached(v: Value)
    ensures AfterValues(map[], [v], [], [], UnitLife(), 0) == map[v.id := Cached(v, 0, 1)]
    ensures Reports(map[], [Batch([v], false)], map[v.id := Cached(v, 0, 1)])
  {
    var m: CacheMap := map[v.id := Cached(v, 0, 1)];
    var none: CacheMap := map[];
    assert [v][1..] == [] && none[v.id := Cached(v, 0, 1)] == m;
    assert AddValues(m, [], UnitLife(), 0) == (m, []);
    assert [v] + AddValues(m, [], UnitLife(), 0).1 == [v];
    assert AddValues(none, [v], UnitLife(), 0) == (m, [v]);
    assert Unexpired(m, 0) == m;
    assert |m| == 1 by { assert m.Keys == {v.id}; }
    assert Contents(m) == map[v.id := v] && Contents(none) == map[];
    SingleReplay(map[], Batch([v], false));
  }

  lemma {:induction false} OneValueFansOut(f: Filter, pack: Value -> Blob, v: Value)
    requires f.Some?
    ensures var ss := OneValueRun(f, pack, v).0; ss[3].op == OnBatches(ss[2].op, pack, [Batch([v], false)])
  {
    var ss := OneValueRun(f, pack, v).0;
    var op := ss[2].op;
    var out := FanOut(op.listeners, pack, Batch([v], false));
    assert [v][1..] == [] && [Batch([v], false)][1..] == [];
    assert CountBatch(map[v.id := Counted(v, 1)], [], false) == (map[v.id := Counted(v, 1)], []);
    assert op.values[v.id := Counted(v, 1)] == map[v.id := Counted(v, 1)] == AddOne(op.values, v);
    assert [v] + CountBatch(map[v.id := Counted(v, 1)], [], false).1 == [v];
    assert CountBatch(op.values, [v], false) == (map[v.id := Counted(v, 1)], [v]);
    assert out.Keys == {1} && [] + [Batch(FilterBatch(f, pack, [v]), false)] == [Batch(FilterBatch(f, pack, [v]), false)];
    assert out == ss[3].op.listeners;
  }

  lemma {:induction false} OneValueIsRun(f: Filter, pack: Value -> Blob, v: Value)
    requires f.Some?
    ensures var (ss, es) := OneValueRun(f, pack, v); IsRun(ss, pack, es)
  {
    hide AfterValues, Reports, OnBatches, FilterBatch;
    var (ss, es) := OneValueRun(f, pack, v);
    OneValueCached(v);
    OneValueFansOut(f, pack, v);
    assert Step(ss[0], pack, es[0], ss[1]);
    assert Step(ss[1], pack, es[1], ss[2]) by {
      assert Passing(Known(ss[1].op.values), f) == map[];
      assert Deliver(map[], [], false) == Some(map[]);
    }
    assert Step(ss[2], pack, es[2], ss[3]) by {
      var m := AfterValues(map[], [v], [], [], UnitLife(), 0);
      assert CacheStep(ss[2], pack, 0, m, [Batch([v], false)], ss[3].op);
      assert ss[3].caches == ss[2].caches[0 := ss[2].caches[0].(values := m)];
    }
  }

  /** If the filter answers differently for v and for its box, this run leaves the listener wrong about v. */
  lemma {:induction false} BoxedFilterIsWrong(f: Filter, pack: Value -> Blob, v: Value)
    requires f.Some? && f.value(v) != f.value(Boxed(v, pack(v)))
    ensures var (ss, es) := OneValueRun(f, pack, v);
            && IsRun(ss, pack, es)
            && 1 in ss[3].op.listeners && ss[3].op.listeners[1].filter == f
            && !Exact(ss[3].op.listeners[1], Known(ss[3].op.values))
  {
    hide IsRun;
    OneValueIsRun(f, pack, v);
    var (ss, es) := OneValueRun(f, pack, v);
    var sent := FilterBatch(f, pack, [v]);
    assert [v][1..] == [];
    assert FilterBatch(f, pack, []) == [] && [v] + FilterBatch(f, pack, []) == [v];
    assert sent == if f.value(v) then [] else [v];
    SingleReplay(map[], Batch(sent, false));
    assert sent != [] ==> Deliver(map[], sent, false) == Some(map[v.id := v]);
    var w := Known(ss[3].op.values);
    assert v.id in w && w[v.id] == v;
    assert v.id in Passing(w, f) <==> f.value(v);
  }

  ghost predicate ExactInEveryRun(f: Filter, pack: Value -> Blob) {
    forall ss: seq<Stack>, es: seq<Event> :: IsRun(ss, pack, es) ==> ExactIn(ss[|ss| - 1], f)
  }

  ghost predicate ExactIn(s: Stack, f: Filter) {
    forall t :: t in s.op.listeners && s.op.listeners[t].filter == f ==> Exact(s.op.listeners[t], Known(s.op.values))
  }

  /** A filter serves its listeners exactly, in every run, if and only if it cannot tell values from their boxes. */
  lemma {:induction false} ExactIffAgrees(f: Filter, pack: Value -> Blob)
    ensures ExactInEveryRun(f, pack) <==> Agrees(f, pack)
  {
    hide IsRun, Exact;
    if Agrees(f, pack) {
      forall ss: seq<Stack>, es: seq<Event> | IsRun(ss, pack, es)
        ensures |ss| > 0 && ExactIn(ss[|ss| - 1], f)
      {
        RunIsLong(ss, pack, es);
        var s := ss[|ss| - 1];
        forall t | t in s.op.listeners && s.op.listeners[t].filter == f
          ensures Exact(s.op.listeners[t], Known(s.op.values))
        {
          RunListener(ss, pack, es, |ss| - 1, t);
        }
      }
    } else {
      var v :| f.value(v) != f.value(Boxed(v, pack(v)));
      BoxedFilterIsWrong(f, pack, v);
      var (ss, es) := OneValueRun(f, pack, v);
      assert |ss| == 4 && !ExactIn(ss[3], f);
    }
  }

  lemma {:induction false} RunIsLong(ss: seq<Stack>, pack: Value -> Blob, es: seq<Event>)
    requires IsRun(ss, pack, es)
    ensures |ss| > 0
  {
  }

  /** No filter that a query field produces agrees on boxes: a box has id, type, owner, number and user type of its own. */
  lemma {:induction false} FieldFilterDisagrees(fv: FieldValue, pack: Value -> Blob) returns (v: Value)
    requires LocalFilter(fv).Some?
    ensures LocalFilter(fv).value(v) != LocalFilter(fv).value(Boxed(v, pack(v)))
  {
    var zero := Value(0, 0, None, 0, 0, [], [], 0, [], []);
    match fv.field
    case IdField => v := zero.(id := if fv.intValue == 0 then 1 else fv.intValue);
    case TypeField => v := zero.(vtype := if Truncate16(fv.intValue) == 0 then 1 else Truncate16(fv.intValue));
    case OwnerField => v := zero.(owner := Some(KeyPtr(0, fv.hashValue)));
    case SeqField => v := zero.(seqNum := if Truncate16(fv.intValue) == 0 then 1 else Truncate16(fv.intValue));
    case UserTypeField => v := zero.(userType := if fv.blobValue == [] then [0] else fv.blobValue);
  }
}
