/**
 The store of a Dht node: one `Storage` per hash and totals over all of them,
 changed by local puts, remote announces, expiry, eviction and maintenance.
 */
module DhtStores {
  import opened Prelude
  import opened Values
  import opened Storages
  import opened SecureTypes

  type StoreMap = map<Hash, Storage>

  datatype Dht = Dht(store: StoreMap, totalSize: int, totalValues: int)

  datatype Config = Config(types: Types, verify: Verify, maxKeys: nat, maxSize: int)

  /**
   The clock; the order in which the store map is walked; and the values the
   eviction loop picks from the per-source quotas, which this model leaves open.
   */
  datatype Env = Env(now: int, order: seq<Hash>, picks: seq<(Hash, nat)>)

  function Life(c: Config): nat -> int {
    (t: nat) => GetType(c.types, t).life
  }

  function EmptyStorage(): Storage {
    Storage([], 0, map[], 0)
  }

  function StorageAt(m: StoreMap, h: Hash): Storage {
    if h in m then m[h] else EmptyStorage()
  }

  function Lookup(d: Dht, h: Hash, id: nat): (r: Option<Value>) {
    ById(StorageAt(d.store, h).values, id)
  }

  function Updated(d: Dht, h: Hash, s: Storage, df: Diff): Dht {
    Dht(d.store[h := s], d.totalSize + df.size, d.totalValues + df.count)
  }

  // ----- operations

  function Erase(d: Dht, h: Hash, id: nat): (r: Dht) {
    if h !in d.store then d
    else var (s, df) := Remove(d.store[h], id); Updated(d, h, s, df)
  }

  function ExpireAt(d: Dht, h: Hash, now: int): (r: Dht) {
    if h !in d.store then d
    else var (s, df) := Expire(d.store[h], now); Updated(d, h, s, df)
  }

  function DropIfUnused(d: Dht, h: Hash): (r: Dht) {
    if h in d.store && d.store[h].values == [] && d.store[h].remote == map[] && d.store[h].local == 0
    then d.(store := d.store - {h}) else d
  }

  function Sweep(d: Dht, now: int, order: seq<Hash>): (r: Dht)
    decreases |order|
  {
    if order == [] then d else Sweep(DropIfUnused(ExpireAt(d, order[0], now), order[0]), now, order[1..])
  }

  function Evict(d: Dht, maxSize: int, picks: seq<(Hash, nat)>): (r: Dht)
    decreases |picks|
  {
    if picks == [] || d.totalSize <= maxSize then d
    else Evict(Erase(d, picks[0].0, picks[0].1), maxSize, picks[1..])
  }

  function ExpireAll(d: Dht, c: Config, env: Env): (r: Dht) {
    Evict(Sweep(d, env.now, env.order), c.maxSize, env.picks)
  }

  function Discard(d: Dht, h: Hash): (r: Dht) {
    if h !in d.store then d
    else var (s, df) := Clear(d.store[h]); Updated(d, h, s, df)
  }

  function RefreshAt(d: Dht, c: Config, h: Hash, id: nat, now: int): (r: Dht) {
    if h !in d.store then d else d.(store := d.store[h := Refresh(d.store[h], id, now, Life(c))])
  }

  function Expiration(c: Config, v: Value, created: int, permanent: bool): Deadline {
    if permanent then Never else At(created + GetType(c.types, v.vtype).life)
  }

  function Least(a: int, b: int): int {
    if a <= b then a else b
  }

  function StoreAt(d: Dht, c: Config, env: Env, h: Hash, v: Value, created: int, permanent: bool): (r: (Dht, bool)) {
    var at := Least(created, env.now);
    var exp := Expiration(c, v, at, permanent);
    if exp.Before(env.now) then (d, false)
    else if h !in d.store && |d.store| >= c.maxKeys then (d, false)
    else
      var (s, changed, df) := Store(StorageAt(d.store, h), v, at, exp);
      var d1 := Updated(d, h, s, df);
      (if changed && d1.totalSize > c.maxSize then ExpireAll(d1, c, env) else d1, changed)
  }

  /** A remote listener is added or refreshed, or the number of local ones set; a storage is made for it if there is room. */
  function Watch(d: Dht, c: Config, h: Hash, remote: Listeners, local: Option<nat>): (r: Dht) {
    if h !in d.store && |d.store| >= c.maxKeys then d
    else
      var s := StorageAt(d.store, h);
      d.(store := d.store[h := s.(remote := s.remote + remote, local := if local.Some? then local.value else s.local)])
  }

  /** One value of an announce: a known value is refreshed or edited, a new one is stored, as the policies allow. */
  function AnnounceOne(d: Dht, c: Config, env: Env, h: Hash, f: Flagged, from: nat, created: int): (r: Dht) {
    match Lookup(d, h, f.value.id)
    case Some(lv) =>
      if SameValue(lv, f.value) then RefreshAt(d, c, h, f.value.id, env.now)
      else
        (match EditDecision(GetType(c.types, lv.vtype), c.verify, h, lv, f, from).1
         case None => d
         case Some(n) => StoreAt(d, c, env, h, n, created, false).0)
    case None =>
      match StoreDecision(GetType(c.types, f.value.vtype), c.verify, h, f, from).1
      case None => d
      case Some(n) => StoreAt(d, c, env, h, n, created, false).0
  }

  // ----- runs

  datatype Event =
    | Put(h: Hash, v: Value, created: int, permanent: bool)
    | Announce(h: Hash, f: Flagged, from: nat, created: int)
    | EraseValue(h: Hash, id: nat)
    | ExpireStorage(h: Hash)
    | ExpireStores
    | DiscardValues(h: Hash)
    | RefreshValue(h: Hash, id: nat)
    | AddListener(h: Hash, node: nat, socket: nat)
    | SetLocals(h: Hash, n: nat)

  datatype Timed = Timed(env: Env, event: Event)

  function Step(d: Dht, c: Config, t: Timed): (r: Dht) {
    match t.event
    case Put(h, v, created, permanent) => StoreAt(d, c, t.env, h, v, created, permanent).0
    case Announce(h, f, from, created) => AnnounceOne(d, c, t.env, h, f, from, created)
    case EraseValue(h, id) => Erase(d, h, id)
    case ExpireStorage(h) => ExpireAt(d, h, t.env.now)
    case ExpireStores => ExpireAll(d, c, t.env)
    case DiscardValues(h) => Discard(d, h)
    case RefreshValue(h, id) => RefreshAt(d, c, h, id, t.env.now)
    case AddListener(h, node, socket) => Watch(d, c, h, map[(node, socket) := t.env.now], None)
    case SetLocals(h, n) => Watch(d, c, h, map[], Some(n))
  }

  function Run(d: Dht, c: Config, ts: seq<Timed>): (r: Dht)
    decreases |ts|
  {
    if ts == [] then d else Run(Step(d, c, ts[0]), c, ts[1..])
  }

  // ----- sums over the store

  function Bytes(s: Storage): int {
    s.total
  }

  function Count(s: Storage): int {
    |s.values|
  }

  ghost function MapSum(m: StoreMap, f: Storage -> int): (n: int)
    decreases |m|
  {
    if m == map[] then 0
    else var h :| h in m; f(m[h]) + MapSum(m - {h}, f)
  }

  lemma {:induction false} MapSumAt(m: StoreMap, f: Storage -> int, h: Hash)
    requires h in m
    ensures MapSum(m, f) == f(m[h]) + MapSum(m - {h}, f)
    decreases |m|
  {
    var k :| k in m && MapSum(m, f) == f(m[k]) + MapSum(m - {k}, f);
    if k != h {
      MapSumAt(m - {k}, f, h);
      assert m - {k} - {h} == m - {h} - {k};
      MapSumAt(m - {h}, f, k);
    }
  }

  lemma {:induction false} MapSumUpdate(m: StoreMap, f: Storage -> int, h: Hash, s: Storage)
    requires f(EmptyStorage()) == 0
    ensures MapSum(m[h := s], f) == MapSum(m, f) - f(StorageAt(m, h)) + f(s)
  {
    MapSumAt(m[h := s], f, h);
    if h in m {
      MapSumAt(m, f, h);
      assert m[h := s] - {h} == m - {h};
    } else {
      assert m[h := s] - {h} == m;
    }
  }

  lemma {:induction false} MapSumNonNegative(m: StoreMap, f: Storage -> int)
    requires forall h :: h in m ==> f(m[h]) >= 0
    ensures MapSum(m, f) >= 0
    decreases |m|
  {
    if m != map[] {
      var k :| k in m && MapSum(m, f) == f(m[k]) + MapSum(m - {k}, f);
      MapSumNonNegative(m - {k}, f);
    }
  }

  /** Every storage is accounted for and the totals are the sums over all storages. */
  ghost predicate AllAccounted(m: StoreMap) {
    forall h :: h in m ==> Accounted(m[h])
  }

  ghost predicate Balanced(d: Dht) {
    && AllAccounted(d.store)
    && d.totalSize == MapSum(d.store, Bytes)
    && d.totalValues == MapSum(d.store, Count)
  }

  // ----- accounting

  lemma {:induction false} UpdatedKeeps(d: Dht, h: Hash, s: Storage, df: Diff)
    requires Balanced(d) && Accounted(s)
    requires s.total == StorageAt(d.store, h).total + df.size
    requires |s.values| == |StorageAt(d.store, h).values| + df.count
    ensures Balanced(Updated(d, h, s, df))
  {
    hide Accounted;
    MapSumUpdate(d.store, Bytes, h, s);
    MapSumUpdate(d.store, Count, h, s);
  }

  lemma {:induction false} AccountedAt(m: StoreMap, h: Hash)
    requires AllAccounted(m)
    ensures Accounted(StorageAt(m, h))
  {
  }

  lemma {:induction false} EraseKeeps(d: Dht, h: Hash, id: nat)
    requires Balanced(d)
    ensures Balanced(Erase(d, h, id))
  {
    hide Accounted, Remove, MapSum;
    if h in d.store {
      RemoveKeeps(d.store[h], id);
      var (s, df) := Remove(d.store[h], id);
      UpdatedKeeps(d, h, s, df);
    }
  }

  lemma {:induction false} ExpireAtKeeps(d: Dht, h: Hash, now: int)
    requires Balanced(d)
    ensures Balanced(ExpireAt(d, h, now))
  {
    hide Accounted, Expire, MapSum;
    if h in d.store {
      Storages.ExpireKeeps(d.store[h], now);
      var (s, df) := Expire(d.store[h], now);
      UpdatedKeeps(d, h, s, df);
    }
  }

  lemma {:induction false} DropKeeps(d: Dht, h: Hash)
    requires Balanced(d)
    ensures Balanced(DropIfUnused(d, h))
  {
    if h in d.store && d.store[h].values == [] {
      assert Accounted(d.store[h]);
      MapSumAt(d.store, Bytes, h);
      MapSumAt(d.store, Count, h);
    }
  }

  lemma {:induction false} SweepKeeps(d: Dht, now: int, order: seq<Hash>)
    requires Balanced(d)
    ensures Balanced(Sweep(d, now, order))
    decreases |order|
  {
    hide Balanced, ExpireAt, DropIfUnused;
    if order != [] {
      ExpireAtKeeps(d, order[0], now);
      DropKeeps(ExpireAt(d, order[0], now), order[0]);
      SweepKeeps(DropIfUnused(ExpireAt(d, order[0], now), order[0]), now, order[1..]);
    }
  }

  lemma {:induction false} EvictKeeps(d: Dht, maxSize: int, picks: seq<(Hash, nat)>)
    requires Balanced(d)
    ensures Balanced(Evict(d, maxSize, picks))
    decreases |picks|
  {
    hide Balanced, Erase;
    if picks != [] {
      EraseKeeps(d, picks[0].0, picks[0].1);
      if d.totalSize > maxSize {
        EvictKeeps(Erase(d, picks[0].0, picks[0].1), maxSize, picks[1..]);
      }
    }
  }

  lemma {:induction false} ExpireAllKeeps(d: Dht, c: Config, env: Env)
    requires Balanced(d)
    ensures Balanced(ExpireAll(d, c, env))
  {
    SweepKeeps(d, env.now, env.order);
    EvictKeeps(Sweep(d, env.now, env.order), c.maxSize, env.picks);
  }

  lemma {:induction false} StoreAtKeeps(d: Dht, c: Config, env: Env, h: Hash, v: Value, created: int, permanent: bool)
    requires Balanced(d)
    ensures Balanced(StoreAt(d, c, env, h, v, created, permanent).0)
  {
    hide Accounted, Store, ExpireAll, MapSum;
    var at := Least(created, env.now);
    var exp := Expiration(c, v, at, permanent);
    var (s, changed, df) := Store(StorageAt(d.store, h), v, at, exp);
    AccountedAt(d.store, h);
    StoreKeeps(StorageAt(d.store, h), v, at, exp);
    UpdatedKeeps(d, h, s, df);
    ExpireAllKeeps(Updated(d, h, s, df), c, env);
  }

  lemma {:induction false} StepKeeps(d: Dht, c: Config, t: Timed)
    requires Balanced(d)
    ensures Balanced(Step(d, c, t))
  {
    hide Accounted, MapSum, StoreAt, Erase, ExpireAt, ExpireAll, Lookup, EditDecision, StoreDecision, SameValue;
    match t.event
    case Put(h, v, created, permanent) => StoreAtKeeps(d, c, t.env, h, v, created, permanent);
    case Announce(h, f, from, created) => AnnounceKeeps(d, c, t.env, h, f, from, created);
    case EraseValue(h, id) => EraseKeeps(d, h, id);
    case ExpireStorage(h) => ExpireAtKeeps(d, h, t.env.now);
    case ExpireStores => ExpireAllKeeps(d, c, t.env);
    case DiscardValues(h) =>
      if h in d.store {
        ClearKeeps(d.store[h]);
        var (s, df) := Clear(d.store[h]);
        UpdatedKeeps(d, h, s, df);
      }
    case RefreshValue(h, id) => RefreshAtKeeps(d, c, h, id, t.env.now);
    case AddListener(h, node, socket) => WatchKeeps(d, c, h, map[(node, socket) := t.env.now], None);
    case SetLocals(h, n) => WatchKeeps(d, c, h, map[], Some(n));
  }

  lemma {:induction false} RefreshAtKeeps(d: Dht, c: Config, h: Hash, id: nat, now: int)
    requires Balanced(d)
    ensures Balanced(RefreshAt(d, c, h, id, now))
  {
    hide Accounted, MapSum, Refresh;
    if h in d.store {
      Storages.RefreshKeeps(d.store[h], id, now, Life(c));
      UpdatedKeeps(d, h, Refresh(d.store[h], id, now, Life(c)), Diff(0, 0));
    }
  }

  lemma {:induction false} WatchKeeps(d: Dht, c: Config, h: Hash, remote: Listeners, local: Option<nat>)
    requires Balanced(d)
    ensures Balanced(Watch(d, c, h, remote, local))
  {
    hide MapSum;
    AccountedAt(d.store, h);
    var s := StorageAt(d.store, h);
    UpdatedKeeps(d, h, s.(remote := s.remote + remote, local := if local.Some? then local.value else s.local), Diff(0, 0));
  }

  lemma {:induction false} AnnounceKeeps(d: Dht, c: Config, env: Env, h: Hash, f: Flagged, from: nat, created: int)
    requires Balanced(d)
    ensures Balanced(AnnounceOne(d, c, env, h, f, from, created))
  {
    hide Balanced, StoreAt, RefreshAt, Lookup, EditDecision, StoreDecision, SameValue;
    forall n: Value
      ensures Balanced(StoreAt(d, c, env, h, n, created, false).0)
    {
      StoreAtKeeps(d, c, env, h, n, created, false);
    }
    RefreshAtKeeps(d, c, h, f.value.id, env.now);
  }

  /** Whatever happens to the store, from a balanced store every total stays the sum it stands for. */
  lemma {:induction false} RunBalanced(d: Dht, c: Config, ts: seq<Timed>)
    requires Balanced(d)
    ensures Balanced(Run(d, c, ts))
    decreases |ts|
  {
    hide Balanced, Step;
    if ts != [] {
      StepKeeps(d, c, ts[0]);
      RunBalanced(Step(d, c, ts[0]), c, ts[1..]);
    }
  }

  /** In particular from the empty store; the unsigned totals never go below zero. */
  lemma {:induction false} TotalsAreSums(c: Config, ts: seq<Timed>)
    ensures var d := Run(Dht(map[], 0, 0), c, ts);
            && Balanced(d)
            && d.totalSize >= 0 && d.totalValues >= 0
            && (forall h :: h in d.store ==> d.store[h].total >= 0)
  {
    var d := Run(Dht(map[], 0, 0), c, ts);
    RunBalanced(Dht(map[], 0, 0), c, ts);
    forall h | h in d.store
      ensures d.store[h].total >= 0
    {
      assert Accounted(d.store[h]);
      SumNonNegative(d.store[h].values);
    }
    MapSumNonNegative(d.store, Bytes);
    MapSumNonNegative(d.store, Count);
  }

  lemma {:induction false} SumNonNegative(vs: seq<Stored>)
    ensures Sum(vs) >= 0
    decreases |vs|
  {
    if vs != [] {
      SumNonNegative(vs[1..]);
    }
  }
}
