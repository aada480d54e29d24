/**
 `ValueCache`: what one remote node is known to hold for one listen operation.
 Changes are reported as batches of added and of expired values; a batch log is
 correct when replaying it turns the old contents into the new ones.
 */
module ValueCaches {
  import opened Prelude
  import opened Values

  const MAX_VALUES: nat := 4096

  datatype Cached = Cached(data: Value, created: int, expiration: int)

  type CacheMap = map<nat, Cached>

  /** Time a value of the given type stays without being refreshed. */
  type Life = nat -> int

  datatype Batch = Batch(vals: seq<Value>, expired: bool)

  // ----- sync statuses

  /** What a cache tells its operation about itself. */
  datatype SyncStatus = Added | Synced | Unsynced | Removed

  /** How many nodes, and how many synced ones, a sequence of statuses stands for. */
  datatype Tally = Tally(nodes: int, synced: int)

  function Change(c: Tally, status: SyncStatus): (r: Tally) {
    match status
    case Added => c.(nodes := c.nodes + 1)
    case Removed => c.(nodes := c.nodes - 1)
    case Synced => c.(synced := c.synced + 1)
    case Unsynced => c.(synced := c.synced - 1)
  }

  function Changes(c: Tally, ss: seq<SyncStatus>): (r: Tally)
    decreases |ss|
  {
    if ss == [] then c else Change(Changes(c, ss[..|ss| - 1]), ss[|ss| - 1])
  }

  /** `onSynced` speaks only on a change. */
  function SyncStatuses(synced: bool, now: bool): (ss: seq<SyncStatus>) {
    if synced == now then [] else if now then [Synced] else [Unsynced]
  }

  /** The destructor takes back what has been said. */
  function DetachStatuses(synced: bool): (ss: seq<SyncStatus>) {
    (if synced then [Unsynced] else []) + [Removed]
  }

  lemma {:induction false} ChangesConcat(c: Tally, a: seq<SyncStatus>, b: seq<SyncStatus>)
    ensures Changes(c, a + b) == Changes(Changes(c, a), b)
    decreases |b|
  {
    if b == [] {
      assert a + b == a;
    } else {
      var n := |b| - 1;
      assert (a + b)[..|a + b| - 1] == a + b[..n] && (a + b)[|a + b| - 1] == b[n];
      ChangesConcat(c, a, b[..n]);
    }
  }

  lemma {:induction false} ChangesOne(c: Tally, status: SyncStatus)
    ensures Changes(c, [status]) == Change(c, status)
  {
    assert [status][..0] == [];
  }

  /** What the statuses of one cache add up to: on a change of sync, and at the end. */
  lemma {:induction false} StatusesAddUp(c: Tally, synced: bool, now: bool)
    ensures Changes(c, SyncStatuses(synced, now)) == c.(synced := c.synced + (if now then 1 else 0) - (if synced then 1 else 0))
    ensures Changes(c, DetachStatuses(synced)) == Tally(c.nodes - 1, c.synced - if synced then 1 else 0)
  {
    ChangesOne(c, Synced);
    ChangesOne(c, Unsynced);
    ChangesOne(c, Removed);
    ChangesConcat(c, [Unsynced], [Removed]);
    ChangesOne(Change(c, Unsynced), Removed);
    assert [] + [Removed] == [Removed];
  }

  // ----- replaying batches

  /** An add is in order only for an absent id, an expiry only for the very value that is present. */
  function DeliverOne(w: map<nat, Value>, v: Value, expired: bool): (r: Option<map<nat, Value>>) {
    if expired then if v.id in w && w[v.id] == v then Some(w - {v.id}) else None
    else if v.id in w then None
    else Some(w[v.id := v])
  }

  function Deliver(w: map<nat, Value>, vals: seq<Value>, expired: bool): (r: Option<map<nat, Value>>)
    decreases |vals|
  {
    if vals == [] then Some(w)
    else
      match DeliverOne(w, vals[0], expired)
      case None => None
      case Some(w') => Deliver(w', vals[1..], expired)
  }

  function Replay(w: map<nat, Value>, bs: seq<Batch>): (r: Option<map<nat, Value>>)
    decreases |bs|
  {
    if bs == [] then Some(w)
    else
      match Deliver(w, bs[0].vals, bs[0].expired)
      case None => None
      case Some(w') => Replay(w', bs[1..])
  }

  lemma {:induction false} DeliverConcat(w: map<nat, Value>, a: seq<Value>, b: seq<Value>, expired: bool)
    ensures Deliver(w, a + b, expired) ==
            match Deliver(w, a, expired) case None => None case Some(w') => Deliver(w', b, expired)
    decreases |a|
  {
    if a == [] {
      assert a + b == b;
    } else {
      assert (a + b)[0] == a[0] && (a + b)[1..] == a[1..] + b;
      match DeliverOne(w, a[0], expired)
      case None =>
      case Some(w') => DeliverConcat(w', a[1..], b, expired);
    }
  }

  lemma {:induction false} DeliverSnoc(w: map<nat, Value>, a: seq<Value>, v: Value, expired: bool)
    requires Deliver(w, a, expired).Some?
    ensures Deliver(w, a + [v], expired) == DeliverOne(Deliver(w, a, expired).value, v, expired)
  {
    DeliverConcat(w, a, [v], expired);
    assert [v][1..] == [];
  }

  /** An empty batch is not reported. */
  lemma {:induction false} OneBatch(w: map<nat, Value>, vals: seq<Value>, expired: bool)
    ensures Replay(w, if vals == [] then [] else [Batch(vals, expired)]) == Deliver(w, vals, expired)
  {
    assert [Batch(vals, expired)][1..] == [];
  }

  lemma {:induction false} ReplayConcat(w: map<nat, Value>, a: seq<Batch>, b: seq<Batch>)
    ensures Replay(w, a + b) == match Replay(w, a) case None => None case Some(w') => Replay(w', b)
    decreases |a|
  {
    if a == [] {
      assert a + b == b;
    } else {
      assert (a + b)[0] == a[0] && (a + b)[1..] == a[1..] + b;
      match Deliver(w, a[0].vals, a[0].expired)
      case None =>
      case Some(w') => ReplayConcat(w', a[1..], b);
    }
  }

  // ----- contents

  function Contents(m: CacheMap): (w: map<nat, Value>) {
    map k | k in m :: m[k].data
  }

  ghost predicate Keyed(m: CacheMap) {
    forall k :: k in m ==> m[k].data.id == k
  }

  /** The batches report exactly the change from m to m'. */
  ghost predicate Reports(m: CacheMap, bs: seq<Batch>, m': CacheMap) {
    Replay(Contents(m), bs) == Some(Contents(m'))
  }

  function Refreshed(c: Cached, life: Life, now: int): (r: Cached) {
    c.(created := now, expiration := now + life(c.data.vtype))
  }

  /** The map after adding values, and the values that were new, in order. */
  function AddValues(m: CacheMap, vs: seq<Value>, life: Life, now: int): (r: (CacheMap, seq<Value>))
    decreases |vs|
  {
    if vs == [] then (m, [])
    else if vs[0].id in m then
      AddValues(m[vs[0].id := Refreshed(m[vs[0].id], life, now)], vs[1..], life, now)
    else
      var (m', nv) := AddValues(m[vs[0].id := Cached(vs[0], now, now + life(vs[0].vtype))], vs[1..], life, now);
      (m', [vs[0]] + nv)
  }

  function RefreshValues(m: CacheMap, ids: seq<nat>, life: Life, now: int): (r: CacheMap)
    decreases |ids|
  {
    if ids == [] then m
    else if ids[0] in m then RefreshValues(m[ids[0] := Refreshed(m[ids[0]], life, now)], ids[1..], life, now)
    else RefreshValues(m, ids[1..], life, now)
  }

  /** The map without the given ids, and one batch for each that was there. */
  function ExpireIds(m: CacheMap, ids: seq<nat>): (r: (CacheMap, seq<Batch>))
    decreases |ids|
  {
    if ids == [] then (m, [])
    else if ids[0] in m then
      var (m', bs) := ExpireIds(m - {ids[0]}, ids[1..]);
      (m', [Batch([m[ids[0]].data], true)] + bs)
    else ExpireIds(m, ids[1..])
  }

  function Unexpired(m: CacheMap, now: int): (r: CacheMap) {
    map k | k in m && m[k].expiration > now :: m[k]
  }

  /** k was created first; of several, it has the smallest id. */
  ghost predicate IsOldest(m: CacheMap, k: nat) {
    k in m && forall j :: j in m ==> m[k].created < m[j].created || (m[k].created == m[j].created && k <= j)
  }

  lemma {:induction false} OldestExists(m: CacheMap) returns (k: nat)
    requires |m| > 0
    ensures IsOldest(m, k)
  {
    var j :| j in m;
    var rest := m - {j};
    assert rest.Keys == m.Keys - {j};
    if rest.Keys == {} {
      k := j;
      assert m.Keys == {j};
    } else {
      var o := OldestExists(rest);
      assert forall i :: i in m && i != j ==> i in rest;
      k := if m[j].created < m[o].created || (m[j].created == m[o].created && j <= o) then j else o;
    }
  }

  ghost function Oldest(m: CacheMap): (k: nat)
    requires |m| > 0
    ensures IsOldest(m, k)
  {
    assert exists k: nat :: IsOldest(m, k) by {
      var k := OldestExists(m);
    }
    var k :| IsOldest(m, k);
    k
  }

  /** Oldest values are dropped until at most MAX_VALUES are left. */
  ghost function Evicted(m: CacheMap): (r: CacheMap)
    decreases |m|
  {
    if |m| <= MAX_VALUES then m
    else
      assert (m - {Oldest(m)}).Keys == m.Keys - {Oldest(m)};
      Evicted(m - {Oldest(m)})
  }

  ghost function AfterExpiry(m: CacheMap, now: int): (r: CacheMap) {
    Evicted(Unexpired(m, now))
  }

  /** `ValueCache::onValues`. */
  ghost function AfterValues(m: CacheMap, vs: seq<Value>, refreshed: seq<nat>, expired: seq<nat>, life: Life, now: int): (r: CacheMap) {
    AfterExpiry(ExpireIds(RefreshValues(AddValues(m, vs, life, now).0, refreshed, life, now), expired).0, now)
  }

  lemma {:induction false} AddValuesReports(m: CacheMap, vs: seq<Value>, life: Life, now: int)
    requires Keyed(m)
    ensures var (m', nv) := AddValues(m, vs, life, now);
            Keyed(m') && Deliver(Contents(m), nv, false) == Some(Contents(m'))
    decreases |vs|
  {
    if vs != [] {
      if vs[0].id in m {
        var m1 := m[vs[0].id := Refreshed(m[vs[0].id], life, now)];
        assert Contents(m1) == Contents(m);
        AddValuesReports(m1, vs[1..], life, now);
      } else {
        var m1 := m[vs[0].id := Cached(vs[0], now, now + life(vs[0].vtype))];
        assert Contents(m1) == Contents(m)[vs[0].id := vs[0]];
        AddValuesReports(m1, vs[1..], life, now);
        var nv := AddValues(m1, vs[1..], life, now).1;
        assert ([vs[0]] + nv)[1..] == nv;
      }
    }
  }

  lemma {:induction false} RefreshKeeps(m: CacheMap, ids: seq<nat>, life: Life, now: int)
    requires Keyed(m)
    ensures Keyed(RefreshValues(m, ids, life, now))
    ensures Contents(RefreshValues(m, ids, life, now)) == Contents(m)
    decreases |ids|
  {
    if ids != [] {
      if ids[0] in m {
        var m1 := m[ids[0] := Refreshed(m[ids[0]], life, now)];
        assert Contents(m1) == Contents(m);
        RefreshKeeps(m1, ids[1..], life, now);
      } else {
        RefreshKeeps(m, ids[1..], life, now);
      }
    }
  }

  lemma {:induction false} ExpireIdsReports(m: CacheMap, ids: seq<nat>)
    requires Keyed(m)
    ensures var (m', bs) := ExpireIds(m, ids); Keyed(m') && Reports(m, bs, m')
    decreases |ids|
  {
    if ids != [] {
      if ids[0] in m {
        var m1 := m - {ids[0]};
        assert Contents(m1) == Contents(m) - {ids[0]};
        ExpireIdsReports(m1, ids[1..]);
        var b, bs := Batch([m[ids[0]].data], true), ExpireIds(m1, ids[1..]).1;
        assert ([b] + bs)[1..] == bs && b.vals[1..] == [];
        assert DeliverOne(Contents(m), b.vals[0], true) == Some(Contents(m1));
        assert Deliver(Contents(m), b.vals, true) == Some(Contents(m1));
      } else {
        ExpireIdsReports(m, ids[1..]);
      }
    }
  }

  lemma {:induction false} EvictedKeyed(m: CacheMap)
    requires Keyed(m)
    ensures Keyed(Evicted(m)) && |Evicted(m)| <= MAX_VALUES && Evicted(m).Keys <= m.Keys
    decreases |m|
  {
    if |m| > MAX_VALUES {
      assert (m - {Oldest(m)}).Keys == m.Keys - {Oldest(m)};
      EvictedKeyed(m - {Oldest(m)});
    }
  }

  lemma {:induction false} LeastExists(s: set<nat>) returns (k: nat)
    requires s != {}
    ensures k in s && forall j :: j in s ==> k <= j
  {
    var i :| i in s;
    var rest := s - {i};
    if rest == {} {
      k := i;
      assert s == {i};
    } else {
      var l := LeastExists(rest);
      k := if i <= l then i else l;
      assert s == rest + {i};
    }
  }

  lemma {:induction false} EraseContents(m: CacheMap, k: nat)
    requires k in m && Keyed(m)
    ensures Keyed(m - {k}) && (m - {k}).Keys == m.Keys - {k}
    ensures DeliverOne(Contents(m), m[k].data, true) == Some(Contents(m - {k}))
  {
    assert Contents(m - {k}) == Contents(m) - {k};
  }

  /** next is the smallest expiration among the keys ks, None if there is none. */
  ghost predicate Earliest(m: CacheMap, ks: set<nat>, next: Option<int>)
    requires ks <= m.Keys
  {
    match next
    case None => ks == {}
    case Some(t) => (exists k :: k in ks && m[k].expiration == t) && (forall k :: k in ks ==> t <= m[k].expiration)
  }

  lemma {:induction false} EarliestErase(m: CacheMap, ks: set<nat>, k: nat, next: Option<int>)
    requires ks <= m.Keys && k !in ks && Earliest(m, ks, next)
    ensures ks <= (m - {k}).Keys && Earliest(m - {k}, ks, next)
  {
    var m' := m - {k};
    assert forall j :: j in ks ==> j in m' && m'[j] == m[j];
    if next.Some? {
      var j :| j in ks && m[j].expiration == next.value;
      assert j in ks && m'[j].expiration == next.value;
    }
  }

  lemma {:induction false} EarliestAdd(m: CacheMap, ks: set<nat>, k: nat, next: Option<int>, next': Option<int>)
    requires ks <= m.Keys && k in m && Earliest(m, ks, next)
    requires next' == if next.None? || m[k].expiration < next.value then Some(m[k].expiration) else next
    ensures Earliest(m, ks + {k}, next')
  {
    if next == next' {
      var j :| j in ks && m[j].expiration == next.value;
      assert j in ks + {k};
    } else {
      assert k in ks + {k} && m[k].expiration == next'.value;
    }
  }

  /** v is m without the values due at `now`, except that the keys todo have not been looked at. */
  ghost predicate Swept(m: CacheMap, v: CacheMap, todo: set<nat>, now: int) {
    && (forall k :: k in v <==> k in m && (k in todo || m[k].expiration > now))
    && (forall k :: k in v ==> v[k] == m[k])
  }

  lemma {:induction false} SweepStart(m: CacheMap, now: int)
    ensures Swept(m, m, m.Keys, now) && Deliver(Contents(m), [], true) == Some(Contents(m)) && Earliest(m, m.Keys - m.Keys, None)
  {
  }

  lemma {:induction false} SweepEnd(m: CacheMap, v: CacheMap, now: int)
    requires Swept(m, v, {}, now)
    ensures v == Unexpired(m, now)
  {
  }

  lemma {:induction false} SweepOne(m: CacheMap, v: CacheMap, todo: set<nat>, k: nat, now: int, next: Option<int>)
    requires Swept(m, v, todo, now) && todo <= v.Keys && k in todo && Earliest(v, v.Keys - todo, next)
    ensures v[k].expiration <= now ==>
              && Swept(m, v - {k}, todo - {k}, now)
              && todo - {k} <= (v - {k}).Keys
              && Earliest(v - {k}, (v - {k}).Keys - (todo - {k}), next)
    ensures v[k].expiration > now ==>
              && Swept(m, v, todo - {k}, now)
              && Earliest(v, v.Keys - (todo - {k}),
                          if next.None? || v[k].expiration < next.value then Some(v[k].expiration) else next)
  {
    if v[k].expiration <= now {
      EarliestErase(v, v.Keys - todo, k, next);
      assert (v - {k}).Keys - (todo - {k}) == v.Keys - todo;
    } else {
      EarliestAdd(v, v.Keys - todo, k, next, if next.None? || v[k].expiration < next.value then Some(v[k].expiration) else next);
      assert v.Keys - (todo - {k}) == v.Keys - todo + {k};
    }
  }

  // ----- the object

  class ValueCache {
    var values: CacheMap
    var synced: bool
    /** Every status the sync callback has been called with. */
    var told: seq<SyncStatus>

    /** What was told adds up to one node, synced or not as the cache is. */
    ghost predicate Told()
      reads this
    {
      Changes(Tally(0, 0), told) == Tally(1, if synced then 1 else 0)
    }

    constructor ()
      ensures values == map[] && !synced && told == [Added] && Told()
    {
      values := map[];
      synced := false;
      told := [Added];
      new;
      ChangesOne(Tally(0, 0), Added);
    }

    method Add(vs: seq<Value>, life: Life, now: int) returns (bs: seq<Batch>)
      requires Keyed(values)
      modifies this`values
      ensures values == AddValues(old(values), vs, life, now).0
      ensures Keyed(values) && Reports(old(values), bs, values)
      ensures |bs| <= 1
    {
      hide Deliver, Replay, Contents, Keyed;
      AddValuesReports(values, vs, life, now);
      ghost var m := values;
      var nv: seq<Value> := [];
      assert vs[0..] == vs;
      for i := 0 to |vs|
        invariant AddValues(m, vs, life, now).0 == AddValues(values, vs[i..], life, now).0
        invariant AddValues(m, vs, life, now).1 == nv + AddValues(values, vs[i..], life, now).1
      {
        var v := vs[i];
        assert vs[i..][0] == v && vs[i..][1..] == vs[i + 1..];
        if v.id !in values {
          nv := nv + [v];
          values := values[v.id := Cached(v, now, now + life(v.vtype))];
        } else {
          values := values[v.id := Refreshed(values[v.id], life, now)];
        }
      }
      assert vs[|vs|..] == [] && nv + [] == nv;
      bs := if nv == [] then [] else [Batch(nv, false)];
      OneBatch(Contents(m), nv, false);
    }

    method Refresh(ids: seq<nat>, life: Life, now: int)
      requires Keyed(values)
      modifies this`values
      ensures values == RefreshValues(old(values), ids, life, now)
      ensures Keyed(values) && Contents(values) == Contents(old(values))
    {
      RefreshKeeps(values, ids, life, now);
      ghost var m := values;
      assert ids[0..] == ids;
      for i := 0 to |ids|
        invariant RefreshValues(m, ids, life, now) == RefreshValues(values, ids[i..], life, now)
      {
        assert ids[i..][0] == ids[i] && ids[i..][1..] == ids[i + 1..];
        if ids[i] in values {
          values := values[ids[i] := Refreshed(values[ids[i]], life, now)];
        }
      }
    }

    method ExpireListed(ids: seq<nat>) returns (bs: seq<Batch>)
      requires Keyed(values)
      modifies this`values
      ensures (values, bs) == ExpireIds(old(values), ids)
      ensures Keyed(values) && Reports(old(values), bs, values)
    {
      ExpireIdsReports(values, ids);
      ghost var m := values;
      bs := [];
      assert ids[0..] == ids;
      for i := 0 to |ids|
        invariant ExpireIds(m, ids).0 == ExpireIds(values, ids[i..]).0
        invariant ExpireIds(m, ids).1 == bs + ExpireIds(values, ids[i..]).1
      {
        assert ids[i..][0] == ids[i] && ids[i..][1..] == ids[i + 1..];
        if ids[i] in values {
          bs := bs + [Batch([values[ids[i]].data], true)];
          values := values - {ids[i]};
        }
      }
      assert ids[|ids|..] == [] && bs + [] == bs;
    }

    /** Erase the values that are due, in the order of their ids; next is the earliest expiration left. */
    method ExpireDue(now: int) returns (gone: seq<Value>, next: Option<int>)
      requires Keyed(values)
      modifies this`values
      ensures values == Unexpired(old(values), now) && Keyed(values)
      ensures Deliver(Contents(old(values)), gone, true) == Some(Contents(values))
      ensures Earliest(values, values.Keys, next)
    {
      hide Deliver, Earliest, Swept;
      ghost var m := values;
      var todo := values.Keys;
      gone, next := [], None;
      SweepStart(m, now);
      while todo != {}
        invariant Keyed(values) && todo <= values.Keys && Swept(m, values, todo, now)
        invariant Deliver(Contents(m), gone, true) == Some(Contents(values))
        invariant Earliest(values, values.Keys - todo, next)
        decreases |todo|
      {
        ghost var least := LeastExists(todo);
        var k :| k in todo && forall j :: j in todo ==> k <= j;
        var c := values[k];
        SweepOne(m, values, todo, k, now, next);
        if c.expiration <= now {
          DeliverSnoc(Contents(m), gone, c.data, true);
          EraseContents(values, k);
          gone := gone + [c.data];
          values := values - {k};
        } else if next.None? || c.expiration < next.value {
          next := Some(c.expiration);
        }
        todo := todo - {k};
      }
      SweepEnd(m, values, now);
      assert values.Keys - {} == values.Keys;
    }

    method EvictOldest(gone: seq<Value>, ghost m: CacheMap) returns (gone': seq<Value>)
      requires Keyed(values) && Deliver(Contents(m), gone, true) == Some(Contents(values))
      modifies this`values
      ensures values == Evicted(old(values)) && Keyed(values)
      ensures Deliver(Contents(m), gone', true) == Some(Contents(values))
    {
      gone' := gone;
      while |values| > MAX_VALUES
        invariant Keyed(values) && Evicted(values) == Evicted(old(values))
        invariant Deliver(Contents(m), gone', true) == Some(Contents(values))
        decreases |values|
      {
        var k := FindOldest();
        DeliverSnoc(Contents(m), gone', values[k].data, true);
        assert Contents(values - {k}) == Contents(values) - {k};
        assert (values - {k}).Keys == values.Keys - {k};
        OldestUnique(values, k, Oldest(values));
        gone' := gone' + [values[k].data];
        values := values - {k};
      }
    }

    method FindOldest() returns (k: nat)
      requires |values| > 0
      ensures IsOldest(values, k)
    {
      var todo := values.Keys;
      ghost var first := LeastExists(todo);
      k :| k in todo && forall j :: j in todo ==> k <= j;
      todo := todo - {k};
      while todo != {}
        invariant todo <= values.Keys && k in values && k !in todo
        invariant forall i, j :: i in values && i !in todo && j in todo ==> i < j
        invariant forall j :: j in values && j !in todo ==>
                    values[k].created < values[j].created || (values[k].created == values[j].created && k <= j)
        decreases |todo|
      {
        ghost var least := LeastExists(todo);
        var j :| j in todo && forall i :: i in todo ==> j <= i;
        todo := todo - {j};
        if values[j].created < values[k].created {
          k := j;
        }
      }
    }

    method ExpireValues(now: int) returns (bs: seq<Batch>, next: Option<int>)
      requires Keyed(values)
      modifies this`values
      ensures values == AfterExpiry(old(values), now) && Keyed(values) && |values| <= MAX_VALUES
      ensures Reports(old(values), bs, values) && |bs| <= 1
      ensures Earliest(Unexpired(old(values), now), Unexpired(old(values), now).Keys, next)
    {
      hide Earliest;
      ghost var m := values;
      var gone;
      gone, next := ExpireDue(now);
      EvictedKeyed(values);
      gone := EvictOldest(gone, m);
      bs := if gone == [] then [] else [Batch(gone, true)];
      OneBatch(Contents(m), gone, true);
    }

    method OnValues(vs: seq<Value>, refreshed: seq<nat>, expired: seq<nat>, life: Life, now: int)
      returns (bs: seq<Batch>, next: Option<int>)
      requires Keyed(values)
      modifies this`values
      ensures values == AfterValues(old(values), vs, refreshed, expired, life, now)
      ensures Keyed(values) && |values| <= MAX_VALUES && Reports(old(values), bs, values)
      ensures var kept := Unexpired(ExpireIds(RefreshValues(AddValues(old(values), vs, life, now).0, refreshed, life, now), expired).0, now);
              Earliest(kept, kept.Keys, next)
    {
      hide Earliest;
      ghost var w := Contents(values);
      var added := Add(vs, life, now);
      Refresh(refreshed, life, now);
      var listed := ExpireListed(expired);
      var due;
      due, next := ExpireValues(now);
      ReplayConcat(w, added, listed);
      ReplayConcat(w, added + listed, due);
      bs := added + listed + due;
    }

    /** Reports every value still held as expired. */
    method Clear() returns (bs: seq<Batch>)
      requires Keyed(values)
      modifies this`values
      ensures values == map[] && Reports(old(values), bs, map[])
    {
      ghost var m := values;
      var gone: seq<Value> := [];
      while values != map[]
        invariant Keyed(values) && Deliver(Contents(m), gone, true) == Some(Contents(values))
        decreases |values|
      {
        ghost var least := LeastExists(values.Keys);
        var k :| k in values.Keys && forall j :: j in values.Keys ==> k <= j;
        DeliverSnoc(Contents(m), gone, values[k].data, true);
        assert Contents(values - {k}) == Contents(values) - {k};
        assert (values - {k}).Keys == values.Keys - {k};
        gone := gone + [values[k].data];
        values := values - {k};
      }
      bs := if gone == [] then [] else [Batch(gone, true)];
      OneBatch(Contents(m), gone, true);
    }

    method OnSynced(now: bool)
      requires Told()
      modifies this`synced, this`told
      ensures synced == now && Told() && told == old(told) + SyncStatuses(old(synced), now)
    {
      StatusesAddUp(Changes(Tally(0, 0), told), synced, now);
      ChangesConcat(Tally(0, 0), told, SyncStatuses(synced, now));
      assert told + [] == told;
      if synced != now {
        synced := now;
        told := told + [if now then Synced else Unsynced];
      }
    }

    /** The destructor: every value still held is reported, then the node is taken back; nothing told remains. */
    method Destroy() returns (bs: seq<Batch>)
      requires Keyed(values) && Told()
      modifies this
      ensures values == map[] && Reports(old(values), bs, map[])
      ensures told == old(told) + DetachStatuses(old(synced)) && Changes(Tally(0, 0), told) == Tally(0, 0)
    {
      hide Changes, Keyed, Reports;
      bs := Clear();
      StatusesAddUp(Changes(Tally(0, 0), told), synced, synced);
      ChangesConcat(Tally(0, 0), told, DetachStatuses(synced));
      ghost var before := told;
      if synced {
        told := told + [Unsynced];
      }
      told := told + [Removed];
      assert told == before + DetachStatuses(synced);
    }
  }

  lemma {:induction false} OldestUnique(m: CacheMap, j: nat, k: nat)
    requires IsOldest(m, j) && IsOldest(m, k)
    ensures j == k
  {
  }
}
