/**
 The store as the node keeps it: a map of storage objects and two counters,
 updated in place. Every method is tied to its function on store contents.
 */
module DhtObject {
  import opened Prelude
  import opened Values
  import opened Storages
  import opened SecureTypes
  import opened DhtStores

  /** The announced values before the first that has no valid id, each as one event. */
  function AnnounceEvents(h: Hash, arrivals: seq<(Flagged, Env)>, from: nat, created: int): (ts: seq<Timed>)
    decreases |arrivals|
  {
    if arrivals == [] || arrivals[0].0.value.id == INVALID_ID then []
    else
      [Timed(arrivals[0].1, Announce(h, arrivals[0].0, from, created))] +
      AnnounceEvents(h, arrivals[1..], from, created)
  }

  /** One event for each value before the first that has no valid id, in order. */
  lemma {:induction false} AnnounceEventsAre(h: Hash, arrivals: seq<(Flagged, Env)>, from: nat, created: int, k: nat)
    ensures var ts := AnnounceEvents(h, arrivals, from, created);
            && (k < |ts| <==> k < |arrivals| && forall i :: 0 <= i <= k ==> arrivals[i].0.value.id != INVALID_ID)
            && (k < |ts| ==> ts[k] == Timed(arrivals[k].1, Announce(h, arrivals[k].0, from, created)))
    decreases |arrivals|
  {
    if arrivals != [] && arrivals[0].0.value.id != INVALID_ID {
      AnnounceEventsAre(h, arrivals[1..], from, created, if k > 0 then k - 1 else 0);
      assert forall i :: 1 <= i < |arrivals| ==> arrivals[i] == arrivals[1..][i - 1];
      if k > 0 && k < |arrivals| && (forall i :: 0 <= i <= k - 1 ==> arrivals[1..][i].0.value.id != INVALID_ID) {
        forall i | 0 <= i <= k
          ensures arrivals[i].0.value.id != INVALID_ID
        {
          if i > 0 {
            assert arrivals[1..][i - 1].0.value.id != INVALID_ID;
          }
        }
      }
    }
  }

  lemma {:induction false} StoreReports(s: Storage, v: Value, at: int, exp: Deadline)
    ensures var (_, changed, df) := Store(s, v, at, exp); !changed ==> df == Diff(0, 0)
  {
  }

  lemma {:induction false} UpdatedFinds(d: Dht, h: Hash, s: Storage)
    ensures h in Updated(d, h, s, Diff(0, 0)).store && Updated(d, h, s, Diff(0, 0)).store[h] == s
  {
  }

  lemma {:induction false} UpdatedStore(d: Dht, h: Hash, s: Storage)
    ensures Updated(d, h, s, Diff(0, 0)) == d.(store := d.store[h := s])
  {
  }

  lemma {:induction false} UpdatedTwice(d: Dht, h: Hash, s: Storage, s': Storage, df: Diff)
    ensures Updated(Updated(d, h, s, Diff(0, 0)), h, s', df) == Updated(d, h, s', df)
  {
    assert d.store[h := s][h := s'] == d.store[h := s'];
  }

  class DhtNode {
    const c: Config
    var store: map<Hash, StorageObject>
    var totalSize: int
    var totalValues: int

    /** No two hashes share a storage object. */
    ghost predicate Valid()
      reads this
    {
      forall h, k :: h in store && k in store && h != k ==> store[h] != store[k]
    }

    ghost function View(): (d: Dht)
      reads this, store.Values
      ensures d.totalSize == totalSize && d.store.Keys == store.Keys
    {
      Dht(map h | h in store :: store[h].State(), totalSize, totalValues)
    }

    constructor (config: Config)
      ensures Valid() && View() == Dht(map[], 0, 0) && c == config
    {
      c := config;
      store, totalSize, totalValues := map[], 0, 0;
    }

    method StorageErase(h: Hash, id: nat) returns (erased: bool)
      requires Valid()
      modifies this`totalSize, this`totalValues, store.Values
      ensures Valid() && View() == Erase(old(View()), h, id)
      ensures erased == Lookup(old(View()), h, id).Some?
    {
      if h !in store {
        return false;
      }
      var df := store[h].RemoveValue(id);
      totalSize := totalSize + df.size;
      totalValues := totalValues + df.count;
      assert View().store == old(View()).store[h := Remove(old(View()).store[h], id).0];
      return df.count != 0;
    }

    method ExpireStorageAt(h: Hash, now: int)
      requires Valid()
      modifies this`totalSize, this`totalValues, store.Values
      ensures Valid() && View() == ExpireAt(old(View()), h, now)
    {
      if h in store {
        var df, gone := store[h].ExpireValues(now);
        totalSize := totalSize + df.size;
        totalValues := totalValues - |gone|;
        assert View().store == old(View()).store[h := Expire(old(View()).store[h], now).0];
      }
    }

    method ClearStorage(h: Hash)
      requires Valid()
      modifies this`totalSize, this`totalValues, store.Values
      ensures Valid() && View() == Discard(old(View()), h)
    {
      if h in store {
        var df := store[h].ClearValues();
        totalSize := totalSize + df.size;
        totalValues := totalValues + df.count;
        assert View().store == old(View()).store[h := Clear(old(View()).store[h]).0];
      }
    }

    method StorageRefresh(h: Hash, id: nat, now: int) returns (found: bool)
      requires Valid()
      modifies store.Values
      ensures Valid() && View() == RefreshAt(old(View()), c, h, id, now)
      ensures found == (h in store)
    {
      if h !in store {
        return false;
      }
      store[h].RefreshValue(id, now, Life(c));
      assert View().store == old(View()).store[h := Refresh(old(View()).store[h], id, now, Life(c))];
      return true;
    }

    /** One storage of the sweep; it is dropped when it is no longer used. */
    method SweepStorage(h: Hash, now: int)
      requires Valid()
      modifies this, store.Values
      ensures Valid() && View() == DropIfUnused(ExpireAt(old(View()), h, now), h)
      ensures store.Values <= old(store.Values)
    {
      hide ExpireAt;
      ExpireStorageAt(h, now);
      ghost var d := View();
      if h in store && |store[h].values| == 0 && store[h].remote == map[] && store[h].local == 0 {
        store := store - {h};
        assert View().store == d.store - {h};
      }
    }

    method SweepStorages(now: int, order: seq<Hash>)
      requires Valid()
      modifies this, store.Values
      ensures Valid() && View() == Sweep(old(View()), now, order)
      ensures store.Values <= old(store.Values)
    {
      hide Valid, View, ExpireAt, DropIfUnused;
      assert order[0..] == order;
      for i := 0 to |order|
        invariant Valid() && store.Values <= old(store.Values)
        invariant Sweep(View(), now, order[i..]) == Sweep(old(View()), now, order)
      {
        assert order[i..][0] == order[i] && order[i..][1..] == order[i + 1..];
        SweepStorage(order[i], now);
      }
    }

    /** `picks` are the values the quota ledger names, largest consumer first. */
    method EvictValues(picks: seq<(Hash, nat)>)
      requires Valid()
      modifies this`totalSize, this`totalValues, store.Values
      ensures Valid() && View() == Evict(old(View()), c.maxSize, picks)
    {
      var i := 0;
      assert picks[0..] == picks;
      while totalSize > c.maxSize && i < |picks|
        invariant i <= |picks| && Valid()
        invariant Evict(View(), c.maxSize, picks[i..]) == Evict(old(View()), c.maxSize, picks)
      {
        assert picks[i..][0] == picks[i] && picks[i..][1..] == picks[i + 1..];
        var _ := StorageErase(picks[i].0, picks[i].1);
        i := i + 1;
      }
    }

    /** The storage of h, made if there is room for one more. */
    method EnsureStorage(h: Hash) returns (ok: bool)
      requires Valid()
      modifies this`store
      ensures Valid() && fresh(store.Values - old(store.Values))
      ensures ok == (h in old(View()).store || |old(View()).store| < c.maxKeys) && (ok ==> h in store)
      ensures View() == if ok then Updated(old(View()), h, StorageAt(old(View()).store, h), Diff(0, 0)) else old(View())
    {
      ghost var d := View();
      assert d.store.Keys == store.Keys;
      assert |d.store| == |d.store.Keys| && |store| == |store.Keys|;
      if h !in store {
        if |store| >= c.maxKeys {
          return false;
        }
        var empty := new StorageObject();
        store := store[h := empty];
      }
      assert View().store == d.store[h := StorageAt(d.store, h)];
      return true;
    }

    method StoreInto(h: Hash, v: Value, at: int, exp: Deadline) returns (changed: bool)
      requires Valid() && h in store
      modifies this`totalSize, this`totalValues, store.Values
      ensures Valid()
      ensures var (s, ch, df) := Store(old(View()).store[h], v, at, exp);
              changed == ch && View() == Updated(old(View()), h, s, df)
    {
      hide Store;
      ghost var d := View();
      var df;
      changed, df := store[h].StoreValue(v, at, exp);
      StoreReports(d.store[h], v, at, exp);
      if changed {
        totalSize := totalSize + df.size;
        totalValues := totalValues + df.count;
      }
      assert View().store == d.store[h := Store(d.store[h], v, at, exp).0];
    }

    method ExpireStores(env: Env)
      requires Valid()
      modifies this, store.Values
      ensures Valid() && View() == ExpireAll(old(View()), c, env)
      ensures store.Values <= old(store.Values)
    {
      hide Valid, View, Sweep, Evict;
      SweepStorages(env.now, env.order);
      EvictValues(env.picks);
    }

    /** Finds or makes the storage and stores into it; ok tells whether there was one. */
    method StoreOrMake(h: Hash, v: Value, at: int, exp: Deadline) returns (ok: bool, changed: bool)
      requires Valid()
      modifies this, store.Values
      ensures Valid() && fresh(store.Values - old(store.Values))
      ensures ok == (h in old(View()).store || |old(View()).store| < c.maxKeys) && (!ok ==> !changed)
      ensures var (s, ch, df) := Store(StorageAt(old(View()).store, h), v, at, exp);
              (ok ==> changed == ch) && View() == if ok then Updated(old(View()), h, s, df) else old(View())
    {
      hide Valid, View, Store, Updated, StorageAt;
      ghost var d := View();
      UpdatedFinds(d, h, StorageAt(d.store, h));
      ok := EnsureStorage(h);
      if !ok {
        return false, false;
      }
      changed := StoreInto(h, v, at, exp);
      ghost var (s, ch, df) := Store(StorageAt(d.store, h), v, at, exp);
      UpdatedTwice(d, h, StorageAt(d.store, h), s, df);
    }

    method StorageStore(env: Env, h: Hash, v: Value, created: int, permanent: bool) returns (changed: bool)
      requires Valid()
      modifies this, store.Values
      ensures Valid() && (View(), changed) == StoreAt(old(View()), c, env, h, v, created, permanent)
      ensures fresh(store.Values - old(store.Values))
    {
      hide Valid, View, Store, ExpireAll;
      var at := Least(created, env.now);
      var exp := Expiration(c, v, at, permanent);
      if exp.Before(env.now) {
        return false;
      }
      var ok;
      ok, changed := StoreOrMake(h, v, at, exp);
      if changed && totalSize > c.maxSize {
        ExpireStores(env);
      }
    }

    method ListenAt(h: Hash, node: nat, socket: nat, now: int)
      requires Valid() && h in store
      modifies store.Values
      ensures Valid()
      ensures var s := old(View()).store[h];
              View() == Updated(old(View()), h, s.(remote := s.remote + map[(node, socket) := now]), Diff(0, 0))
    {
      ghost var d := View();
      store[h].AddListener(node, socket, now);
      ghost var s := d.store[h];
      assert s.remote[(node, socket) := now] == s.remote + map[(node, socket) := now];
      assert View().store == d.store[h := s.(remote := s.remote + map[(node, socket) := now])];
    }

    method StorageAddListener(h: Hash, node: nat, socket: nat, now: int)
      requires Valid()
      modifies this, store.Values
      ensures Valid() && View() == Watch(old(View()), c, h, map[(node, socket) := now], None)
      ensures fresh(store.Values - old(store.Values))
    {
      hide Valid, View, Updated, StorageAt;
      ghost var d := View();
      ghost var s := StorageAt(d.store, h);
      UpdatedFinds(d, h, s);
      UpdatedTwice(d, h, s, s.(remote := s.remote + map[(node, socket) := now]), Diff(0, 0));
      UpdatedStore(d, h, s.(remote := s.remote + map[(node, socket) := now]));
      var ok := EnsureStorage(h);
      if ok {
        ListenAt(h, node, socket, now);
      }
    }

    /** Only reads: the stored value with this id. */
    method GetLocalById(h: Hash, id: nat) returns (r: Option<Value>)
      ensures r == Lookup(View(), h, id)
    {
      if h !in store {
        return None;
      }
      var i := store[h].IndexOf(id);
      if i < |store[h].values| {
        return Some(store[h].values[i].data);
      }
      return None;
    }

    method AnnounceValue(env: Env, h: Hash, f: Flagged, from: nat, created: int)
      requires Valid()
      modifies this, store.Values
      ensures Valid() && View() == AnnounceOne(old(View()), c, env, h, f, from, created)
      ensures fresh(store.Values - old(store.Values))
    {
      hide Valid, View, Lookup, SameValue, EditDecision, StoreDecision, StoreAt, RefreshAt;
      var lv := GetLocalById(h, f.value.id);
      match lv
      case Some(o) =>
        if SameValue(o, f.value) {
          var _ := StorageRefresh(h, f.value.id, env.now);
        } else {
          var r := EditDecision(GetType(c.types, o.vtype), c.verify, h, o, f, from).1;
          if r.Some? {
            var _ := StorageStore(env, h, r.value, created, false);
          }
        }
      case None =>
        var r := StoreDecision(GetType(c.types, f.value.vtype), c.verify, h, f, from).1;
        if r.Some? {
          var _ := StorageStore(env, h, r.value, created, false);
        }
    }

    /** The loop of `Dht::onAnnounce`; an invalid id ends it with an error, keeping what was stored before it. */
    method OnAnnounce(h: Hash, arrivals: seq<(Flagged, Env)>, from: nat, created: int) returns (ok: bool)
      requires Valid()
      modifies this, store.Values
      ensures Valid() && View() == Run(old(View()), c, AnnounceEvents(h, arrivals, from, created))
      ensures ok <==> forall i :: 0 <= i < |arrivals| ==> arrivals[i].0.value.id != INVALID_ID
      ensures fresh(store.Values - old(store.Values))
    {
      hide Valid, View, AnnounceOne;
      assert arrivals[0..] == arrivals;
      for i := 0 to |arrivals|
        invariant Valid() && fresh(store.Values - old(store.Values))
        invariant Run(View(), c, AnnounceEvents(h, arrivals[i..], from, created)) ==
                  Run(old(View()), c, AnnounceEvents(h, arrivals, from, created))
        invariant forall j :: 0 <= j < i ==> arrivals[j].0.value.id != INVALID_ID
      {
        var (f, env) := arrivals[i];
        assert arrivals[i..][0] == (f, env) && arrivals[i..][1..] == arrivals[i + 1..];
        if f.value.id == INVALID_ID {
          return false;
        }
        ghost var rest := AnnounceEvents(h, arrivals[i + 1..], from, created);
        ghost var here := Timed(env, Announce(h, f, from, created));
        assert ([here] + rest)[0] == here && ([here] + rest)[1..] == rest;
        AnnounceValue(env, h, f, from, created);
      }
      return true;
    }
  }
}
