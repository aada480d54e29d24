/**
 What the operations on the store do, told from what is found before and after:
 which values are taken, where they are found, what is refreshed, and what goes.
 */
module StoreOutcomes {
  import opened Prelude
  import opened Values
  import opened Storages
  import opened SecureTypes
  import opened DhtStores
  import opened SignedEdits

  // ----- one storage

  /** The entry holds the same object, or a value with the same id. */
  predicate Shares(e: Stored, v: Value) {
    e.data.ref == v.ref || e.data.id == v.id
  }

  ghost predicate FirstSharing(vs: seq<Stored>, v: Value, i: nat) {
    i < |vs| && Shares(vs[i], v) && forall j :: 0 <= j < i ==> !Shares(vs[j], v)
  }

  ghost predicate NoneShares(vs: seq<Stored>, v: Value) {
    forall j :: 0 <= j < |vs| ==> !Shares(vs[j], v)
  }

  lemma {:induction false} FirstSharingIs(vs: seq<Stored>, v: Value, i: nat)
    ensures FirstSharing(vs, v, i) <==> i == Find(vs, v) < |vs|
    ensures NoneShares(vs, v) <==> Find(vs, v) == |vs|
  {
  }

  /** A change is made if and only if the first entry that shares id or object is another object, or none does and there is room. */
  lemma {:induction false} StoreChangesIff(s: Storage, v: Value, created: int, expiration: Deadline)
    ensures Store(s, v, created, expiration).1 <==>
            (exists i: nat :: FirstSharing(s.values, v, i) && s.values[i].data.ref != v.ref)
            || (NoneShares(s.values, v) && |s.values| < 1024)
  {
    FirstSharingIs(s.values, v, Find(s.values, v));
    forall i: nat | FirstSharing(s.values, v, i)
      ensures i == Find(s.values, v)
    {
      FirstSharingIs(s.values, v, i);
    }
  }

  /** Which entry that is, and what becomes of it. */
  lemma {:induction false} StoreWrites(s: Storage, v: Value, created: int, expiration: Deadline)
    ensures var (s', changed, d) := Store(s, v, created, expiration);
            && s'.remote == s.remote && s'.local == s.local
            && (forall i: nat | FirstSharing(s.values, v, i) ::
                  s'.values == s.values[i := if s.values[i].data.ref != v.ref then Stored(v, created, expiration)
                                             else s.values[i].(created := created)])
            && (NoneShares(s.values, v) ==>
                  s'.values == if |s.values| < 1024 then s.values + [Stored(v, created, expiration)] else s.values)
  {
    forall i: nat | FirstSharing(s.values, v, i)
      ensures i == Find(s.values, v)
    {
      FirstSharingIs(s.values, v, i);
    }
    FirstSharingIs(s.values, v, Find(s.values, v));
  }

  function EntryById(vs: seq<Stored>, id: nat): (r: Option<Stored>) {
    var i := FindId(vs, id);
    if i < |vs| then Some(vs[i]) else None
  }

  /** A stored value is found with its times. */
  lemma {:induction false} StoredEntry(s: Storage, v: Value, created: int, expiration: Deadline)
    requires Store(s, v, created, expiration).1
    ensures EntryById(Store(s, v, created, expiration).0.values, v.id) == Some(Stored(v, created, expiration))
  {
    var s' := Store(s, v, created, expiration).0;
    var i := Find(s.values, v);
    assert s'.values[i] == Stored(v, created, expiration);
    assert forall j :: 0 <= j < i ==> s'.values[j] == s.values[j];
  }

  /** Refreshing sets the creation of the entry with the id and extends its expiration; it shortens none and changes no other. */
  lemma {:induction false} RefreshExtends(s: Storage, id: nat, now: int, life: nat -> int, other: nat)
    ensures var e, e' := EntryById(s.values, other), EntryById(Refresh(s, id, now, life).values, other);
            if other != id || e.None? then e' == e
            else
              && e'.Some? && e'.value.data == e.value.data && e'.value.created == now
              && (e.value.expiration.Never? ==> e'.value.expiration.Never?)
              && (e.value.expiration.At? ==>
                    e'.value.expiration == At(Later(e.value.expiration.time, now + life(e.value.data.vtype))))
  {
    var s' := Refresh(s, id, now, life);
    assert forall j :: 0 <= j < |s.values| ==> s'.values[j].data == s.values[j].data;
    assert FindId(s'.values, other) == FindId(s.values, other);
  }

  function Later(a: int, b: int): int {
    if a >= b then a else b
  }

  lemma {:induction false} ClearEmpties(s: Storage, id: nat)
    ensures var (s', d) := Clear(s);
            ById(s'.values, id).None? && s'.total == 0 && d == Diff(-s.total, -|s.values|) && s'.remote == s.remote && s'.local == s.local
  {
  }

  /** After expiry an entry is found exactly if it was and has not expired, a listener exactly if it was heard of in the last ten minutes. */
  lemma {:induction false} ExpireLeaves(s: Storage, now: int, id: nat, l: (nat, nat))
    requires DistinctIds(s.values)
    ensures var s' := Expire(s, now).0;
            && ById(s'.values, id) == (var e := EntryById(s.values, id);
                                       if e.Some? && (e.value.expiration.Never? || e.value.expiration.time > now) then Some(e.value.data) else None)
            && (l in s'.remote <==> l in s.remote && s.remote[l] + 600 >= now)
            && (l in s'.remote ==> s'.remote[l] == s.remote[l]) && s'.local == s.local
  {
    ExpireFinds(s, now, id);
  }

  // ----- storing at the node

  predicate StillGood(c: Config, v: Value, at: int, permanent: bool, now: int) {
    permanent || at + GetType(c.types, v.vtype).life >= now
  }

  /** The answer of storing: not expired already, a storage or room for one, and a change there. */
  lemma {:induction false} StoreAtAnswers(d: Dht, c: Config, env: Env, h: Hash, v: Value, created: int, permanent: bool)
    ensures var at := Least(created, env.now);
            var exp := if permanent then Never else At(at + GetType(c.types, v.vtype).life);
            StoreAt(d, c, env, h, v, created, permanent).1 <==>
            && StillGood(c, v, at, permanent, env.now)
            && (h in d.store || |d.store| < c.maxKeys)
            && Store(StorageAt(d.store, h), v, at, exp).1
  {
  }

  function EntryAt(d: Dht, h: Hash, id: nat): (r: Option<Stored>) {
    EntryById(StorageAt(d.store, h).values, id)
  }

  /** A value that is stored within the size limit is found, with its creation and expiration; nothing else is changed. */
  lemma {:induction false} StoreAtFound(d: Dht, c: Config, env: Env, h: Hash, v: Value, created: int, permanent: bool, h0: Hash, id0: nat)
    requires StoreAt(d, c, env, h, v, created, permanent).1
    ensures var at := Least(created, env.now);
            var exp := if permanent then Never else At(at + GetType(c.types, v.vtype).life);
            var df := Store(StorageAt(d.store, h), v, at, exp).2;
            var d' := StoreAt(d, c, env, h, v, created, permanent).0;
            d.totalSize + df.size <= c.maxSize ==>
              && EntryAt(d', h, v.id) == Some(Stored(v, at, exp)) && Lookup(d', h, v.id) == Some(v)
              && ((h0, id0) != (h, v.id) ==> Lookup(d', h0, id0) == Lookup(d, h0, id0))
  {
    hide Store, ExpireAll;
    var at := Least(created, env.now);
    var exp := Expiration(c, v, at, permanent);
    StoredEntry(StorageAt(d.store, h), v, at, exp);
    StoreFinds(StorageAt(d.store, h), v, at, exp, v.id);
    StoreFinds(StorageAt(d.store, h), v, at, exp, id0);
  }

  /** A new value, with the id unknown and its object nowhere in a storage that has room, is stored. */
  lemma {:induction false} NewValueIsStored(d: Dht, c: Config, env: Env, h: Hash, v: Value, created: int, permanent: bool)
    requires StillGood(c, v, Least(created, env.now), permanent, env.now) && (h in d.store || |d.store| < c.maxKeys)
    requires NoneShares(StorageAt(d.store, h).values, v) && |StorageAt(d.store, h).values| < 1024
    requires d.totalSize + ByteSize(v) <= c.maxSize
    ensures Lookup(StoreAt(d, c, env, h, v, created, permanent).0, h, v.id) == Some(v)
  {
    hide ExpireAll;
    var at := Least(created, env.now);
    var exp := Expiration(c, v, at, permanent);
    StoreChangesIff(StorageAt(d.store, h), v, at, exp);
    StoreAtAnswers(d, c, env, h, v, created, permanent);
    FirstSharingIs(StorageAt(d.store, h).values, v, 0);
    assert Store(StorageAt(d.store, h), v, at, exp).2 == Diff(ByteSize(v), 1);
    StoreAtFound(d, c, env, h, v, created, permanent, h, v.id);
  }

  // ----- removing

  lemma {:induction false} EraseExact(d: Dht, h: Hash, id: nat, h0: Hash, id0: nat)
    requires Balanced(d)
    ensures Lookup(Erase(d, h, id), h0, id0) == if (h0, id0) == (h, id) then None else Lookup(d, h0, id0)
  {
    hide MapSum;
    if h in d.store {
      assert Accounted(d.store[h]);
      RemoveFinds(d.store[h], id, id0);
    }
  }

  lemma {:induction false} DiscardExact(d: Dht, h: Hash, h0: Hash, id0: nat)
    ensures Lookup(Discard(d, h), h0, id0) == if h0 == h then None else Lookup(d, h0, id0)
  {
  }

  function EraseAll(d: Dht, picks: seq<(Hash, nat)>): (r: Dht)
    decreases |picks|
  {
    if picks == [] then d else EraseAll(Erase(d, picks[0].0, picks[0].1), picks[1..])
  }

  /** Eviction erases picks one after the other until the size fits, and no further. */
  lemma {:induction false} EvictStops(d: Dht, maxSize: int, picks: seq<(Hash, nat)>) returns (k: nat)
    ensures k <= |picks| && Evict(d, maxSize, picks) == EraseAll(d, picks[..k])
    ensures forall j :: 0 <= j < k ==> EraseAll(d, picks[..j]).totalSize > maxSize
    ensures k == |picks| || Evict(d, maxSize, picks).totalSize <= maxSize
    decreases |picks|
  {
    hide Erase;
    if picks == [] || d.totalSize <= maxSize {
      k := 0;
    } else {
      var d1 := Erase(d, picks[0].0, picks[0].1);
      var j := EvictStops(d1, maxSize, picks[1..]);
      k := j + 1;
      assert picks[..k][1..] == picks[1..][..j];
      forall i | 0 <= i < k
        ensures EraseAll(d, picks[..i]).totalSize > maxSize
      {
        if i > 0 {
          assert picks[..i][0] == picks[0] && picks[..i][1..] == picks[1..][..i - 1];
        }
      }
    }
  }

  predicate Unused(s: Storage) {
    s.values == [] && s.remote == map[] && s.local == 0
  }

  lemma {:induction false} UnexpiredTwice(vs: seq<Stored>, now: int)
    ensures Unexpired(Unexpired(vs, now), now) == Unexpired(vs, now)
    decreases |vs|
  {
    if vs != [] {
      var rest := Unexpired(vs[1..], now);
      UnexpiredTwice(vs[1..], now);
      assert ([vs[0]] + rest)[1..] == rest && [] + rest == rest;
    }
  }

  lemma {:induction false} ExpireTwice(s: Storage, now: int)
    ensures Expire(Expire(s, now).0, now).0 == Expire(s, now).0
  {
    UnexpiredTwice(s.values, now);
    var r := LiveListeners(s.remote, now);
    assert LiveListeners(r, now) == r;
  }

  /** The storage of h after the sweep: expired if it was walked over, and gone if that leaves it unused. */
  ghost function SweptAt(m: StoreMap, h: Hash, now: int, walked: bool): Option<Storage> {
    if h !in m then None
    else if !walked then Some(m[h])
    else
      var s := Expire(m[h], now).0;
      if Unused(s) then None else Some(s)
  }

  lemma {:induction false} SweepExact(d: Dht, now: int, order: seq<Hash>, h: Hash)
    ensures SweptAt(d.store, h, now, h in order) == SweptAt(Sweep(d, now, order).store, h, now, false)
    decreases |order|
  {
    hide Expire, Unused;
    if order != [] {
      var d1 := DropIfUnused(ExpireAt(d, order[0], now), order[0]);
      DropsUnused(d, now, order[0], h);
      SweepExact(d1, now, order[1..], h);
      assert h in order <==> h == order[0] || h in order[1..];
    }
  }

  lemma {:induction false} DropsUnused(d: Dht, now: int, k: Hash, h: Hash)
    ensures var d1 := DropIfUnused(ExpireAt(d, k, now), k);
            && SweptAt(d1.store, h, now, false) == SweptAt(d.store, h, now, h == k)
            && SweptAt(d1.store, h, now, true) == SweptAt(d.store, h, now, true)
  {
    hide Expire;
    if k in d.store {
      ExpireTwice(d.store[k], now);
    }
  }

  /** After a sweep over all hashes, exactly the values that have not expired are found, and exactly the storages in use are there. */
  lemma {:induction false} SweepLeaves(d: Dht, now: int, order: seq<Hash>, h: Hash, id: nat)
    requires Balanced(d) && forall k :: k in d.store ==> k in order
    ensures var d' := Sweep(d, now, order);
            && Lookup(d', h, id) == (var e := EntryAt(d, h, id);
                                     if e.Some? && e.value.expiration.After(now) then Some(e.value.data) else None)
            && (h in d'.store <==> h in d.store && !Unused(Expire(d.store[h], now).0))
  {
    hide MapSum, Sweep, Expire;
    SweepExact(d, now, order, h);
    BalancedAccounted(d, h);
    ExpireFinds(StorageAt(d.store, h), now, id);
    if h in d.store {
      NothingInUnused(Expire(d.store[h], now).0, id);
    }
    NothingInUnused(EmptyStorage(), id);
  }

  lemma {:induction false} NothingInUnused(s: Storage, id: nat)
    ensures Unused(s) ==> ById(s.values, id).None? && EntryById(s.values, id).None?
  {
  }

  /** A remote listener is found with the current time, all others as before; values are untouched. */
  lemma {:induction false} WatchExact(d: Dht, c: Config, h: Hash, node: nat, socket: nat, now: int, h0: Hash, id: nat, l: (nat, nat))
    ensures var d' := Watch(d, c, h, map[(node, socket) := now], None);
            && Lookup(d', h0, id) == Lookup(d, h0, id)
            && (if h0 == h && l == (node, socket) && (h in d.store || |d.store| < c.maxKeys)
                then l in StorageAt(d'.store, h0).remote && StorageAt(d'.store, h0).remote[l] == now
                else (l in StorageAt(d'.store, h0).remote <==> l in StorageAt(d.store, h0).remote))
  {
  }

  // ----- announces

  /** A value equal to a stored one only refreshes that: its creation is now, its expiration not before now plus its life. */
  lemma {:induction false} AnnounceRefreshes(d: Dht, c: Config, env: Env, h: Hash, f: Flagged, from: nat, created: int)
    requires Lookup(d, h, f.value.id).Some? && SameValue(Lookup(d, h, f.value.id).value, f.value)
    ensures var d' := AnnounceOne(d, c, env, h, f, from, created);
            var e, e' := EntryAt(d, h, f.value.id), EntryAt(d', h, f.value.id);
            && e.Some? && e'.Some? && e'.value.data == e.value.data && e'.value.created == env.now
            && !e'.value.expiration.Before(env.now + GetType(c.types, e.value.data.vtype).life)
            && (forall h0, id0: nat :: Lookup(d', h0, id0) == Lookup(d, h0, id0))
  {
    hide SameValue, Refresh, ById;
    RefreshExtends(StorageAt(d.store, h), f.value.id, env.now, Life(c), f.value.id);
    forall h0, id0: nat
      ensures Lookup(RefreshAt(d, c, h, f.value.id, env.now), h0, id0) == Lookup(d, h0, id0)
    {
      RefreshAtFinds(d, c, h, f.value.id, env.now, h0, id0);
    }
    ByIdIsEntry(StorageAt(d.store, h).values, f.value.id);
    NothingStored(d, h, f.value.id);
  }

  lemma {:induction false} ByIdIsEntry(vs: seq<Stored>, id: nat)
    ensures ById(vs, id).Some? <==> EntryById(vs, id).Some?
    ensures ById(vs, id).Some? ==> EntryById(vs, id).value.data == ById(vs, id).value
  {
  }

  lemma {:induction false} NothingStored(d: Dht, h: Hash, id: nat)
    ensures h !in d.store ==> Lookup(d, h, id).None?
  {
  }

  /** A new value that its policy accepts is stored and found; one that it refuses changes nothing. */
  lemma {:induction false} AnnounceStores(d: Dht, c: Config, env: Env, h: Hash, f: Flagged, from: nat, created: int)
    requires Lookup(d, h, f.value.id).None?
    ensures var r := StoreOutcome(c, h, f, from);
            var d' := AnnounceOne(d, c, env, h, f, from, created);
            && (r.None? ==> d' == d)
            && (r.Some? && StillGood(c, r.value, Least(created, env.now), false, env.now) && (h in d.store || |d.store| < c.maxKeys)
                && NoneShares(StorageAt(d.store, h).values, r.value) && |StorageAt(d.store, h).values| < 1024
                && d.totalSize + ByteSize(r.value) <= c.maxSize
                ==> Lookup(d', h, r.value.id) == Some(r.value))
  {
    hide StoreAt, StoreDecision, Lookup;
    var r := StoreOutcome(c, h, f, from);
    if r.Some? && StillGood(c, r.value, Least(created, env.now), false, env.now) && (h in d.store || |d.store| < c.maxKeys)
       && NoneShares(StorageAt(d.store, h).values, r.value) && |StorageAt(d.store, h).values| < 1024
       && d.totalSize + ByteSize(r.value) <= c.maxSize {
      NewValueIsStored(d, c, env, h, r.value, created, false);
    }
  }

  /** An edit that the policy of the stored value accepts is stored in its place; one that it refuses changes nothing. */
  lemma {:induction false} AnnounceEdits(d: Dht, c: Config, env: Env, h: Hash, f: Flagged, from: nat, created: int)
    requires Lookup(d, h, f.value.id).Some? && !SameValue(Lookup(d, h, f.value.id).value, f.value)
    ensures var r := EditOutcome(c, h, Lookup(d, h, f.value.id).value, f, from);
            AnnounceOne(d, c, env, h, f, from, created) == if r.None? then d else StoreAt(d, c, env, h, r.value, created, false).0
  {
    hide StoreAt, EditDecision, Lookup, SameValue;
  }

  // ----- events

  lemma {:induction false} ExpireAtExact(d: Dht, h: Hash, now: int, h0: Hash, id0: nat)
    requires Balanced(d)
    ensures Lookup(ExpireAt(d, h, now), h0, id0) ==
            if h0 != h then Lookup(d, h0, id0)
            else
              var e := EntryAt(d, h, id0);
              if e.Some? && e.value.expiration.After(now) then Some(e.value.data) else None
  {
    hide MapSum, Expire;
    BalancedAccounted(d, h);
    ExpireFinds(StorageAt(d.store, h), now, id0);
  }

  /** A full expiry is a sweep, after which picks are erased until the size fits. */
  lemma {:induction false} ExpireAllStops(d: Dht, c: Config, env: Env) returns (k: nat)
    ensures k <= |env.picks| && ExpireAll(d, c, env) == EraseAll(Sweep(d, env.now, env.order), env.picks[..k])
    ensures k == |env.picks| || ExpireAll(d, c, env).totalSize <= c.maxSize
    ensures forall j :: 0 <= j < k ==> EraseAll(Sweep(d, env.now, env.order), env.picks[..j]).totalSize > c.maxSize
  {
    k := EvictStops(Sweep(d, env.now, env.order), c.maxSize, env.picks);
  }

  /** What each event of a run does to what is found, in any balanced store. */
  lemma {:induction false} EventOutcomes(d: Dht, c: Config, t: Timed, h: Hash, id: nat)
    requires Balanced(d)
    ensures var d' := Step(d, c, t);
            match t.event
            case Put(h1, v, created, permanent) => d' == StoreAt(d, c, t.env, h1, v, created, permanent).0
            case Announce(h1, f, from, created) =>
              (Incoming(d, c, t.event).Some? ==> d' == StoreAt(d, c, t.env, h1, Incoming(d, c, t.event).value, created, false).0)
              && (Incoming(d, c, t.event).None? ==> Lookup(d', h, id) == Lookup(d, h, id))
            case EraseValue(h1, id1) => Lookup(d', h, id) == if (h, id) == (h1, id1) then None else Lookup(d, h, id)
            case ExpireStorage(h1) =>
              var e := EntryAt(d, h, id);
              Lookup(d', h, id) == if h == h1 && !(e.Some? && e.value.expiration.After(t.env.now)) then None else Lookup(d, h, id)
            case ExpireStores => d' == Evict(Sweep(d, t.env.now, t.env.order), c.maxSize, t.env.picks)
            case DiscardValues(h1) => Lookup(d', h, id) == if h == h1 then None else Lookup(d, h, id)
            case RefreshValue(h1, id1) =>
              && Lookup(d', h, id) == Lookup(d, h, id)
              && (h == h1 && id == id1 && EntryAt(d', h, id).Some? ==> EntryAt(d', h, id).value.created == t.env.now)
            case AddListener(h1, node, socket) =>
              && Lookup(d', h, id) == Lookup(d, h, id)
              && (h == h1 && (h in d.store || |d.store| < c.maxKeys) ==> h in d'.store && (node, socket) in d'.store[h].remote)
            case SetLocals(h1, n) =>
              && Lookup(d', h, id) == Lookup(d, h, id)
              && (h == h1 && (h in d.store || |d.store| < c.maxKeys) ==> h in d'.store && d'.store[h].local == n)
  {
    hide Balanced, StoreAt, Erase, ExpireAt, Sweep, Evict, ById, EditDecision, StoreDecision, SameValue, Refresh, EntryById;
    match t.event
    case Put(h1, v, created, permanent) =>
    case Announce(h1, f, from, created) => RefreshAtFinds(d, c, h1, f.value.id, t.env.now, h, id);
    case EraseValue(h1, id1) => EraseExact(d, h1, id1, h, id);
    case ExpireStorage(h1) =>
      ExpireAtExact(d, h1, t.env.now, h, id);
      ByIdIsEntry(StorageAt(d.store, h).values, id);
    case ExpireStores =>
    case DiscardValues(h1) => DiscardExact(d, h1, h, id);
    case RefreshValue(h1, id1) =>
      RefreshAtFinds(d, c, h1, id1, t.env.now, h, id);
      RefreshExtends(StorageAt(d.store, h1), id1, t.env.now, Life(c), id1);
      NothingInUnused(EmptyStorage(), id);
    case AddListener(h1, node, socket) =>
    case SetLocals(h1, n) =>
  }
}
