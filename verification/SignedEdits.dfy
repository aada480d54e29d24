/**
 What remote peers can do to a stored signed value: as long as its id stays
 stored, it keeps its owner, its sequence number never goes back, and its signed
 content changes only together with a larger sequence number.
 */
module SignedEdits {
  import opened Prelude
  import opened Values
  import opened Storages
  import opened SecureTypes
  import opened DhtStores

  // ----- what an operation leaves to be found

  ghost predicate SameOrGone(d: Dht, d': Dht, h: Hash, id: nat) {
    Lookup(d', h, id).None? || Lookup(d', h, id) == Lookup(d, h, id)
  }

  predicate OtherObject(o: Option<Value>, v: Value) {
    o.Some? ==> o.value.ref != v.ref
  }

  lemma {:induction false} EraseFinds(d: Dht, h: Hash, id: nat, h0: Hash, id0: nat)
    requires Balanced(d)
    ensures SameOrGone(d, Erase(d, h, id), h0, id0)
  {
    hide MapSum;
    if h in d.store {
      assert Accounted(d.store[h]);
      RemoveFinds(d.store[h], id, id0);
    }
  }

  lemma {:induction false} ExpireAtFinds(d: Dht, h: Hash, now: int, h0: Hash, id0: nat)
    requires Balanced(d)
    ensures SameOrGone(d, ExpireAt(d, h, now), h0, id0)
  {
    hide MapSum;
    if h in d.store {
      assert Accounted(d.store[h]);
      ExpireFinds(d.store[h], now, id0);
    }
  }

  lemma {:induction false} SweepFinds(d: Dht, now: int, order: seq<Hash>, h0: Hash, id0: nat)
    requires Balanced(d)
    ensures SameOrGone(d, Sweep(d, now, order), h0, id0)
    decreases |order|
  {
    hide Balanced, ExpireAt;
    if order != [] {
      var h := order[0];
      ExpireAtFinds(d, h, now, h0, id0);
      ExpireAtKeeps(d, h, now);
      DropKeeps(ExpireAt(d, h, now), h);
      SweepFinds(DropIfUnused(ExpireAt(d, h, now), h), now, order[1..], h0, id0);
    }
  }

  lemma {:induction false} EvictFinds(d: Dht, maxSize: int, picks: seq<(Hash, nat)>, h0: Hash, id0: nat)
    requires Balanced(d)
    ensures SameOrGone(d, Evict(d, maxSize, picks), h0, id0)
    decreases |picks|
  {
    hide Balanced, Erase;
    if picks != [] && d.totalSize > maxSize {
      EraseFinds(d, picks[0].0, picks[0].1, h0, id0);
      EraseKeeps(d, picks[0].0, picks[0].1);
      EvictFinds(Erase(d, picks[0].0, picks[0].1), maxSize, picks[1..], h0, id0);
    }
  }

  lemma {:induction false} ExpireAllFinds(d: Dht, c: Config, env: Env, h0: Hash, id0: nat)
    requires Balanced(d)
    ensures SameOrGone(d, ExpireAll(d, c, env), h0, id0)
  {
    hide Balanced, Lookup;
    SweepKeeps(d, env.now, env.order);
    SweepFinds(d, env.now, env.order, h0, id0);
    EvictFinds(Sweep(d, env.now, env.order), c.maxSize, env.picks, h0, id0);
  }

  lemma {:induction false} StoreAtFinds(
    d: Dht, c: Config, env: Env, h: Hash, v: Value, created: int, permanent: bool, h0: Hash, id0: nat)
    requires Balanced(d)
    ensures var d' := StoreAt(d, c, env, h, v, created, permanent).0;
            SameOrGone(d, d', h0, id0) ||
            (h0 == h && id0 == v.id && Lookup(d', h0, id0) == Some(v) && OtherObject(Lookup(d, h0, id0), v))
  {
    hide Balanced, Store, ExpireAll, ById;
    var at := Least(created, env.now);
    var exp := Expiration(c, v, at, permanent);
    var st := StorageAt(d.store, h);
    var (s, changed, df) := Store(st, v, at, exp);
    StoreFinds(st, v, at, exp, id0);
    assert Balanced(Updated(d, h, s, df)) by {
      BalancedAccounted(d, h);
      StoreKeeps(st, v, at, exp);
      UpdatedKeeps(d, h, s, df);
    }
    ExpireAllFinds(Updated(d, h, s, df), c, env, h0, id0);
  }

  lemma {:induction false} BalancedAccounted(d: Dht, h: Hash)
    requires Balanced(d)
    ensures Accounted(StorageAt(d.store, h))
  {
    AccountedAt(d.store, h);
  }

  lemma {:induction false} RefreshAtFinds(d: Dht, c: Config, h: Hash, id: nat, now: int, h0: Hash, id0: nat)
    ensures Lookup(RefreshAt(d, c, h, id, now), h0, id0) == Lookup(d, h0, id0)
  {
    if h in d.store {
      RefreshFinds(d.store[h], id, now, Life(c), id0);
    }
  }

  // ----- remote events

  /** The value an announce would put into the store. */
  function Incoming(d: Dht, c: Config, e: Event): (r: Option<Value>)
    requires e.Announce?
  {
    match Lookup(d, e.h, e.f.value.id)
    case Some(lv) =>
      if SameValue(lv, e.f.value) then None
      else EditDecision(GetType(c.types, lv.vtype), c.verify, e.h, lv, e.f, e.from).1
    case None => StoreDecision(GetType(c.types, e.f.value.vtype), c.verify, e.h, e.f, e.from).1
  }

  /** After any step but a local put, an id holds what it held, or nothing, or the incoming value. */
  lemma {:induction false} StepFinds(d: Dht, c: Config, t: Timed, h: Hash, id: nat)
    requires Balanced(d) && !t.event.Put?
    ensures var d' := Step(d, c, t);
            SameOrGone(d, d', h, id) ||
            (t.event.Announce? && h == t.event.h && Incoming(d, c, t.event) == Lookup(d', h, id) &&
             Lookup(d', h, id).value.id == id && OtherObject(Lookup(d, h, id), Lookup(d', h, id).value))
  {
    hide Balanced, StoreAt, Erase, ExpireAt, ExpireAll, RefreshAt, ById, EditDecision, StoreDecision, SameValue;
    match t.event
    case Announce(h1, f, from, created) =>
      RefreshAtFinds(d, c, h1, f.value.id, t.env.now, h, id);
      match Incoming(d, c, t.event) {
        case None =>
        case Some(n) => StoreAtFinds(d, c, t.env, h1, n, created, false, h, id);
      }
    case EraseValue(h1, id1) => EraseFinds(d, h1, id1, h, id);
    case ExpireStorage(h1) => ExpireAtFinds(d, h1, t.env.now, h, id);
    case ExpireStores => ExpireAllFinds(d, c, t.env, h, id);
    case DiscardValues(h1) => EmptyFindsNothing(id);
    case RefreshValue(h1, id1) => RefreshAtFinds(d, c, h1, id1, t.env.now, h, id);
    case AddListener(h1, node, socket) =>
    case SetLocals(h1, n) =>
  }

  lemma {:induction false} EmptyFindsNothing(id: nat)
    ensures ById([], id).None?
  {
  }

  // ----- what the policies must keep

  /** A set of value types. */
  type Scope = nat -> bool

  /** Not a local put; an announced value is in scope and carries no forged signature check. */
  ghost predicate Remote(c: Config, scope: Scope, e: Event) {
    && !e.Put?
    && (e.Announce? ==> scope(e.f.value.vtype) && Honest(e.f, c.verify))
  }

  function StoreOutcome(c: Config, h: Hash, f: Flagged, from: nat): Option<Value> {
    StoreDecision(GetType(c.types, f.value.vtype), c.verify, h, f, from).1
  }

  function EditOutcome(c: Config, h: Hash, o: Value, f: Flagged, from: nat): Option<Value> {
    EditDecision(GetType(c.types, o.vtype), c.verify, h, o, f, from).1
  }

  /** f, in scope, is announced under the id of a stored o of any type, and is not the same value. */
  ghost predicate IsEdit(c: Config, scope: Scope, o: Value, f: Flagged) {
    scope(f.value.vtype) && Honest(f, c.verify) && f.value.id == o.id && !SameValue(o, f.value)
  }

  /** A value accepted as new keeps its id. */
  ghost predicate StoreRight(c: Config, scope: Scope, h: Hash, f: Flagged, from: nat) {
    scope(f.value.vtype) && Honest(f, c.verify) ==>
      var r := StoreOutcome(c, h, f, from);
      r.Some? ==> r.value.id == f.value.id
  }

  /**
   An edit accepted keeps the id, and of a signed value in scope makes a rightful successor, unless it is
   the stored object itself.
   */
  ghost predicate EditRight(c: Config, scope: Scope, h: Hash, o: Value, f: Flagged, from: nat) {
    IsEdit(c, scope, o, f) ==>
      var r := EditOutcome(c, h, o, f, from);
      r.Some? ==> r.value.id == o.id && (scope(o.vtype) && IsSigned(o) && r.value.ref != o.ref ==> Succeeds(o, r.value))
  }

  ghost predicate Rightful(c: Config, scope: Scope) {
    && (forall h, f, from :: StoreRight(c, scope, h, f, from))
    && (forall h, o, f, from :: EditRight(c, scope, h, o, f, from))
  }

  lemma {:induction false} LookupHasId(d: Dht, h: Hash, id: nat)
    ensures Lookup(d, h, id).Some? ==> Lookup(d, h, id).value.id == id
  {
  }

  /** A signed value in scope is stored under the id. */
  ghost predicate Tracked(d: Dht, scope: Scope, h: Hash, id: nat) {
    Lookup(d, h, id).Some? && IsSigned(Lookup(d, h, id).value) && scope(Lookup(d, h, id).value.vtype)
  }

  /** What a step puts in the place of a value found before is the outcome of an edit of that value. */
  lemma {:induction false} StepEdits(d: Dht, c: Config, scope: Scope, t: Timed, h: Hash, id: nat)
    requires Balanced(d) && Rightful(c, scope) && Remote(c, scope, t.event) && Lookup(d, h, id).Some?
    ensures var o, r := Lookup(d, h, id).value, Lookup(Step(d, c, t), h, id);
            || r.None? || r == Some(o)
            || (t.event.Announce? && IsEdit(c, scope, o, t.event.f) && r.value.ref != o.ref &&
                r == EditOutcome(c, h, o, t.event.f, t.event.from))
  {
    hide Balanced, Step, Lookup, EditDecision, StoreDecision, SameValue, Succeeds;
    StepFinds(d, c, t, h, id);
    LookupHasId(d, h, id);
    if t.event.Announce? && h == t.event.h {
      var e := t.event;
      LookupHasId(d, h, e.f.value.id);
      match Lookup(d, h, e.f.value.id) {
        case Some(u) =>
          assert EditRight(c, scope, h, u, e.f, e.from);
          assert SameValue(u, e.f.value) || Incoming(d, c, e) == EditOutcome(c, h, u, e.f, e.from);
        case None =>
          assert StoreRight(c, scope, h, e.f, e.from);
          assert Incoming(d, c, e) == StoreOutcome(c, h, e.f, e.from);
      }
    }
  }

  /** One step of a remote peer leaves a signed value, removes it, or puts a rightful successor in its place. */
  lemma {:induction false} StepSucceeds(d: Dht, c: Config, scope: Scope, t: Timed, h: Hash, id: nat)
    requires Balanced(d) && Rightful(c, scope) && Remote(c, scope, t.event) && Tracked(d, scope, h, id)
    ensures var r := Lookup(Step(d, c, t), h, id); r.Some? ==> Succeeds(Lookup(d, h, id).value, r.value)
  {
    hide Balanced, Step, Lookup, EditDecision, IsEdit;
    StepEdits(d, c, scope, t, h, id);
    if t.event.Announce? {
      assert EditRight(c, scope, h, Lookup(d, h, id).value, t.event.f, t.event.from);
    }
  }

  /** The id is found in every state of the run, with a value in scope before each step. */
  ghost predicate StaysTracked(d: Dht, c: Config, scope: Scope, ts: seq<Timed>, h: Hash, id: nat)
    decreases |ts|
  {
    && Lookup(d, h, id).Some?
    && (ts != [] ==> scope(Lookup(d, h, id).value.vtype) && StaysTracked(Step(d, c, ts[0]), c, scope, ts[1..], h, id))
  }

  ghost predicate AllRemote(c: Config, scope: Scope, ts: seq<Timed>) {
    forall k :: 0 <= k < |ts| ==> Remote(c, scope, ts[k].event)
  }

  lemma {:induction false} RemoteRest(c: Config, scope: Scope, ts: seq<Timed>)
    requires AllRemote(c, scope, ts) && ts != []
    ensures Remote(c, scope, ts[0].event) && AllRemote(c, scope, ts[1..])
  {
    hide Remote;
    assert forall k :: 0 <= k < |ts[1..]| ==> ts[1..][k] == ts[k + 1];
  }

  /** The value at the end of the run succeeds the one at its start. */
  ghost predicate SucceedsAfter(d: Dht, c: Config, ts: seq<Timed>, h: Hash, id: nat) {
    && Lookup(d, h, id).Some? && Lookup(Run(d, c, ts), h, id).Some?
    && Succeeds(Lookup(d, h, id).value, Lookup(Run(d, c, ts), h, id).value)
  }

  lemma {:induction false} RunSucceeds(d: Dht, c: Config, scope: Scope, ts: seq<Timed>, h: Hash, id: nat)
    requires Rightful(c, scope) && Balanced(d) && AllRemote(c, scope, ts)
    requires StaysTracked(d, c, scope, ts, h, id) && IsSigned(Lookup(d, h, id).value)
    ensures SucceedsAfter(d, c, ts, h, id)
    decreases |ts|
  {
    hide Balanced, Rightful, AllRemote, Remote, Step, Lookup;
    if ts != [] {
      var d' := Step(d, c, ts[0]);
      RemoteRest(c, scope, ts);
      DhtStores.StepKeeps(d, c, ts[0]);
      StepSucceeds(d, c, scope, ts[0], h, id);
      RunSucceeds(d', c, scope, ts[1..], h, id);
      SucceedsTransitive(
        Lookup(d, h, id).value, Lookup(d', h, id).value, Lookup(Run(d', c, ts[1..]), h, id).value);
    }
  }

  // ----- the condition is exact

  ghost predicate KeptIn(c: Config, scope: Scope, d: Dht, ts: seq<Timed>, h: Hash, id: nat) {
    Balanced(d) && AllRemote(c, scope, ts) && StaysTracked(d, c, scope, ts, h, id) && IsSigned(Lookup(d, h, id).value) ==>
      SucceedsAfter(d, c, ts, h, id)
  }

  /** In every run of remote events a signed value is followed by rightful successors only, as long as its id stays stored and in scope. */
  ghost predicate KeepsSigned(c: Config, scope: Scope) {
    forall d, ts, h, id :: KeptIn(c, scope, d, ts, h, id)
  }

  function Sole(h: Hash, vs: seq<Stored>): Dht {
    Dht(map[h := Storage(vs, Sum(vs), map[], 0)], Sum(vs), |vs|)
  }

  function Kept(v: Value): Stored {
    Stored(v, 0, Never)
  }

  /** A signed value of the given type, with the id of r, that r does not succeed and that is not its object. */
  function Rival(r: Value, vtype: nat): (o: Value)
    ensures IsSigned(o) && o.id == r.id && o.ref != r.ref && o.vtype == vtype && !Succeeds(o, r)
  {
    var key := KeyPtr(if r.owner.Some? then r.owner.value.ref + 1 else 0, 1);
    Value(r.ref + 1, r.id, Some(key), 0, vtype, [], [], 0, [1], [])
  }

  lemma {:induction false} SoleBalanced(h: Hash, vs: seq<Stored>)
    requires DistinctIds(vs) && |vs| <= Storages.MAX_VALUES
    ensures Balanced(Sole(h, vs))
  {
    var m := Sole(h, vs).store;
    MapSumAt(m, Bytes, h);
    MapSumAt(m, Count, h);
    assert m - {h} == map[];
  }

  /** With time to live and nothing swept or picked, a value that finds a place is found afterwards. */
  lemma {:induction false} StoredThere(d: Dht, c: Config, h: Hash, r: Value)
    requires h in d.store && GetType(c.types, r.vtype).life >= 0 && Store(d.store[h], r, 0, Expiration(c, r, 0, false)).1
    ensures Lookup(StoreAt(d, c, Env(0, [], []), h, r, 0, false).0, h, r.id) == Some(r)
  {
    hide ById, Store;
    StoreFinds(d.store[h], r, 0, Expiration(c, r, 0, false), r.id);
  }

  ghost predicate Lasting(c: Config) {
    forall t :: t in c.types ==> c.types[t].life >= 0
  }

  /** An announce that puts r in the place of a signed o in scope that it does not succeed. */
  lemma {:induction false} WrongAnnounce(c: Config, scope: Scope, h: Hash, vs: seq<Stored>, f: Flagged, from: nat, r: Value, o: Value)
    requires Lasting(c) && DistinctIds(vs) && |vs| <= 2
    requires var d := Sole(h, vs);
             var e := Announce(h, f, from, 0);
             && Remote(c, scope, e) && Incoming(d, c, e) == Some(r)
             && Lookup(d, h, r.id) == Some(o) && IsSigned(o) && scope(o.vtype) && !Succeeds(o, r)
             && Store(d.store[h], r, 0, Expiration(c, r, 0, false)).1
    ensures !KeepsSigned(c, scope)
  {
    hide Balanced, StoreAt, EditDecision, StoreDecision, SameValue, Lookup, Store;
    var d, e := Sole(h, vs), Announce(h, f, from, 0);
    var t := Timed(Env(0, [], []), e);
    SoleBalanced(h, vs);
    StoredThere(d, c, h, r);
    assert Step(d, c, t) == StoreAt(d, c, t.env, h, r, 0, false).0;
    assert [t][1..] == [] && Run(d, c, [t]) == Step(d, c, t);
    assert StaysTracked(Step(d, c, t), c, scope, [], h, r.id);
    assert StaysTracked(d, c, scope, [t], h, r.id);
    assert !KeptIn(c, scope, d, [t], h, r.id);
  }

  lemma {:induction false} WrongStoreShows(c: Config, scope: Scope, h: Hash, f: Flagged, from: nat)
    requires Lasting(c) && !StoreRight(c, scope, h, f, from)
    ensures !KeepsSigned(c, scope)
  {
    hide EditDecision, StoreDecision, SameValue;
    var r := StoreOutcome(c, h, f, from).value;
    var o := Rival(r, f.value.vtype);
    var vs := [Kept(o)];
    assert vs[0].data == o;
    WrongAnnounce(c, scope, h, vs, f, from, r, o);
  }

  lemma {:induction false} WrongEditShows(c: Config, scope: Scope, h: Hash, o: Value, f: Flagged, from: nat)
    requires Lasting(c) && !EditRight(c, scope, h, o, f, from)
    ensures !KeepsSigned(c, scope)
  {
    hide EditDecision, StoreDecision, SameValue;
    var r := EditOutcome(c, h, o, f, from).value;
    if r.id != o.id {
      var rival := Rival(r, f.value.vtype);
      var vs := [Kept(rival), Kept(o)];
      assert vs[0].data == rival && vs[1].data == o;
      WrongAnnounce(c, scope, h, vs, f, from, r, rival);
    } else {
      var vs := [Kept(o)];
      assert vs[0].data == o;
      WrongAnnounce(c, scope, h, vs, f, from, r, o);
    }
  }

  /**
   For any set of types to announce from, and any store: remote runs keep signed values if and only if
   the policies keep ids and accept only rightful edits of signed values in that set.
   */
  lemma {:induction false} KeepsSignedIffRightful(c: Config, scope: Scope)
    requires Lasting(c)
    ensures KeepsSigned(c, scope) <==> Rightful(c, scope)
  {
    hide StoreRight, EditRight, Lasting, Balanced, AllRemote, Run, Lookup, SucceedsAfter;
    if Rightful(c, scope) {
      forall d: Dht, ts: seq<Timed>, h: Hash, id: nat
        ensures KeptIn(c, scope, d, ts, h, id)
      {
        if Balanced(d) && AllRemote(c, scope, ts) && StaysTracked(d, c, scope, ts, h, id) && IsSigned(Lookup(d, h, id).value) {
          RunSucceeds(d, c, scope, ts, h, id);
        }
      }
    } else if h, f, from :| !StoreRight(c, scope, h, f, from) {
      WrongStoreShows(c, scope, h, f, from);
    } else {
      var h, o, f, from :| !EditRight(c, scope, h, o, f, from);
      WrongEditShows(c, scope, h, o, f, from);
    }
  }

  // ----- secure types

  /** Types registered as secure, and unknown types, which accept no edit. */
  function SecureScope(c: Config): Scope {
    (t: nat) => t in c.types ==> c.types[t].secured
  }

  /** What is left to ask of the policies: a value announced with a secure type and accepted keeps its id. */
  ghost predicate KeepsIds(c: Config) {
    && (forall h, f, from :: StoreRight(c, SecureScope(c), h, f, from))
    && (forall h, o, f, from :: EditKeepsId(c, h, o, f, from))
  }

  /** Edits of signed values of secure types keep it by themselves. */
  ghost predicate EditKeepsId(c: Config, h: Hash, o: Value, f: Flagged, from: nat) {
    IsEdit(c, SecureScope(c), o, f) && !(SecureScope(c)(o.vtype) && IsSigned(o)) ==>
      var r := EditOutcome(c, h, o, f, from);
      r.Some? ==> r.value.id == o.id
  }

  lemma {:induction false} SecureIsRightfulIff(c: Config)
    requires forall k, b :: !c.verify(k, b, [])
    ensures Rightful(c, SecureScope(c)) <==> KeepsIds(c)
  {
    hide StoreRight, IsEdit;
    var scope := SecureScope(c);
    forall h, o, f, from
      ensures EditRight(c, scope, h, o, f, from) <==> EditKeepsId(c, h, o, f, from)
    {
      SecureEdit(c, h, o, f, from);
    }
  }

  /** Edits of signed values of secure types are rightful whatever policy is underneath, and stay among secure types. */
  lemma {:induction false} SecureEdit(c: Config, h: Hash, o: Value, f: Flagged, from: nat)
    requires forall k, b :: !c.verify(k, b, [])
    ensures SecureScope(c)(o.vtype) && IsSigned(o) ==> EditRight(c, SecureScope(c), h, o, f, from)
    ensures SecureScope(c)(o.vtype) && IsSigned(o) && IsEdit(c, SecureScope(c), o, f) && EditOutcome(c, h, o, f, from).Some? ==>
              SecureScope(c)(EditOutcome(c, h, o, f, from).value.vtype)
  {
    if IsEdit(c, SecureScope(c), o, f) && IsSigned(o) && o.vtype in c.types && c.types[o.vtype].secured {
      EditAcceptedIff(c.types[o.vtype], c.verify, h, o, f, from);
    }
  }

  /** The id is found in every state of the run. */
  ghost predicate StaysStored(d: Dht, c: Config, ts: seq<Timed>, h: Hash, id: nat)
    decreases |ts|
  {
    Lookup(d, h, id).Some? && (ts != [] ==> StaysStored(Step(d, c, ts[0]), c, ts[1..], h, id))
  }

  lemma {:induction false} TrackedStays(d: Dht, c: Config, scope: Scope, ts: seq<Timed>, h: Hash, id: nat)
    requires StaysTracked(d, c, scope, ts, h, id)
    ensures StaysStored(d, c, ts, h, id)
    decreases |ts|
  {
    hide Lookup, Step;
    if ts != [] {
      TrackedStays(Step(d, c, ts[0]), c, scope, ts[1..], h, id);
    }
  }

  /** A signed value of a secure type stays of a secure type. */
  lemma {:induction false} StaysSecure(d: Dht, c: Config, ts: seq<Timed>, h: Hash, id: nat)
    requires Balanced(d) && Rightful(c, SecureScope(c)) && (forall k, b :: !c.verify(k, b, []))
    requires AllRemote(c, SecureScope(c), ts) && Tracked(d, SecureScope(c), h, id) && StaysStored(d, c, ts, h, id)
    ensures StaysTracked(d, c, SecureScope(c), ts, h, id)
    decreases |ts|
  {
    hide Balanced, Rightful, AllRemote, Remote, Step, Lookup, SecureScope, IsEdit, EditOutcome, Succeeds;
    if ts != [] {
      var d' := Step(d, c, ts[0]);
      RemoteRest(c, SecureScope(c), ts);
      DhtStores.StepKeeps(d, c, ts[0]);
      StepSucceeds(d, c, SecureScope(c), ts[0], h, id);
      SucceedsSigned(Lookup(d, h, id).value, Lookup(d', h, id).value);
      StepEdits(d, c, SecureScope(c), ts[0], h, id);
      if ts[0].event.Announce? {
        SecureEdit(c, h, Lookup(d, h, id).value, ts[0].event.f, ts[0].event.from);
      }
      StaysSecure(d', c, ts[1..], h, id);
    }
  }

  lemma {:induction false} SucceedsSigned(o: Value, n: Value)
    requires Succeeds(o, n)
    ensures IsSigned(n)
  {
  }

  ghost predicate SecureKeptIn(c: Config, d: Dht, ts: seq<Timed>, h: Hash, id: nat) {
    Balanced(d) && AllRemote(c, SecureScope(c), ts) && Tracked(d, SecureScope(c), h, id) && StaysStored(d, c, ts, h, id) ==>
      SucceedsAfter(d, c, ts, h, id)
  }

  ghost predicate KeepsSecure(c: Config) {
    forall d, ts, h, id :: SecureKeptIn(c, d, ts, h, id)
  }

  /**
   From any balanced store, over any run of remote events of secure types, while its id stays stored, a signed value of
   a secure type keeps its owner, never gets a smaller number, and changes its signed content only with a larger one,
   if and only if the policies keep the ids of what they accept.
   */
  lemma {:induction false} SignedValueIsKeptIff(c: Config)
    requires Lasting(c) && forall k, b :: !c.verify(k, b, [])
    ensures KeepsSecure(c) <==> KeepsIds(c)
  {
    hide Rightful, KeepsIds, Lasting, Balanced, AllRemote, SucceedsAfter, Lookup, Step;
    var scope := SecureScope(c);
    KeepsSignedIffRightful(c, scope);
    SecureIsRightfulIff(c);
    if Rightful(c, scope) {
      forall d: Dht, ts: seq<Timed>, h: Hash, id: nat
        ensures SecureKeptIn(c, d, ts, h, id)
      {
        if Balanced(d) && AllRemote(c, scope, ts) && Tracked(d, scope, h, id) && StaysStored(d, c, ts, h, id) {
          StaysSecure(d, c, ts, h, id);
          RunSucceeds(d, c, scope, ts, h, id);
        }
      }
    } else {
      var d, ts, h, id: nat :| !KeptIn(c, scope, d, ts, h, id);
      NotKeptSecure(c, d, ts, h, id);
    }
  }

  lemma {:induction false} NotKeptSecure(c: Config, d: Dht, ts: seq<Timed>, h: Hash, id: nat)
    requires !KeptIn(c, SecureScope(c), d, ts, h, id)
    ensures !SecureKeptIn(c, d, ts, h, id)
  {
    hide Balanced, AllRemote, Lookup, Step, SecureScope, Succeeds;
    TrackedStays(d, c, SecureScope(c), ts, h, id);
    if ts == [] {
      SucceedsItself(Lookup(d, h, id).value);
    }
  }

  lemma {:induction false} SucceedsItself(o: Value)
    requires IsSigned(o)
    ensures Succeeds(o, o)
  {
  }
}
