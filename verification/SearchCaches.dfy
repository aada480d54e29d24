/**
 `SearchCache`: the listen operations of one search. A new listener joins an
 operation whose query satisfies its own, and an operation without listeners is
 dropped after a while. Queries are keyed by the address of the query object.
 */
module SearchCaches {
  import opened Prelude
  import opened Values
  import opened ValueCaches
  import opened OpCaches
  import opened SharedOps

  const EXPIRATION: int := 60

  /** An `OpCache` under its query; asked holds the query of each of its listeners. */
  datatype Shared = Shared(query: Query, op: Op, asked: map<nat, Query>, lastRemoved: int)

  type Ops = map<nat, Shared>

  datatype Cache = Cache(ops: Ops, nextToken: nat)

  const START: Cache := Cache(map[], 1)

  function NewShared(q: Query, now: int): Shared {
    Shared(q, Empty(), map[], now)
  }

  /** The first operation in the order of the map that satisfies q. */
  function FirstSatisfying(ops: Ops, q: Query, order: seq<nat>): (r: Option<nat>)
    ensures r.Some? ==> r.value in ops
    decreases |order|
  {
    if order == [] then None
    else if order[0] in ops && IsSatisfiedBy(q, ops[order[0]].query) then Some(order[0])
    else FirstSatisfying(ops, q, order[1..])
  }

  /** `SearchCache::getOp`. */
  function GetOp(ops: Ops, ref: nat, q: Query, order: seq<nat>): (r: Option<nat>)
    ensures r.Some? ==> r.value in ops
  {
    if ref in ops then Some(ref) else FirstSatisfying(ops, q, order)
  }

  /** The operation a listener joins: the one found, or a new one under its own query object. */
  function Joined(ops: Ops, ref: nat, q: Query, order: seq<nat>, now: int): (r: (nat, Shared)) {
    match GetOp(ops, ref, q, order)
    case Some(k) => (k, ops[k])
    case None => (ref, NewShared(q, now))
  }

  function WithListener(s: Shared, t: nat, q: Query, filter: Filter, cached: seq<Value>): (r: Shared) {
    s.(op := s.op.(listeners := s.op.listeners[t := Listener(filter, if cached == [] then [] else [Batch(cached, false)])]),
       asked := s.asked[t := q])
  }

  function WithoutListener(s: Shared, t: nat, now: int): (r: Shared) {
    s.(op := s.op.(listeners := s.op.listeners - {t}), asked := s.asked - {t}, lastRemoved := now)
  }

  /**
   `SearchCache::listen`: cached is what the operation joined knows and the filter accepts, accepted the
   callback's answer to it; the token is 0 when the listener was refused.
   */
  function Listen(c: Cache, ref: nat, q: Query, filter: Filter, order: seq<nat>, cached: seq<Value>, accepted: bool, now: int):
    (r: (Cache, nat))
  {
    var (key, s) := Joined(c.ops, ref, q, order, now);
    var t := c.nextToken;
    if cached == [] || accepted then (Cache(c.ops[key := WithListener(s, t, q, filter, cached)], t + 1), t)
    else (Cache(c.ops[key := s], t + 1), 0)
  }

  /** Every operation looked at is marked; the first that has the token loses it. */
  function Cancel(ops: Ops, order: seq<nat>, token: nat, now: int): (r: (Ops, bool))
    decreases |order|
  {
    if order == [] then (ops, false)
    else
      var k := order[0];
      if k !in ops then Cancel(ops, order[1..], token, now)
      else
        var ops' := ops[k := WithoutListener(ops[k], token, now)];
        if token in ops[k].op.listeners then (ops', true) else Cancel(ops', order[1..], token, now)
  }

  predicate IsExpired(s: Shared, now: int) {
    s.op.listeners == map[] && s.lastRemoved + EXPIRATION < now
  }

  function Expire(ops: Ops, now: int): (r: Ops) {
    map k | k in ops && !IsExpired(ops[k], now) :: ops[k]
  }

  /** A batch from the remote nodes for one operation. */
  function Upstream(ops: Ops, k: nat, pack: Value -> Blob, b: Batch): (r: Ops) {
    if k in ops then ops[k := ops[k].(op := OnBatch(ops[k].op, pack, b))] else ops
  }

  function Upstreams(ops: Ops, k: nat, pack: Value -> Blob, bs: seq<Batch>): (r: Ops)
    ensures k in ops ==> k in r
    decreases |bs|
  {
    if bs == [] then ops else Upstreams(Upstream(ops, k, pack, bs[0]), k, pack, bs[1..])
  }

  // ----- what getOp finds

  /** Both directions: an operation is found if and only if there is the query itself or a satisfying one. */
  lemma {:induction false} GetOpFinds(ops: Ops, ref: nat, q: Query, order: seq<nat>)
    requires forall k :: k in ops ==> k in order
    ensures var r := GetOp(ops, ref, q, order);
            && (r.Some? <==> ref in ops || exists k :: k in ops && IsSatisfiedBy(q, ops[k].query))
            && (r.Some? ==> r.value in ops && (r.value == ref || IsSatisfiedBy(q, ops[r.value].query)))
  {
    FirstFinds(ops, q, order);
  }

  lemma {:induction false} FirstFinds(ops: Ops, q: Query, order: seq<nat>)
    ensures var r := FirstSatisfying(ops, q, order);
            && (r.Some? <==> exists k :: k in order && k in ops && IsSatisfiedBy(q, ops[k].query))
            && (r.Some? ==> r.value in ops && IsSatisfiedBy(q, ops[r.value].query))
    decreases |order|
  {
    if order != [] {
      FirstFinds(ops, q, order[1..]);
      assert forall k :: k in order <==> k == order[0] || k in order[1..];
    }
  }

  // ----- runs

  datatype Event =
    | ListenTo(ref: nat, q: Query, filter: Filter, cached: seq<Value>, accepted: bool)
    | CancelListen(token: nat)
    | ExpireOps
    | Remote(key: nat, batch: Batch)

  /** An event with the time and the order in which the map of operations is walked. */
  datatype Timed = Timed(event: Event, order: seq<nat>, now: int)

  function Step(c: Cache, pack: Value -> Blob, t: Timed): (r: Cache) {
    match t.event
    case ListenTo(ref, q, filter, cached, accepted) => Listen(c, ref, q, filter, t.order, cached, accepted, t.now).0
    case CancelListen(token) => c.(ops := Cancel(c.ops, t.order, token, t.now).0)
    case ExpireOps => c.(ops := Expire(c.ops, t.now))
    case Remote(key, b) => c.(ops := Upstream(c.ops, key, pack, b))
  }

  function Run(c: Cache, pack: Value -> Blob, ts: seq<Timed>): (r: Cache)
    decreases |ts|
  {
    if ts == [] then c else Run(Step(c, pack, ts[0]), pack, ts[1..])
  }

  /** A listener shares the operation of its own query object, or of a satisfying query. */
  ghost predicate Serves(own: Query, q: Query) {
    q == own || IsSatisfiedBy(q, own)
  }

  /** One operation: its listeners are served, and those whose filter agrees on boxes are exact. */
  ghost predicate Sound(s: Shared, pack: Value -> Blob, next: nat) {
    && s.asked.Keys == s.op.listeners.Keys
    && (forall t :: t in s.asked ==> Serves(s.query, s.asked[t]) && t < next)
    && KeyedOp(s.op) && AllExact(s.op, pack)
  }

  ghost predicate AllSound(c: Cache, pack: Value -> Blob) {
    forall k :: k in c.ops ==> Sound(c.ops[k], pack, c.nextToken)
  }

  ghost predicate OneOpEach(ops: Ops) {
    forall j, k, t :: j in ops && k in ops && t in ops[j].asked && t in ops[k].asked ==> j == k
  }

  /** The address of a live query object names that query; a listener is first shown what its operation knows. */
  ghost predicate Coherent(c: Cache, t: Timed) {
    t.event.ListenTo? ==>
      var e := t.event;
      && (e.ref in c.ops ==> c.ops[e.ref].query == e.q)
      && Shown(Joined(c.ops, e.ref, e.q, t.order, t.now).1, e.filter, e.cached)
  }

  ghost predicate Shown(s: Shared, filter: Filter, cached: seq<Value>) {
    Deliver(map[], cached, false) == Some(Passing(Known(s.op.values), filter))
  }

  ghost predicate CoherentRun(c: Cache, pack: Value -> Blob, ts: seq<Timed>)
    decreases |ts|
  {
    ts != [] ==> Coherent(c, ts[0]) && CoherentRun(Step(c, pack, ts[0]), pack, ts[1..])
  }

  lemma {:induction false} NewIsSound(q: Query, now: int, pack: Value -> Blob, next: nat)
    ensures Sound(NewShared(q, now), pack, next)
  {
  }

  lemma {:induction false} LaterIsSound(s: Shared, pack: Value -> Blob, next: nat)
    requires Sound(s, pack, next)
    ensures Sound(s, pack, next + 1)
  {
  }

  lemma {:induction false} JoiningIsSound(s: Shared, pack: Value -> Blob, t: nat, q: Query, filter: Filter, cached: seq<Value>)
    requires Sound(s, pack, t) && Serves(s.query, q) && Shown(s, filter, cached)
    ensures Sound(WithListener(s, t, q, filter, cached), pack, t + 1)
  {
    hide Serves, Deliver, Passing;
    OneBatch(map[], cached, false);
  }

  lemma {:induction false} LeavingIsSound(s: Shared, pack: Value -> Blob, t: nat, now: int, next: nat)
    requires Sound(s, pack, next)
    ensures Sound(WithoutListener(s, t, now), pack, next)
  {
    hide Serves, Exact, Agrees;
    assert WithoutListener(s, t, now).asked.Keys == s.asked.Keys - {t};
  }

  lemma {:induction false} BatchIsSound(s: Shared, pack: Value -> Blob, b: Batch, next: nat)
    requires Sound(s, pack, next)
    ensures Sound(s.(op := OnBatch(s.op, pack, b)), pack, next)
  {
    hide Serves, OnBatch, AllExact, KeyedOp;
    OnBatchExact(s.op, pack, b);
  }

  lemma {:induction false} JoinedServes(ops: Ops, ref: nat, q: Query, order: seq<nat>, now: int)
    requires ref in ops ==> ops[ref].query == q
    ensures var (key, s) := Joined(ops, ref, q, order, now); Serves(s.query, q) && (if key in ops then s == ops[key] else s == NewShared(q, now))
  {
    hide IsSatisfiedBy;
    FirstFinds(ops, q, order);
  }

  lemma {:induction false} ListenKeeps(c: Cache, pack: Value -> Blob, ref: nat, q: Query, filter: Filter,
                                       order: seq<nat>, cached: seq<Value>, accepted: bool, now: int)
    requires AllSound(c, pack) && OneOpEach(c.ops) && (ref in c.ops ==> c.ops[ref].query == q)
    requires Shown(Joined(c.ops, ref, q, order, now).1, filter, cached)
    ensures var c' := Listen(c, ref, q, filter, order, cached, accepted, now).0; AllSound(c', pack) && OneOpEach(c'.ops)
  {
    hide Sound, Serves, Shown, Joined, NewShared;
    var (key, s) := Joined(c.ops, ref, q, order, now);
    var c' := Listen(c, ref, q, filter, order, cached, accepted, now).0;
    JoinedServes(c.ops, ref, q, order, now);
    NewIsSound(q, now, pack, c.nextToken);
    LaterIsSound(s, pack, c.nextToken);
    JoiningIsSound(s, pack, c.nextToken, q, filter, cached);
    forall k | k in c'.ops
      ensures Sound(c'.ops[k], pack, c'.nextToken)
    {
      if k != key {
        LaterIsSound(c.ops[k], pack, c.nextToken);
      }
    }
    NewAsksNothing(q, now);
    FreshToken(c, pack);
    StillOneOp(c.ops, key, c'.ops[key], c.nextToken);
  }

  lemma {:induction false} NewAsksNothing(q: Query, now: int)
    ensures NewShared(q, now).asked == map[]
  {
  }

  /** One operation gets at most a fresh token. */
  lemma {:induction false} StillOneOp(ops: Ops, key: nat, s: Shared, token: nat)
    requires OneOpEach(ops) && forall k :: k in ops ==> token !in ops[k].asked
    requires forall t :: t in s.asked ==> t == token || (key in ops && t in ops[key].asked)
    ensures OneOpEach(ops[key := s])
  {
  }

  lemma {:induction false} FreshToken(c: Cache, pack: Value -> Blob)
    requires AllSound(c, pack)
    ensures forall k :: k in c.ops ==> c.nextToken !in c.ops[k].asked
  {
  }

  lemma {:induction false} CancelKeeps(c: Cache, pack: Value -> Blob, order: seq<nat>, token: nat, now: int)
    requires AllSound(c, pack) && OneOpEach(c.ops)
    ensures var c' := c.(ops := Cancel(c.ops, order, token, now).0); AllSound(c', pack) && OneOpEach(c'.ops)
    decreases |order|
  {
    hide Sound;
    if order != [] {
      var k := order[0];
      if k in c.ops {
        LeavingIsSound(c.ops[k], pack, token, now, c.nextToken);
        CancelKeeps(c.(ops := c.ops[k := WithoutListener(c.ops[k], token, now)]), pack, order[1..], token, now);
      } else {
        CancelKeeps(c, pack, order[1..], token, now);
      }
    }
  }

  lemma {:induction false} StepKeeps(c: Cache, pack: Value -> Blob, t: Timed)
    requires AllSound(c, pack) && OneOpEach(c.ops) && Coherent(c, t)
    ensures AllSound(Step(c, pack, t), pack) && OneOpEach(Step(c, pack, t).ops)
  {
    hide Sound, Listen, Joined, Shown;
    match t.event
    case ListenTo(ref, q, filter, cached, accepted) => ListenKeeps(c, pack, ref, q, filter, t.order, cached, accepted, t.now);
    case CancelListen(token) => CancelKeeps(c, pack, t.order, token, t.now);
    case ExpireOps =>
    case Remote(key, b) =>
      if key in c.ops {
        BatchIsSound(c.ops[key], pack, b, c.nextToken);
      }
  }

  /**
   In every run, each listener is attached to exactly one operation, one that serves its query; if its filter
   agrees on boxes, its log is in order and leaves outstanding exactly the values of that operation it accepts.
   */
  lemma {:induction false} RunServes(c: Cache, pack: Value -> Blob, ts: seq<Timed>)
    requires AllSound(c, pack) && OneOpEach(c.ops) && CoherentRun(c, pack, ts)
    ensures AllSound(Run(c, pack, ts), pack) && OneOpEach(Run(c, pack, ts).ops)
    decreases |ts|
  {
    hide AllSound, OneOpEach, Step, Coherent;
    if ts != [] {
      StepKeeps(c, pack, ts[0]);
      RunServes(Step(c, pack, ts[0]), pack, ts[1..]);
    }
  }

  lemma {:induction false} StartSound(pack: Value -> Blob)
    ensures AllSound(START, pack) && OneOpEach(START.ops)
  {
  }

  /** The query of an attached listener. */
  ghost predicate Attached(c: Cache, token: nat, q: Query) {
    exists k :: k in c.ops && token in c.ops[k].asked && c.ops[k].asked[token] == q
  }

  lemma {:induction false} CancelLeaves(ops: Ops, order: seq<nat>, token: nat, now: int, k: nat, other: nat)
    requires k in ops && other in ops[k].asked && other != token
    ensures var r := Cancel(ops, order, token, now).0;
            k in r && other in r[k].asked && r[k].asked[other] == ops[k].asked[other]
    decreases |order|
  {
    if order != [] {
      var j := order[0];
      if j in ops {
        CancelLeaves(ops[j := WithoutListener(ops[j], token, now)], order[1..], token, now, k, other);
      } else {
        CancelLeaves(ops, order[1..], token, now, k, other);
      }
    }
  }

  /** A listener stays attached, with its query, until it is cancelled itself. */
  lemma {:induction false} StepLeavesAttached(c: Cache, pack: Value -> Blob, t: Timed, token: nat, q: Query)
    requires AllSound(c, pack) && Attached(c, token, q) && Coherent(c, t) && t.event != CancelListen(token)
    ensures Attached(Step(c, pack, t), token, q)
  {
    hide IsSatisfiedBy, AllExact, KeyedOp, Serves, Shown, OnBatch;
    var k :| k in c.ops && token in c.ops[k].asked && c.ops[k].asked[token] == q;
    assert Sound(c.ops[k], pack, c.nextToken);
    match t.event
    case ListenTo(ref, q1, filter, cached, accepted) =>
      JoinedServes(c.ops, ref, q1, t.order, t.now);
      assert k in Step(c, pack, t).ops && token in Step(c, pack, t).ops[k].asked;
    case CancelListen(other) =>
      CancelLeaves(c.ops, t.order, other, t.now, k, token);
    case ExpireOps =>
      assert k in Step(c, pack, t).ops;
    case Remote(key, b) =>
      assert k in Step(c, pack, t).ops && Step(c, pack, t).ops[k].asked == c.ops[k].asked;
  }

  lemma {:induction false} RunLeavesAttached(c: Cache, pack: Value -> Blob, ts: seq<Timed>, token: nat, q: Query)
    requires AllSound(c, pack) && OneOpEach(c.ops) && CoherentRun(c, pack, ts) && Attached(c, token, q)
    requires NotCancelled(ts, token)
    ensures Attached(Run(c, pack, ts), token, q)
    decreases |ts|
  {
    hide AllSound, OneOpEach, Step, Attached, Coherent;
    if ts != [] {
      StepKeeps(c, pack, ts[0]);
      StepLeavesAttached(c, pack, ts[0], token, q);
      assert forall i :: 0 <= i < |ts[1..]| ==> ts[1..][i] == ts[i + 1];
      RunLeavesAttached(Step(c, pack, ts[0]), pack, ts[1..], token, q);
    }
  }

  lemma {:induction false} RunConcat(c: Cache, pack: Value -> Blob, a: seq<Timed>, b: seq<Timed>)
    requires CoherentRun(c, pack, a + b)
    ensures CoherentRun(c, pack, a) && CoherentRun(Run(c, pack, a), pack, b)
    ensures Run(c, pack, a + b) == Run(Run(c, pack, a), pack, b)
    decreases |a|
  {
    hide Coherent, Step;
    if a == [] {
      assert a + b == b;
    } else {
      assert (a + b)[0] == a[0] && (a + b)[1..] == a[1..] + b;
      RunConcat(Step(c, pack, a[0]), pack, a[1..], b);
    }
  }

  /**
   From the empty cache on, in every state of every run: each listener is attached to exactly one operation, one
   that serves its query, with an exact log if its filter agrees on boxes; and it stays attached until it is cancelled.
   */
  lemma {:induction false} RunFromStart(pack: Value -> Blob, before: seq<Timed>, after: seq<Timed>)
    requires CoherentRun(START, pack, before + after)
    ensures var c := Run(START, pack, before); AllSound(c, pack) && OneOpEach(c.ops)
    ensures forall token, q | Attached(Run(START, pack, before), token, q) && NotCancelled(after, token) ::
              Attached(Run(START, pack, before + after), token, q)
  {
    hide AllSound, OneOpEach, Attached, CoherentRun, Run, NotCancelled;
    StartSound(pack);
    RunConcat(START, pack, before, after);
    RunServes(START, pack, before);
    forall token, q | Attached(Run(START, pack, before), token, q) && NotCancelled(after, token)
      ensures Attached(Run(START, pack, before + after), token, q)
    {
      RunLeavesAttached(Run(START, pack, before), pack, after, token, q);
    }
  }

  ghost predicate NotCancelled(ts: seq<Timed>, token: nat) {
    forall i :: 0 <= i < |ts| ==> ts[i].event != CancelListen(token)
  }

  /**
   Listening attaches the listener under a fresh token exactly if there is nothing to show it or it accepts that; it makes an
   operation for its query exactly if none is found, and changes no other.
   */
  lemma {:induction false} ListenAttaches(c: Cache, pack: Value -> Blob, ref: nat, q: Query, filter: Filter, order: seq<nat>, cached: seq<Value>,
                                          accepted: bool, now: int)
    requires AllSound(c, pack) && c.nextToken > 0
    ensures var (c', token) := Listen(c, ref, q, filter, order, cached, accepted, now);
            var found := GetOp(c.ops, ref, q, order);
            var key := if found.Some? then found.value else ref;
            && (token != 0 <==> cached == [] || accepted)
            && (token != 0 ==> Attached(c', token, q) && forall q0 :: !Attached(c, token, q0))
            && key in c'.ops && c'.ops.Keys == c.ops.Keys + {key} && c'.ops[key].query == (if found.Some? then c.ops[key].query else q)
            && (token != 0 ==> key in c'.ops && token in c'.ops[key].op.listeners && c'.ops[key].op.listeners[token].filter == filter)
            && (forall k :: k in c.ops && k != key ==> c'.ops[k] == c.ops[k])
            && c'.nextToken == c.nextToken + 1
  {
    hide AllExact, KeyedOp, Serves, FirstSatisfying;
    FreshToken(c, pack);
    var (c', token) := Listen(c, ref, q, filter, order, cached, accepted, now);
    var key := Joined(c.ops, ref, q, order, now).0;
    if token != 0 {
      assert key in c'.ops && token in c'.ops[key].asked && c'.ops[key].asked[token] == q;
    }
  }

  /** What each event of a run does, besides listening: a batch goes to its operation alone, a cancelled listener is attached nowhere. */
  lemma {:induction false} EventOutcomes(c: Cache, pack: Value -> Blob, t: Timed)
    requires AllSound(c, pack) && OneOpEach(c.ops) && forall k :: k in c.ops ==> k in t.order
    ensures var c' := Step(c, pack, t);
            match t.event
            case ListenTo(ref, q, filter, cached, accepted) => c' == Listen(c, ref, q, filter, t.order, cached, accepted, t.now).0
            case CancelListen(token) => c'.ops.Keys == c.ops.Keys && forall q :: !Attached(c', token, q)
            case ExpireOps => c'.ops == map k | k in c.ops && (c.ops[k].op.listeners != map[] || c.ops[k].lastRemoved + 60 >= t.now) :: c.ops[k]
            case Remote(key, b) =>
              && c'.ops.Keys == c.ops.Keys
              && forall k :: k in c.ops ==> c'.ops[k] == if k == key then c.ops[k].(op := OnBatch(c.ops[k].op, pack, b)) else c.ops[k]
  {
    hide AllSound, OneOpEach, OnBatch, Listen, Attached;
    match t.event
    case ListenTo(ref, q, filter, cached, accepted) =>
    case CancelListen(token) =>
      CancelDetaches(c, pack, t.order, token, t.now);
      CancelKeys(c.ops, t.order, token, t.now);
    case ExpireOps =>
    case Remote(key, b) =>
  }

  lemma {:induction false} CancelKeys(ops: Ops, order: seq<nat>, token: nat, now: int)
    ensures Cancel(ops, order, token, now).0.Keys == ops.Keys
    decreases |order|
  {
    if order != [] {
      var k := order[0];
      CancelKeys(if k in ops then ops[k := WithoutListener(ops[k], token, now)] else ops, order[1..], token, now);
    }
  }

  /** An operation goes exactly when it has had no listener for more than a minute since the last one was looked for. */
  lemma {:induction false} ExpiresIff(ops: Ops, now: int, k: nat)
    ensures k in Expire(ops, now) <==> k in ops && (ops[k].op.listeners != map[] || ops[k].lastRemoved + 60 >= now)
    ensures k in Expire(ops, now) ==> Expire(ops, now)[k] == ops[k]
  {
  }

  /** Cancelling marks every operation up to the one that had the listener, and none after it. */
  lemma {:induction false} CancelMarks(ops: Ops, order: seq<nat>, token: nat, now: int, k: nat)
    requires KeysMatch(ops) && k in ops
    ensures var r := Cancel(ops, order, token, now).0;
            && k in r && r[k].query == ops[k].query && r[k].op.values == ops[k].op.values
            && r[k].lastRemoved == if LookedAt(ops, order, token, k) then now else ops[k].lastRemoved
    decreases |order|
  {
    if order != [] {
      var j := order[0];
      if j in ops {
        var ops1 := ops[j := WithoutListener(ops[j], token, now)];
        if token !in ops[j].op.listeners {
          CancelMarks(ops1, order[1..], token, now, k);
          SameLook(ops, ops1, order[1..], token, k);
        }
      } else {
        CancelMarks(ops, order[1..], token, now, k);
      }
    }
  }

  /** k comes in the order before any operation with the listener, or is the first such. */
  predicate LookedAt(ops: Ops, order: seq<nat>, token: nat, k: nat)
    decreases |order|
  {
    order != [] && (order[0] == k || (!(order[0] in ops && token in ops[order[0]].op.listeners) && LookedAt(ops, order[1..], token, k)))
  }

  lemma {:induction false} SameLook(a: Ops, b: Ops, order: seq<nat>, token: nat, k: nat)
    requires a.Keys == b.Keys && forall j :: j in a ==> (token in a[j].op.listeners <==> token in b[j].op.listeners)
    ensures LookedAt(a, order, token, k) == LookedAt(b, order, token, k)
    decreases |order|
  {
    if order != [] {
      SameLook(a, b, order[1..], token, k);
    }
  }

  /** Cancelling answers whether the listener was attached, and leaves it attached nowhere. */
  lemma {:induction false} CancelDetaches(c: Cache, pack: Value -> Blob, order: seq<nat>, token: nat, now: int)
    requires AllSound(c, pack) && OneOpEach(c.ops) && forall k :: k in c.ops ==> k in order
    ensures var r := Cancel(c.ops, order, token, now);
            && (r.1 <==> exists q :: Attached(c, token, q))
            && (forall q :: !Attached(c.(ops := r.0), token, q))
  {
    hide AllExact, KeyedOp, Serves;
    forall k | k in c.ops
      ensures c.ops[k].asked.Keys == c.ops[k].op.listeners.Keys
    {
      assert Sound(c.ops[k], pack, c.nextToken);
    }
    if exists k :: k in c.ops && token in c.ops[k].asked {
      var k :| k in c.ops && token in c.ops[k].asked;
      assert Attached(c, token, c.ops[k].asked[token]);
      CancelFinds(c.ops, order, token, now, k);
    } else {
      CancelMisses(c.ops, order, token, now);
    }
  }

  ghost predicate KeysMatch(ops: Ops) {
    forall k :: k in ops ==> ops[k].asked.Keys == ops[k].op.listeners.Keys
  }

  lemma {:induction false} CancelFinds(ops: Ops, order: seq<nat>, token: nat, now: int, k: nat)
    requires KeysMatch(ops) && k in ops && token in ops[k].asked && k in order
    requires forall j :: j in ops && token in ops[j].asked ==> j == k
    ensures Cancel(ops, order, token, now).1
    ensures forall j :: j in Cancel(ops, order, token, now).0 ==> token !in Cancel(ops, order, token, now).0[j].asked
    decreases |order|
  {
    var j := order[0];
    if j != k {
      if j in ops {
        CancelFinds(ops[j := WithoutListener(ops[j], token, now)], order[1..], token, now, k);
      } else {
        CancelFinds(ops, order[1..], token, now, k);
      }
    }
  }

  lemma {:induction false} CancelMisses(ops: Ops, order: seq<nat>, token: nat, now: int)
    requires KeysMatch(ops) && forall j :: j in ops ==> token !in ops[j].asked
    ensures !Cancel(ops, order, token, now).1
    ensures forall j :: j in Cancel(ops, order, token, now).0 ==> token !in Cancel(ops, order, token, now).0[j].asked
    decreases |order|
  {
    if order != [] {
      var j := order[0];
      if j in ops {
        CancelMisses(ops[j := WithoutListener(ops[j], token, now)], order[1..], token, now);
      } else {
        CancelMisses(ops, order[1..], token, now);
      }
    }
  }

  // ----- what a listener sees of the operation it joins

  lemma {:induction false} UpstreamsAre(ops: Ops, k: nat, pack: Value -> Blob, bs: seq<Batch>)
    requires k in ops
    ensures k in Upstreams(ops, k, pack, bs) && Upstreams(ops, k, pack, bs)[k].op == OnBatches(ops[k].op, pack, bs)
    decreases |bs|
  {
    if bs != [] {
      UpstreamsAre(Upstream(ops, k, pack, bs[0]), k, pack, bs[1..]);
    }
  }

  /** The log of a listener depends on no other listener. */
  lemma {:induction false} LogAlone(a: Op, b: Op, pack: Value -> Blob, bs: seq<Batch>, s: nat, t: nat)
    requires a.values == b.values && s in a.listeners && t in b.listeners && a.listeners[s] == b.listeners[t]
    ensures var a', b' := OnBatches(a, pack, bs), OnBatches(b, pack, bs);
            s in a'.listeners && t in b'.listeners && a'.listeners[s] == b'.listeners[t]
    decreases |bs|
  {
    hide CountBatch, FilterBatch;
    if bs != [] {
      LogAlone(OnBatch(a, pack, bs[0]), OnBatch(b, pack, bs[0]), pack, bs[1..], s, t);
    }
  }

  /**
   Listening and then receiving: what the listener has outstanding is `SeenLate` of the operation joined, so the
   conditions of `SharesAlwaysIff` decide whether it is what an operation of its own would show.
   */
  lemma {:induction false} JoinerSees(c: Cache, pack: Value -> Blob, ref: nat, q: Query, filter: Filter, order: seq<nat>,
                                      cached: seq<Value>, now: int, pre: seq<Batch>, post: seq<Batch>)
    requires var s := Joined(c.ops, ref, q, order, now).1;
             s.op.values == OnBatches(Empty(), pack, SelectAll(s.query, pre)).values
    ensures var (k, s) := Joined(c.ops, ref, q, order, now);
            var (c', t) := Listen(c, ref, q, filter, order, cached, true, now);
            var op := Upstreams(c'.ops, k, pack, SelectAll(s.query, post))[k].op;
            t in op.listeners && Replay(map[], op.listeners[t].log) == SeenLate(filter, s.query, pack, pre, post, cached)
  {
    hide OnBatches, SelectAll, Joined, Replay, Upstreams;
    var (k, s) := Joined(c.ops, ref, q, order, now);
    var (c', t) := Listen(c, ref, q, filter, order, cached, true, now);
    var bs := SelectAll(s.query, post);
    var l := Listener(filter, if cached == [] then [] else [Batch(cached, false)]);
    var alone := OnBatches(Empty(), pack, SelectAll(s.query, pre)).(listeners := map[0 := l]);
    UpstreamsAre(c'.ops, k, pack, bs);
    LogAlone(c'.ops[k].op, alone, pack, bs, t, 0);
  }

  // ----- the object

  class SearchCache {
    var ops: Ops
    var nextToken: nat

    ghost function State(): (c: Cache)
      reads this
    {
      Cache(ops, nextToken)
    }

    constructor ()
      ensures State() == START
    {
      ops, nextToken := map[], 1;
    }

    method FindOp(ref: nat, q: Query, order: seq<nat>) returns (r: Option<nat>)
      ensures r == GetOp(ops, ref, q, order)
    {
      if ref in ops {
        return Some(ref);
      }
      assert order[0..] == order;
      for i := 0 to |order|
        invariant FirstSatisfying(ops, q, order[i..]) == FirstSatisfying(ops, q, order)
      {
        assert order[i..][0] == order[i] && order[i..][1..] == order[i + 1..];
        if order[i] in ops && IsSatisfiedBy(q, ops[order[i]].query) {
          return Some(order[i]);
        }
      }
      return None;
    }

    /** cached is what the callback is first shown, and accepted its answer. */
    method AddListener(ref: nat, q: Query, filter: Filter, order: seq<nat>, accepted: bool, now: int)
      returns (token: nat, cached: seq<Value>)
      requires forall k :: k in ops ==> KeyedOp(ops[k].op)
      modifies this
      ensures Shown(Joined(old(ops), ref, q, order, now).1, filter, cached)
      ensures (State(), token) == Listen(old(State()), ref, q, filter, order, cached, accepted, now)
    {
      hide FirstSatisfying, Deliver, Passing, Known;
      var found := FindOp(ref, q, order);
      var key := ref;
      match found {
        case Some(k) => key := k;
        case None => ops := ops[ref := NewShared(q, now)];
      }
      ghost var s := ops[key];
      assert ops == old(ops)[key := s];
      var t := nextToken;
      nextToken := nextToken + 1;
      cached := AcceptedOf(ops[key].op.values, filter);
      if cached != [] && !accepted {
        return 0, cached;
      }
      ops := ops[key := WithListener(ops[key], t, q, filter, cached)];
      assert ops == old(ops)[key := WithListener(s, t, q, filter, cached)];
      return t, cached;
    }

    method CancelListener(order: seq<nat>, token: nat, now: int) returns (removed: bool)
      modifies this`ops
      ensures (ops, removed) == Cancel(old(ops), order, token, now)
    {
      assert order[0..] == order;
      for i := 0 to |order|
        invariant Cancel(ops, order[i..], token, now) == Cancel(old(ops), order, token, now)
      {
        var k := order[i];
        assert order[i..][0] == k && order[i..][1..] == order[i + 1..];
        if k in ops {
          removed := token in ops[k].op.listeners;
          ops := ops[k := WithoutListener(ops[k], token, now)];
          if removed {
            return true;
          }
        }
      }
      return false;
    }

    method ExpireOps(now: int)
      modifies this`ops
      ensures ops == Expire(old(ops), now)
    {
      var todo := ops.Keys;
      while todo != {}
        invariant todo <= ops.Keys <= old(ops).Keys
        invariant forall k :: k in ops ==> ops[k] == old(ops)[k]
        invariant forall k :: k in old(ops) && k !in todo ==> (k in ops <==> !IsExpired(old(ops)[k], now))
      {
        var k :| k in todo;
        todo := todo - {k};
        if IsExpired(ops[k], now) {
          ops := ops - {k};
        }
      }
    }
  }
}
