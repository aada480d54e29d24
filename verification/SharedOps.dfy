/**
 A listener that joins an operation of another, satisfying query, against one with an
 operation of its own. Remote nodes send an operation the values its query accepts; the
 operation hands them on through the listener's filter, which it asks about boxes.
 */
module SharedOps {
  import opened Prelude
  import opened Values
  import opened ValueCaches
  import opened OpCaches

  /** What the remote nodes send of a batch to an operation of query q. */
  function Select(q: Query, vals: seq<Value>): (r: seq<Value>)
    decreases |vals|
  {
    if vals == [] then []
    else (if AcceptsAll(q.filters, vals[0]) then [vals[0]] else []) + Select(q, vals[1..])
  }

  function SelectBatch(q: Query, b: Batch): Batch {
    Batch(Select(q, b.vals), b.expired)
  }

  function SelectAll(q: Query, bs: seq<Batch>): (r: seq<Batch>)
    ensures |r| == |bs|
  {
    seq(|bs|, i requires 0 <= i < |bs| => SelectBatch(q, bs[i]))
  }

  /** Two objects of one value. */
  predicate Alike(v: Value, u: Value) {
    v == u.(ref := v.ref)
  }

  type World = map<nat, Value>

  /** In the network, an id names one value. */
  ghost predicate InWorld(world: World, v: Value) {
    v.id in world && Alike(v, world[v.id])
  }

  ghost predicate FromWorld(world: World, bs: seq<Batch>) {
    forall i, v :: 0 <= i < |bs| && v in bs[i].vals ==> InWorld(world, v)
  }

  ghost predicate AllIn(world: World, vals: seq<Value>) {
    forall v :: v in vals ==> InWorld(world, v)
  }

  /** An operation as it is set up for a listener with filter f. */
  function StartOp(f: Filter): Op {
    Op(map[], 0, 0, map[0 := Listener(f, [])])
  }

  /** What a listener with filter f on an operation of query q has outstanding after the batches; None if its log is not in order. */
  function Seen(f: Filter, q: Query, pack: Value -> Blob, bs: seq<Batch>): (r: Option<map<nat, Value>>) {
    var ls := OnBatches(StartOp(f), pack, SelectAll(q, bs)).listeners;
    if 0 in ls then Replay(map[], ls[0].log) else None
  }

  /** The same for a listener that joins after the batches pre, and is shown the values known then. */
  function SeenLate(f: Filter, q: Query, pack: Value -> Blob, pre: seq<Batch>, post: seq<Batch>, cached: seq<Value>):
    (r: Option<map<nat, Value>>)
  {
    var op := OnBatches(Op(map[], 0, 0, map[]), pack, SelectAll(q, pre));
    var l := Listener(f, if cached == [] then [] else [Batch(cached, false)]);
    var ls := OnBatches(op.(listeners := map[0 := l]), pack, SelectAll(q, post)).listeners;
    if 0 in ls then Replay(map[], ls[0].log) else None
  }

  ghost predicate IsCached(f: Filter, q: Query, pack: Value -> Blob, pre: seq<Batch>, cached: seq<Value>) {
    Deliver(map[], cached, false) ==
    Some(Passing(Known(OnBatches(Op(map[], 0, 0, map[]), pack, SelectAll(q, pre)).values), f))
  }

  // ----- an operation of a satisfying query knows what a dedicated one knows, and more

  function Restrict(m: CountMap, q: Query): (r: CountMap) {
    map k | k in m && AcceptsAll(q.filters, m[k].data) :: m[k]
  }

  ghost predicate CountsWorld(m: CountMap, world: World, q: Query) {
    forall k :: k in m ==> m[k].data.id == k && InWorld(world, m[k].data) && AcceptsAll(q.filters, m[k].data)
  }

  lemma {:induction false} AlikeAccepted(q: Query, v: Value, u: Value)
    requires Alike(v, u)
    ensures AcceptsAll(q.filters, v) <==> AcceptsAll(q.filters, u)
  {
    forall i | 0 <= i < |q.filters|
      ensures Accepts(LocalFilter(q.filters[i]), v) <==> Accepts(LocalFilter(q.filters[i]), u)
    {
    }
  }

  /** Values of one world with one id are accepted alike. */
  lemma {:induction false} SameIdAccepted(q: Query, world: World, v: Value, u: Value)
    requires InWorld(world, v) && InWorld(world, u) && v.id == u.id
    ensures AcceptsAll(q.filters, v) <==> AcceptsAll(q.filters, u)
  {
    AlikeAccepted(q, v, world[v.id]);
    AlikeAccepted(q, u, world[v.id]);
  }

  lemma {:induction false} CountOneRestricts(m: CountMap, world: World, q: Query, other: Query, v: Value, expired: bool)
    requires CountsWorld(m, world, other) && InWorld(world, v) && AcceptsAll(other.filters, v)
    ensures CountsWorld(CountOne(m, v, expired), world, other)
    ensures Restrict(CountOne(m, v, expired), q) ==
            if AcceptsAll(q.filters, v) then CountOne(Restrict(m, q), v, expired) else Restrict(m, q)
  {
    hide AcceptsAll, InWorld;
    if v.id in m {
      SameIdAccepted(q, world, v, m[v.id].data);
    }
    var r := Restrict(CountOne(m, v, expired), q);
    if AcceptsAll(q.filters, v) {
      assert r == CountOne(Restrict(m, q), v, expired);
    } else {
      assert r == Restrict(m, q);
    }
  }

  /** Counting the values that q accepts is counting all of them and then looking at those only. */
  lemma {:induction false} BatchRestricts(m: CountMap, world: World, q: Query, other: Query, vals: seq<Value>, expired: bool)
    requires CountsWorld(m, world, other) && AllIn(world, vals)
    requires forall v :: AcceptsAll(q.filters, v) ==> AcceptsAll(other.filters, v)
    ensures var m' := CountBatch(m, Select(other, vals), expired).0;
            && CountsWorld(m', world, other)
            && CountBatch(Restrict(m, q), Select(q, vals), expired).0 == Restrict(m', q)
    decreases |vals|
  {
    hide AcceptsAll, InWorld, Restrict, CountsWorld;
    if vals != [] {
      var v, rest := vals[0], vals[1..];
      assert v in vals;
      assert ([v] + Select(q, rest))[1..] == Select(q, rest) && [] + Select(q, rest) == Select(q, rest);
      assert ([v] + Select(other, rest))[1..] == Select(other, rest) && [] + Select(other, rest) == Select(other, rest);
      if AcceptsAll(other.filters, v) {
        CountOneRestricts(m, world, q, other, v, expired);
        BatchRestricts(CountOne(m, v, expired), world, q, other, rest, expired);
      } else {
        BatchRestricts(m, world, q, other, rest, expired);
      }
    }
  }

  /** The shared operation restricted to q is the dedicated one, after any batches. */
  lemma {:induction false} BatchesRestrict(a: Op, d: Op, pack: Value -> Blob, world: World, q: Query, other: Query, bs: seq<Batch>)
    requires CountsWorld(a.values, world, other) && d.values == Restrict(a.values, q) && FromWorld(world, bs)
    requires forall v :: AcceptsAll(q.filters, v) ==> AcceptsAll(other.filters, v)
    ensures var a' := OnBatches(a, pack, SelectAll(other, bs));
            var d' := OnBatches(d, pack, SelectAll(q, bs));
            CountsWorld(a'.values, world, other) && d'.values == Restrict(a'.values, q)
    decreases |bs|
  {
    hide AcceptsAll, InWorld, Restrict, CountsWorld, CountBatch, Select, FanOut;
    if bs != [] {
      SelectRest(q, bs);
      SelectRest(other, bs);
      BatchRestricts(a.values, world, q, other, bs[0].vals, bs[0].expired);
      forall i, v | 0 <= i < |bs[1..]| && v in bs[1..][i].vals
        ensures InWorld(world, v)
      {
        assert v in bs[i + 1].vals;
      }
      BatchesRestrict(OnBatch(a, pack, SelectBatch(other, bs[0])), OnBatch(d, pack, SelectBatch(q, bs[0])), pack, world, q, other, bs[1..]);
    }
  }

  lemma {:induction false} SelectRest(q: Query, bs: seq<Batch>)
    requires bs != []
    ensures SelectAll(q, bs)[0] == SelectBatch(q, bs[0]) && SelectAll(q, bs)[1..] == SelectAll(q, bs[1..])
  {
  }

  lemma {:induction false} SelectConcat(q: Query, a: seq<Batch>, b: seq<Batch>)
    ensures SelectAll(q, a + b) == SelectAll(q, a) + SelectAll(q, b)
  {
  }

  lemma {:induction false} OnBatchesConcat(op: Op, pack: Value -> Blob, a: seq<Batch>, b: seq<Batch>)
    ensures OnBatches(op, pack, a + b) == OnBatches(OnBatches(op, pack, a), pack, b)
    decreases |a|
  {
    if a == [] {
      assert a + b == b;
    } else {
      assert (a + b)[0] == a[0] && (a + b)[1..] == a[1..] + b;
      OnBatchesConcat(OnBatch(op, pack, a[0]), pack, a[1..], b);
    }
  }

  // ----- what a listener sees

  /** A listener that is exact for its filter asked about boxes stays so. */
  lemma {:induction false} BatchesBoxed(op: Op, pack: Value -> Blob, bs: seq<Batch>, t: nat)
    requires KeyedOp(op) && t in op.listeners && ExactFor(op.listeners[t], BoxFilter(op.listeners[t].filter, pack), Known(op.values))
    ensures var op' := OnBatches(op, pack, bs);
            && KeyedOp(op') && t in op'.listeners
            && ExactFor(op'.listeners[t], BoxFilter(op.listeners[t].filter, pack), Known(op'.values))
    decreases |bs|
  {
    hide ExactFor, KeyedOp, OnBatch, BoxFilter;
    if bs != [] {
      OnBatchBoxed(op, pack, bs[0], t);
      BatchesBoxed(OnBatch(op, pack, bs[0]), pack, bs[1..], t);
    }
  }

  /** The values known do not depend on the listeners. */
  lemma {:induction false} ListenersDoNotMatter(a: Op, b: Op, pack: Value -> Blob, bs: seq<Batch>)
    requires a.values == b.values
    ensures OnBatches(a, pack, bs).values == OnBatches(b, pack, bs).values
    decreases |bs|
  {
    hide CountBatch, FanOut;
    if bs != [] {
      ListenersDoNotMatter(OnBatch(a, pack, bs[0]), OnBatch(b, pack, bs[0]), pack, bs[1..]);
    }
  }

  function Empty(): Op {
    Op(map[], 0, 0, map[])
  }

  /** What an operation of query q knows after the batches. */
  function KnownTo(q: Query, pack: Value -> Blob, bs: seq<Batch>): (w: map<nat, Value>) {
    Known(OnBatches(Empty(), pack, SelectAll(q, bs)).values)
  }

  lemma {:induction false} SeenIs(f: Filter, q: Query, pack: Value -> Blob, bs: seq<Batch>)
    ensures Seen(f, q, pack, bs) == Some(Passing(KnownTo(q, pack, bs), BoxFilter(f, pack)))
  {
    hide OnBatches, SelectAll;
    var op := StartOp(f);
    assert Passing(Known(op.values), BoxFilter(f, pack)) == map[];
    BatchesBoxed(op, pack, SelectAll(q, bs), 0);
    ListenersDoNotMatter(op, Empty(), pack, SelectAll(q, bs));
  }

  lemma {:induction false} KnownRestricts(q: Query, other: Query, pack: Value -> Blob, world: World, bs: seq<Batch>)
    requires IsSatisfiedBy(q, other) && !q.none && FromWorld(world, bs)
    ensures KnownTo(q, pack, bs) == map k | k in KnownTo(other, pack, bs) && AcceptsAll(q.filters, KnownTo(other, pack, bs)[k]) :: KnownTo(other, pack, bs)[k]
    ensures forall k :: k in KnownTo(other, pack, bs) ==> AcceptsAll(other.filters, KnownTo(other, pack, bs)[k])
  {
    hide OnBatches, SelectAll, IsSatisfiedBy, AcceptsAll, FromWorld, InWorld;
    forall v | AcceptsAll(q.filters, v)
      ensures AcceptsAll(other.filters, v)
    {
      SatisfyingIsWeaker(q, other, v);
    }
    assert Restrict(Empty().values, q) == map[];
    BatchesRestrict(Empty(), Empty(), pack, world, q, other, bs);
  }

  // ----- main results

  /** A listener with filter f, there from the start, cannot tell the shared operation from one of its own. */
  ghost predicate SharesFromStart(f: Filter, q: Query, other: Query, pack: Value -> Blob) {
    forall bs :: Seen(f, other, pack, bs) == Seen(f, q, pack, bs)
  }

  /** Nor can it when it joins at any time, compared with an operation of its own that has run all along. */
  ghost predicate SharesAlways(f: Filter, q: Query, other: Query, pack: Value -> Blob) {
    forall pre, post, cached :: IsCached(f, other, pack, pre, cached) ==>
      SeenLate(f, other, pack, pre, post, cached) == Seen(f, q, pack, pre + post)
  }

  /** The same from the start, but only where an id names one value. */
  ghost predicate SharesWithoutEdits(f: Filter, q: Query, other: Query, pack: Value -> Blob) {
    forall world, bs :: FromWorld(world, bs) ==> Seen(f, other, pack, bs) == Seen(f, q, pack, bs)
  }

  /** The answer of the fan-out about v. */
  predicate HandsOn(f: Filter, pack: Value -> Blob, v: Value) {
    Accepts(BoxFilter(f, pack), v)
  }

  /** A value that the shared operation brings and hands on is one that q accepts. */
  ghost predicate NoLeak(f: Filter, q: Query, other: Query, pack: Value -> Blob) {
    forall v :: AcceptsAll(other.filters, v) && HandsOn(f, pack, v) ==> AcceptsAll(q.filters, v)
  }

  /** About the values that the shared operation brings, the filter answers as about their boxes. */
  ghost predicate AgreesOn(f: Filter, other: Query, pack: Value -> Blob) {
    forall v :: AcceptsAll(other.filters, v) ==> (Accepts(f, v) <==> HandsOn(f, pack, v))
  }

  function Arrival(v: Value): seq<Batch> {
    [Batch([v], false)]
  }

  lemma {:induction false} KnownAfterArrival(q: Query, pack: Value -> Blob, v: Value)
    ensures KnownTo(q, pack, Arrival(v)) == if AcceptsAll(q.filters, v) then map[v.id := v] else map[]
  {
    hide AcceptsAll;
    var bs := SelectAll(q, Arrival(v));
    var vals := Select(q, [v]);
    assert [v][1..] == [] && Select(q, []) == [] && [v] + [] == [v];
    assert vals == if AcceptsAll(q.filters, v) then [v] else [];
    assert bs == [Batch(vals, false)] && bs[1..] == [];
    var none: CountMap := map[];
    assert none[v.id := Counted(v, 1)] == map[v.id := Counted(v, 1)];
    assert CountBatch(none, [v], false).0 == map[v.id := Counted(v, 1)];
    assert OnBatches(OnBatch(Empty(), pack, bs[0]), pack, []) == OnBatch(Empty(), pack, bs[0]);
    assert KnownTo(q, pack, Arrival(v)) == Known(CountBatch(none, vals, false).0);
    assert Known(none) == map[];
    assert Known(map[v.id := Counted(v, 1)]) == map[v.id := v];
  }

  lemma {:induction false} ArrivalInWorld(v: Value)
    ensures FromWorld(map[v.id := v], Arrival(v))
  {
  }

  lemma {:induction false} SeenAfterArrival(f: Filter, q: Query, pack: Value -> Blob, v: Value)
    ensures Seen(f, q, pack, Arrival(v)) == Some(if AcceptsAll(q.filters, v) && HandsOn(f, pack, v) then map[v.id := v] else map[])
  {
    hide AcceptsAll, KnownTo, Seen, BoxFilter;
    SeenIs(f, q, pack, Arrival(v));
    KnownAfterArrival(q, pack, v);
    var g := BoxFilter(f, pack);
    var none: map<nat, Value> := map[];
    assert Passing(none, g) == map[];
    assert Passing(map[v.id := v], g) == if Accepts(g, v) then map[v.id := v] else map[];
  }

  // ----- sharing from the start

  /** All that the shared query accepts under this id, q accepts too. */
  ghost predicate Clean(q: Query, other: Query, id: nat) {
    forall u: Value :: u.id == id && AcceptsAll(other.filters, u) ==> AcceptsAll(q.filters, u)
  }

  /** No value that a dedicated operation hands on shares its id with one that only the shared operation brings. */
  ghost predicate NoClash(f: Filter, q: Query, other: Query, pack: Value -> Blob) {
    forall v :: AcceptsAll(q.filters, v) && HandsOn(f, pack, v) ==> Clean(q, other, v.id)
  }

  ghost predicate SameAt(a: CountMap, d: CountMap, id: nat) {
    (id in a <==> id in d) && (id in a ==> a[id] == d[id])
  }

  /** Counts of the shared and of the dedicated operation: the same under clean ids. */
  ghost predicate Tracks(a: CountMap, d: CountMap, q: Query, other: Query) {
    && (forall id :: Clean(q, other, id) ==> SameAt(a, d, id))
    && (forall k :: k in a ==> a[k].data.id == k && AcceptsAll(other.filters, a[k].data))
    && (forall k :: k in d ==> d[k].data.id == k && AcceptsAll(q.filters, d[k].data))
  }

  lemma {:induction false} CountOneTracks(a: CountMap, d: CountMap, q: Query, other: Query, v: Value, expired: bool)
    requires Tracks(a, d, q, other) && AcceptsAll(other.filters, v)
    ensures Tracks(CountOne(a, v, expired), if AcceptsAll(q.filters, v) then CountOne(d, v, expired) else d, q, other)
  {
    hide AcceptsAll;
    var a' := CountOne(a, v, expired);
    var d' := if AcceptsAll(q.filters, v) then CountOne(d, v, expired) else d;
    forall id | Clean(q, other, id)
      ensures SameAt(a', d', id)
    {
      assert SameAt(a, d, id);
    }
  }

  lemma {:induction false} BatchTracks(a: CountMap, d: CountMap, q: Query, other: Query, vals: seq<Value>, expired: bool)
    requires Tracks(a, d, q, other)
    requires forall v :: AcceptsAll(q.filters, v) ==> AcceptsAll(other.filters, v)
    ensures Tracks(CountBatch(a, Select(other, vals), expired).0, CountBatch(d, Select(q, vals), expired).0, q, other)
    decreases |vals|
  {
    hide AcceptsAll, Tracks;
    if vals != [] {
      var v, rest := vals[0], vals[1..];
      assert ([v] + Select(q, rest))[1..] == Select(q, rest) && [] + Select(q, rest) == Select(q, rest);
      assert ([v] + Select(other, rest))[1..] == Select(other, rest) && [] + Select(other, rest) == Select(other, rest);
      if AcceptsAll(other.filters, v) {
        CountOneTracks(a, d, q, other, v, expired);
        BatchTracks(CountOne(a, v, expired), if AcceptsAll(q.filters, v) then CountOne(d, v, expired) else d, q, other, rest, expired);
      } else {
        BatchTracks(a, d, q, other, rest, expired);
      }
    }
  }

  lemma {:induction false} BatchesTrack(a: Op, d: Op, pack: Value -> Blob, q: Query, other: Query, bs: seq<Batch>)
    requires Tracks(a.values, d.values, q, other)
    requires forall v :: AcceptsAll(q.filters, v) ==> AcceptsAll(other.filters, v)
    ensures Tracks(OnBatches(a, pack, SelectAll(other, bs)).values, OnBatches(d, pack, SelectAll(q, bs)).values, q, other)
    decreases |bs|
  {
    hide AcceptsAll, Tracks, CountBatch, Select, FanOut;
    if bs != [] {
      SelectRest(q, bs);
      SelectRest(other, bs);
      BatchTracks(a.values, d.values, q, other, bs[0].vals, bs[0].expired);
      BatchesTrack(OnBatch(a, pack, SelectBatch(other, bs[0])), OnBatch(d, pack, SelectBatch(q, bs[0])), pack, q, other, bs[1..]);
    }
  }

  lemma {:induction false} TracksShowSame(f: Filter, q: Query, other: Query, pack: Value -> Blob, a: CountMap, d: CountMap)
    requires Tracks(a, d, q, other) && NoLeak(f, q, other, pack) && NoClash(f, q, other, pack)
    ensures Passing(Known(a), BoxFilter(f, pack)) == Passing(Known(d), BoxFilter(f, pack))
  {
    hide AcceptsAll, Clean, BoxFilter;
    var g := BoxFilter(f, pack);
    forall id: nat
      ensures id in Passing(Known(a), g) || id in Passing(Known(d), g) ==> SameAt(a, d, id)
    {
      assert id in Passing(Known(a), g) ==> HandsOn(f, pack, a[id].data);
      assert id in Passing(Known(d), g) ==> HandsOn(f, pack, d[id].data);
    }
    assert Passing(Known(a), g) == Passing(Known(d), g);
  }

  /** First u, then v under the same id: the operation goes on knowing u. */
  lemma {:induction false} KnownAfterEdit(q: Query, pack: Value -> Blob, u: Value, v: Value)
    requires u.id == v.id && AcceptsAll(q.filters, v)
    ensures KnownTo(q, pack, Arrival(u) + Arrival(v)) == if AcceptsAll(q.filters, u) then map[u.id := u] else map[v.id := v]
  {
    hide AcceptsAll;
    var bs := SelectAll(q, Arrival(u) + Arrival(v));
    assert [u][1..] == [] && [v][1..] == [] && Select(q, []) == [] && [u] + [] == [u] && [v] + [] == [v];
    var us: seq<Value> := if AcceptsAll(q.filters, u) then [u] else [];
    assert Select(q, [u]) == us && Select(q, [v]) == [v];
    assert bs == [Batch(us, false), Batch([v], false)] && bs[1..] == [Batch([v], false)] && bs[1..][1..] == [];
    var none: CountMap := map[];
    var op1 := OnBatch(Empty(), pack, bs[0]);
    var op2 := OnBatch(op1, pack, bs[1]);
    assert OnBatches(op2, pack, []) == op2 && OnBatches(op1, pack, bs[1..]) == op2;
    CountSingle(none, u);
    CountSingle(op1.values, v);
    if us == [] {
      assert op1.values == none;
      assert AddOne(none, v) == map[v.id := Counted(v, 1)];
    } else {
      assert op1.values == AddOne(none, u) == map[u.id := Counted(u, 1)];
      assert AddOne(op1.values, v) == map[u.id := Counted(u, 2)];
    }
  }

  lemma {:induction false} CountSingle(m: CountMap, v: Value)
    ensures CountBatch(m, [v], false).0 == AddOne(m, v) && CountBatch(m, [], false).0 == m
  {
    assert [v][1..] == [];
  }

  /**
   Whatever arrives, also different values under one id: sharing from the start shows what a
   dedicated operation shows exactly when nothing leaks and nothing clashes.
   */
  lemma {:induction false} SharesFromStartIff(f: Filter, q: Query, other: Query, pack: Value -> Blob)
    requires IsSatisfiedBy(q, other) && !q.none
    ensures SharesFromStart(f, q, other, pack) <==> NoLeak(f, q, other, pack) && NoClash(f, q, other, pack)
  {
    hide IsSatisfiedBy, AcceptsAll, Seen, BoxFilter, OnBatches, SelectAll, Tracks;
    if NoLeak(f, q, other, pack) && NoClash(f, q, other, pack) {
      forall bs
        ensures Seen(f, other, pack, bs) == Seen(f, q, pack, bs)
      {
        SeenIs(f, other, pack, bs);
        SeenIs(f, q, pack, bs);
        StartTracks(q, other);
        BatchesTrack(Empty(), Empty(), pack, q, other, bs);
        TracksShowSame(f, q, other, pack, OnBatches(Empty(), pack, SelectAll(other, bs)).values,
                       OnBatches(Empty(), pack, SelectAll(q, bs)).values);
      }
    } else if !NoLeak(f, q, other, pack) {
      var v :| AcceptsAll(other.filters, v) && HandsOn(f, pack, v) && !AcceptsAll(q.filters, v);
      SeenAfterArrival(f, q, pack, v);
      SeenAfterArrival(f, other, pack, v);
      assert v.id in Seen(f, other, pack, Arrival(v)).value;
    } else {
      var v :| AcceptsAll(q.filters, v) && HandsOn(f, pack, v) && !Clean(q, other, v.id);
      var u: Value :| u.id == v.id && AcceptsAll(other.filters, u) && !AcceptsAll(q.filters, u);
      ClashShows(f, q, other, pack, u, v);
      assert v.id in map[v.id := v];
      assert Seen(f, other, pack, Arrival(u) + Arrival(v)) != Seen(f, q, pack, Arrival(u) + Arrival(v));
    }
  }

  lemma {:induction false} StartTracks(q: Query, other: Query)
    requires IsSatisfiedBy(q, other) && !q.none
    ensures Tracks(Empty().values, Empty().values, q, other)
    ensures forall v :: AcceptsAll(q.filters, v) ==> AcceptsAll(other.filters, v)
  {
    hide IsSatisfiedBy, AcceptsAll;
    forall v | AcceptsAll(q.filters, v)
      ensures AcceptsAll(other.filters, v)
    {
      SatisfyingIsWeaker(q, other, v);
    }
  }

  lemma {:induction false} ClashShows(f: Filter, q: Query, other: Query, pack: Value -> Blob, u: Value, v: Value)
    requires IsSatisfiedBy(q, other) && !q.none && NoLeak(f, q, other, pack) && u.id == v.id
    requires AcceptsAll(other.filters, u) && !AcceptsAll(q.filters, u) && AcceptsAll(q.filters, v) && HandsOn(f, pack, v)
    ensures Seen(f, other, pack, Arrival(u) + Arrival(v)) == Some(map[])
    ensures Seen(f, q, pack, Arrival(u) + Arrival(v)) == Some(map[v.id := v])
  {
    hide IsSatisfiedBy, AcceptsAll, Seen, BoxFilter, KnownTo;
    SatisfyingIsWeaker(q, other, v);
    KnownAfterEdit(q, pack, u, v);
    KnownAfterEdit(other, pack, u, v);
    var bs, g := Arrival(u) + Arrival(v), BoxFilter(f, pack);
    SeenIs(f, other, pack, bs);
    SeenIs(f, q, pack, bs);
    assert !HandsOn(f, pack, u);
    assert Passing(map[u.id := u], g) == map[];
    assert Passing(map[v.id := v], g) == map[v.id := v];
  }

  /** Where an id names one value, it is enough that nothing leaks, and that is needed too. */
  lemma {:induction false} SharesWithoutEditsIff(f: Filter, q: Query, other: Query, pack: Value -> Blob)
    requires IsSatisfiedBy(q, other) && !q.none
    ensures SharesWithoutEdits(f, q, other, pack) <==> NoLeak(f, q, other, pack)
  {
    hide IsSatisfiedBy, AcceptsAll, Seen, KnownTo, FromWorld, BoxFilter;
    if NoLeak(f, q, other, pack) {
      forall world, bs | FromWorld(world, bs)
        ensures Seen(f, other, pack, bs) == Seen(f, q, pack, bs)
      {
        SeenIs(f, other, pack, bs);
        SeenIs(f, q, pack, bs);
        KnownRestricts(q, other, pack, world, bs);
        var g := BoxFilter(f, pack);
        assert Passing(KnownTo(other, pack, bs), g) == Passing(KnownTo(q, pack, bs), g);
      }
    } else {
      var v :| AcceptsAll(other.filters, v) && HandsOn(f, pack, v) && !AcceptsAll(q.filters, v);
      ArrivalInWorld(v);
      SeenAfterArrival(f, q, pack, v);
      SeenAfterArrival(f, other, pack, v);
      assert v.id in Seen(f, other, pack, Arrival(v)).value;
    }
  }

  // ----- joining at any time

  lemma {:induction false} KeyedBatches(op: Op, pack: Value -> Blob, bs: seq<Batch>)
    requires KeyedOp(op)
    ensures KeyedOp(OnBatches(op, pack, bs))
    decreases |bs|
  {
    if bs != [] {
      CountBatchReports(op.values, bs[0].vals, bs[0].expired);
      KeyedBatches(OnBatch(op, pack, bs[0]), pack, bs[1..]);
    }
  }

  lemma {:induction false} KnownLate(q: Query, pack: Value -> Blob, pre: seq<Batch>, post: seq<Batch>, op: Op)
    requires op.values == OnBatches(Empty(), pack, SelectAll(q, pre)).values
    ensures Known(OnBatches(op, pack, SelectAll(q, post)).values) == KnownTo(q, pack, pre + post)
  {
    hide OnBatches, SelectAll;
    SelectConcat(q, pre, post);
    OnBatchesConcat(Empty(), pack, SelectAll(q, pre), SelectAll(q, post));
    ListenersDoNotMatter(op, OnBatches(Empty(), pack, SelectAll(q, pre)), pack, SelectAll(q, post));
  }

  /** A listener that joins late is exact for boxes if its filter passes the known values as it passes their boxes. */
  lemma {:induction false} SeenLateIs(f: Filter, q: Query, pack: Value -> Blob, pre: seq<Batch>, post: seq<Batch>, cached: seq<Value>)
    requires IsCached(f, q, pack, pre, cached)
    requires Passing(KnownTo(q, pack, pre), f) == Passing(KnownTo(q, pack, pre), BoxFilter(f, pack))
    ensures SeenLate(f, q, pack, pre, post, cached) == Some(Passing(KnownTo(q, pack, pre + post), BoxFilter(f, pack)))
  {
    hide OnBatches, SelectAll, Passing, BoxFilter, Deliver, Replay;
    var op := OnBatches(Empty(), pack, SelectAll(q, pre));
    var l := Listener(f, if cached == [] then [] else [Batch(cached, false)]);
    var joined := op.(listeners := map[0 := l]);
    KeyedBatches(Empty(), pack, SelectAll(q, pre));
    OneBatch(map[], cached, false);
    BatchesBoxed(joined, pack, SelectAll(q, post), 0);
    KnownLate(q, pack, pre, post, joined);
  }

  lemma {:induction false} NothingKnown(f: Filter, q: Query, pack: Value -> Blob)
    ensures IsCached(f, q, pack, [], [])
    ensures Passing(KnownTo(q, pack, []), f) == Passing(KnownTo(q, pack, []), BoxFilter(f, pack))
  {
    assert SelectAll(q, []) == [];
    assert KnownTo(q, pack, []) == map[];
    assert Passing(map[], f) == map[] == Passing(map[], BoxFilter(f, pack));
  }

  /** Joining v when it is known already: it is shown exactly if the filter accepts v itself. */
  lemma {:induction false} SeenJoining(f: Filter, q: Query, pack: Value -> Blob, v: Value)
    requires AcceptsAll(q.filters, v)
    ensures var cached := if Accepts(f, v) then [v] else [];
            IsCached(f, q, pack, Arrival(v), cached) &&
            SeenLate(f, q, pack, Arrival(v), [], cached) == Some(if Accepts(f, v) then map[v.id := v] else map[])
  {
    hide AcceptsAll;
    KnownAfterArrival(q, pack, v);
    var cached := if Accepts(f, v) then [v] else [];
    var w := KnownTo(q, pack, Arrival(v));
    assert Passing(w, f) == if Accepts(f, v) then map[v.id := v] else map[];
    var none: map<nat, Value> := map[];
    assert [v][1..] == [] && none[v.id := v] == map[v.id := v];
    assert Deliver(map[], cached, false) == Some(Passing(w, f));
    OneBatch(map[], cached, false);
    assert SelectAll(q, []) == [];
  }

  /** An operation knows only what its query accepts. */
  lemma {:induction false} KnownAccepted(q: Query, pack: Value -> Blob, bs: seq<Batch>)
    ensures forall k :: k in KnownTo(q, pack, bs) ==> AcceptsAll(q.filters, KnownTo(q, pack, bs)[k])
  {
    hide AcceptsAll, OnBatches, SelectAll;
    SelfTracks(q);
    BatchesTrack(Empty(), Empty(), pack, q, q, bs);
  }

  lemma {:induction false} SelfTracks(q: Query)
    ensures Tracks(Empty().values, Empty().values, q, q)
  {
    hide AcceptsAll;
  }

  /** Where the filter agrees on boxes with what the operation brings, it passes the same of what is known. */
  lemma {:induction false} AgreesOnKnown(f: Filter, q: Query, pack: Value -> Blob, bs: seq<Batch>)
    requires AgreesOn(f, q, pack)
    ensures Passing(KnownTo(q, pack, bs), f) == Passing(KnownTo(q, pack, bs), BoxFilter(f, pack))
  {
    hide AcceptsAll, KnownTo, BoxFilter;
    var w := KnownTo(q, pack, bs);
    KnownAccepted(q, pack, bs);
    forall k | k in w
      ensures Accepts(f, w[k]) <==> Accepts(BoxFilter(f, pack), w[k])
    {
      assert HandsOn(f, pack, w[k]) <==> Accepts(BoxFilter(f, pack), w[k]);
    }
    assert Passing(w, f) == Passing(w, BoxFilter(f, pack));
  }

  /** To be there from the start is to join before anything is known. */
  lemma {:induction false} StartIsLate(f: Filter, q: Query, pack: Value -> Blob, bs: seq<Batch>)
    ensures IsCached(f, q, pack, [], []) && SeenLate(f, q, pack, [], bs, []) == Seen(f, q, pack, bs)
  {
    hide Seen, SeenLate, KnownTo, BoxFilter, IsCached;
    NothingKnown(f, q, pack);
    SeenLateIs(f, q, pack, [], bs, []);
    assert [] + bs == bs;
    SeenIs(f, q, pack, bs);
  }

  /** A value about which the filter answers differently shows when it is known before the listener joins. */
  lemma {:induction false} DisagreementShows(f: Filter, q: Query, other: Query, pack: Value -> Blob, v: Value)
    requires AcceptsAll(other.filters, v) && (Accepts(f, v) != HandsOn(f, pack, v)) && NoLeak(f, q, other, pack)
    ensures !SharesAlways(f, q, other, pack)
  {
    hide AcceptsAll, Seen, SeenLate, IsCached, BoxFilter;
    var cached := if Accepts(f, v) then [v] else [];
    SeenJoining(f, other, pack, v);
    SeenAfterArrival(f, q, pack, v);
    assert Arrival(v) + [] == Arrival(v);
    assert v.id in map[v.id := v];
    assert IsCached(f, other, pack, Arrival(v), cached);
    assert SeenLate(f, other, pack, Arrival(v), [], cached) != Seen(f, q, pack, Arrival(v) + []);
  }

  /**
   At any time and whatever arrives, sharing shows what a dedicated operation shows exactly when nothing leaks,
   nothing clashes, and the filter agrees on boxes.
   */
  lemma {:induction false} SharesAlwaysIff(f: Filter, q: Query, other: Query, pack: Value -> Blob)
    requires IsSatisfiedBy(q, other) && !q.none
    ensures SharesAlways(f, q, other, pack) <==>
            NoLeak(f, q, other, pack) && NoClash(f, q, other, pack) && AgreesOn(f, other, pack)
  {
    hide IsSatisfiedBy, AcceptsAll, Seen, SeenLate, KnownTo, BoxFilter, IsCached, NoLeak, NoClash, HandsOn;
    SharesFromStartIff(f, q, other, pack);
    if SharesFromStart(f, q, other, pack) && AgreesOn(f, other, pack) {
      forall pre, post, cached | IsCached(f, other, pack, pre, cached)
        ensures SeenLate(f, other, pack, pre, post, cached) == Seen(f, q, pack, pre + post)
      {
        AgreesOnKnown(f, other, pack, pre);
        SeenLateIs(f, other, pack, pre, post, cached);
        SeenIs(f, other, pack, pre + post);
      }
    } else if !SharesFromStart(f, q, other, pack) {
      var bs :| Seen(f, other, pack, bs) != Seen(f, q, pack, bs);
      StartIsLate(f, other, pack, bs);
      assert [] + bs == bs;
      assert SeenLate(f, other, pack, [], bs, []) != Seen(f, q, pack, [] + bs);
    } else {
      var v :| AcceptsAll(other.filters, v) && (Accepts(f, v) != HandsOn(f, pack, v));
      DisagreementShows(f, q, other, pack, v);
    }
  }

  // ----- exact service

  /** A listener of an operation of query q has outstanding exactly the known values that its filter accepts. */
  ghost predicate ServedBy(f: Filter, q: Query, pack: Value -> Blob) {
    forall pre, post, cached :: IsCached(f, q, pack, pre, cached) ==>
      SeenLate(f, q, pack, pre, post, cached) == Some(Passing(KnownTo(q, pack, pre + post), f))
  }

  /** An operation that brings what its query accepts serves a filter exactly if and only if the filter agrees on boxes there. */
  lemma {:induction false} ServedIff(f: Filter, q: Query, pack: Value -> Blob)
    ensures ServedBy(f, q, pack) <==> AgreesOn(f, q, pack)
  {
    hide AcceptsAll, Seen, SeenLate, KnownTo, BoxFilter, IsCached, HandsOn, Passing;
    if AgreesOn(f, q, pack) {
      forall pre, post, cached | IsCached(f, q, pack, pre, cached)
        ensures SeenLate(f, q, pack, pre, post, cached) == Some(Passing(KnownTo(q, pack, pre + post), f))
      {
        AgreesOnKnown(f, q, pack, pre);
        AgreesOnKnown(f, q, pack, pre + post);
        SeenLateIs(f, q, pack, pre, post, cached);
      }
    } else {
      var v :| AcceptsAll(q.filters, v) && (Accepts(f, v) != HandsOn(f, pack, v));
      MisservedShows(f, q, pack, v);
    }
  }

  lemma {:induction false} MisservedShows(f: Filter, q: Query, pack: Value -> Blob, v: Value)
    requires AcceptsAll(q.filters, v) && (Accepts(f, v) != HandsOn(f, pack, v))
    ensures !ServedBy(f, q, pack)
  {
    hide AcceptsAll, Seen, SeenLate, KnownTo, BoxFilter, IsCached;
    StartIsLate(f, q, pack, Arrival(v));
    SeenAfterArrival(f, q, pack, v);
    KnownAfterArrival(q, pack, v);
    assert [] + Arrival(v) == Arrival(v);
    assert v.id in Passing(map[v.id := v], f) <==> Accepts(f, v);
    assert v.id in map[v.id := v];
    assert SeenLate(f, q, pack, [], Arrival(v), []) != Some(Passing(KnownTo(q, pack, [] + Arrival(v)), f));
  }

  // ----- listeners without a filter of their own

  /** A box has constant fields, so q accepts all boxes or none. */
  predicate AcceptsBoxes(q: Query) {
    AcceptsAll(q.filters, Boxed(Value(0, 0, None, 0, 0, [], [], 0, [], []), []))
  }

  lemma {:induction false} BoxesAlike(q: Query, v: Value, packed: Blob)
    ensures AcceptsAll(q.filters, Boxed(v, packed)) <==> AcceptsBoxes(q)
  {
    var w := Boxed(Value(0, 0, None, 0, 0, [], [], 0, [], []), []);
    forall i | 0 <= i < |q.filters|
      ensures Accepts(LocalFilter(q.filters[i]), Boxed(v, packed)) <==> Accepts(LocalFilter(q.filters[i]), w)
    {
    }
  }

  lemma {:induction false} QueryHandsOn(q: Query, pack: Value -> Blob, v: Value)
    ensures HandsOn(QueryFilter(q), pack, v) <==> AcceptsBoxes(q)
    ensures Accepts(QueryFilter(q), v) <==> AcceptsAll(q.filters, v)
  {
    ChainAccepts(None, q, v);
    ChainAccepts(None, q, Boxed(v, pack(v)));
    BoxesAlike(q, v, pack(v));
  }

  /**
   A listener that has only its query: sharing from the start is exact if and only if q refuses
   boxes (then it is shown nothing either way), or accepts all that the shared query accepts.
   Joining at any time is exact if and only if, of the values of the shared query, q accepts all
   and boxes too, or none and no box.
   */
  lemma {:induction false} QuerySharesIff(q: Query, other: Query, pack: Value -> Blob)
    requires IsSatisfiedBy(q, other) && !q.none
    ensures SharesFromStart(QueryFilter(q), q, other, pack) <==>
            !AcceptsBoxes(q) || forall v :: AcceptsAll(other.filters, v) ==> AcceptsAll(q.filters, v)
    ensures SharesAlways(QueryFilter(q), q, other, pack) <==>
            forall v :: AcceptsAll(other.filters, v) ==> (AcceptsAll(q.filters, v) <==> AcceptsBoxes(q))
  {
    hide IsSatisfiedBy, AcceptsAll, QueryFilter, SharesFromStart, SharesAlways, HandsOn, AcceptsBoxes;
    SharesFromStartIff(QueryFilter(q), q, other, pack);
    SharesAlwaysIff(QueryFilter(q), q, other, pack);
    forall v
      ensures HandsOn(QueryFilter(q), pack, v) <==> AcceptsBoxes(q)
      ensures Accepts(QueryFilter(q), v) <==> AcceptsAll(q.filters, v)
    {
      QueryHandsOn(q, pack, v);
    }
  }

  /** On an operation of its own, such a listener is served exactly if and only if q accepts boxes or accepts nothing. */
  lemma {:induction false} QueryServedIff(q: Query, pack: Value -> Blob)
    ensures ServedBy(QueryFilter(q), q, pack) <==> AcceptsBoxes(q) || forall v :: !AcceptsAll(q.filters, v)
  {
    hide AcceptsAll, QueryFilter, ServedBy, HandsOn, AcceptsBoxes;
    ServedIff(QueryFilter(q), q, pack);
    forall v
      ensures HandsOn(QueryFilter(q), pack, v) <==> AcceptsBoxes(q)
      ensures Accepts(QueryFilter(q), v) <==> AcceptsAll(q.filters, v)
    {
      QueryHandsOn(q, pack, v);
    }
  }

  /** A query for type 0 that joins an operation for everything is shown values of every type. */
  lemma {:induction false} TypeQueryLeaks(pack: Value -> Blob, v: Value)
    requires v.vtype != 0
    ensures var q := Query([], [FieldValue(TypeField, 0, 0, [])], false);
            var other := Query([], [], false);
            && IsSatisfiedBy(q, other) && !q.none
            && Seen(QueryFilter(q), other, pack, Arrival(v)) == Some(map[v.id := v])
            && Seen(QueryFilter(q), q, pack, Arrival(v)) == Some(map[])
            && !SharesFromStart(QueryFilter(q), q, other, pack)
  {
    hide Seen, SharesFromStart;
    var q := Query([], [FieldValue(TypeField, 0, 0, [])], false);
    var other := Query([], [], false);
    QueryHandsOn(q, pack, v);
    SeenAfterArrival(QueryFilter(q), other, pack, v);
    SeenAfterArrival(QueryFilter(q), q, pack, v);
    assert !Accepts(LocalFilter(q.filters[0]), v);
    SharesFromStartIff(QueryFilter(q), q, other, pack);
  }
}
