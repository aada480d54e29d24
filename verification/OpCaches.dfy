/**
 `OpValueCache` and `OpCache`: the values reported by all remote nodes of one
 listen operation, counted by how many nodes hold them, and the listeners that
 share the operation.
 */
module OpCaches {
  import opened Prelude
  import opened Values
  import opened ValueCaches

  datatype Counted = Counted(data: Value, refCount: nat)

  type CountMap = map<nat, Counted>

  /** log is everything the listener's callback has been called with. */
  datatype Listener = Listener(filter: Filter, log: seq<Batch>)

  datatype Op = Op(values: CountMap, nodes: int, syncedNodes: int, listeners: map<nat, Listener>)

  function NodeChanged(op: Op, status: SyncStatus): (r: Op) {
    var c := Change(Tally(op.nodes, op.syncedNodes), status);
    op.(nodes := c.nodes, syncedNodes := c.synced)
  }

  /** The statuses of one event, one after the other. */
  function NodesChanged(op: Op, ss: seq<SyncStatus>): (r: Op)
    decreases |ss|
  {
    if ss == [] then op else NodeChanged(NodesChanged(op, ss[..|ss| - 1]), ss[|ss| - 1])
  }

  lemma {:induction false} NodesChangedTally(op: Op, ss: seq<SyncStatus>)
    ensures var c := Changes(Tally(op.nodes, op.syncedNodes), ss);
            NodesChanged(op, ss) == op.(nodes := c.nodes, syncedNodes := c.synced)
    decreases |ss|
  {
    if ss != [] {
      NodesChangedTally(op, ss[..|ss| - 1]);
    }
  }

  function Known(m: CountMap): (w: map<nat, Value>) {
    map k | k in m :: m[k].data
  }

  // ----- counting

  function AddOne(m: CountMap, v: Value): (r: CountMap) {
    if v.id in m then m[v.id := m[v.id].(refCount := m[v.id].refCount + 1)] else m[v.id := Counted(v, 1)]
  }

  function ExpireOne(m: CountMap, v: Value): (r: CountMap) {
    if v.id !in m then m
    else if m[v.id].refCount <= 1 then m - {v.id}
    else m[v.id := m[v.id].(refCount := m[v.id].refCount - 1)]
  }

  function CountOne(m: CountMap, v: Value, expired: bool): (r: CountMap) {
    if expired then ExpireOne(m, v) else AddOne(m, v)
  }

  /** What is handed on: a value that came first, or the one known that went last. */
  function HandedOn(m: CountMap, v: Value, expired: bool): (r: seq<Value>) {
    if expired then if v.id in m && m[v.id].refCount <= 1 then [m[v.id].data] else []
    else if v.id in m then [] else [v]
  }

  /** Counts after a batch, and the values that came first or went last. */
  function CountBatch(m: CountMap, vals: seq<Value>, expired: bool): (r: (CountMap, seq<Value>))
    decreases |vals|
  {
    if vals == [] then (m, [])
    else
      var (m', out) := CountBatch(CountOne(m, vals[0], expired), vals[1..], expired);
      (m', HandedOn(m, vals[0], expired) + out)
  }

  ghost predicate KeyedCounts(m: CountMap) {
    forall k :: k in m ==> m[k].data.id == k
  }

  lemma {:induction false} CountOneReports(m: CountMap, v: Value, expired: bool)
    requires KeyedCounts(m)
    ensures KeyedCounts(CountOne(m, v, expired))
    ensures Deliver(Known(m), HandedOn(m, v, expired), expired) == Some(Known(CountOne(m, v, expired)))
  {
    var m1, out := CountOne(m, v, expired), HandedOn(m, v, expired);
    if out == [] {
      assert Known(m1) == Known(m);
    } else {
      assert out[1..] == [];
      assert Known(m1) == if expired then Known(m) - {v.id} else Known(m)[v.id := v];
    }
  }

  /** Each batch handed on is a correct report of the change of the known values. */
  lemma {:induction false} CountBatchReports(m: CountMap, vals: seq<Value>, expired: bool)
    requires KeyedCounts(m)
    ensures var (m', out) := CountBatch(m, vals, expired);
            KeyedCounts(m') && Deliver(Known(m), out, expired) == Some(Known(m'))
    decreases |vals|
  {
    hide KeyedCounts, Known, Deliver, CountOne, HandedOn;
    if vals == [] {
      NoReport(Known(m), expired);
    } else {
      var m1 := CountOne(m, vals[0], expired);
      CountOneReports(m, vals[0], expired);
      CountBatchReports(m1, vals[1..], expired);
      DeliverConcat(Known(m), HandedOn(m, vals[0], expired), CountBatch(m1, vals[1..], expired).1, expired);
    }
  }

  lemma {:induction false} NoReport(w: map<nat, Value>, expired: bool)
    ensures Deliver(w, [], expired) == Some(w)
  {
  }

  // ----- listeners

  /** `Value::Filter::filter`: an empty filter passes the batch on, any other one is asked about the boxed values. */
  function FilterBatch(f: Filter, pack: Value -> Blob, vals: seq<Value>): (r: seq<Value>) {
    if f.None? then vals
    else if vals == [] then []
    else (if f.value(Boxed(vals[0], pack(vals[0]))) then [vals[0]] else []) + FilterBatch(f, pack, vals[1..])
  }

  function FanOut(ls: map<nat, Listener>, pack: Value -> Blob, b: Batch): (r: map<nat, Listener>) {
    map t | t in ls :: ls[t].(log := ls[t].log + [Batch(FilterBatch(ls[t].filter, pack, b.vals), b.expired)])
  }

  /** `OpCache::onValue`. */
  function OnBatch(op: Op, pack: Value -> Blob, b: Batch): (r: Op) {
    var (m, out) := CountBatch(op.values, b.vals, b.expired);
    op.(values := m, listeners := if out == [] then op.listeners else FanOut(op.listeners, pack, Batch(out, b.expired)))
  }

  function OnBatches(op: Op, pack: Value -> Blob, bs: seq<Batch>): (r: Op)
    decreases |bs|
  {
    if bs == [] then op else OnBatches(OnBatch(op, pack, bs[0]), pack, bs[1..])
  }

  /** The known values that a filter accepts, as `OpValueCache::get` finds them. */
  function Passing(w: map<nat, Value>, f: Filter): (r: map<nat, Value>) {
    map k | k in w && Accepts(f, w[k]) :: w[k]
  }

  /** The filter cannot tell a value from its box. */
  ghost predicate Agrees(f: Filter, pack: Value -> Blob) {
    f.None? || forall v :: f.value(v) == f.value(Boxed(v, pack(v)))
  }

  /** The listener's log is in order and leaves outstanding exactly the known values it accepts. */
  ghost predicate Exact(l: Listener, w: map<nat, Value>) {
    Replay(map[], l.log) == Some(Passing(w, l.filter))
  }

  /** What the fan-out really asks: the filter's answer about the box of a value. */
  function BoxFilter(f: Filter, pack: Value -> Blob): (g: Filter) {
    if f.None? then None else Some((v: Value) => f.value(Boxed(v, pack(v))))
  }

  /** The log is in order and leaves outstanding the known values that g accepts. */
  ghost predicate ExactFor(l: Listener, g: Filter, w: map<nat, Value>) {
    Replay(map[], l.log) == Some(Passing(w, g))
  }

  lemma {:induction false} AgreesPasses(f: Filter, pack: Value -> Blob, w: map<nat, Value>)
    requires Agrees(f, pack)
    ensures Passing(w, BoxFilter(f, pack)) == Passing(w, f)
  {
    forall k | k in w
      ensures Accepts(BoxFilter(f, pack), w[k]) <==> Accepts(f, w[k])
    {
    }
    assert Passing(w, BoxFilter(f, pack)) == Passing(w, f);
  }

  lemma {:induction false} DeliverFiltered(w: map<nat, Value>, vals: seq<Value>, expired: bool, f: Filter, pack: Value -> Blob)
    requires Deliver(w, vals, expired).Some?
    ensures var g := BoxFilter(f, pack);
            Deliver(Passing(w, g), FilterBatch(f, pack, vals), expired) == Some(Passing(Deliver(w, vals, expired).value, g))
    decreases |vals|
  {
    hide Passing;
    var g := BoxFilter(f, pack);
    if f.None? {
      PassingAll(w, g);
      PassingAll(Deliver(w, vals, expired).value, g);
    } else if vals != [] {
      var v := vals[0];
      var w1 := DeliverOne(w, v, expired).value;
      DeliverFiltered(w1, vals[1..], expired, f, pack);
      PassingStep(w, v, expired, g);
      var rest := FilterBatch(f, pack, vals[1..]);
      assert ([v] + rest)[1..] == rest && [] + rest == rest;
    }
  }

  lemma {:induction false} PassingAll(w: map<nat, Value>, f: Filter)
    requires f.None?
    ensures Passing(w, f) == w
  {
  }

  lemma {:induction false} PassingStep(w: map<nat, Value>, v: Value, expired: bool, f: Filter)
    requires DeliverOne(w, v, expired).Some?
    ensures var w1 := DeliverOne(w, v, expired).value;
            if Accepts(f, v) then DeliverOne(Passing(w, f), v, expired) == Some(Passing(w1, f))
            else Passing(w1, f) == Passing(w, f)
  {
    var w1 := DeliverOne(w, v, expired).value;
    if Accepts(f, v) {
      assert Passing(w1, f) == if expired then Passing(w, f) - {v.id} else Passing(w, f)[v.id := v];
    } else {
      assert Passing(w1, f) == Passing(w, f);
    }
  }

  lemma {:induction false} FanOutBoxed(ls: map<nat, Listener>, pack: Value -> Blob, b: Batch, t: nat, w: map<nat, Value>)
    requires t in ls && ExactFor(ls[t], BoxFilter(ls[t].filter, pack), w) && Deliver(w, b.vals, b.expired).Some?
    ensures ExactFor(FanOut(ls, pack, b)[t], BoxFilter(ls[t].filter, pack), Deliver(w, b.vals, b.expired).value)
  {
    hide Deliver, Replay, FilterBatch, Passing;
    var l := ls[t];
    var last := Batch(FilterBatch(l.filter, pack, b.vals), b.expired);
    DeliverFiltered(w, b.vals, b.expired, l.filter, pack);
    ReplayConcat(map[], l.log, [last]);
    SingleReplay(Passing(w, BoxFilter(l.filter, pack)), last);
  }

  lemma {:induction false} FanOutExact(ls: map<nat, Listener>, pack: Value -> Blob, b: Batch, t: nat, w: map<nat, Value>)
    requires t in ls && Agrees(ls[t].filter, pack) && Exact(ls[t], w) && Deliver(w, b.vals, b.expired).Some?
    ensures Exact(FanOut(ls, pack, b)[t], Deliver(w, b.vals, b.expired).value)
  {
    hide Deliver, Replay, FilterBatch, Passing, Agrees, BoxFilter;
    AgreesPasses(ls[t].filter, pack, w);
    AgreesPasses(ls[t].filter, pack, Deliver(w, b.vals, b.expired).value);
    FanOutBoxed(ls, pack, b, t, w);
  }

  lemma {:induction false} SingleReplay(w: map<nat, Value>, b: Batch)
    ensures Replay(w, [b]) == Deliver(w, b.vals, b.expired)
  {
    assert [b][1..] == [];
  }

  ghost predicate KeyedOp(op: Op) {
    KeyedCounts(op.values)
  }

  ghost predicate AllExact(op: Op, pack: Value -> Blob) {
    forall t :: t in op.listeners && Agrees(op.listeners[t].filter, pack) ==> Exact(op.listeners[t], Known(op.values))
  }

  /** Every listener whose filter agrees on boxes stays exact, whatever batch arrives. */
  lemma {:induction false} OnBatchExact(op: Op, pack: Value -> Blob, b: Batch)
    requires KeyedOp(op) && AllExact(op, pack)
    ensures KeyedOp(OnBatch(op, pack, b)) && AllExact(OnBatch(op, pack, b), pack)
    ensures OnBatch(op, pack, b).listeners.Keys == op.listeners.Keys
    ensures forall t :: t in op.listeners ==> OnBatch(op, pack, b).listeners[t].filter == op.listeners[t].filter
  {
    hide Deliver, Agrees, Exact, CountBatch, FilterBatch;
    var (m, out) := CountBatch(op.values, b.vals, b.expired);
    CountBatchReports(op.values, b.vals, b.expired);
    if out == [] {
      NoReport(Known(op.values), b.expired);
    } else {
      forall t | t in op.listeners && Agrees(op.listeners[t].filter, pack)
        ensures Exact(FanOut(op.listeners, pack, Batch(out, b.expired))[t], Known(m))
      {
        FanOutExact(op.listeners, pack, Batch(out, b.expired), t, Known(op.values));
      }
    }
  }

  /** Whatever batch arrives, a listener that is exact for its filter asked about boxes stays so. */
  lemma {:induction false} OnBatchBoxed(op: Op, pack: Value -> Blob, b: Batch, t: nat)
    requires KeyedOp(op) && t in op.listeners && ExactFor(op.listeners[t], BoxFilter(op.listeners[t].filter, pack), Known(op.values))
    ensures var op' := OnBatch(op, pack, b);
            && KeyedOp(op') && t in op'.listeners && op'.listeners[t].filter == op.listeners[t].filter
            && ExactFor(op'.listeners[t], BoxFilter(op.listeners[t].filter, pack), Known(op'.values))
  {
    hide Deliver, ExactFor, CountBatch, FilterBatch, BoxFilter;
    var (m, out) := CountBatch(op.values, b.vals, b.expired);
    CountBatchReports(op.values, b.vals, b.expired);
    if out == [] {
      NoReport(Known(op.values), b.expired);
    } else {
      FanOutBoxed(op.listeners, pack, Batch(out, b.expired), t, Known(op.values));
    }
  }

  /** `OpValueCache::get`. */
  method AcceptedOf(values: CountMap, filter: Filter) returns (ret: seq<Value>)
    requires KeyedCounts(values)
    ensures Deliver(map[], ret, false) == Some(Passing(Known(values), filter))
  {
    ret := [];
    var todo := values.Keys;
    ghost var w := map[];
    while todo != {}
      invariant todo <= values.Keys
      invariant Deliver(map[], ret, false) == Some(w)
      invariant w == map k | k in values && k !in todo && Accepts(filter, values[k].data) :: values[k].data
    {
      var id :| id in todo;
      var v := values[id].data;
      if Accepts(filter, v) {
        DeliverSnoc(map[], ret, v, false);
        ret := ret + [v];
        w := w[id := v];
      }
      todo := todo - {id};
    }
    assert w == Passing(Known(values), filter);
  }

  // ----- the object

  class OpCache {
    var values: CountMap
    var nodes: int
    var syncedNodes: int
    var listeners: map<nat, Listener>

    ghost function View(): (op: Op)
      reads this
    {
      Op(values, nodes, syncedNodes, listeners)
    }

    constructor ()
      ensures View() == Op(map[], 0, 0, map[])
    {
      values, nodes, syncedNodes, listeners := map[], 0, 0, map[];
    }

    method Count(vals: seq<Value>, expired: bool) returns (out: seq<Value>)
      modifies this`values
      ensures (values, out) == CountBatch(old(values), vals, expired)
    {
      ghost var m := values;
      out := [];
      assert vals[0..] == vals;
      for i := 0 to |vals|
        invariant CountBatch(m, vals, expired).0 == CountBatch(values, vals[i..], expired).0
        invariant CountBatch(m, vals, expired).1 == out + CountBatch(values, vals[i..], expired).1
      {
        var v := vals[i];
        assert vals[i..][0] == v && vals[i..][1..] == vals[i + 1..];
        ghost var before, sofar := values, out;
        if !expired {
          if v.id !in values {
            values := values[v.id := Counted(v, 1)];
            out := out + [v];
          } else {
            values := values[v.id := values[v.id].(refCount := values[v.id].refCount + 1)];
          }
        } else if v.id in values {
          if values[v.id].refCount <= 1 {
            out := out + [values[v.id].data];
            values := values - {v.id};
          } else {
            values := values[v.id := values[v.id].(refCount := values[v.id].refCount - 1)];
          }
        }
        assert values == if expired then ExpireOne(before, v) else AddOne(before, v);
      }
      assert vals[|vals|..] == [] && out + [] == out;
    }

    method OnValue(pack: Value -> Blob, b: Batch) returns (listening: bool)
      modifies this`values, this`listeners
      ensures View() == OnBatch(old(View()), pack, b)
      ensures listening == (listeners != map[])
    {
      var out := Count(b.vals, b.expired);
      if out != [] {
        listeners := FanOut(listeners, pack, Batch(out, b.expired));
      }
      listening := listeners != map[];
    }

    /** The counters after one status; nothing else changes. */
    method OnNodeChanged(status: SyncStatus)
      modifies this`nodes, this`syncedNodes
      ensures View() == NodeChanged(old(View()), status)
    {
      match status
      case Added => nodes := nodes + 1;
      case Removed => nodes := nodes - 1;
      case Synced => syncedNodes := syncedNodes + 1;
      case Unsynced => syncedNodes := syncedNodes - 1;
    }

    /** The known values that the filter accepts, each once. */
    method Get(filter: Filter) returns (ret: seq<Value>)
      requires KeyedOp(View())
      ensures Deliver(map[], ret, false) == Some(Passing(Known(values), filter))
    {
      ret := AcceptedOf(values, filter);
    }

    /** accepted is what the callback answers when it is shown the values known already. */
    method AddListener(token: nat, filter: Filter, accepted: bool) returns (added: bool, cached: seq<Value>)
      requires KeyedOp(View())
      modifies this`listeners
      ensures Deliver(map[], cached, false) == Some(Passing(Known(values), filter))
      ensures added == (cached == [] || accepted)
      ensures listeners == if added && token !in old(listeners)
                           then old(listeners)[token := Listener(filter, if cached == [] then [] else [Batch(cached, false)])]
                           else old(listeners)
    {
      cached := Get(filter);
      if cached != [] && !accepted {
        return false, cached;
      }
      if token !in listeners {
        listeners := listeners[token := Listener(filter, if cached == [] then [] else [Batch(cached, false)])];
      }
      return true, cached;
    }
  }
}
