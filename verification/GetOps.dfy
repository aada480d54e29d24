/**
 A get runs over two address families that share one status. Values arrive in
 batches from the local store and from both searches; each search ends on its own;
 the user is told of new values, and once that the operation is over.
 */
module GetOps {
  import opened Prelude
  import opened Values

  datatype Family = IPv4 | IPv6

  /** What the operation hears; `goOn` is the answer of the user's get callback, should it be called. */
  datatype Event =
    | Batch(vals: seq<Value>, goOn: bool)
    | Ended(family: Family, ok: bool, nodes: seq<nat>)

  /** What the user hears. */
  datatype Call =
    | GetCall(vals: seq<Value>, goOn: bool)
    | DoneCall(ok: bool, nodes: seq<nat>)

  /** The two family statuses are None until their search has ended. */
  datatype Op = Op(
    done: bool,
    ok: bool,
    status4: Option<bool>,
    status6: Option<bool>,
    values: map<nat, Value>,
    nodes: seq<nat>,
    calls: seq<Call>)

  const START: Op := Op(false, false, None, None, map[], [], [])

  predicate IsNew(seen: map<nat, Value>, v: Value) {
    v.id in seen ==> seen[v.id].ref != v.ref && !SameValue(seen[v.id], v)
  }

  function NewOnes(seen: map<nat, Value>, vals: seq<Value>): (r: seq<Value>)
    decreases |vals|
  {
    if vals == [] then []
    else (if IsNew(seen, vals[0]) then [vals[0]] else []) + NewOnes(seen, vals[1..])
  }

  function Remember(seen: map<nat, Value>, vals: seq<Value>): (r: map<nat, Value>)
    decreases |vals|
  {
    if vals == [] then seen else Remember(seen[vals[0].id := vals[0]], vals[1..])
  }

  function Truth(o: Option<bool>): bool {
    o.Some? && o.value
  }

  /** `doneCallbackWrapper`; hasDone tells whether the user gave a done callback. */
  function Finish(s: Op, hasDone: bool, nodes: seq<nat>): (r: Op) {
    if s.done then s
    else
      var all := s.nodes + nodes;
      if s.ok || (s.status4.Some? && s.status6.Some?) then
        var call := DoneCall(s.ok || Truth(s.status4) || Truth(s.status6), all);
        s.(done := true, nodes := all, calls := s.calls + if hasDone then [call] else [])
      else s.(nodes := all)
  }

  function Step(s: Op, hasDone: bool, e: Event): (r: Op) {
    match e
    case Batch(vals, goOn) =>
      if s.done then s
      else
        var new' := NewOnes(s.values, vals);
        if new' == [] then Finish(s, hasDone, [])
        else
          Finish(s.(ok := !goOn, values := Remember(s.values, new'), calls := s.calls + [GetCall(new', goOn)]), hasDone, [])
    case Ended(f, ok, nodes) =>
      Finish(if f.IPv4? then s.(status4 := Some(ok)) else s.(status6 := Some(ok)), hasDone, nodes)
  }

  function Run(s: Op, hasDone: bool, es: seq<Event>): (r: Op)
    decreases |es|
  {
    if es == [] then s else Step(Run(s, hasDone, es[..|es| - 1]), hasDone, es[|es| - 1])
  }

  // ----- the object

  class GetStatus {
    var done: bool
    var ok: bool
    var status4: Option<bool>
    var status6: Option<bool>
    var values: map<nat, Value>
    var nodes: seq<nat>
    var calls: seq<Call>
    const hasDone: bool

    ghost function State(): (s: Op)
      reads this
    {
      Op(done, ok, status4, status6, values, nodes, calls)
    }

    constructor (hasDoneCallback: bool)
      ensures State() == START && hasDone == hasDoneCallback
    {
      hasDone := hasDoneCallback;
      done, ok, status4, status6 := false, false, None, None;
      values, nodes, calls := map[], [], [];
    }

    method DoneCallbackWrapper(more: seq<nat>)
      modifies this`done, this`nodes, this`calls
      ensures State() == Finish(old(State()), hasDone, more)
    {
      if done {
        return;
      }
      nodes := nodes + more;
      if ok || (status4.Some? && status6.Some?) {
        var result := ok || Truth(status4) || Truth(status6);
        done := true;
        if hasDone {
          calls := calls + [DoneCall(result, nodes)];
        }
      }
      assert calls + [] == calls;
    }

    method AddValues(vals: seq<Value>) returns (new': seq<Value>)
      ensures new' == NewOnes(values, vals)
    {
      hide IsNew;
      new' := [];
      assert vals[0..] == vals;
      for i := 0 to |vals|
        invariant new' + NewOnes(values, vals[i..]) == NewOnes(values, vals)
      {
        assert vals[i..][0] == vals[i] && vals[i..][1..] == vals[i + 1..];
        ghost var rest := NewOnes(values, vals[i + 1..]);
        if IsNew(values, vals[i]) {
          assert new' + ([vals[i]] + rest) == new' + [vals[i]] + rest;
          new' := new' + [vals[i]];
        } else {
          assert [] + rest == rest;
        }
      }
      assert new' + [] == new';
    }

    method CacheValues(vals: seq<Value>)
      modifies this`values
      ensures values == Remember(old(values), vals)
    {
      assert vals[0..] == vals;
      for i := 0 to |vals|
        invariant Remember(values, vals[i..]) == Remember(old(values), vals)
      {
        assert vals[i..][0] == vals[i] && vals[i..][1..] == vals[i + 1..];
        values := values[vals[i].id := vals[i]];
      }
    }

    /** Returns whether the search should go on. */
    method CallbackWrapper(vals: seq<Value>, goOn: bool) returns (more: bool)
      modifies this
      ensures State() == Step(old(State()), hasDone, Batch(vals, goOn))
      ensures more == (!old(done) && !ok)
    {
      if done {
        return false;
      }
      var new' := AddValues(vals);
      if new' != [] {
        calls := calls + [GetCall(new', goOn)];
        ok := !goOn;
        CacheValues(new');
      }
      DoneCallbackWrapper([]);
      return !ok;
    }

    method SearchEnded(family: Family, success: bool, more: seq<nat>)
      modifies this
      ensures State() == Step(old(State()), hasDone, Ended(family, success, more))
    {
      if family.IPv4? {
        status4 := Some(success);
      } else {
        status6 := Some(success);
      }
      DoneCallbackWrapper(more);
    }
  }

  // ----- reference notions, from events and calls alone

  /** How the search of a family ended, if it did. */
  function Outcome(es: seq<Event>, f: Family): (r: Option<bool>)
    decreases |es|
  {
    if es == [] then None
    else
      var e := es[|es| - 1];
      if e.Ended? && e.family == f then Some(e.ok) else Outcome(es[..|es| - 1], f)
  }

  function NodesOf(es: seq<Event>): (r: seq<nat>)
    decreases |es|
  {
    if es == [] then []
    else
      var e := es[|es| - 1];
      NodesOf(es[..|es| - 1]) + if e.Ended? then e.nodes else []
  }

  /** The user's get callback has asked to stop. */
  ghost predicate Refused(calls: seq<Call>) {
    exists i :: 0 <= i < |calls| && calls[i].GetCall? && !calls[i].goOn
  }

  ghost predicate Over(es: seq<Event>, calls: seq<Call>) {
    Refused(calls) || (Outcome(es, IPv4).Some? && Outcome(es, IPv6).Some?)
  }

  function LastWithId(vals: seq<Value>, id: nat): (r: Option<Value>)
    decreases |vals|
  {
    if vals == [] then None
    else if vals[|vals| - 1].id == id then Some(vals[|vals| - 1])
    else LastWithId(vals[..|vals| - 1], id)
  }

  /** The last value with this id that was delivered. */
  function LastDelivered(calls: seq<Call>, id: nat): (r: Option<Value>)
    decreases |calls|
  {
    if calls == [] then None
    else
      var c := calls[|calls| - 1];
      var here := if c.GetCall? then LastWithId(c.vals, id) else None;
      if here.Some? then here else LastDelivered(calls[..|calls| - 1], id)
  }

  ghost predicate NotAgain(calls: seq<Call>, j: nat)
    requires j < |calls|
  {
    calls[j].GetCall? ==>
      calls[j].vals != [] &&
      forall v | v in calls[j].vals :: Differs(LastDelivered(calls[..j], v.id), v)
  }

  predicate Differs(o: Option<Value>, v: Value) {
    o.Some? ==> o.value.ref != v.ref && !SameValue(o.value, v)
  }

  // ----- what holds in every state

  ghost predicate Remembers(seen: map<nat, Value>, calls: seq<Call>) {
    forall id :: RemembersAt(seen, calls, id)
  }

  ghost predicate RemembersAt(seen: map<nat, Value>, calls: seq<Call>, id: nat) {
    LastDelivered(calls, id) == if id in seen then Some(seen[id]) else None
  }

  /** Get calls carry news, and nothing follows a done call. */
  ghost predicate GoodCalls(calls: seq<Call>) {
    && (forall j :: 0 <= j < |calls| ==> NotAgain(calls, j))
    && (forall j :: 0 <= j < |calls| - 1 ==> calls[j].GetCall?)
  }

  ghost predicate Told(es: seq<Event>, s: Op, hasDone: bool) {
    && (s.done <==> Over(es, s.calls))
    && (s.ok <==> Refused(s.calls))
    && (s.calls != [] && s.calls[|s.calls| - 1].DoneCall? <==> s.done && hasDone)
  }

  ghost predicate Tracks(es: seq<Event>, s: Op) {
    && s.status4 == Outcome(es, IPv4) && s.status6 == Outcome(es, IPv6)
    && (!s.done ==> s.nodes == NodesOf(es))
  }

  ghost predicate Inv(es: seq<Event>, s: Op, hasDone: bool) {
    Remembers(s.values, s.calls) && GoodCalls(s.calls) && Told(es, s, hasDone) && Tracks(es, s)
  }

  lemma {:induction false} RememberIs(seen: map<nat, Value>, vals: seq<Value>, id: nat)
    ensures var r := Remember(seen, vals);
            var l := LastWithId(vals, id);
            if l.Some? then id in r && r[id] == l.value else (id in r <==> id in seen) && (id in seen ==> r[id] == seen[id])
    decreases |vals|
  {
    if vals != [] {
      var n := |vals| - 1;
      RememberSnoc(seen, vals[..n], vals[n]);
      assert vals[..n] + [vals[n]] == vals;
      RememberIs(seen, vals[..n], id);
    }
  }

  lemma {:induction false} RememberSnoc(seen: map<nat, Value>, vals: seq<Value>, v: Value)
    ensures Remember(seen, vals + [v]) == Remember(seen, vals)[v.id := v]
    decreases |vals|
  {
    if vals == [] {
      assert [v][1..] == [] && vals + [v] == [v];
    } else {
      assert (vals + [v])[0] == vals[0] && (vals + [v])[1..] == vals[1..] + [v];
      RememberSnoc(seen[vals[0].id := vals[0]], vals[1..], v);
    }
  }

  lemma {:induction false} NewOnesAre(seen: map<nat, Value>, vals: seq<Value>)
    ensures forall v :: v in NewOnes(seen, vals) <==> v in vals && IsNew(seen, v)
    decreases |vals|
  {
    if vals != [] {
      NewOnesAre(seen, vals[1..]);
      assert vals == [vals[0]] + vals[1..];
    }
  }

  /** A batch is filtered value by value, in order. */
  lemma {:induction false} NewOnesInOrder(seen: map<nat, Value>, a: seq<Value>, b: seq<Value>)
    ensures NewOnes(seen, a + b) == NewOnes(seen, a) + NewOnes(seen, b)
    decreases |a|
  {
    hide IsNew;
    if a == [] {
      assert a + b == b;
    } else {
      assert (a + b)[0] == a[0] && (a + b)[1..] == a[1..] + b;
      NewOnesInOrder(seen, a[1..], b);
      Associates(if IsNew(seen, a[0]) then [a[0]] else [], NewOnes(seen, a[1..]), NewOnes(seen, b));
    }
  }

  lemma {:induction false} Associates(x: seq<Value>, y: seq<Value>, z: seq<Value>)
    ensures x + (y + z) == x + y + z
  {
  }

  /** Each new value is delivered as often as the batch holds it. */
  lemma {:induction false} NewOnesCount(seen: map<nat, Value>, vals: seq<Value>, v: Value)
    ensures multiset(NewOnes(seen, vals))[v] == if IsNew(seen, v) then multiset(vals)[v] else 0
    decreases |vals|
  {
    hide IsNew;
    if vals != [] {
      NewOnesCount(seen, vals[1..], v);
      assert vals == [vals[0]] + vals[1..];
      if IsNew(seen, vals[0]) {
        assert multiset(NewOnes(seen, vals)) == multiset{vals[0]} + multiset(NewOnes(seen, vals[1..]));
      } else {
        assert [] + NewOnes(seen, vals[1..]) == NewOnes(seen, vals[1..]);
      }
    }
  }

  lemma {:induction false} AddCall(calls: seq<Call>, c: Call)
    requires GoodCalls(calls) && (calls != [] ==> calls[|calls| - 1].GetCall?)
    requires NotAgain(calls + [c], |calls|)
    ensures GoodCalls(calls + [c])
    ensures Refused(calls + [c]) <==> Refused(calls) || (c.GetCall? && !c.goOn)
  {
    var r := calls + [c];
    forall j | 0 <= j < |r|
      ensures NotAgain(r, j)
    {
      if j < |calls| {
        assert NotAgain(calls, j);
        assert r[..j] == calls[..j];
      }
    }
    if Refused(calls) {
      var i :| 0 <= i < |calls| && calls[i].GetCall? && !calls[i].goOn;
      assert r[i] == calls[i];
    }
    if c.GetCall? && !c.goOn {
      assert r[|calls|] == c;
    }
  }

  lemma {:induction false} GetCallRemembers(seen: map<nat, Value>, calls: seq<Call>, new': seq<Value>, goOn: bool)
    requires Remembers(seen, calls)
    ensures Remembers(Remember(seen, new'), calls + [GetCall(new', goOn)])
  {
    var r := calls + [GetCall(new', goOn)];
    forall id: nat
      ensures RemembersAt(Remember(seen, new'), r, id)
    {
      RememberIs(seen, new', id);
      assert r[..|r| - 1] == calls;
      assert RemembersAt(seen, calls, id);
    }
  }

  lemma {:induction false} DoneCallRemembers(seen: map<nat, Value>, calls: seq<Call>, c: Call)
    requires Remembers(seen, calls) && c.DoneCall?
    ensures Remembers(seen, calls + [c])
  {
    var r := calls + [c];
    forall id: nat
      ensures RemembersAt(seen, r, id)
    {
      assert r[..|r| - 1] == calls;
      assert RemembersAt(seen, calls, id);
    }
  }

  lemma {:induction false} BatchIsNews(seen: map<nat, Value>, calls: seq<Call>, vals: seq<Value>, goOn: bool)
    requires Remembers(seen, calls) && NewOnes(seen, vals) != []
    ensures NotAgain(calls + [GetCall(NewOnes(seen, vals), goOn)], |calls|)
  {
    var new' := NewOnes(seen, vals);
    var r := calls + [GetCall(new', goOn)];
    assert r[..|calls|] == calls;
    NewOnesAre(seen, vals);
    forall v | v in new'
      ensures Differs(LastDelivered(calls, v.id), v)
    {
      assert RemembersAt(seen, calls, v.id);
    }
  }

  /** State between the get callback and the done check: the done flag may lag behind. */
  ghost predicate Lagging(es: seq<Event>, s: Op) {
    && Remembers(s.values, s.calls) && GoodCalls(s.calls)
    && (s.calls != [] ==> s.calls[|s.calls| - 1].GetCall?)
    && (s.ok <==> Refused(s.calls)) && !s.done
    && s.status4 == Outcome(es, IPv4) && s.status6 == Outcome(es, IPv6)
  }

  lemma {:induction false} FinishKeeps(es: seq<Event>, s: Op, hasDone: bool, nodes: seq<nat>)
    requires Lagging(es, s) && s.nodes + nodes == NodesOf(es)
    ensures Inv(es, Finish(s, hasDone, nodes), hasDone)
  {
    hide Remembers, GoodCalls, Outcome, NodesOf, Refused;
    var s' := Finish(s, hasDone, nodes);
    if s'.done && hasDone {
      var c := s'.calls[|s.calls|];
      assert s'.calls == s.calls + [c];
      AddCall(s.calls, c);
      DoneCallRemembers(s.values, s.calls, c);
    } else {
      assert s.calls + [] == s.calls;
    }
  }

  lemma {:induction false} BatchStep(es: seq<Event>, s: Op, hasDone: bool, e: Event)
    requires Inv(es, s, hasDone) && e.Batch?
    ensures Inv(es + [e], Step(s, hasDone, e), hasDone)
  {
    hide Remembers, GoodCalls, Refused, NewOnes, Remember;
    assert (es + [e])[..|es|] == es;
    if !s.done {
      var new' := NewOnes(s.values, e.vals);
      assert s.nodes + [] == s.nodes;
      if new' == [] {
        FinishKeeps(es + [e], s, hasDone, []);
      } else {
        BatchIsNews(s.values, s.calls, e.vals, e.goOn);
        AddCall(s.calls, GetCall(new', e.goOn));
        GetCallRemembers(s.values, s.calls, new', e.goOn);
        var s1 := s.(ok := !e.goOn, values := Remember(s.values, new'), calls := s.calls + [GetCall(new', e.goOn)]);
        FinishKeeps(es + [e], s1, hasDone, []);
      }
    }
  }

  lemma {:induction false} EndedStep(es: seq<Event>, s: Op, hasDone: bool, e: Event)
    requires Inv(es, s, hasDone) && e.Ended?
    ensures Inv(es + [e], Step(s, hasDone, e), hasDone)
  {
    hide Remembers, GoodCalls, Refused;
    assert (es + [e])[..|es|] == es;
    if !s.done {
      var s1 := if e.family.IPv4? then s.(status4 := Some(e.ok)) else s.(status6 := Some(e.ok));
      FinishKeeps(es + [e], s1, hasDone, e.nodes);
    }
  }

  lemma {:induction false} RunKeeps(es: seq<Event>, hasDone: bool)
    ensures Inv(es, Run(START, hasDone, es), hasDone)
    decreases |es|
  {
    hide Inv, Step;
    if es == [] {
      StartKeeps(hasDone);
    } else {
      var n := |es| - 1;
      RunKeeps(es[..n], hasDone);
      assert es[..n] + [es[n]] == es;
      if es[n].Batch? {
        BatchStep(es[..n], Run(START, hasDone, es[..n]), hasDone, es[n]);
      } else {
        EndedStep(es[..n], Run(START, hasDone, es[..n]), hasDone, es[n]);
      }
    }
  }

  lemma {:induction false} StartKeeps(hasDone: bool)
    ensures Inv([], START, hasDone)
  {
    forall id: nat
      ensures RemembersAt(map[], [], id)
    {
    }
  }

  // ----- main results

  /**
   For every interleaving: the done callback has been called if and only if the get callback
   asked to stop or both searches ended; it was called once; nothing was called after it.
   */
  lemma {:induction false} DoneOnceAndLast(es: seq<Event>)
    ensures var calls := Run(START, true, es).calls;
            && ((exists i :: 0 <= i < |calls| && calls[i].DoneCall?) <==> Over(es, calls))
            && (forall i :: 0 <= i < |calls| && calls[i].DoneCall? ==> i == |calls| - 1)
  {
    hide Refused, Outcome, Remembers, NotAgain;
    RunKeeps(es, true);
    var calls := Run(START, true, es).calls;
    if Over(es, calls) {
      assert calls[|calls| - 1].DoneCall?;
    }
  }

  /** No get call repeats what was last delivered for its id by an earlier call. */
  lemma {:induction false} NothingTwice(es: seq<Event>, hasDone: bool, j: nat)
    requires j < |Run(START, hasDone, es).calls|
    ensures NotAgain(Run(START, hasDone, es).calls, j)
  {
    RunKeeps(es, hasDone);
  }

  /** Nothing is withheld: until the end, a batch delivers every value that differs from the last one for its id. */
  lemma {:induction false} NothingWithheld(es: seq<Event>, hasDone: bool, e: Event, v: Value)
    requires e.Batch? && v in e.vals
    ensures var s := Run(START, hasDone, es);
            var s' := Run(START, hasDone, es + [e]);
            !Over(es, s.calls) && Differs(LastDelivered(s.calls, v.id), v) ==>
              |s'.calls| > |s.calls| && s'.calls[|s.calls|].GetCall? && v in s'.calls[|s.calls|].vals
  {
    hide Refused, Outcome, LastDelivered, NotAgain, NewOnes, Remember;
    RunKeeps(es, hasDone);
    var s := Run(START, hasDone, es);
    assert (es + [e])[..|es|] == es;
    NewOnesAre(s.values, e.vals);
    assert RemembersAt(s.values, s.calls, v.id);
  }

  /** What the done callback is told. */
  lemma {:induction false} DoneTells(es: seq<Event>, e: Event)
    ensures var s := Run(START, true, es);
            var s' := Run(START, true, es + [e]);
            !Over(es, s.calls) && Over(es + [e], s'.calls) ==>
              s'.calls != [] && s'.calls[|s'.calls| - 1] ==
              DoneCall(Refused(s'.calls) || Truth(Outcome(es + [e], IPv4)) || Truth(Outcome(es + [e], IPv6)), NodesOf(es + [e]))
  {
    hide Refused, Outcome, GoodCalls, Remembers, NodesOf, Step;
    RunKeeps(es, true);
    RunKeeps(es + [e], true);
    assert (es + [e])[..|es|] == es;
    StepTells(Run(START, true, es), e);
    NodesStep(es, e);
  }

  lemma {:induction false} NodesStep(es: seq<Event>, e: Event)
    ensures NodesOf(es + [e]) == NodesOf(es) + if e.Ended? then e.nodes else []
  {
    assert (es + [e])[..|es|] == es;
  }

  lemma {:induction false} StepTells(s: Op, e: Event)
    ensures var s' := Step(s, true, e);
            !s.done && s'.done ==>
              s'.calls != [] && s'.calls[|s'.calls| - 1] ==
              DoneCall(s'.ok || Truth(s'.status4) || Truth(s'.status6), s.nodes + if e.Ended? then e.nodes else [])
  {
    hide NewOnes, Remember;
    assert s.nodes + [] == s.nodes;
  }
}
