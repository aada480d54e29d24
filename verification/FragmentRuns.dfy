/**
 The table of partial messages over whole runs: fragments of any transactions
 arrive from any peers, and each message sees only its own.
 */
module FragmentRuns {
  import opened Prelude
  import opened Values
  import opened Fragments

  datatype Arrival = Arrival(tid: nat, from: nat, f: Fragment)

  /** A message handed over, with its transaction. */
  datatype Delivery = Delivery(tid: nat, blobs: seq<Blob>)

  type Table = map<nat, Rx>

  /** All arrivals in order, and what is handed over on the way. */
  function ArriveAll(m: Table, arrivals: seq<Arrival>): (r: (Table, seq<Delivery>))
    decreases |arrivals|
  {
    if arrivals == [] then (m, [])
    else
      var a := arrivals[0];
      var (m1, out) := Arrive(m, a.tid, a.from, a.f);
      var (m', rest) := ArriveAll(m1, arrivals[1..]);
      (m', (match out case None => [] case Some(blobs) => [Delivery(a.tid, blobs)]) + rest)
  }

  /** The fragments of a transaction that come from the given peer. */
  function Own(arrivals: seq<Arrival>, tid: nat, from: nat): (fs: seq<Fragment>)
    decreases |arrivals|
  {
    if arrivals == [] then []
    else (if arrivals[0].tid == tid && arrivals[0].from == from then [arrivals[0].f] else []) + Own(arrivals[1..], tid, from)
  }

  /** What was handed over for a transaction. */
  function Handed(ds: seq<Delivery>, tid: nat): (r: seq<seq<Blob>>)
    decreases |ds|
  {
    if ds == [] then [] else (if ds[0].tid == tid then [ds[0].blobs] else []) + Handed(ds[1..], tid)
  }

  lemma {:induction false} HandedConcat(a: seq<Delivery>, b: seq<Delivery>, tid: nat)
    ensures Handed(a + b, tid) == Handed(a, tid) + Handed(b, tid)
    decreases |a|
  {
    if a == [] {
      assert a + b == b;
    } else {
      assert (a + b)[0] == a[0] && (a + b)[1..] == a[1..] + b;
      HandedConcat(a[1..], b, tid);
    }
  }

  lemma {:induction false} OwnConcat(a: seq<Arrival>, b: seq<Arrival>, tid: nat, from: nat)
    ensures Own(a + b, tid, from) == Own(a, tid, from) + Own(b, tid, from)
    decreases |a|
  {
    if a == [] {
      assert a + b == b;
    } else {
      assert (a + b)[0] == a[0] && (a + b)[1..] == a[1..] + b;
      OwnConcat(a[1..], b, tid, from);
    }
  }

  ghost predicate AllWaiting(m: Table) {
    forall t :: t in m ==> m[t].session.Waiting?
  }

  /** The entry of a transaction is what its session has come to: still waiting, or gone once it is done. */
  ghost predicate StandsAt(m: Table, tid: nat, from: nat, count: nat, s: Session) {
    match s
    case Waiting(ps) => tid in m && m[tid] == Rx(from, s, count)
    case Done(_) => tid !in m
  }

  /** One arrival: the session of its transaction moves if it comes from the right peer, all others stay. */
  lemma {:induction false} ArriveMoves(m: Table, a: Arrival, tid: nat)
    requires AllWaiting(m) && tid in m
    ensures var (m1, out) := Arrive(m, a.tid, a.from, a.f);
            var mine := a.tid == tid && a.from == m[tid].from;
            var s := if mine then Receive(m[tid].session, m[tid].count, a.f) else m[tid].session;
            && AllWaiting(m1) && StandsAt(m1, tid, m[tid].from, m[tid].count, s)
            && (a.tid == tid ==> out == if s.Done? then Some(s.blobs) else None)
  {
  }

  lemma {:induction false} UnknownStays(m: Table, arrivals: seq<Arrival>, tid: nat)
    requires tid !in m
    ensures tid !in ArriveAll(m, arrivals).0 && Handed(ArriveAll(m, arrivals).1, tid) == []
    decreases |arrivals|
  {
    if arrivals != [] {
      var a := arrivals[0];
      var (m1, out) := Arrive(m, a.tid, a.from, a.f);
      UnknownStays(m1, arrivals[1..], tid);
      var here := match out case None => [] case Some(blobs) => [Delivery(a.tid, blobs)];
      HandedConcat(here, ArriveAll(m1, arrivals[1..]).1, tid);
      assert here != [] ==> here[1..] == [];
    }
  }

  /**
   Whatever else arrives, from whomever: the entry of a transaction is the session that its own fragments from its own peer make,
   and its values are handed over exactly once, when that session is done, after which the entry is gone.
   */
  lemma {:induction false} TableIsSessions(m: Table, arrivals: seq<Arrival>, tid: nat)
    requires AllWaiting(m) && tid in m
    ensures var (m', out) := ArriveAll(m, arrivals);
            var s := ReceiveAll(m[tid].session, m[tid].count, Own(arrivals, tid, m[tid].from));
            && StandsAt(m', tid, m[tid].from, m[tid].count, s)
            && Handed(out, tid) == if s.Done? then [s.blobs] else []
    decreases |arrivals|
  {
    hide Arrive, Receive;
    if arrivals != [] {
      var a, rx := arrivals[0], m[tid];
      var (m1, out) := Arrive(m, a.tid, a.from, a.f);
      var rest := Own(arrivals[1..], tid, rx.from);
      var here := match out case None => [] case Some(blobs) => [Delivery(a.tid, blobs)];
      ArriveMoves(m, a, tid);
      HandedConcat(here, ArriveAll(m1, arrivals[1..]).1, tid);
      assert here != [] ==> here[1..] == [];
      assert ([a.f] + rest)[1..] == rest && [] + rest == rest;
      if tid in m1 {
        TableIsSessions(m1, arrivals[1..], tid);
      } else {
        UnknownStays(m1, arrivals[1..], tid);
        var s := Receive(rx.session, rx.count, a.f);
        DoneStays(s.blobs, rx.count, rest);
      }
    }
  }

  lemma {:induction false} ReceiveConcat(s: Session, n: nat, a: seq<Fragment>, b: seq<Fragment>)
    ensures ReceiveAll(s, n, a + b) == ReceiveAll(ReceiveAll(s, n, a), n, b)
    decreases |a|
  {
    hide Receive;
    if a == [] {
      assert a + b == b;
    } else {
      assert (a + b)[0] == a[0] && (a + b)[1..] == a[1..] + b;
      ReceiveConcat(Receive(s, n, a[0]), n, a[1..], b);
    }
  }

  /**
   A message announced by a header with a value that is not empty: after any arrivals, in which its peer sends it nothing but its
   fragments, and then any arrivals among which its peer sends it all of them in order, it has been handed over exactly once, with
   every value exactly, and its entry is gone.
   */
  lemma {:induction false} TableResendCompletes(m: Table, svals: seq<Blob>, tid: nat, from: nat, before: seq<Arrival>, after: seq<Arrival>, i: nat)
    requires AllWaiting(m) && tid in m && m[tid] == Rx(from, Waiting(Header(svals)), |svals|)
    requires i in Header(svals) && svals[i] != []
    requires forall k :: 0 <= k < |Own(before, tid, from)| ==> Own(before, tid, from)[k] in AllParts(svals, 0)
    requires Own(after, tid, from) == AllParts(svals, 0)
    ensures var (m', out) := ArriveAll(m, before + after);
            tid !in m' && Handed(out, tid) == [Expected(svals, |svals|)]
  {
    hide Header, AllParts, Expected, ArriveAll, Own, Handed, ReceiveAll, Complete;
    var own := Own(before, tid, from);
    TableIsSessions(m, before + after, tid);
    OwnConcat(before, after, tid, from);
    ReceiveConcat(Waiting(Header(svals)), |svals|, own, AllParts(svals, 0));
    ResendCompletes(svals, own);
    WaitingIsIncomplete(svals, own, i);
    HeaderSound(svals);
    AnyArrivalIsSound(svals, Waiting(Header(svals)), own);
    var s := ReceiveAll(Waiting(Header(svals)), |svals|, own);
    if s.Done? {
      DoneStays(s.blobs, |svals|, AllParts(svals, 0));
    }
  }
}
