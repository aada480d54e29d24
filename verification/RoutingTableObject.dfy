/** The routing table as the object that is changed in place, proved against `RoutingRuns`. */
module RoutingTableObject {
  import opened Prelude
  import opened InfoHash
  import opened TableBounds
  import opened RoutingTable
  import opened RoutingRuns

  class Buckets {
    var buckets: seq<Bucket>
    var growTime: int
    const isClient: bool
    /** Nodes handed to `NetworkEngine::sendPing`, oldest first. */
    var pings: seq<Node>

    ghost function View(): (t: Table)
      reads this
    {
      Table(buckets, growTime, isClient, pings)
    }

    constructor (isClient: bool, start: int)
      ensures View() == InitialTable(isClient, start)
    {
      buckets := [Bucket(Zero(), start, [], None)];
      growTime := start;
      this.isClient := isClient;
      pings := [];
    }

    method FindBucket(id: Id) returns (b: nat)
      ensures buckets == [] ==> b == 0
      ensures buckets != [] ==> b == Find(buckets, id)
    {
      b := 0;
      if buckets == [] {
        return;
      }
      while true
        invariant b < |buckets| && FindFrom(Bounds(buckets), id, b) == Find(buckets, id)
        decreases |buckets| - b
      {
        if b + 1 == |buckets| || Less(id, buckets[b + 1].first) {
          return;
        }
        b := b + 1;
      }
    }

    method SplitBucket(b: nat) returns (ok: bool)
      requires b < |buckets|
      modifies this`buckets
      ensures ok == Split(old(buckets), b).Some?
      ensures buckets == SplitOrKeep(old(buckets), b)
    {
      var m := Middle(Bounds(buckets), b);
      if m.None? {
        return false;
      }
      var nodes := buckets[b].nodes;
      buckets := OpenUp(buckets, b, m.value);
      while nodes != []
        invariant |buckets| > 0
        invariant Split(old(buckets), b) == Some(Reassign(buckets, nodes))
        decreases |nodes|
      {
        var i := FindBucket(nodes[0].id);
        buckets := PushFront(buckets, i, nodes[0]);
        nodes := nodes[1..];
      }
      return true;
    }

    /** The part of `onNewNode` for a full bucket; `again` says that it is to be called again. */
    method OnFull(b: nat, node: Node, confirm: int, mine: bool, status: Node -> Status) returns (again: bool)
      requires b < |buckets|
      modifies this`buckets, this`pings
      ensures OnFullBucket(old(View()), b, node, confirm, mine, status) ==
              if again then Again(View()) else Finished(View(), true)
    {
      hide Depth, SplitOrKeep, Bounds;
      var e := FindExpired(buckets[b].nodes, status);
      if e < |buckets[b].nodes| {
        buckets := buckets[b := buckets[b].(nodes := buckets[b].nodes[e := node])];
        return false;
      }
      var dubious, ping := FindDubious(buckets[b].nodes, status);
      pings := pings + ping;
      if (mine || (isClient && Depth(Bounds(buckets), b) < CLIENT_DEPTH)) && (!dubious || |buckets| == 1) {
        pings := pings + CachedPing(buckets[b].cached);
        buckets := buckets[b := buckets[b].(cached := None)];
        var _ := SplitBucket(b);
        return true;
      }
      if confirm != 0 || buckets[b].cached.None? {
        buckets := buckets[b := buckets[b].(cached := Some(node))];
      }
      return false;
    }

    /** The body of `onNewNode` up to its recursive call. */
    method ActivateOnce(node: Node, confirm: int, now: int, me: Id, status: Node -> Status) returns (again: bool, result: bool)
      requires |buckets| > 0
      modifies this`buckets, this`growTime, this`pings
      ensures Activate(old(View()), node, confirm, now, me, status) ==
              if again then Again(View()) else Finished(View(), result)
    {
      hide Contains, OnFullBucket, Find;
      ghost var bs := buckets;
      var b := FindBucket(node.id);
      if confirm == 2 {
        buckets := buckets[b := buckets[b].(time := now)];
      }
      assert buckets == bs[b := Confirmed(bs[b], confirm, now)];
      var found := Member(buckets[b].nodes, node);
      if found {
        return false, false;
      }
      assert Bounds(buckets) == Bounds(bs);
      var mine := Contains(Bounds(buckets), b, me);
      if mine {
        growTime := now;
      }
      if |buckets[b].nodes| >= TARGET_NODES {
        again := OnFull(b, node, confirm, mine, status);
      } else {
        buckets := PushFront(buckets, b, node);
        again := false;
      }
      result := true;
    }

    method OnNewNode(node: Node, confirm: int, now: int, me: Id, status: nat -> Node -> Status, level: nat)
      returns (result: bool)
      requires Inv(buckets) && !Stuck(buckets, node, me)
      modifies this`buckets, this`growTime, this`pings
      ensures (View(), result) == RoutingRuns.OnNewNode(old(View()), node, confirm, now, me, status, level)
      ensures Inv(buckets)
      decreases HASH_BITS - TargetDepth(buckets, node.id)
    {
      ghost var t := View();
      assert |t.buckets| > 0;
      hide Inv, Stuck, TargetDepth, Activate;
      OnNewNodeKeeps(t, node, confirm, now, me, status, level);
      var again;
      again, result := ActivateOnce(node, confirm, now, me, status(level));
      if again {
        AgainDeepens(t, node, confirm, now, me, status(level));
        result := OnNewNode(node, confirm, now, me, status, level + 1);
      }
    }

    method ExpireNodes(status: Node -> Status)
      requires Inv(buckets)
      modifies this`buckets, this`pings
      ensures buckets == ExpireBuckets(old(buckets), status).0
      ensures pings == old(pings) + ExpireBuckets(old(buckets), status).1
      ensures Inv(buckets)
    {
      ExpireKeeps(buckets, status);
      var bs, sent := ExpireAll(buckets, status);
      buckets := bs;
      pings := pings + sent;
    }
  }

  method ExpireAll(bs: seq<Bucket>, status: Node -> Status) returns (done: seq<Bucket>, sent: seq<Node>)
    ensures (done, sent) == ExpireBuckets(bs, status)
  {
    hide ExpireBucket;
    done, sent := [], [];
    var i := 0;
    assert bs[0..] == bs;
    assert [] + ExpireBuckets(bs, status).0 == ExpireBuckets(bs, status).0;
    assert [] + ExpireBuckets(bs, status).1 == ExpireBuckets(bs, status).1;
    while i < |bs|
      invariant i <= |bs|
      invariant ExpireBuckets(bs, status) == (done + ExpireBuckets(bs[i..], status).0, sent + ExpireBuckets(bs[i..], status).1)
    {
      var (b, p) := ExpireBucket(bs[i], status);
      ghost var rest := ExpireBuckets(bs[i + 1..], status);
      assert bs[i..][1..] == bs[i + 1..];
      assert done + ([b] + rest.0) == done + [b] + rest.0 && sent + (p + rest.1) == sent + p + rest.1;
      done, sent := done + [b], sent + p;
      i := i + 1;
    }
    assert bs[i..] == [] && done + [] == done && sent + [] == sent;
  }

  method Member(ns: seq<Node>, node: Node) returns (found: bool)
    ensures found <==> node in ns
  {
    for k := 0 to |ns|
      invariant node !in ns[..k]
    {
      if ns[k] == node {
        return true;
      }
    }
    return false;
  }

  method FindExpired(ns: seq<Node>, status: Node -> Status) returns (e: nat)
    ensures e == FirstExpired(ns, status)
  {
    e := 0;
    while e < |ns| && !status(ns[e]).expired
      invariant e <= |ns|
      invariant e + FirstExpired(ns[e..], status) == FirstExpired(ns, status)
    {
      assert ns[e..][1..] == ns[e + 1..];
      e := e + 1;
    }
  }

  method FindDubious(ns: seq<Node>, status: Node -> Status) returns (dubious: bool, ping: seq<Node>)
    ensures dubious == Dubious(ns, status)
    ensures ping == DubiousPing(ns, status)
  {
    dubious, ping := false, [];
    for k := 0 to |ns|
      invariant dubious <==> Dubious(ns[..k], status)
      invariant ping == []
      invariant DubiousPing(ns[k..], status) == DubiousPing(ns, status)
    {
      assert ns[..k + 1] == ns[..k] + [ns[k]];
      assert ns[k..][1..] == ns[k + 1..];
      if !status(ns[k]).good {
        dubious := true;
        assert ns[k] in ns;
        if !status(ns[k]).pending {
          ping := [ns[k]];
          return;
        }
      }
    }
    assert ns[..|ns|] == ns;
  }
}
