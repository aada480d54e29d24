/**
 What a whole call of `onNewNode` does, told from the table before, the table after
 and the status of the nodes: whether the node is in, for whom, where, and what is
 split, cached, marked and pinged.
 */
module RoutingOutcomes {
  import opened Prelude
  import opened InfoHash
  import opened TableBounds
  import opened RoutingTable
  import opened RoutingRuns

  /** The nodes that share the bucket of id under the given bounds. */
  ghost function Mates(nodes: multiset<Node>, fs: seq<Id>, id: Id): set<Node>
    requires |fs| > 0
  {
    set n | n in nodes && FindBucket(fs, n.id) == FindBucket(fs, id)
  }

  ghost predicate AnyExpired(ns: set<Node>, status: Node -> Status) {
    exists e :: e in ns && status(e).expired
  }

  ghost predicate AllGoodIn(ns: set<Node>, status: Node -> Status) {
    forall n :: n in ns ==> status(n).good
  }

  /** The bucket of id is the own one, or a shallow one of a client, and all its nodes are good or it is the only bucket. */
  ghost predicate MaySplit(fs: seq<Id>, isClient: bool, me: Id, id: Id, mates: set<Node>, status: Node -> Status)
    requires |fs| > 0
  {
    var i := FindBucket(fs, id);
    && (i == FindBucket(fs, me) || (isClient && Depth(fs, i) < 6))
    && (AllGoodIn(mates, status) || |fs| == 1)
  }

  /** A node that is not there finds its bucket full, nothing in it expired, and the bucket may be split. */
  ghost predicate NeedsSplit(t: Table, node: Node, me: Id, status: Node -> Status)
    requires |t.buckets| > 0
  {
    var fs := Bounds(t.buckets);
    var mates := Mates(AllNodes(t.buckets), fs, node.id);
    && node !in AllNodes(t.buckets)
    && |mates| >= TARGET_NODES && !AnyExpired(mates, status)
    && MaySplit(fs, t.isClient, me, node.id, mates, status)
  }

  /** The node cached for the bucket when the node finally comes to it; a split leaves none. */
  ghost function CachedBefore(t: Table, t': Table, id: Id): Option<Node>
    requires |t.buckets| > 0
  {
    if |t'.buckets| > |t.buckets| then None else t.buckets[Find(t.buckets, id)].cached
  }

  /** How the nodes and the cached node of the bucket end up; status is the one of the last activation. */
  ghost predicate Settled(t: Table, t': Table, r: bool, node: Node, confirm: int, me: Id, status: Node -> Status)
    requires |t.buckets| > 0 && |t'.buckets| > 0
  {
    var fs := Bounds(t'.buckets);
    var before, after := AllNodes(t.buckets), AllNodes(t'.buckets);
    var mates := Mates(before, fs, node.id);
    var b := t'.buckets[Find(t'.buckets, node.id)];
    var cached := CachedBefore(t, t', node.id);
    && (r <==> node !in before)
    && if node in before then after == before && b.cached == cached
       else if |mates| < TARGET_NODES then
         after == before + multiset{node} && |b.nodes| > 0 && b.nodes[0] == node && b.cached == cached
       else if AnyExpired(mates, status) then
         b.cached == cached && exists e :: e in mates && status(e).expired && after == before - multiset{e} + multiset{node}
       else
         && after == before && !MaySplit(fs, t'.isClient, me, node.id, mates, status)
         && b.cached == if confirm != 0 || cached.None? then Some(node) else cached
  }

  // ----- one activation

  lemma {:induction false} MatesAre(bs: seq<Bucket>, id: Id)
    requires Inv(bs)
    ensures Mates(AllNodes(bs), Bounds(bs), id) == Elements(bs[Find(bs, id)].nodes)
    ensures |Mates(AllNodes(bs), Bounds(bs), id)| == |bs[Find(bs, id)].nodes|
  {
    hide FindBucket;
    var i := Find(bs, id);
    forall n
      ensures n in Mates(AllNodes(bs), Bounds(bs), id) <==> n in bs[i].nodes
    {
      NotElsewhere(bs, n);
    }
    assert Mates(AllNodes(bs), Bounds(bs), id) == Elements(bs[i].nodes);
    NoDuplicates(bs, i);
    ElementCount(bs[i].nodes);
  }

  lemma {:induction false} FirstExpiredIs(ns: seq<Node>, status: Node -> Status)
    ensures FirstExpired(ns, status) < |ns| <==> AnyExpired(Elements(ns), status)
  {
    var k := FirstExpired(ns, status);
    if k < |ns| {
      assert ns[k] in Elements(ns);
    } else {
      forall e | e in Elements(ns)
        ensures !status(e).expired
      {
        var j :| 0 <= j < |ns| && ns[j] == e;
      }
    }
  }

  lemma {:induction false} OwnBucket(fs: seq<Id>, i: nat, me: Id)
    requires Tiled(fs) && i < |fs|
    ensures Contains(fs, i, me) <==> i == FindBucket(fs, me)
  {
    FindBucketUnique(fs, me, i);
  }

  /** The table's answers to what an activation asks. */
  lemma {:induction false} Answers(t: Table, node: Node, me: Id, status: Node -> Status)
    requires Inv(t.buckets) && |t.buckets| > 0
    ensures var bs, i := t.buckets, Find(t.buckets, node.id);
            var mates := Mates(AllNodes(bs), Bounds(bs), node.id);
            && mates == Elements(bs[i].nodes) && |mates| == |bs[i].nodes|
            && (node in bs[i].nodes <==> node in AllNodes(bs))
            && (FirstExpired(bs[i].nodes, status) < |bs[i].nodes| <==> AnyExpired(mates, status))
            && (Dubious(bs[i].nodes, status) <==> !AllGoodIn(mates, status))
            && (Contains(Bounds(bs), i, me) <==> i == FindBucket(Bounds(bs), me))
  {
    hide FindBucket, Contains, Mates, AnyExpired, AllGoodIn, Elements;
    var bs, i := t.buckets, Find(t.buckets, node.id);
    MatesAre(bs, node.id);
    NotElsewhere(bs, node);
    FirstExpiredIs(bs[i].nodes, status);
    DubiousIs(bs[i].nodes, status);
    OwnBucket(Bounds(bs), i, me);
  }

  /** An activation recurses exactly when a split is needed. */
  lemma {:induction false} AgainIffNeedsSplit(t: Table, node: Node, confirm: int, now: int, me: Id, status: Node -> Status)
    requires Inv(t.buckets) && |t.buckets| > 0
    ensures Activate(t, node, confirm, now, me, status).Again? <==> NeedsSplit(t, node, me, status)
  {
    hide Inv, FindBucket, Contains, Mates, AnyExpired, AllGoodIn, Elements, Depth, Dubious, FirstExpired, AllNodes, SplitOrKeep;
    Answers(t, node, me, status);
    ConfirmedBounds(t.buckets, Find(t.buckets, node.id), confirm, now);
  }

  lemma {:induction false} ConfirmedBounds(bs: seq<Bucket>, i: nat, confirm: int, now: int)
    requires i < |bs|
    ensures Bounds(bs[i := Confirmed(bs[i], confirm, now)]) == Bounds(bs) && Confirmed(bs[i], confirm, now).nodes == bs[i].nodes
    ensures Confirmed(bs[i], confirm, now).cached == bs[i].cached
  {
    assert Bounds(bs[i := Confirmed(bs[i], confirm, now)]) == Bounds(bs);
  }

  /** Without a split: a bucket with room takes the node at its front, a full one with an expired node swaps, else the node may be cached. */
  lemma {:induction false} FinishedSettles(t: Table, node: Node, confirm: int, now: int, me: Id, status: Node -> Status)
    requires Inv(t.buckets) && |t.buckets| > 0 && Activate(t, node, confirm, now, me, status).Finished?
    ensures var a := Activate(t, node, confirm, now, me, status);
            Bounds(a.table.buckets) == Bounds(t.buckets) && Settled(t, a.table, a.result, node, confirm, me, status)
  {
    hide Inv, FindBucket, Contains, Mates, AnyExpired, AllGoodIn, Elements, Depth, Dubious, FirstExpired, AllNodes, SplitOrKeep,
      NeedsSplit, PushFront;
    var bs, i := t.buckets, Find(t.buckets, node.id);
    var a := Activate(t, node, confirm, now, me, status);
    Answers(t, node, me, status);
    AgainIffNeedsSplit(t, node, confirm, now, me, status);
    FinishedBounds(t, node, confirm, now, me, status);
    FinishedNodes(t, node, confirm, now, me, status);
    FinishedCached(t, node, confirm, now, me, status);
    if node !in AllNodes(bs) && |bs[i].nodes| >= TARGET_NODES && !AnyExpired(Elements(bs[i].nodes), status) {
      NoSplitMeans(t, node, me, status);
    }
  }

  lemma {:induction false} NoSplitMeans(t: Table, node: Node, me: Id, status: Node -> Status)
    requires |t.buckets| > 0 && !NeedsSplit(t, node, me, status) && node !in AllNodes(t.buckets)
    requires var mates := Mates(AllNodes(t.buckets), Bounds(t.buckets), node.id);
             |mates| >= TARGET_NODES && !AnyExpired(mates, status)
    ensures var mates := Mates(AllNodes(t.buckets), Bounds(t.buckets), node.id);
            !MaySplit(Bounds(t.buckets), t.isClient, me, node.id, mates, status)
  {
  }

  lemma {:induction false} FinishedBounds(t: Table, node: Node, confirm: int, now: int, me: Id, status: Node -> Status)
    requires Inv(t.buckets) && |t.buckets| > 0 && Activate(t, node, confirm, now, me, status).Finished?
    ensures var a := Activate(t, node, confirm, now, me, status);
            Bounds(a.table.buckets) == Bounds(t.buckets) && |a.table.buckets| == |t.buckets| && a.table.isClient == t.isClient
  {
    hide Inv, Activate, AllNodes;
    ActivateKeeps(t, node, confirm, now, me, status);
    assert |Bounds(t.buckets)| == |t.buckets|;
  }

  lemma {:induction false} FinishedCached(t: Table, node: Node, confirm: int, now: int, me: Id, status: Node -> Status)
    requires |t.buckets| > 0 && Activate(t, node, confirm, now, me, status).Finished?
    ensures var i := Find(t.buckets, node.id);
            var a := Activate(t, node, confirm, now, me, status);
            var b := t.buckets[i];
            && |a.table.buckets| == |t.buckets|
            && a.result == (node !in b.nodes)
            && a.table.buckets[i].cached ==
               if node in b.nodes || |b.nodes| < TARGET_NODES || FirstExpired(b.nodes, status) < |b.nodes| then b.cached
               else if confirm != 0 || b.cached.None? then Some(node) else b.cached
  {
    hide FindBucket, Contains, Depth, Dubious, FirstExpired, SplitOrKeep;
  }

  lemma {:induction false} FinishedNodes(t: Table, node: Node, confirm: int, now: int, me: Id, status: Node -> Status)
    requires |t.buckets| > 0 && Activate(t, node, confirm, now, me, status).Finished?
    ensures var bs, i := t.buckets, Find(t.buckets, node.id);
            var bs' := Activate(t, node, confirm, now, me, status).table.buckets;
            if node in bs[i].nodes then AllNodes(bs') == AllNodes(bs)
            else if |bs[i].nodes| < TARGET_NODES then
              |bs'| == |bs| && bs'[i].nodes == [node] + bs[i].nodes && AllNodes(bs') == AllNodes(bs) + multiset{node}
            else if AnyExpired(Elements(bs[i].nodes), status) then
              exists e :: e in Elements(bs[i].nodes) && status(e).expired && AllNodes(bs') == AllNodes(bs) - multiset{e} + multiset{node}
            else AllNodes(bs') == AllNodes(bs)
  {
    hide FindBucket, Contains, Depth, Dubious, SplitOrKeep, AllNodes, AnyExpired, Elements, FirstExpired;
    var bs, i := t.buckets, Find(t.buckets, node.id);
    var b0 := Confirmed(bs[i], confirm, now);
    var bs0 := bs[i := b0];
    ConfirmedBounds(bs, i, confirm, now);
    FirstExpiredIs(bs[i].nodes, status);
    SameNodes(bs, i, b0);
    SameNodes(bs, i, b0.(cached := Some(node)));
    if node !in bs[i].nodes {
      if |bs[i].nodes| < TARGET_NODES {
        InsertNodes(bs, bs0, i, node);
      } else if FirstExpired(bs[i].nodes, status) < |bs[i].nodes| {
        EvictNodes(bs, bs0, i, node, status);
      } else {
        assert bs0[i := b0.(cached := Some(node))] == bs[i := b0.(cached := Some(node))];
      }
    }
  }

  lemma {:induction false} SameNodes(bs: seq<Bucket>, i: nat, b: Bucket)
    requires i < |bs| && b.nodes == bs[i].nodes
    ensures AllNodes(bs[i := b]) == AllNodes(bs)
  {
    hide AllNodes;
    AllNodesUpdate(bs, i, b);
    forall n
      ensures AllNodes(bs[i := b])[n] == AllNodes(bs)[n]
    {
      assert (AllNodes(bs[i := b]) + multiset(bs[i].nodes))[n] == (AllNodes(bs) + multiset(b.nodes))[n];
    }
  }

  lemma {:induction false} DubiousIs(ns: seq<Node>, status: Node -> Status)
    ensures Dubious(ns, status) <==> !AllGoodIn(Elements(ns), status)
  {
    if Dubious(ns, status) {
      var n :| n in ns && !status(n).good;
      assert n in Elements(ns);
    }
  }

  lemma {:induction false} InsertNodes(bs: seq<Bucket>, bs0: seq<Bucket>, i: nat, node: Node)
    requires i < |bs| == |bs0| && bs0 == bs[i := bs0[i]] && bs0[i].nodes == bs[i].nodes
    ensures AllNodes(PushFront(bs0, i, node)) == AllNodes(bs) + multiset{node}
  {
    PushFrontNodes(bs0, i, node);
    SameNodes(bs, i, bs0[i]);
  }

  lemma {:induction false} EvictNodes(bs: seq<Bucket>, bs0: seq<Bucket>, i: nat, node: Node, status: Node -> Status)
    requires i < |bs| == |bs0| && bs0 == bs[i := bs0[i]] && bs0[i].nodes == bs[i].nodes
    requires AnyExpired(Elements(bs[i].nodes), status)
    ensures var k := FirstExpired(bs[i].nodes, status);
            && k < |bs[i].nodes| && bs[i].nodes[k] in Elements(bs[i].nodes) && status(bs[i].nodes[k]).expired
            && AllNodes(bs0[i := bs0[i].(nodes := bs[i].nodes[k := node])]) == AllNodes(bs) - multiset{bs[i].nodes[k]} + multiset{node}
  {
    var ns := bs[i].nodes;
    FirstExpiredIs(ns, status);
    var k := FirstExpired(ns, status);
    var b := bs0[i].(nodes := ns[k := node]);
    assert bs0[i := b] == bs[i := b];
    AllNodesUpdate(bs, i, b);
    AllNodesAt(bs, i);
    assert multiset(ns[k := node]) == multiset(ns) - multiset{ns[k]} + multiset{node};
    SwapOne(AllNodes(bs[i := b]), AllNodes(bs), multiset(ns), ns[k], node);
  }

  // ----- a split

  /** Moving nodes changes nothing else of a bucket. */
  lemma {:induction false} ReassignKeepsRest(bs: seq<Bucket>, ns: seq<Node>, j: nat)
    requires j < |bs|
    ensures Reassign(bs, ns)[j].cached == bs[j].cached && Reassign(bs, ns)[j].time == bs[j].time
    decreases |ns|
  {
    hide Find;
    if ns != [] {
      ReassignKeepsRest(PushFront(bs, Find(bs, ns[0].id), ns[0]), ns[1..], j);
    }
  }

  /** Both halves of a split bucket have its time, and nothing cached. */
  lemma {:induction false} HalvesKeepTime(bs: seq<Bucket>, i: nat, j: nat)
    requires i < |bs| && bs[i].cached.None? && Depth(Bounds(bs), i) < HASH_BITS && (j == i || j == i + 1)
    ensures j < |SplitOrKeep(bs, i)| && SplitOrKeep(bs, i)[j].cached.None? && SplitOrKeep(bs, i)[j].time == bs[i].time
  {
    hide Find, Depth;
    var m := Middle(Bounds(bs), i).value;
    ReassignKeepsRest(OpenUp(bs, i, m), bs[i].nodes, j);
  }

  /** What is marked: the growth of the own bucket's side of the table, and the time of a confirmed bucket. */
  ghost predicate Marked(t: Table, t': Table, node: Node, confirm: int, now: int, me: Id)
    requires |t.buckets| > 0 && |t'.buckets| > 0
  {
    && t'.growTime == (if node !in AllNodes(t.buckets) && Find(t.buckets, me) == Find(t.buckets, node.id) then now else t.growTime)
    && t'.buckets[Find(t'.buckets, node.id)].time == if confirm == 2 then now else t.buckets[Find(t.buckets, node.id)].time
  }

  ghost predicate Unsure(n: Node, status: Node -> Status) {
    !status(n).good && !status(n).pending
  }

  /**
   Who is pinged: nobody unless the bucket found is full of nodes that have not expired; the node cached for a bucket that is
   split; and at last, if the node finds no room, a node of the bucket that is not good, unless all of these are being asked.
   */
  ghost predicate Pinged(t: Table, t': Table, node: Node, status: Node -> Status, last: Node -> Status)
    requires |t.buckets| > 0 && |t'.buckets| > 0
  {
    var before, b := AllNodes(t.buckets), t.buckets[Find(t.buckets, node.id)];
    var first := Mates(before, Bounds(t.buckets), node.id);
    var mates := Mates(before, Bounds(t'.buckets), node.id);
    && t.pings <= t'.pings
    && (node in before || |first| < TARGET_NODES || AnyExpired(first, status) ==> t'.pings == t.pings)
    && (|t'.buckets| > |t.buckets| && b.cached.Some? ==> b.cached.value in t'.pings[|t.pings|..])
    && (node !in before && |mates| >= TARGET_NODES && !AnyExpired(mates, last) && (exists n :: n in mates && Unsure(n, last)) ==>
          |t'.pings| > |t.pings| && t'.pings[|t'.pings| - 1] in mates && Unsure(t'.pings[|t'.pings| - 1], last))
  }

  lemma {:induction false} DubiousPingIs(ns: seq<Node>, status: Node -> Status)
    ensures var p := DubiousPing(ns, status);
            && |p| <= 1 && (p == [] <==> forall n :: n in ns ==> !Unsure(n, status))
            && (p != [] ==> p[0] in ns && Unsure(p[0], status))
  {
    if ns != [] {
      DubiousPingIs(ns[1..], status);
      assert ns[0] in ns;
      assert forall n :: n in ns <==> n == ns[0] || n in ns[1..];
    }
  }

  lemma {:induction false} FinishedMarks(t: Table, node: Node, confirm: int, now: int, me: Id, status: Node -> Status)
    requires Inv(t.buckets) && |t.buckets| > 0 && Activate(t, node, confirm, now, me, status).Finished?
    ensures var t' := Activate(t, node, confirm, now, me, status).table;
            Bounds(t'.buckets) == Bounds(t.buckets) && Marked(t, t', node, confirm, now, me)
  {
    hide Inv, FindBucket, Contains, Mates, AnyExpired, AllGoodIn, Elements, Depth, Dubious, FirstExpired, AllNodes, SplitOrKeep;
    Answers(t, node, me, status);
    FinishedBounds(t, node, confirm, now, me, status);
  }

  /** The pings of one activation. */
  lemma {:induction false} ActivationPings(t: Table, node: Node, confirm: int, now: int, me: Id, status: Node -> Status)
    requires Inv(t.buckets) && |t.buckets| > 0
    ensures var a := Activate(t, node, confirm, now, me, status);
            var b := t.buckets[Find(t.buckets, node.id)];
            var mates := Mates(AllNodes(t.buckets), Bounds(t.buckets), node.id);
            a.table.pings == t.pings +
              if node in AllNodes(t.buckets) || |mates| < TARGET_NODES || AnyExpired(mates, status) then []
              else DubiousPing(b.nodes, status) + if a.Again? then CachedPing(b.cached) else []
  {
    hide Inv, FindBucket, Contains, Mates, AnyExpired, AllGoodIn, Elements, Depth, Dubious, FirstExpired, AllNodes, SplitOrKeep, DubiousPing;
    Answers(t, node, me, status);
    ConfirmedBounds(t.buckets, Find(t.buckets, node.id), confirm, now);
  }

  lemma {:induction false} FinishedPings(t: Table, node: Node, confirm: int, now: int, me: Id, status: Node -> Status)
    requires Inv(t.buckets) && |t.buckets| > 0 && Activate(t, node, confirm, now, me, status).Finished?
    ensures var t' := Activate(t, node, confirm, now, me, status).table;
            Bounds(t'.buckets) == Bounds(t.buckets) && Pinged(t, t', node, status, status)
  {
    hide Inv, Activate, FindBucket, Mates, AnyExpired, Elements, AllNodes, DubiousPing, Unsure;
    var ns := t.buckets[Find(t.buckets, node.id)].nodes;
    ActivationPings(t, node, confirm, now, me, status);
    FinishedBounds(t, node, confirm, now, me, status);
    MatesAre(t.buckets, node.id);
    DubiousPingIs(ns, status);
    forall n
      ensures n in Elements(ns) <==> n in ns
    {
      ElementOf(ns, n);
    }
    assert DubiousPing(ns, status) + [] == DubiousPing(ns, status);
  }

  lemma {:induction false} ElementOf(ns: seq<Node>, n: Node)
    ensures n in Elements(ns) <==> n in ns
  {
  }

  /** An activation that splits: the same nodes under halved bounds, the half for the node with nothing cached. */
  lemma {:induction false} AgainStep(t: Table, node: Node, confirm: int, now: int, me: Id, status: Node -> Status)
    requires Inv(t.buckets) && |t.buckets| > 0 && !Stuck(t.buckets, node, me) && Activate(t, node, confirm, now, me, status).Again?
    ensures var t1 := Activate(t, node, confirm, now, me, status).table;
            var fs, i := Bounds(t.buckets), Find(t.buckets, node.id);
            && Inv(t1.buckets) && !Stuck(t1.buckets, node, me) && t1.isClient == t.isClient
            && AllNodes(t1.buckets) == AllNodes(t.buckets)
            && Middle(fs, i).Some? && Bounds(t1.buckets) == InsertAfter(fs, i, Middle(fs, i).value) && |t1.buckets| == |t.buckets| + 1
            && TargetDepth(t1.buckets, node.id) == TargetDepth(t.buckets, node.id) + 1
            && (Find(t1.buckets, me) == Find(t1.buckets, node.id) ==> Find(t.buckets, me) == i)
  {
    hide Inv, Activate, Stuck, Depth, SplitOrKeep, AllNodes, FindBucket, Tiled;
    var bs, i := t.buckets, Find(t.buckets, node.id);
    var bs2 := Refreshed(bs, i, confirm, now);
    ActivateKeeps(t, node, confirm, now, me, status);
    AgainDeepens(t, node, confirm, now, me, status);
    AgainSplits(t, node, confirm, now, me, status);
    RelabelKeeps(bs, i, bs2[i]);
    SplitBounds(bs2, i, node.id, me);
  }

  lemma {:induction false} SplitBounds(bs: seq<Bucket>, i: nat, id: Id, me: Id)
    requires Inv(bs) && |bs| > 0 && i == Find(bs, id) && Depth(Bounds(bs), i) < HASH_BITS
    ensures var fs := Bounds(bs);
            var r := SplitOrKeep(bs, i);
            && Middle(fs, i).Some? && Bounds(r) == InsertAfter(fs, i, Middle(fs, i).value) && |r| == |bs| + 1
            && (Find(r, id) == i || Find(r, id) == i + 1)
            && (Find(r, me) == Find(r, id) ==> Find(bs, me) == i)
  {
    hide FindBucket, Depth;
    SplitKeeps(bs, i);
    HalvingDeepens(Bounds(bs), i, id);
    HalvingDeepens(Bounds(bs), i, me);
    assert |Bounds(SplitOrKeep(bs, i))| == |SplitOrKeep(bs, i)|;
  }

  lemma {:induction false} AgainMarks(t: Table, node: Node, confirm: int, now: int, me: Id, status: Node -> Status)
    requires Inv(t.buckets) && |t.buckets| > 0 && !Stuck(t.buckets, node, me) && Activate(t, node, confirm, now, me, status).Again?
    ensures var t1 := Activate(t, node, confirm, now, me, status).table;
            |t1.buckets| > 0 && t1.buckets[Find(t1.buckets, node.id)].cached.None? && Marked(t, t1, node, confirm, now, me)
  {
    hide Inv, Stuck, Depth, SplitOrKeep, AllNodes, FindBucket, Tiled, Dubious, FirstExpired, Contains, Mates, Elements, AnyExpired, AllGoodIn;
    var bs, i := t.buckets, Find(t.buckets, node.id);
    var bs2 := Refreshed(bs, i, confirm, now);
    Answers(t, node, me, status);
    AgainSplits(t, node, confirm, now, me, status);
    RelabelKeeps(bs, i, bs2[i]);
    SplitBounds(bs2, i, node.id, me);
    HalvesKeepTime(bs2, i, i);
    HalvesKeepTime(bs2, i, i + 1);
  }

  // ----- the whole call

  /**
   After the call, on a table of the invariant, with the status each activation finds, the last one being as many levels down as
   buckets were added: the node is in if and only if it was, or the bucket it comes to has room, or one of that bucket's nodes has
   expired; otherwise it is cached there, when it is confirmed or nothing else is. A bucket is split exactly if it needs to be.
   */
  lemma {:induction false} NewNodeSettles(t: Table, node: Node, confirm: int, now: int, me: Id, status: nat -> Node -> Status, level: nat)
    requires Inv(t.buckets) && |t.buckets| > 0 && !Stuck(t.buckets, node, me)
    ensures var (t', r) := OnNewNode(t, node, confirm, now, me, status, level);
            && |t'.buckets| >= |t.buckets|
            && Settled(t, t', r, node, confirm, me, status(level + |t'.buckets| - |t.buckets|))
            && Marked(t, t', node, confirm, now, me)
            && Pinged(t, t', node, status(level), status(level + |t'.buckets| - |t.buckets|))
            && (|t'.buckets| > |t.buckets| <==> NeedsSplit(t, node, me, status(level)))
            && (|t'.buckets| == |t.buckets| ==> Bounds(t'.buckets) == Bounds(t.buckets))
    decreases HASH_BITS - TargetDepth(t.buckets, node.id)
  {
    hide Inv, Activate, Stuck, TargetDepth, AllNodes, FindBucket, Mates, NeedsSplit, MaySplit, AnyExpired, Settled, Marked, Pinged;
    var a := Activate(t, node, confirm, now, me, status(level));
    AgainIffNeedsSplit(t, node, confirm, now, me, status(level));
    if a.Finished? {
      FinishedSettles(t, node, confirm, now, me, status(level));
      FinishedBounds(t, node, confirm, now, me, status(level));
      FinishedMarks(t, node, confirm, now, me, status(level));
      FinishedPings(t, node, confirm, now, me, status(level));
    } else {
      var t1 := a.table;
      AgainStep(t, node, confirm, now, me, status(level));
      NewNodeSettles(t1, node, confirm, now, me, status, level + 1);
      var (t', r) := OnNewNode(t1, node, confirm, now, me, status, level + 1);
      AgainBack(t, node, confirm, now, me, status(level), status(level + 1), status(level + |t'.buckets| - |t.buckets|), t', r);
    }
  }

  // ----- from the rest of the call to the whole of it

  lemma {:induction false} SettledBack(t: Table, t1: Table, t': Table, r: bool, node: Node, confirm: int, me: Id, last: Node -> Status)
    requires |t'.buckets| >= |t1.buckets| == |t.buckets| + 1 && |t.buckets| > 0 && AllNodes(t1.buckets) == AllNodes(t.buckets)
    requires t1.buckets[Find(t1.buckets, node.id)].cached.None? && Settled(t1, t', r, node, confirm, me, last)
    ensures Settled(t, t', r, node, confirm, me, last)
  {
    hide AllNodes, FindBucket, Mates, MaySplit, AnyExpired;
    assert CachedBefore(t1, t', node.id) == CachedBefore(t, t', node.id);
  }

  lemma {:induction false} MarkedBack(t: Table, t1: Table, t': Table, node: Node, confirm: int, now: int, me: Id)
    requires |t.buckets| > 0 && |t1.buckets| > 0 && |t'.buckets| > 0 && AllNodes(t1.buckets) == AllNodes(t.buckets)
    requires Find(t1.buckets, me) == Find(t1.buckets, node.id) ==> Find(t.buckets, me) == Find(t.buckets, node.id)
    requires Marked(t, t1, node, confirm, now, me) && Marked(t1, t', node, confirm, now, me)
    ensures Marked(t, t', node, confirm, now, me)
  {
    hide AllNodes, FindBucket;
  }

  lemma {:induction false} PingedBack(t: Table, t1: Table, t': Table, node: Node, me: Id, status: Node -> Status, next: Node -> Status,
                                      last: Node -> Status, dubious: seq<Node>)
    requires |t'.buckets| >= |t1.buckets| == |t.buckets| + 1 && |t.buckets| > 0 && AllNodes(t1.buckets) == AllNodes(t.buckets)
    requires NeedsSplit(t, node, me, status) && Pinged(t1, t', node, next, last)
    requires t1.pings == t.pings + (dubious + CachedPing(t.buckets[Find(t.buckets, node.id)].cached))
    ensures Pinged(t, t', node, status, last)
  {
    hide AllNodes, FindBucket, Mates, MaySplit, AnyExpired, Unsure;
    var cached := t.buckets[Find(t.buckets, node.id)].cached;
    if cached.Some? {
      var k := |t.pings| + |dubious|;
      assert t1.pings[k] == cached.value;
      assert t'.pings[k] == t1.pings[k];
      assert t'.pings[|t.pings|..][k - |t.pings|] == cached.value;
    }
  }

  lemma {:induction false} AgainBack(t: Table, node: Node, confirm: int, now: int, me: Id, status: Node -> Status, next: Node -> Status,
                                     last: Node -> Status, t': Table, r: bool)
    requires Inv(t.buckets) && |t.buckets| > 0 && !Stuck(t.buckets, node, me) && Activate(t, node, confirm, now, me, status).Again?
    requires var t1 := Activate(t, node, confirm, now, me, status).table;
             && |t'.buckets| >= |t1.buckets| > 0 && Settled(t1, t', r, node, confirm, me, last)
             && Marked(t1, t', node, confirm, now, me) && Pinged(t1, t', node, next, last)
    ensures |t'.buckets| > |t.buckets| && Settled(t, t', r, node, confirm, me, last)
    ensures Marked(t, t', node, confirm, now, me) && Pinged(t, t', node, status, last)
  {
    hide Inv, Activate, Stuck, TargetDepth, AllNodes, FindBucket, Mates, MaySplit, AnyExpired, Settled, Marked, Pinged, DubiousPing, InsertAfter, Middle;
    var t1 := Activate(t, node, confirm, now, me, status).table;
    AgainStep(t, node, confirm, now, me, status);
    AgainMarks(t, node, confirm, now, me, status);
    AgainIffNeedsSplit(t, node, confirm, now, me, status);
    ActivationPings(t, node, confirm, now, me, status);
    SettledBack(t, t1, t', r, node, confirm, me, last);
    MarkedBack(t, t1, t', node, confirm, now, me);
    PingedBack(t, t1, t', node, me, status, next, last, DubiousPing(t.buckets[Find(t.buckets, node.id)].nodes, status));
  }

  /** A call that needs a split halves the bucket of the node, with all nodes kept, and goes on as the same call one level down. */
  lemma {:induction false} NewNodeSplits(t: Table, node: Node, confirm: int, now: int, me: Id, status: nat -> Node -> Status, level: nat)
    returns (t1: Table)
    requires Inv(t.buckets) && |t.buckets| > 0 && !Stuck(t.buckets, node, me) && NeedsSplit(t, node, me, status(level))
    ensures var fs, i := Bounds(t.buckets), Find(t.buckets, node.id);
            && Inv(t1.buckets) && !Stuck(t1.buckets, node, me) && AllNodes(t1.buckets) == AllNodes(t.buckets)
            && Middle(fs, i).Some? && Bounds(t1.buckets) == InsertAfter(fs, i, Middle(fs, i).value)
            && OnNewNode(t, node, confirm, now, me, status, level) == OnNewNode(t1, node, confirm, now, me, status, level + 1)
  {
    hide Inv, Activate, Stuck, TargetDepth, AllNodes, FindBucket, NeedsSplit, InsertAfter, Middle;
    AgainIffNeedsSplit(t, node, confirm, now, me, status(level));
    AgainStep(t, node, confirm, now, me, status(level));
    t1 := Activate(t, node, confirm, now, me, status(level)).table;
  }

  // ----- expiry

  lemma {:induction false} AliveCount(ns: seq<Node>, status: Node -> Status, n: Node)
    ensures multiset(Alive(ns, status))[n] == if status(n).expired then 0 else multiset(ns)[n]
  {
    if ns != [] {
      AliveCount(ns[1..], status, n);
      assert ns == [ns[0]] + ns[1..];
    }
  }

  lemma {:induction false} NoneExpired(ns: seq<Node>, status: Node -> Status, n: Node)
    requires FirstExpired(ns, status) == |ns|
    ensures status(n).expired ==> multiset(ns)[n] == 0
  {
    if n in ns {
      var j :| 0 <= j < |ns| && ns[j] == n;
    }
  }

  /** Exactly the nodes that have not expired stay, each as often as it was there. */
  lemma {:induction false} ExpireExact(bs: seq<Bucket>, status: Node -> Status, n: Node)
    ensures AllNodes(ExpireBuckets(bs, status).0)[n] == if status(n).expired then 0 else AllNodes(bs)[n]
    decreases |bs|
  {
    hide Alive, FirstExpired;
    if bs != [] {
      ExpireExact(bs[1..], status, n);
      AliveCount(bs[0].nodes, status, n);
      if FirstExpired(bs[0].nodes, status) == |bs[0].nodes| {
        NoneExpired(bs[0].nodes, status, n);
      }
      var r := ExpireBuckets(bs, status).0;
      assert r[0] == ExpireBucket(bs[0], status).0 && r[1..] == ExpireBuckets(bs[1..], status).0;
    }
  }

  /** A bucket that loses a node has its cached node pinged and forgotten; any other bucket stays as it is. */
  lemma {:induction false} ExpirePings(bs: seq<Bucket>, status: Node -> Status, i: nat)
    requires i < |bs|
    ensures var (r, pings) := ExpireBuckets(bs, status);
            if AnyExpired(Elements(bs[i].nodes), status)
            then r[i].cached.None? && (bs[i].cached.Some? ==> bs[i].cached.value in pings)
            else r[i] == bs[i]
    ensures forall p :: p in ExpireBuckets(bs, status).1 ==>
              exists j :: 0 <= j < |bs| && bs[j].cached == Some(p) && AnyExpired(Elements(bs[j].nodes), status)
    decreases |bs|
  {
    hide Alive, FirstExpired, AnyExpired, Elements;
    FirstExpiredIs(bs[0].nodes, status);
    var (r, pings) := ExpireBuckets(bs, status);
    if i > 0 {
      ExpirePings(bs[1..], status, i - 1);
    } else if |bs| > 1 {
      ExpirePings(bs[1..], status, 0);
    }
    forall p | p in pings
      ensures exists j :: 0 <= j < |bs| && bs[j].cached == Some(p) && AnyExpired(Elements(bs[j].nodes), status)
    {
      if p in ExpireBuckets(bs[1..], status).1 {
        var j :| 0 <= j < |bs[1..]| && bs[1..][j].cached == Some(p) && AnyExpired(Elements(bs[1..][j].nodes), status);
        assert bs[j + 1] == bs[1..][j];
      } else {
        assert bs[0].cached == Some(p);
      }
    }
  }

  /** What the two events of a run do: a new node settles, an expiry leaves exactly the nodes that have not expired. */
  lemma {:induction false} EventOutcomes(t: Table, me: Id, e: Event, n: Node)
    requires Inv(t.buckets) && |t.buckets| > 0 && Returns(t, me, e)
    ensures var t' := Apply(t, me, e);
            match e
            case NewNode(node, confirm, now, status) =>
              && |t'.buckets| >= |t.buckets|
              && Settled(t, t', node !in AllNodes(t.buckets), node, confirm, me, status(|t'.buckets| - |t.buckets|))
            case Expire(status) =>
              && Bounds(t'.buckets) == Bounds(t.buckets)
              && AllNodes(t'.buckets)[n] == if status(n).expired then 0 else AllNodes(t.buckets)[n]
  {
    hide Inv, AllNodes, FindBucket, Mates, MaySplit, AnyExpired, ExpireBuckets, OnNewNode;
    match e
    case NewNode(node, confirm, now, status) => NewNodeSettles(t, node, confirm, now, me, status, 0);
    case Expire(status) =>
      ExpireExact(t.buckets, status, n);
      ExpireKeeps(t.buckets, status);
  }
}
