/**
 What every activation of `onNewNode` keeps, exactly when the recursion ends,
 and what that gives for every reachable table.
 */
module RoutingRuns {
  import opened Prelude
  import opened InfoHash
  import opened TableBounds
  import opened RoutingTable

  // ----- the nodes of a table

  ghost function AllNodes(bs: seq<Bucket>): (ns: multiset<Node>) {
    if bs == [] then multiset{} else multiset(bs[0].nodes) + AllNodes(bs[1..])
  }

  lemma {:induction false} AllNodesConcat(a: seq<Bucket>, b: seq<Bucket>)
    ensures AllNodes(a + b) == AllNodes(a) + AllNodes(b)
  {
    if a == [] {
      assert a + b == b;
    } else {
      AllNodesConcat(a[1..], b);
      assert (a + b)[1..] == a[1..] + b && (a + b)[0] == a[0];
      var x, y, z := multiset(a[0].nodes), AllNodes(a[1..]), AllNodes(b);
      assert x + (y + z) == (x + y) + z;
    }
  }

  lemma {:induction false} AllNodesAt(bs: seq<Bucket>, i: nat)
    requires i < |bs|
    ensures AllNodes(bs) == AllNodes(bs[..i]) + multiset(bs[i].nodes) + AllNodes(bs[i + 1..])
  {
    assert bs == bs[..i] + bs[i..];
    AllNodesConcat(bs[..i], bs[i..]);
    assert bs[i..][1..] == bs[i + 1..];
  }

  lemma {:induction false} AllNodesUpdate(bs: seq<Bucket>, i: nat, b: Bucket)
    requires i < |bs|
    ensures AllNodes(bs[i := b]) + multiset(bs[i].nodes) == AllNodes(bs) + multiset(b.nodes)
  {
    AllNodesAt(bs, i);
    AllNodesAt(bs[i := b], i);
    assert bs[i := b][..i] == bs[..i] && bs[i := b][i + 1..] == bs[i + 1..];
  }

  lemma {:induction false} AllNodesMember(bs: seq<Bucket>, n: Node)
    ensures n in AllNodes(bs) <==> exists i :: 0 <= i < |bs| && n in bs[i].nodes
  {
    if bs != [] {
      AllNodesMember(bs[1..], n);
      if n in AllNodes(bs[1..]) {
        var i :| 0 <= i < |bs[1..]| && n in bs[1..][i].nodes;
        assert n in bs[i + 1].nodes;
      }
      if i :| 0 <= i < |bs| && n in bs[i].nodes {
        assert i > 0 ==> n in bs[1..][i - 1].nodes;
      }
    }
  }

  // ----- invariant

  /** Every node sits in the bucket that findBucket gives for its id. */
  ghost predicate Placed(bs: seq<Bucket>)
    requires |bs| > 0
  {
    forall i, n :: 0 <= i < |bs| && n in bs[i].nodes ==> Find(bs, n.id) == i
  }

  ghost predicate Inv(bs: seq<Bucket>) {
    && Tiled(Bounds(bs))
    && Placed(bs)
    && (forall i :: 0 <= i < |bs| ==> |bs[i].nodes| <= TARGET_NODES)
    && forall n :: AllNodes(bs)[n] <= 1
  }

  /** Replacing a bucket's nodes by ones that belong there, with no node twice. */
  lemma {:induction false} UpdateKeeps(bs: seq<Bucket>, i: nat, b: Bucket)
    requires Inv(bs) && i < |bs| && b.first == bs[i].first && |b.nodes| <= TARGET_NODES
    requires forall n :: n in b.nodes ==> Find(bs, n.id) == i
    requires forall n :: multiset(b.nodes)[n] <= 1
    ensures Inv(bs[i := b])
    ensures AllNodes(bs[i := b]) + multiset(bs[i].nodes) == AllNodes(bs) + multiset(b.nodes)
  {
    var r := bs[i := b];
    assert Bounds(r) == Bounds(bs);
    AllNodesUpdate(bs, i, b);
    forall n
      ensures AllNodes(r)[n] <= 1
    {
      CountAfterUpdate(bs, i, b, n);
    }
  }

  lemma {:induction false} CountAfterUpdate(bs: seq<Bucket>, i: nat, b: Bucket, n: Node)
    requires Inv(bs) && i < |bs|
    requires n in b.nodes ==> Find(bs, n.id) == i
    requires multiset(b.nodes)[n] <= 1
    ensures AllNodes(bs[i := b])[n] <= 1
  {
    hide Tiled, Find;
    AllNodesUpdate(bs, i, b);
    AllNodesAt(bs, i);
    assert (AllNodes(bs[i := b]) + multiset(bs[i].nodes))[n] == (AllNodes(bs) + multiset(b.nodes))[n];
    if n in b.nodes && n !in bs[i].nodes {
      AllNodesMember(bs, n);
    }
  }

  // ----- split keeps the nodes

  lemma {:induction false} PushFrontNodes(bs: seq<Bucket>, i: nat, n: Node)
    requires i < |bs|
    ensures AllNodes(PushFront(bs, i, n)) == AllNodes(bs) + multiset{n}
  {
    AllNodesAt(bs, i);
    AllNodesAt(PushFront(bs, i, n), i);
    assert PushFront(bs, i, n)[..i] == bs[..i] && PushFront(bs, i, n)[i + 1..] == bs[i + 1..];
    assert multiset([n] + bs[i].nodes) == multiset{n} + multiset(bs[i].nodes);
  }

  lemma {:induction false} ReassignNodes(bs: seq<Bucket>, ns: seq<Node>)
    requires |bs| > 0
    ensures AllNodes(Reassign(bs, ns)) == AllNodes(bs) + multiset(ns)
    decreases |ns|
  {
    hide Find, PushFront, AllNodes;
    if ns != [] {
      var i := Find(bs, ns[0].id);
      PushFrontNodes(bs, i, ns[0]);
      ReassignNodes(PushFront(bs, i, ns[0]), ns[1..]);
      assert ns == [ns[0]] + ns[1..];
    }
  }

  lemma {:induction false} ReassignPlaced(bs: seq<Bucket>, ns: seq<Node>)
    requires |bs| > 0 && Placed(bs)
    ensures Placed(Reassign(bs, ns))
    decreases |ns|
  {
    if ns != [] {
      var i := Find(bs, ns[0].id);
      ReassignPlaced(PushFront(bs, i, ns[0]), ns[1..]);
    }
  }

  lemma {:induction false} ReassignSizes(bs: seq<Bucket>, ns: seq<Node>, j: nat)
    requires j < |bs|
    ensures |Reassign(bs, ns)[j].nodes| <= |bs[j].nodes| + |ns|
    ensures (forall n :: n in ns ==> Find(bs, n.id) != j) ==> Reassign(bs, ns)[j] == bs[j]
    decreases |ns|
  {
    if ns != [] {
      ReassignSizes(PushFront(bs, Find(bs, ns[0].id), ns[0]), ns[1..], j);
      assert ns[0] in ns && forall n :: n in ns[1..] ==> n in ns;
    }
  }

  lemma {:induction false} OpenUpNodes(bs: seq<Bucket>, i: nat, m: Id)
    requires i < |bs|
    ensures AllNodes(OpenUp(bs, i, m)) + multiset(bs[i].nodes) == AllNodes(bs)
  {
    var lower, upper := [bs[i].(nodes := [])], [Bucket(m, bs[i].time, [], None)];
    AllNodesAt(bs, i);
    hide Bounds;
    assert OpenUp(bs, i, m) == bs[..i] + (lower + (upper + bs[i + 1..]));
    AllNodesConcat(bs[..i], lower + (upper + bs[i + 1..]));
    AllNodesConcat(lower, upper + bs[i + 1..]);
    AllNodesConcat(upper, bs[i + 1..]);
  }

  lemma {:induction false} OpenUpPlaced(bs: seq<Bucket>, i: nat)
    requires Inv(bs) && i < |bs| && Depth(Bounds(bs), i) < HASH_BITS
    ensures Placed(OpenUp(bs, i, Middle(Bounds(bs), i).value))
  {
    var r := OpenUp(bs, i, Middle(Bounds(bs), i).value);
    forall j, n | 0 <= j < |r| && n in r[j].nodes
      ensures Find(r, n.id) == j
    {
      HalvingDeepens(Bounds(bs), i, n.id);
      assert j < i ==> n in bs[j].nodes;
      assert j > i + 1 ==> n in bs[j - 1].nodes;
    }
  }

  /** Split keeps the invariant and the multiset of nodes, and both halves are one bit deeper. */
  lemma {:induction false} SplitKeeps(bs: seq<Bucket>, i: nat)
    requires Inv(bs) && i < |bs| && Depth(Bounds(bs), i) < HASH_BITS
    ensures Split(bs, i).Some? && Inv(Split(bs, i).value)
    ensures AllNodes(Split(bs, i).value) == AllNodes(bs)
    ensures Bounds(Split(bs, i).value) == InsertAfter(Bounds(bs), i, Middle(Bounds(bs), i).value)
  {
    var m := Middle(Bounds(bs), i).value;
    var o := OpenUp(bs, i, m);
    var r := Reassign(o, bs[i].nodes);
    HalvingKeepsTiling(Bounds(bs), i);
    OpenUpNodes(bs, i, m);
    OpenUpPlaced(bs, i);
    ReassignNodes(o, bs[i].nodes);
    ReassignPlaced(o, bs[i].nodes);
    forall j | 0 <= j < |r|
      ensures |r[j].nodes| <= TARGET_NODES
    {
      ReassignSizes(o, bs[i].nodes, j);
      if j != i && j != i + 1 {
        forall n | n in bs[i].nodes
          ensures Find(o, n.id) != j
        {
          HalvingDeepens(Bounds(bs), i, n.id);
        }
      }
    }
  }

  lemma {:induction false} SplitOrKeepKeeps(bs: seq<Bucket>, i: nat)
    requires Inv(bs) && i < |bs|
    ensures Inv(SplitOrKeep(bs, i)) && AllNodes(SplitOrKeep(bs, i)) == AllNodes(bs)
  {
    if Depth(Bounds(bs), i) < HASH_BITS {
      SplitKeeps(bs, i);
    }
  }

  // ----- one activation

  lemma {:induction false} RelabelKeeps(bs: seq<Bucket>, i: nat, b: Bucket)
    requires Inv(bs) && i < |bs| && b.first == bs[i].first && b.nodes == bs[i].nodes
    ensures Inv(bs[i := b]) && AllNodes(bs[i := b]) == AllNodes(bs) && Bounds(bs[i := b]) == Bounds(bs)
  {
    NoDuplicates(bs, i);
    UpdateKeeps(bs, i, b);
    hide Find, Tiled;
    assert Bounds(bs[i := b]) == Bounds(bs);
    AllNodesAt(bs, i);
    AllNodesAt(bs[i := b], i);
    assert bs[i := b][..i] == bs[..i] && bs[i := b][i + 1..] == bs[i + 1..];
  }

  lemma {:induction false} NoDuplicates(bs: seq<Bucket>, i: nat)
    requires Inv(bs) && i < |bs|
    ensures forall n :: multiset(bs[i].nodes)[n] <= 1
  {
    AllNodesAt(bs, i);
    forall n
      ensures multiset(bs[i].nodes)[n] <= 1
    {
      assert multiset(bs[i].nodes)[n] <= AllNodes(bs)[n];
    }
  }

  lemma {:induction false} InsertKeeps(bs: seq<Bucket>, n: Node)
    requires Inv(bs) && n !in bs[Find(bs, n.id)].nodes && |bs[Find(bs, n.id)].nodes| < TARGET_NODES
    ensures Inv(PushFront(bs, Find(bs, n.id), n))
    ensures AllNodes(PushFront(bs, Find(bs, n.id), n)) == AllNodes(bs) + multiset{n}
  {
    var i := Find(bs, n.id);
    NoDuplicates(bs, i);
    PushFrontNodes(bs, i, n);
    hide Find;
    assert multiset([n] + bs[i].nodes) == multiset{n} + multiset(bs[i].nodes);
    UpdateKeeps(bs, i, bs[i].(nodes := [n] + bs[i].nodes));
  }

  lemma {:induction false} EvictKeeps(bs: seq<Bucket>, n: Node, e: nat)
    requires Inv(bs) && n !in bs[Find(bs, n.id)].nodes && e < |bs[Find(bs, n.id)].nodes|
    ensures var i := Find(bs, n.id);
            var r := bs[i := bs[i].(nodes := bs[i].nodes[e := n])];
            && Inv(r) && bs[i].nodes[e] in AllNodes(bs)
            && AllNodes(r) == AllNodes(bs) - multiset{bs[i].nodes[e]} + multiset{n}
  {
    var i := Find(bs, n.id);
    NoDuplicates(bs, i);
    hide Find;
    var ns := bs[i].nodes;
    var r := bs[i := bs[i].(nodes := ns[e := n])];
    assert multiset(ns[e := n]) == multiset(ns) - multiset{ns[e]} + multiset{n};
    UpdateKeeps(bs, i, bs[i].(nodes := ns[e := n]));
    AllNodesAt(bs, i);
    SwapOne(AllNodes(r), AllNodes(bs), multiset(ns), ns[e], n);
  }

  lemma {:induction false} SwapOne(after: multiset<Node>, before: multiset<Node>, part: multiset<Node>, e: Node, n: Node)
    requires part <= before && e in part
    requires after + part == before + (part - multiset{e} + multiset{n})
    ensures after == before - multiset{e} + multiset{n} && e in before
  {
    forall x
      ensures after[x] == (before - multiset{e} + multiset{n})[x]
    {
      assert (after + part)[x] == (before + (part - multiset{e} + multiset{n}))[x];
    }
  }

  /** How a finished activation may change the nodes of the table. */
  ghost predicate Outcome(before: multiset<Node>, after: multiset<Node>, node: Node, result: bool, status: Node -> Status) {
    if !result then after == before && node in before
    else
      || after == before
      || (node !in before && after == before + multiset{node})
      || (node !in before && exists e :: e in before && status(e).expired && after == before - multiset{e} + multiset{node})
  }

  /** What an activation guarantees when it was started on table t. */
  ghost predicate ActivationOk(t: Table, a: Activation, node: Node, status: Node -> Status)
  {
    && Inv(a.table.buckets)
    && a.table.isClient == t.isClient
    && match a
       case Finished(t', r) => Bounds(t'.buckets) == Bounds(t.buckets)
                               && Outcome(AllNodes(t.buckets), AllNodes(t'.buckets), node, r, status)
       case Again(t') => AllNodes(t'.buckets) == AllNodes(t.buckets)
  }

  lemma {:induction false} EvictionOk(t: Table, node: Node, confirm: int, mine: bool, status: Node -> Status)
    requires Inv(t.buckets)
    requires var b := t.buckets[Find(t.buckets, node.id)];
             node !in b.nodes && FirstExpired(b.nodes, status) < |b.nodes|
    ensures ActivationOk(t, OnFullBucket(t, Find(t.buckets, node.id), node, confirm, mine, status), node, status)
  {
    var bs, i := t.buckets, Find(t.buckets, node.id);
    var e := FirstExpired(bs[i].nodes, status);
    NotElsewhere(bs, node);
    EvictKeeps(bs, node, e);
    hide Find, Inv, SplitOrKeep, Depth;
    assert Bounds(bs[i := bs[i].(nodes := bs[i].nodes[e := node])]) == Bounds(bs);
  }

  lemma {:induction false} FullBucketKeeps(t: Table, node: Node, confirm: int, mine: bool, status: Node -> Status)
    requires Inv(t.buckets) && node !in t.buckets[Find(t.buckets, node.id)].nodes
    ensures ActivationOk(t, OnFullBucket(t, Find(t.buckets, node.id), node, confirm, mine, status), node, status)
  {
    hide Find, Inv, SplitOrKeep, Depth;
    var bs, i := t.buckets, Find(t.buckets, node.id);
    var b := bs[i];
    if FirstExpired(b.nodes, status) < |b.nodes| {
      EvictionOk(t, node, confirm, mine, status);
    } else {
      RelabelKeeps(bs, i, b.(cached := None));
      RelabelKeeps(bs, i, b.(cached := Some(node)));
      SplitOrKeepKeeps(bs[i := b.(cached := None)], i);
    }
  }

  lemma {:induction false} NotElsewhere(bs: seq<Bucket>, n: Node)
    requires Inv(bs)
    ensures n in AllNodes(bs) <==> n in bs[Find(bs, n.id)].nodes
  {
    AllNodesMember(bs, n);
  }

  /** Every activation keeps the invariant, and changes the nodes only as `Outcome` allows. */
  lemma {:induction false} ActivateKeeps(t: Table, node: Node, confirm: int, now: int, me: Id, status: Node -> Status)
    requires Inv(t.buckets)
    ensures ActivationOk(t, Activate(t, node, confirm, now, me, status), node, status)
  {
    var bs, i := t.buckets, Find(t.buckets, node.id);
    var bs0 := bs[i := Confirmed(bs[i], confirm, now)];
    RelabelKeeps(bs, i, Confirmed(bs[i], confirm, now));
    assert Find(bs0, node.id) == i;
    NotElsewhere(bs, node);
    if node !in bs[i].nodes {
      var mine := Contains(Bounds(bs), i, me);
      var t0 := t.(buckets := bs0);
      var t1 := if mine then t0.(growTime := now) else t0;
      hide Find, Contains, Inv;
      if |bs[i].nodes| >= TARGET_NODES {
        FullBucketKeeps(t1, node, confirm, mine, status);
      } else {
        InsertKeeps(bs0, node);
      }
    }
  }

  // ----- when the recursion ends

  ghost function SameId(bs: seq<Bucket>, id: Id): set<Node> {
    set n | n in AllNodes(bs) && n.id == id
  }

  /** The new node carries our own id and the table is already full of other nodes that do. */
  ghost predicate Stuck(bs: seq<Bucket>, node: Node, me: Id) {
    node.id == me && node !in AllNodes(bs) && |SameId(bs, me)| >= TARGET_NODES
  }

  function TargetDepth(bs: seq<Bucket>, id: Id): (d: nat)
    requires |bs| > 0
    ensures d <= HASH_BITS
  {
    Depth(Bounds(bs), Find(bs, id))
  }

  ghost function Elements(ns: seq<Node>): set<Node> {
    set n | n in ns
  }

  lemma {:induction false} ElementCount(ns: seq<Node>)
    ensures |Elements(ns)| <= |ns|
    ensures (forall n :: multiset(ns)[n] <= 1) ==> |Elements(ns)| == |ns|
  {
    if ns != [] {
      ElementCount(ns[1..]);
      assert ns == [ns[0]] + ns[1..];
      assert Elements(ns) == {ns[0]} + Elements(ns[1..]);
      if forall n :: multiset(ns)[n] <= 1 {
        assert multiset(ns) == multiset{ns[0]} + multiset(ns[1..]);
        assert forall n :: multiset(ns[1..])[n] <= multiset(ns)[n];
        assert multiset(ns)[ns[0]] <= 1;
      }
    }
  }

  /** Pigeonhole: at full depth an interval is one id, so a full bucket holds that id only. */
  lemma {:induction false} FullAtBottom(bs: seq<Bucket>, node: Node, me: Id)
    requires Inv(bs) && TargetDepth(bs, node.id) == HASH_BITS
    requires Contains(Bounds(bs), Find(bs, node.id), me)
    requires node !in bs[Find(bs, node.id)].nodes && |bs[Find(bs, node.id)].nodes| >= TARGET_NODES
    ensures Stuck(bs, node, me)
  {
    var fs, i := Bounds(bs), Find(bs, node.id);
    var ns := bs[i].nodes;
    FindBucketUnique(fs, node.id, i);
    DepthIsPrefixLength(fs, i, node.id);
    DepthIsPrefixLength(fs, i, me);
    assert node.id == me;
    forall n | n in ns
      ensures n in SameId(bs, me)
    {
      FindBucketUnique(fs, n.id, i);
      DepthIsPrefixLength(fs, i, n.id);
      assert n.id == me;
      AllNodesMember(bs, n);
    }
    NotElsewhere(bs, node);
    NoDuplicates(bs, i);
    ElementCount(ns);
    SubsetSize(Elements(ns), SameId(bs, me));
  }

  /** Unless stuck, an activation that recurses has moved the target one bucket depth down. */
  lemma {:induction false} AgainDeepens(t: Table, node: Node, confirm: int, now: int, me: Id, status: Node -> Status)
    requires Inv(t.buckets) && !Stuck(t.buckets, node, me)
    requires Activate(t, node, confirm, now, me, status).Again?
    ensures var t' := Activate(t, node, confirm, now, me, status).table;
            && Inv(t'.buckets) && !Stuck(t'.buckets, node, me)
            && TargetDepth(t'.buckets, node.id) == TargetDepth(t.buckets, node.id) + 1
  {
    assert |t.buckets| > 0;
    hide Inv, Activate, Stuck, Depth, SplitOrKeep;
    var t' := Activate(t, node, confirm, now, me, status).table;
    var bs, i := t.buckets, Find(t.buckets, node.id);
    var bs2 := Refreshed(bs, i, confirm, now);
    ActivateKeeps(t, node, confirm, now, me, status);
    AgainSplits(t, node, confirm, now, me, status);
    RelabelKeeps(bs, i, bs2[i]);
    SplitDeepens(bs2, i, node.id);
    StuckByNodes(bs, t'.buckets, node, me);
  }

  lemma {:induction false} StuckByNodes(bs: seq<Bucket>, bs': seq<Bucket>, node: Node, me: Id)
    requires AllNodes(bs) == AllNodes(bs')
    ensures Stuck(bs, node, me) <==> Stuck(bs', node, me)
  {
    assert SameId(bs, me) == SameId(bs', me);
  }

  /** The buckets as they are when an activation comes to splitting bucket i. */
  function Refreshed(bs: seq<Bucket>, i: nat, confirm: int, now: int): (r: seq<Bucket>)
    requires i < |bs|
    ensures |r| == |bs| && Bounds(r) == Bounds(bs)
  {
    var r := bs[i := Confirmed(bs[i], confirm, now).(cached := None)];
    assert Bounds(r) == Bounds(bs);
    r
  }

  /** An activation recurses only from a full bucket, which has a bit left to split unless stuck. */
  lemma {:induction false} AgainSplits(t: Table, node: Node, confirm: int, now: int, me: Id, status: Node -> Status)
    requires Inv(t.buckets) && Activate(t, node, confirm, now, me, status).Again?
    ensures var bs, i := t.buckets, Find(t.buckets, node.id);
            && Activate(t, node, confirm, now, me, status).table.buckets == SplitOrKeep(Refreshed(bs, i, confirm, now), i)
            && (!t.isClient ==> Contains(Bounds(bs), i, me))
            && (!Stuck(bs, node, me) ==> Depth(Bounds(bs), i) < HASH_BITS)
  {
    hide Inv, Find, SplitOrKeep, Stuck, Depth, Contains;
    var bs, i := t.buckets, Find(t.buckets, node.id);
    var bs0 := bs[i := Confirmed(bs[i], confirm, now)];
    assert Bounds(bs0) == Bounds(bs);
    assert bs0[i := bs0[i].(cached := None)] == Refreshed(bs, i, confirm, now);
    if Depth(Bounds(bs), i) == HASH_BITS {
      FullAtBottom(bs, node, me);
    }
  }

  lemma {:induction false} SplitDeepens(bs: seq<Bucket>, i: nat, id: Id)
    requires Inv(bs) && |bs| > 0 && i == Find(bs, id) && Depth(Bounds(bs), i) < HASH_BITS
    ensures |SplitOrKeep(bs, i)| > 0 && TargetDepth(SplitOrKeep(bs, i), id) == Depth(Bounds(bs), i) + 1
  {
    SplitKeeps(bs, i);
    HalvingDeepens(Bounds(bs), i, id);
  }

  /** The chain of activations, at most k of them; each level sees its own node status. */
  function Descend(t: Table, node: Node, confirm: int, now: int, me: Id,
                   status: nat -> Node -> Status, level: nat, k: nat): (a: Activation)
    decreases k
  {
    if k == 0 then Again(t)
    else
      match Activate(t, node, confirm, now, me, status(level))
      case Finished(t', r) => Finished(t', r)
      case Again(t') => Descend(t', node, confirm, now, me, status, level + 1, k - 1)
  }

  /** If not stuck, the recursion ends after at most one activation for each remaining bit, plus one. */
  lemma {:induction false} DescentEnds(t: Table, node: Node, confirm: int, now: int, me: Id,
                                       status: nat -> Node -> Status, level: nat, k: nat)
    requires Inv(t.buckets) && !Stuck(t.buckets, node, me)
    requires k > HASH_BITS - TargetDepth(t.buckets, node.id)
    ensures Descend(t, node, confirm, now, me, status, level, k).Finished?
    decreases k
  {
    hide Activate, Inv, Stuck, TargetDepth;
    if Activate(t, node, confirm, now, me, status(level)).Again? {
      AgainDeepens(t, node, confirm, now, me, status(level));
      DescentEnds(Activate(t, node, confirm, now, me, status(level)).table, node, confirm, now, me, status, level + 1, k - 1);
    }
  }

  function AllGood(): nat -> Node -> Status {
    (level: nat) => (n: Node) => Status(false, true, false)
  }

  /** If stuck and all nodes are good, every activation recurses. */
  lemma {:induction false} DescentDiverges(t: Table, node: Node, confirm: int, now: int, me: Id, level: nat, k: nat)
    requires Inv(t.buckets) && Stuck(t.buckets, node, me)
    ensures Descend(t, node, confirm, now, me, AllGood(), level, k).Again?
    decreases k
  {
    hide Activate, Inv, Stuck;
    if k > 0 {
      var a := Activate(t, node, confirm, now, me, AllGood()(level));
      StuckRecurses(t, node, confirm, now, me, level);
      DescentDiverges(a.table, node, confirm, now, me, level + 1, k - 1);
    }
  }

  lemma {:induction false} StuckRecurses(t: Table, node: Node, confirm: int, now: int, me: Id, level: nat)
    requires Inv(t.buckets) && Stuck(t.buckets, node, me)
    ensures var a := Activate(t, node, confirm, now, me, AllGood()(level));
            a.Again? && Inv(a.table.buckets) && Stuck(a.table.buckets, node, me)
  {
    var bs, i := t.buckets, Find(t.buckets, node.id);
    ActivateKeeps(t, node, confirm, now, me, AllGood()(level));
    NotElsewhere(bs, node);
    FindBucketUnique(Bounds(bs), me, i);
    forall n | n in SameId(bs, me)
      ensures n in bs[i].nodes
    {
      NotElsewhere(bs, n);
    }
    SubsetSize(SameId(bs, me), Elements(bs[i].nodes));
    ElementCount(bs[i].nodes);
  }

  ghost predicate AlwaysEnds(t: Table, node: Node, confirm: int, now: int, me: Id) {
    forall status: nat -> Node -> Status :: Ends(t, node, confirm, now, me, status)
  }

  ghost predicate Ends(t: Table, node: Node, confirm: int, now: int, me: Id, status: nat -> Node -> Status) {
    exists k: nat :: Descend(t, node, confirm, now, me, status, 0, k).Finished?
  }

  /** Exact termination condition of `onNewNode` on every table of the invariant. */
  lemma {:induction false} EndsIffNotStuck(t: Table, node: Node, confirm: int, now: int, me: Id)
    requires Inv(t.buckets)
    ensures AlwaysEnds(t, node, confirm, now, me) <==> !Stuck(t.buckets, node, me)
  {
    if Stuck(t.buckets, node, me) {
      forall k: nat
        ensures Descend(t, node, confirm, now, me, AllGood(), 0, k).Again?
      {
        DescentDiverges(t, node, confirm, now, me, 0, k);
      }
      assert !Ends(t, node, confirm, now, me, AllGood());
    } else {
      forall status: nat -> Node -> Status
        ensures Ends(t, node, confirm, now, me, status)
      {
        DescentEnds(t, node, confirm, now, me, status, 0, HASH_BITS + 1);
      }
    }
  }

  /** Distinct ids, or an id that is not ours, are enough. */
  lemma {:induction false} DistinctIdsEnd(bs: seq<Bucket>, node: Node, me: Id)
    requires Inv(bs)
    requires node.id != me || forall n, n' :: n in AllNodes(bs) && n' in AllNodes(bs) && n.id == n'.id ==> n == n'
    ensures !Stuck(bs, node, me)
  {
    if node.id == me {
      AtMostOne(SameId(bs, me));
    }
  }

  lemma {:induction false} AtMostOne(s: set<Node>)
    requires forall a, b :: a in s && b in s ==> a == b
    ensures |s| <= 1
  {
    if s != {} {
      var n :| n in s;
      assert s == {n};
    }
  }

  // ----- the whole call, and runs of calls

  /** `RoutingTable::onNewNode`. */
  function OnNewNode(t: Table, node: Node, confirm: int, now: int, me: Id,
                     status: nat -> Node -> Status, level: nat): (r: (Table, bool))
    requires Inv(t.buckets) && !Stuck(t.buckets, node, me)
    decreases HASH_BITS - TargetDepth(t.buckets, node.id)
  {
    match Activate(t, node, confirm, now, me, status(level))
    case Finished(t', b) => (t', b)
    case Again(t') =>
      AgainDeepens(t, node, confirm, now, me, status(level));
      OnNewNode(t', node, confirm, now, me, status, level + 1)
  }

  /** A non-client table splits its own bucket only, so the path shape survives. */
  lemma {:induction false} ActivateKeepsOwnPath(t: Table, node: Node, confirm: int, now: int, me: Id, status: Node -> Status)
    requires Inv(t.buckets) && !t.isClient && OwnPath(Bounds(t.buckets), me) && !Stuck(t.buckets, node, me)
    ensures OwnPath(Bounds(Activate(t, node, confirm, now, me, status).table.buckets), me)
  {
    hide OwnPath, Depth;
    ActivateKeeps(t, node, confirm, now, me, status);
    if Activate(t, node, confirm, now, me, status).Again? {
      var bs, i := t.buckets, Find(t.buckets, node.id);
      var bs2 := Refreshed(bs, i, confirm, now);
      AgainSplits(t, node, confirm, now, me, status);
      FindBucketUnique(Bounds(bs), me, i);
      RelabelKeeps(bs, i, bs2[i]);
      hide Inv, Activate, Find;
      SplitKeeps(bs2, i);
      HalvingKeepsOwnPath(Bounds(bs), me);
    }
  }

  /** What the whole call keeps, and its net effect on the nodes of the table. */
  lemma {:induction false} OnNewNodeKeeps(t: Table, node: Node, confirm: int, now: int, me: Id,
                                          status: nat -> Node -> Status, level: nat)
    requires Inv(t.buckets) && !Stuck(t.buckets, node, me)
    ensures var (t', r) := OnNewNode(t, node, confirm, now, me, status, level);
            && Inv(t'.buckets) && t'.isClient == t.isClient
            && (exists l: nat :: l >= level && Outcome(AllNodes(t.buckets), AllNodes(t'.buckets), node, r, status(l)))
            && (!t.isClient && OwnPath(Bounds(t.buckets), me) ==> OwnPath(Bounds(t'.buckets), me))
    decreases HASH_BITS - TargetDepth(t.buckets, node.id)
  {
    assert |t.buckets| > 0;
    hide Inv, Activate, Outcome, OwnPath, Stuck, TargetDepth, Bounds;
    var a := Activate(t, node, confirm, now, me, status(level));
    ActivateKeeps(t, node, confirm, now, me, status(level));
    if !t.isClient && OwnPath(Bounds(t.buckets), me) {
      ActivateKeepsOwnPath(t, node, confirm, now, me, status(level));
    }
    if a.Again? {
      AgainDeepens(t, node, confirm, now, me, status(level));
      OnNewNodeKeeps(a.table, node, confirm, now, me, status, level + 1);
    } else {
      assert Outcome(AllNodes(t.buckets), AllNodes(a.table.buckets), node, a.result, status(level));
    }
  }

  /** The recursive function is the chain of activations, followed to its end. */
  lemma {:induction false} OnNewNodeIsDescent(t: Table, node: Node, confirm: int, now: int, me: Id,
                                              status: nat -> Node -> Status, level: nat, k: nat)
    requires Inv(t.buckets) && !Stuck(t.buckets, node, me)
    requires k > HASH_BITS - TargetDepth(t.buckets, node.id)
    ensures var (t', r) := OnNewNode(t, node, confirm, now, me, status, level);
            Descend(t, node, confirm, now, me, status, level, k) == Finished(t', r)
    decreases k
  {
    hide Activate, Inv, Stuck, TargetDepth;
    var a := Activate(t, node, confirm, now, me, status(level));
    if a.Again? {
      AgainDeepens(t, node, confirm, now, me, status(level));
      OnNewNodeIsDescent(a.table, node, confirm, now, me, status, level + 1, k - 1);
    }
  }

  lemma {:induction false} AliveNodes(ns: seq<Node>, status: Node -> Status)
    ensures |Alive(ns, status)| <= |ns| && multiset(Alive(ns, status)) <= multiset(ns)
    ensures forall n :: n in Alive(ns, status) <==> n in ns && !status(n).expired
  {
    AliveBag(ns, status);
    if ns != [] {
      AliveNodes(ns[1..], status);
      assert ns == [ns[0]] + ns[1..];
    }
  }

  lemma {:induction false} AliveBag(ns: seq<Node>, status: Node -> Status)
    ensures |Alive(ns, status)| <= |ns| && multiset(Alive(ns, status)) <= multiset(ns)
  {
    if ns != [] {
      AliveBag(ns[1..], status);
      assert ns == [ns[0]] + ns[1..];
    }
  }

  lemma {:induction false} ExpireShrinks(bs: seq<Bucket>, status: Node -> Status)
    ensures AllNodes(ExpireBuckets(bs, status).0) <= AllNodes(bs)
  {
    if bs != [] {
      AliveNodes(bs[0].nodes, status);
      ExpireShrinks(bs[1..], status);
      var r := ExpireBuckets(bs, status).0;
      assert r[1..] == ExpireBuckets(bs[1..], status).0;
    }
  }

  lemma {:induction false} ExpireAt(bs: seq<Bucket>, status: Node -> Status, i: nat)
    requires i < |bs|
    ensures ExpireBuckets(bs, status).0[i] == ExpireBucket(bs[i], status).0
  {
    if i > 0 {
      ExpireAt(bs[1..], status, i - 1);
    }
  }

  lemma {:induction false} ExpireKeeps(bs: seq<Bucket>, status: Node -> Status)
    requires Inv(bs)
    ensures Inv(ExpireBuckets(bs, status).0) && Bounds(ExpireBuckets(bs, status).0) == Bounds(bs)
    ensures forall n :: n in AllNodes(ExpireBuckets(bs, status).0) ==> !status(n).expired
  {
    var r := ExpireBuckets(bs, status).0;
    forall i | 0 <= i < |bs|
      ensures r[i] == ExpireBucket(bs[i], status).0
    {
      ExpireAt(bs, status, i);
    }
    assert Bounds(r) == Bounds(bs);
    ExpireShrinks(bs, status);
    hide Tiled, Find;
    forall i | 0 <= i < |r|
      ensures |r[i].nodes| <= TARGET_NODES && forall n :: n in r[i].nodes ==> n in bs[i].nodes && !status(n).expired
    {
      AliveNodes(bs[i].nodes, status);
    }
    forall n | n in AllNodes(r)
      ensures !status(n).expired
    {
      AllNodesMember(r, n);
    }
  }

  datatype Event =
    | NewNode(node: Node, confirm: int, now: int, status: nat -> Node -> Status)
    | Expire(expiry: Node -> Status)

  ghost predicate Returns(t: Table, me: Id, e: Event) {
    e.NewNode? ==> !Stuck(t.buckets, e.node, me)
  }

  ghost function Apply(t: Table, me: Id, e: Event): (t': Table)
    requires Inv(t.buckets) && Returns(t, me, e)
  {
    match e
    case NewNode(node, confirm, now, status) => OnNewNode(t, node, confirm, now, me, status, 0).0
    case Expire(status) =>
      var (bs, p) := ExpireBuckets(t.buckets, status);
      t.(buckets := bs, pings := t.pings + p)
  }

  /** t' is reached from t by the calls es, all of which return. */
  ghost predicate Reaches(t: Table, me: Id, es: seq<Event>, t': Table)
    requires Inv(t.buckets)
    decreases |es|
  {
    if es == [] then t' == t
    else
      && Returns(t, me, es[0])
      && (ApplyKeeps(t, me, es[0]); Reaches(Apply(t, me, es[0]), me, es[1..], t'))
  }

  lemma {:induction false} ApplyKeeps(t: Table, me: Id, e: Event)
    requires Inv(t.buckets) && Returns(t, me, e)
    ensures Inv(Apply(t, me, e).buckets) && Apply(t, me, e).isClient == t.isClient
    ensures !t.isClient && OwnPath(Bounds(t.buckets), me) ==> OwnPath(Bounds(Apply(t, me, e).buckets), me)
  {
    match e
    case NewNode(node, confirm, now, status) => OnNewNodeKeeps(t, node, confirm, now, me, status, 0);
    case Expire(status) => ExpireKeeps(t.buckets, status);
  }

  function InitialTable(isClient: bool, start: int): (t: Table) {
    Table([Bucket(Zero(), start, [], None)], start, isClient, [])
  }

  lemma {:induction false} InitialOk(isClient: bool, start: int, me: Id)
    ensures Inv(InitialTable(isClient, start).buckets) && OwnPath(Bounds(InitialTable(isClient, start).buckets), me)
  {
    var fs := Bounds(InitialTable(isClient, start).buckets);
    assert fs == [Zero()];
    assert Lowbit(fs[0]) == -1;
    assert EndsAtNext(fs, 0);
  }

  /** t is reached from the single zero bucket by some run of calls. */
  ghost predicate Reachable(isClient: bool, start: int, me: Id, es: seq<Event>, t: Table) {
    InitialOk(isClient, start, me);
    Reaches(InitialTable(isClient, start), me, es, t)
  }

  lemma {:induction false} RunKeeps(t: Table, me: Id, es: seq<Event>, t': Table)
    requires Inv(t.buckets) && Reaches(t, me, es, t')
    ensures Inv(t'.buckets)
    ensures !t.isClient && OwnPath(Bounds(t.buckets), me) ==> OwnPath(Bounds(t'.buckets), me)
    decreases |es|
  {
    hide Inv, OwnPath, Apply, Returns;
    if es != [] {
      ApplyKeeps(t, me, es[0]);
      RunKeeps(Apply(t, me, es[0]), me, es[1..], t');
    }
  }

  // ----- the stuck table can be reached

  /** k nodes that all carry the id me, the latest first. */
  function Copies(k: nat, me: Id): (ns: seq<Node>)
    ensures |ns| == k
    ensures forall n :: n in ns ==> n.id == me && n.ref < k
  {
    if k == 0 then [] else [Node(k - 1, me)] + Copies(k - 1, me)
  }

  function CopyTable(isClient: bool, start: int, me: Id, k: nat): (t: Table) {
    Table([Bucket(Zero(), start, Copies(k, me), None)], start, isClient, [])
  }

  lemma {:induction false} CopiesInTable(isClient: bool, start: int, me: Id, k: nat)
    ensures var bs := CopyTable(isClient, start, me, k).buckets;
            Inv(bs) ==> |SameId(bs, me)| == k && Node(k, me) !in AllNodes(bs)
  {
    var bs, ns := CopyTable(isClient, start, me, k).buckets, Copies(k, me);
    assert bs[1..] == [] && AllNodes(bs) == multiset(ns);
    assert SameId(bs, me) == Elements(ns);
    ElementCount(ns);
  }

  lemma {:induction false} CopyAdded(isClient: bool, start: int, me: Id, k: nat)
    requires k < TARGET_NODES
    ensures Activate(CopyTable(isClient, start, me, k), Node(k, me), 0, start, me, AllGood()(0)) ==
            Finished(CopyTable(isClient, start, me, k + 1), true)
  {
    var t := CopyTable(isClient, start, me, k);
    assert Find(t.buckets, me) == 0;
  }

  /** From k copies on, the remaining nodes are added one by one. */
  lemma {:induction false} FillUp(isClient: bool, start: int, me: Id, k: nat) returns (es: seq<Event>)
    requires k <= TARGET_NODES && Inv(CopyTable(isClient, start, me, k).buckets)
    ensures |es| == TARGET_NODES - k
    ensures Reaches(CopyTable(isClient, start, me, k), me, es, CopyTable(isClient, start, me, TARGET_NODES))
    decreases TARGET_NODES - k
  {
    hide Inv, Copies, Activate;
    if k == TARGET_NODES {
      return [];
    }
    var t := CopyTable(isClient, start, me, k);
    var e := NewNode(Node(k, me), 0, start, AllGood());
    CopiesInTable(isClient, start, me, k);
    CopyAdded(isClient, start, me, k);
    ApplyKeeps(t, me, e);
    assert Apply(t, me, e) == CopyTable(isClient, start, me, k + 1);
    var rest := FillUp(isClient, start, me, k + 1);
    es := [e] + rest;
    assert es[1..] == rest;
  }

  /** Eight calls that return, all with our own id, lead to a table on which a ninth does not. */
  lemma {:induction false} StuckIsReached(isClient: bool, start: int, me: Id) returns (es: seq<Event>, t: Table, node: Node)
    ensures Reachable(isClient, start, me, es, t) && |es| == TARGET_NODES
    ensures Stuck(t.buckets, node, me) && !AlwaysEnds(t, node, 0, start, me)
  {
    hide Inv, Stuck, Reaches, AlwaysEnds;
    InitialOk(isClient, start, me);
    assert CopyTable(isClient, start, me, 0) == InitialTable(isClient, start);
    es := FillUp(isClient, start, me, 0);
    t, node := CopyTable(isClient, start, me, TARGET_NODES), Node(TARGET_NODES, me);
    RunKeeps(InitialTable(isClient, start), me, es, t);
    CopiesInTable(isClient, start, me, TARGET_NODES);
    EightCopiesStuck(t.buckets, node, me);
    EndsIffNotStuck(t, node, 0, start, me);
  }

  lemma {:induction false} EightCopiesStuck(bs: seq<Bucket>, node: Node, me: Id)
    requires node.id == me && node !in AllNodes(bs) && |SameId(bs, me)| == TARGET_NODES
    ensures Stuck(bs, node, me)
  {
  }

  /**
   Every reachable table partitions the id space, `depth` is the prefix length of
   each bucket, nodes sit in their buckets, at most TARGET_NODES each, none twice.
   */
  lemma {:induction false} ReachableTable(isClient: bool, start: int, me: Id, es: seq<Event>, t: Table, id: Id)
    requires Reachable(isClient, start, me, es, t)
    ensures Inv(t.buckets)
    ensures forall i :: 0 <= i < |t.buckets| ==> (Contains(Bounds(t.buckets), i, id) <==> i == Find(t.buckets, id))
    ensures forall i :: 0 <= i < |t.buckets| ==>
              (Contains(Bounds(t.buckets), i, id) <==> Agree(t.buckets[i].first, id, Depth(Bounds(t.buckets), i)))
    ensures forall i :: 0 <= i < |t.buckets| ==> Aligned(t.buckets[i].first, Depth(Bounds(t.buckets), i))
  {
    InitialOk(isClient, start, me);
    RunKeeps(InitialTable(isClient, start), me, es, t);
    var fs := Bounds(t.buckets);
    forall i | 0 <= i < |fs|
      ensures Contains(fs, i, id) <==> i == FindBucket(fs, id)
      ensures Contains(fs, i, id) <==> Agree(fs[i], id, Depth(fs, i))
      ensures Aligned(fs[i], Depth(fs, i))
    {
      FindBucketUnique(fs, id, i);
      DepthIsPrefixLength(fs, i, id);
    }
  }

  /** On a non-client, the buckets are our own one and exactly one sibling for each k below its depth. */
  lemma {:induction false} ReachableOwnPath(start: int, me: Id, es: seq<Event>, t: Table)
    requires Reachable(false, start, me, es, t)
    ensures OwnPath(Bounds(t.buckets), me)
    ensures |t.buckets| == TargetDepth(t.buckets, me) + 1
    ensures forall k: nat :: k < TargetDepth(t.buckets, me) ==> HasSibling(Bounds(t.buckets), me, k)
  {
    InitialOk(false, start, me);
    RunKeeps(InitialTable(false, start), me, es, t);
    forall k: nat | k < TargetDepth(t.buckets, me)
      ensures HasSibling(Bounds(t.buckets), me, k)
    {
      var i := OwnPathBuckets(Bounds(t.buckets), me, k);
    }
  }

  ghost predicate HasSibling(fs: seq<Id>, me: Id, k: nat)
    requires |fs| > 0
  {
    exists i :: 0 <= i < |fs| && i != FindBucket(fs, me) && HoldsSharing(fs, i, me, k)
  }
}
