/**
 The Kademlia routing table: buckets of at most TARGET_NODES nodes over the
 bounds of `TableBounds`, `split`, and one activation of the recursive
 `onNewNode`. Node status changes from outside, so every activation is given
 the status of the nodes as it finds them.
 */
module RoutingTable {
  import opened Prelude
  import opened InfoHash
  import opened TableBounds

  const TARGET_NODES: nat := 8
  const CLIENT_DEPTH: nat := 6

  /** A shared node object: `ref` is its identity, `id` never changes. */
  datatype Node = Node(ref: nat, id: Id)

  datatype Status = Status(expired: bool, good: bool, pending: bool)

  datatype Bucket = Bucket(first: Id, time: int, nodes: seq<Node>, cached: Option<Node>)

  datatype Table = Table(buckets: seq<Bucket>, growTime: int, isClient: bool, pings: seq<Node>)

  function Bounds(bs: seq<Bucket>): (fs: seq<Id>)
    ensures |fs| == |bs|
    ensures forall i :: 0 <= i < |bs| ==> fs[i] == bs[i].first
  {
    seq(|bs|, i requires 0 <= i < |bs| => bs[i].first)
  }

  /** Position of the bucket for an id. */
  function Find(bs: seq<Bucket>, id: Id): (i: nat)
    requires |bs| > 0
    ensures i < |bs|
  {
    FindBucket(Bounds(bs), id)
  }

  // ----- split

  function PushFront(bs: seq<Bucket>, i: nat, n: Node): (r: seq<Bucket>)
    requires i < |bs|
    ensures |r| == |bs| && Bounds(r) == Bounds(bs)
  {
    var r := bs[i := bs[i].(nodes := [n] + bs[i].nodes)];
    assert Bounds(r) == Bounds(bs);
    r
  }

  /** Splice the nodes one by one to the front of the bucket found for each. */
  function Reassign(bs: seq<Bucket>, ns: seq<Node>): (r: seq<Bucket>)
    requires |bs| > 0
    ensures |r| == |bs| && Bounds(r) == Bounds(bs)
    decreases |ns|
  {
    if ns == [] then bs else Reassign(PushFront(bs, Find(bs, ns[0].id), ns[0]), ns[1..])
  }

  /** The emptied bucket i followed by a new bucket starting at its middle. */
  function OpenUp(bs: seq<Bucket>, i: nat, m: Id): (r: seq<Bucket>)
    requires i < |bs|
    ensures |r| == |bs| + 1 && Bounds(r) == InsertAfter(Bounds(bs), i, m)
  {
    var r := bs[..i] + [bs[i].(nodes := []), Bucket(m, bs[i].time, [], None)] + bs[i + 1..];
    assert Bounds(r) == InsertAfter(Bounds(bs), i, m);
    r
  }

  /** `RoutingTable::split`; None when there is no bit left to split on. */
  function Split(bs: seq<Bucket>, i: nat): (r: Option<seq<Bucket>>)
    requires i < |bs|
    ensures r.None? <==> Depth(Bounds(bs), i) == HASH_BITS
  {
    match Middle(Bounds(bs), i)
    case None => None
    case Some(m) => Some(Reassign(OpenUp(bs, i, m), bs[i].nodes))
  }

  /** onNewNode does not look at whether the split succeeded. */
  function SplitOrKeep(bs: seq<Bucket>, i: nat): (r: seq<Bucket>)
    requires i < |bs|
  {
    match Split(bs, i) case Some(r) => r case None => bs
  }

  // ----- one activation of onNewNode

  function FirstExpired(ns: seq<Node>, status: Node -> Status): (k: nat)
    ensures k <= |ns|
    ensures forall j :: 0 <= j < k ==> !status(ns[j]).expired
    ensures k < |ns| ==> status(ns[k]).expired
  {
    if ns == [] || status(ns[0]).expired then 0 else 1 + FirstExpired(ns[1..], status)
  }

  predicate Dubious(ns: seq<Node>, status: Node -> Status) {
    exists n :: n in ns && !status(n).good
  }

  /** The first dubious node that has no request pending, if any, is pinged. */
  function DubiousPing(ns: seq<Node>, status: Node -> Status): (p: seq<Node>) {
    if ns == [] then []
    else if !status(ns[0]).good && !status(ns[0]).pending then [ns[0]]
    else DubiousPing(ns[1..], status)
  }

  function CachedPing(c: Option<Node>): seq<Node> {
    match c case None => [] case Some(n) => [n]
  }

  datatype Activation = Finished(table: Table, result: bool) | Again(table: Table)

  /** The bucket of the new node after its time has been confirmed. */
  function Confirmed(b: Bucket, confirm: int, now: int): Bucket {
    if confirm == 2 then b.(time := now) else b
  }

  /** What one activation does when the node is not in its bucket and the bucket is full. */
  function OnFullBucket(t: Table, i: nat, node: Node, confirm: int, mine: bool, status: Node -> Status): (a: Activation)
    requires i < |t.buckets|
  {
    var b := t.buckets[i];
    var e := FirstExpired(b.nodes, status);
    if e < |b.nodes| then
      Finished(t.(buckets := t.buckets[i := b.(nodes := b.nodes[e := node])]), true)
    else
      var t1 := t.(pings := t.pings + DubiousPing(b.nodes, status));
      if (mine || (t.isClient && Depth(Bounds(t.buckets), i) < CLIENT_DEPTH))
         && (!Dubious(b.nodes, status) || |t.buckets| == 1) then
        Again(t1.(pings := t1.pings + CachedPing(b.cached), buckets := SplitOrKeep(t.buckets[i := b.(cached := None)], i)))
      else if confirm != 0 || b.cached.None? then
        Finished(t1.(buckets := t1.buckets[i := b.(cached := Some(node))]), true)
      else
        Finished(t1, true)
  }

  function Activate(t: Table, node: Node, confirm: int, now: int, me: Id, status: Node -> Status): (a: Activation) {
    if |t.buckets| == 0 then Finished(t, false)
    else
      var i := Find(t.buckets, node.id);
      var t0 := t.(buckets := t.buckets[i := Confirmed(t.buckets[i], confirm, now)]);
      if node in t.buckets[i].nodes then Finished(t0, false)
      else
        var mine := Contains(Bounds(t.buckets), i, me);
        var t1 := if mine then t0.(growTime := now) else t0;
        if |t.buckets[i].nodes| >= TARGET_NODES then OnFullBucket(t1, i, node, confirm, mine, status)
        else Finished(t1.(buckets := PushFront(t1.buckets, i, node)), true)
  }

  // ----- maintenance

  function Alive(ns: seq<Node>, status: Node -> Status): (r: seq<Node>) {
    if ns == [] then []
    else if status(ns[0]).expired then Alive(ns[1..], status)
    else [ns[0]] + Alive(ns[1..], status)
  }

  /** `Dht::expireBuckets` on one bucket: drop expired nodes, and ping the cached one if any was dropped. */
  function ExpireBucket(b: Bucket, status: Node -> Status): (Bucket, seq<Node>) {
    if FirstExpired(b.nodes, status) == |b.nodes| then (b, [])
    else (b.(nodes := Alive(b.nodes, status), cached := None), CachedPing(b.cached))
  }

  function ExpireBuckets(bs: seq<Bucket>, status: Node -> Status): (r: (seq<Bucket>, seq<Node>))
    ensures |r.0| == |bs|
  {
    if bs == [] then ([], [])
    else
      var (b, p) := ExpireBucket(bs[0], status);
      var (rest, ps) := ExpireBuckets(bs[1..], status);
      ([b] + rest, p + ps)
  }
}
