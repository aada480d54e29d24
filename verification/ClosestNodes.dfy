/**
 `RoutingTable::findClosestNodes`: a walk outwards from the target's bucket that
 stops as soon as enough good nodes are collected, keeping them sorted by XOR
 distance.
 */
module ClosestNodes {
  import opened Prelude
  import opened InfoHash
  import opened TableBounds
  import opened RoutingTable
  import opened RoutingRuns

  // ----- sorted lists of nodes

  ghost predicate Sorted(t: Id, ns: seq<Node>) {
    forall i, j :: 0 <= i < j < |ns| ==> !Closer(t, ns[j].id, ns[i].id)
  }

  /** Insert before the first node that is farther than n. */
  method SortedInsert(t: Id, ns: seq<Node>, n: Node) returns (r: seq<Node>)
    requires Sorted(t, ns)
    ensures Sorted(t, r)
    ensures multiset(r) == multiset(ns) + multiset{n}
  {
    var p := 0;
    while p < |ns| && !Closer(t, n.id, ns[p].id)
      invariant p <= |ns|
      invariant forall j :: 0 <= j < p ==> !Closer(t, n.id, ns[j].id)
    {
      p := p + 1;
    }
    r := ns[..p] + [n] + ns[p..];
    InsertKeepsSorted(t, ns, n, p);
    assert ns == ns[..p] + ns[p..];
  }

  lemma {:induction false} InsertKeepsSorted(t: Id, ns: seq<Node>, n: Node, p: nat)
    requires Sorted(t, ns) && p <= |ns|
    requires forall j :: 0 <= j < p ==> !Closer(t, n.id, ns[j].id)
    requires p < |ns| ==> Closer(t, n.id, ns[p].id)
    ensures Sorted(t, ns[..p] + [n] + ns[p..])
  {
    hide Closer;
    forall j | p <= j < |ns|
      ensures !Closer(t, ns[j].id, n.id)
    {
      if Closer(t, ns[j].id, n.id) {
        CloserTransitive(t, ns[j].id, n.id, ns[p].id);
        CloserTotal(t, ns[j].id, ns[p].id);
      }
    }
  }

  // ----- what is collected

  function GoodOf(ns: seq<Node>, good: set<Node>): (r: seq<Node>) {
    if ns == [] then [] else (if ns[0] in good then [ns[0]] else []) + GoodOf(ns[1..], good)
  }

  /** The good nodes of consecutive buckets. */
  ghost function GoodIn(bs: seq<Bucket>, good: set<Node>): (g: multiset<Node>) {
    if bs == [] then multiset{} else multiset(GoodOf(bs[0].nodes, good)) + GoodIn(bs[1..], good)
  }

  lemma {:induction false} GoodOfCount(ns: seq<Node>, good: set<Node>, n: Node)
    ensures multiset(GoodOf(ns, good))[n] == if n in good then multiset(ns)[n] else 0
  {
    if ns != [] {
      GoodOfCount(ns[1..], good, n);
      assert ns == [ns[0]] + ns[1..];
    }
  }

  lemma {:induction false} GoodInConcat(a: seq<Bucket>, b: seq<Bucket>, good: set<Node>)
    ensures GoodIn(a + b, good) == GoodIn(a, good) + GoodIn(b, good)
  {
    hide GoodOf;
    if a == [] {
      assert a + b == b;
    } else {
      var c := a + b;
      assert c[1..] == a[1..] + b && c[0] == a[0];
      GoodInConcat(a[1..], b, good);
      SumAssociates(multiset(GoodOf(a[0].nodes, good)), GoodIn(a[1..], good), GoodIn(b, good));
    }
  }

  lemma {:induction false} SumAssociates(x: multiset<Node>, y: multiset<Node>, z: multiset<Node>)
    ensures x + (y + z) == (x + y) + z
  {
  }

  /** The good nodes are exactly the nodes of the table that are good, each as often as it is there. */
  lemma {:induction false} GoodInCount(bs: seq<Bucket>, good: set<Node>, n: Node)
    ensures GoodIn(bs, good)[n] == if n in good then AllNodes(bs)[n] else 0
  {
    if bs != [] {
      GoodInCount(bs[1..], good, n);
      GoodOfCount(bs[0].nodes, good, n);
    }
  }

  method InsertBucket(t: Id, ns: seq<Node>, b: Bucket, good: set<Node>) returns (r: seq<Node>)
    requires Sorted(t, ns)
    ensures Sorted(t, r)
    ensures multiset(r) == multiset(ns) + multiset(GoodOf(b.nodes, good))
  {
    r := ns;
    for k := 0 to |b.nodes|
      invariant Sorted(t, r)
      invariant multiset(r) + multiset(GoodOf(b.nodes[k..], good)) == multiset(ns) + multiset(GoodOf(b.nodes, good))
    {
      assert b.nodes[k..][1..] == b.nodes[k + 1..];
      if b.nodes[k] in good {
        r := SortedInsert(t, r, b.nodes[k]);
      }
    }
  }

  // ----- the walk

  /** First bucket visited within r rounds around bucket b. */
  function Low(b: nat, r: nat): nat {
    if b < r then 0 else b - r
  }

  /** End of the buckets visited within r rounds, n being the end of the table. */
  function High(b: nat, r: nat, n: nat): nat {
    if b + r < n then b + r else n
  }

  /** One of the two iterators has not reached the end of the table. */
  predicate MoreToVisit(b: nat, r: nat, n: nat) {
    b + r < n || r < b
  }

  ghost function Visited(bs: seq<Bucket>, b: nat, r: nat, good: set<Node>): multiset<Node>
    requires b < |bs|
  {
    GoodIn(bs[Low(b, r)..High(b, r, |bs|)], good)
  }

  ghost predicate TooFew(bs: seq<Bucket>, b: nat, r: nat, good: set<Node>, count: nat)
    requires b < |bs|
  {
    |Visited(bs, b, r, good)| < count
  }

  lemma {:induction false} FewIfShort(bs: seq<Bucket>, b: nat, r: nat, t: Id, good: set<Node>, count: nat, ns: seq<Node>)
    requires b < |bs|
    ensures Gathered(bs, b, r, t, good, ns) ==> (TooFew(bs, b, r, good, count) <==> |ns| < count)
  {
    assert |multiset(ns)| == |ns|;
  }

  lemma {:induction false} NoRounds(bs: seq<Bucket>, b: nat, t: Id, good: set<Node>)
    requires b < |bs|
    ensures Gathered(bs, b, 0, t, good, []) && Sorted(t, [])
  {
    assert bs[Low(b, 0)..High(b, 0, |bs|)] == [];
  }

  /** ns is the sorted list of the count nearest nodes of the collection g. */
  ghost predicate NearestOf(t: Id, g: multiset<Node>, count: nat, ns: seq<Node>) {
    && Sorted(t, ns)
    && multiset(ns) <= g
    && |ns| == (if |g| < count then |g| else count)
    && forall x, i :: x in g - multiset(ns) && 0 <= i < |ns| ==> !Closer(t, x.id, ns[i].id)
  }

  /** The rounds made from round r on: another one only while there are too few nodes and something is left to visit. */
  ghost function RoundsFrom(bs: seq<Bucket>, b: nat, r: nat, good: set<Node>, count: nat): (q: nat)
    requires b < |bs|
    ensures TooFew(bs, b, q, good, count) ==> !MoreToVisit(b, q, |bs|)
    decreases if MoreToVisit(b, r, |bs|) then |bs| + b - r else 0
  {
    if TooFew(bs, b, r, good, count) && MoreToVisit(b, r, |bs|) then RoundsFrom(bs, b, r + 1, good, count) else r
  }

  /** The good nodes that the walk collects: those of the first rounds that give enough, or of the whole table. */
  ghost function Collected(bs: seq<Bucket>, t: Id, good: set<Node>, count: nat): multiset<Node>
    requires |bs| > 0
  {
    Visited(bs, Find(bs, t), RoundsFrom(bs, Find(bs, t), 0, good, count), good)
  }

  ghost predicate WalkResult(bs: seq<Bucket>, t: Id, good: set<Node>, count: nat, ns: seq<Node>)
    requires |bs| > 0
  {
    NearestOf(t, Collected(bs, t, good, count), count, ns)
  }

  /** ns holds the good nodes of the first r rounds, sorted. */
  ghost predicate Gathered(bs: seq<Bucket>, b: nat, r: nat, t: Id, good: set<Node>, ns: seq<Node>)
    requires b < |bs|
  {
    Sorted(t, ns) && multiset(ns) == Visited(bs, b, r, good)
  }

  lemma {:induction false} NextRound(bs: seq<Bucket>, b: nat, r: nat, good: set<Node>)
    requires b < |bs|
    ensures Visited(bs, b, r + 1, good) ==
              Visited(bs, b, r, good)
              + (if b + r < |bs| then multiset(GoodOf(bs[b + r].nodes, good)) else multiset{})
              + (if r < b then multiset(GoodOf(bs[b - r - 1].nodes, good)) else multiset{})
  {
    hide GoodOf, GoodIn;
    var lo, hi := Low(b, r), High(b, r, |bs|);
    if hi < |bs| {
      GrowUp(bs, lo, hi, good);
    }
    if lo > 0 {
      GrowDown(bs, lo, High(b, r + 1, |bs|), good);
    }
  }

  lemma {:induction false} GrowUp(bs: seq<Bucket>, lo: nat, hi: nat, good: set<Node>)
    requires lo <= hi < |bs|
    ensures GoodIn(bs[lo..hi + 1], good) == GoodIn(bs[lo..hi], good) + multiset(GoodOf(bs[hi].nodes, good))
  {
    hide GoodOf;
    assert bs[lo..hi + 1] == bs[lo..hi] + [bs[hi]];
    GoodInConcat(bs[lo..hi], [bs[hi]], good);
  }

  lemma {:induction false} GrowDown(bs: seq<Bucket>, lo: nat, hi: nat, good: set<Node>)
    requires 0 < lo <= hi <= |bs|
    ensures GoodIn(bs[lo - 1..hi], good) == GoodIn(bs[lo..hi], good) + multiset(GoodOf(bs[lo - 1].nodes, good))
  {
    hide GoodOf;
    assert bs[lo - 1..hi][1..] == bs[lo..hi];
  }

  /** One round: the next bucket above, if there is one, then the next below. */
  method VisitRound(bs: seq<Bucket>, b: nat, r: nat, t: Id, ns: seq<Node>, good: set<Node>) returns (ns': seq<Node>)
    requires b < |bs| && Sorted(t, ns)
    ensures Gathered(bs, b, r, t, good, ns) ==> Gathered(bs, b, r + 1, t, good, ns')
    ensures Sorted(t, ns')
  {
    hide Sorted, GoodOf, Visited;
    NextRound(bs, b, r, good);
    ns' := ns;
    if b + r < |bs| {
      ns' := InsertBucket(t, ns', bs[b + r], good);
    }
    if r < b {
      ns' := InsertBucket(t, ns', bs[b - r - 1], good);
    }
  }

  /** The collecting loop; r counts its rounds. */
  method Collect(bs: seq<Bucket>, b: nat, t: Id, good: set<Node>, count: nat) returns (ns: seq<Node>, r: nat)
    requires b < |bs|
    ensures Gathered(bs, b, r, t, good, ns)
    ensures r == RoundsFrom(bs, b, 0, good, count)
  {
    hide Gathered, TooFew, Sorted;
    ns, r := [], 0;
    NoRounds(bs, b, t, good);
    while |ns| < count && MoreToVisit(b, r, |bs|)
      invariant Gathered(bs, b, r, t, good, ns) && Sorted(t, ns)
      invariant RoundsFrom(bs, b, r, good, count) == RoundsFrom(bs, b, 0, good, count)
      decreases if MoreToVisit(b, r, |bs|) then |bs| + b - r else 0
    {
      FewIfShort(bs, b, r, t, good, count, ns);
      ns := VisitRound(bs, b, r, t, ns, good);
      r := r + 1;
    }
    FewIfShort(bs, b, r, t, good, count, ns);
  }

  method FindClosestNodes(bs: seq<Bucket>, t: Id, good: set<Node>, count: nat) returns (ns: seq<Node>)
    ensures bs == [] ==> ns == []
    ensures bs != [] ==> WalkResult(bs, t, good, count, ns)
  {
    if bs == [] {
      return [];
    }
    hide Sorted, Visited, NearestOf, Find;
    var all, r := Collect(bs, Find(bs, t), t, good, count);
    ns := if |all| > count then all[..count] else all;
    PrefixIsNearest(t, all, count, ns);
  }

  lemma {:induction false} PrefixIsNearest(t: Id, all: seq<Node>, count: nat, ns: seq<Node>)
    requires Sorted(t, all) && ns == if |all| > count then all[..count] else all
    ensures NearestOf(t, multiset(all), count, ns)
  {
    hide Closer;
    if |all| > count {
      assert all == ns + all[count..];
      forall x: Node, i | x in multiset(all) - multiset(ns) && 0 <= i < |ns|
        ensures !Closer(t, x.id, ns[i].id)
      {
        BeyondPrefix(all, count, x);
        FartherInRest(t, all, count, x, i);
      }
    }
    assert |multiset(all)| == |all|;
  }

  lemma {:induction false} BeyondPrefix(all: seq<Node>, count: nat, x: Node)
    requires count <= |all| && x in multiset(all) - multiset(all[..count])
    ensures x in all[count..]
  {
    assert all == all[..count] + all[count..];
    assert multiset(all) == multiset(all[..count]) + multiset(all[count..]);
  }

  lemma {:induction false} FartherInRest(t: Id, all: seq<Node>, count: nat, x: Node, i: nat)
    requires Sorted(t, all) && i < count <= |all| && x in all[count..]
    ensures !Closer(t, x.id, all[i].id)
  {
    hide Closer;
    var j :| 0 <= j < |all| - count && all[count..][j] == x;
    assert all[count + j] == x;
  }

  // ----- what the result means for a table that keeps its invariant

  lemma {:induction false} VisitedMember(bs: seq<Bucket>, b: nat, r: nat, good: set<Node>, n: Node)
    requires Inv(bs) && b < |bs|
    ensures Visited(bs, b, r, good)[n] <= GoodIn(bs, good)[n] <= 1
    ensures n in GoodIn(bs, good) <==> n in good && n in AllNodes(bs)
    ensures n in Visited(bs, b, r, good) <==>
              n in GoodIn(bs, good) && Low(b, r) <= Find(bs, n.id) < High(b, r, |bs|)
  {
    hide Tiled, Find, GoodIn, AllNodes;
    var lo, hi := Low(b, r), High(b, r, |bs|);
    GoodInSlice(bs, lo, hi, good, n);
    GoodInCount(bs, good, n);
    GoodInCount(bs[lo..hi], good, n);
    InSlice(bs, lo, hi, n);
  }

  lemma {:induction false} GoodInSlice(bs: seq<Bucket>, lo: nat, hi: nat, good: set<Node>, n: Node)
    requires lo <= hi <= |bs|
    ensures GoodIn(bs[lo..hi], good)[n] <= GoodIn(bs, good)[n]
  {
    hide GoodIn;
    var below, slice, above := bs[..lo], bs[lo..hi], bs[hi..];
    assert bs == below + (slice + above);
    GoodInConcat(below, slice + above, good);
    GoodInConcat(slice, above, good);
  }

  lemma {:induction false} InSlice(bs: seq<Bucket>, lo: nat, hi: nat, n: Node)
    requires Inv(bs) && lo <= hi <= |bs|
    ensures n in AllNodes(bs[lo..hi]) <==> n in AllNodes(bs) && lo <= Find(bs, n.id) < hi
  {
    hide Tiled, Find, AllNodes;
    var slice := bs[lo..hi];
    AllNodesMember(bs, n);
    AllNodesMember(slice, n);
    if i :| 0 <= i < |slice| && n in slice[i].nodes {
      assert n in bs[lo + i].nodes;
    }
    if i :| 0 <= i < |bs| && n in bs[i].nodes {
      assert lo <= i < hi ==> slice[i - lo] == bs[i];
    }
  }

  lemma {:induction false} OwnBucketCloser(bs: seq<Bucket>, t: Id, a: Id, c: Id)
    requires Inv(bs) && Find(bs, a) == Find(bs, t) != Find(bs, c)
    ensures Closer(t, a, c)
  {
    hide Less, Contains, Depth, Tiled, Placed;
    var fs, b := Bounds(bs), Find(bs, t);
    FindBucketUnique(fs, t, b);
    FindBucketUnique(fs, a, b);
    FindBucketUnique(fs, c, b);
    DepthIsPrefixLength(fs, b, t);
    DepthIsPrefixLength(fs, b, a);
    DepthIsPrefixLength(fs, b, c);
    AgreeIsCommon(t, a, Depth(fs, b));
    AgreeIsCommon(t, c, Depth(fs, b));
    PrefixDecides(t, a, c);
  }

  /**
   At most count distinct good nodes of the table, nearest first. The target's own bucket comes
   before any other: a node from elsewhere follows all good nodes of that bucket.
   */
  lemma {:induction false} ResultOrder(bs: seq<Bucket>, t: Id, good: set<Node>, count: nat, ns: seq<Node>)
    requires Inv(bs) && WalkResult(bs, t, good, count, ns)
    ensures |ns| <= count && Sorted(t, ns)
    ensures forall n :: n in ns ==> n in good && n in AllNodes(bs)
    ensures forall n :: multiset(ns)[n] <= 1
    ensures forall i, n | 0 <= i < |ns| && Find(bs, ns[i].id) != Find(bs, t) && n in good && n in AllNodes(bs) ::
              Find(bs, n.id) == Find(bs, t) ==> n in ns[..i]
  {
    hide Tiled, Placed, Find, Visited, TooFew, Closer, RoundsFrom;
    var b, r := Find(bs, t), RoundsFrom(bs, Find(bs, t), 0, good, count);
    forall n
      ensures multiset(ns)[n] <= 1 && (n in ns ==> n in good && n in AllNodes(bs))
    {
      VisitedMember(bs, b, r, good, n);
      assert multiset(ns)[n] <= Visited(bs, b, r, good)[n];
      assert n in ns ==> n in multiset(ns);
    }
    forall i, n | 0 <= i < |ns| && Find(bs, ns[i].id) != b && n in good && n in AllNodes(bs) && Find(bs, n.id) == b
      ensures n in ns[..i]
    {
      OwnBeforeOther(bs, t, good, count, ns, i, n);
    }
  }

  lemma {:induction false} OwnBeforeOther(bs: seq<Bucket>, t: Id, good: set<Node>, count: nat, ns: seq<Node>, i: nat, n: Node)
    requires Inv(bs) && WalkResult(bs, t, good, count, ns) && i < |ns| && Find(bs, ns[i].id) != Find(bs, t)
    requires n in good && n in AllNodes(bs) && Find(bs, n.id) == Find(bs, t)
    ensures n in ns[..i]
  {
    hide Tiled, Placed, Find, Visited, TooFew, Closer, RoundsFrom, AllNodes, Sorted;
    var b, r := Find(bs, t), RoundsFrom(bs, Find(bs, t), 0, good, count);
    assert ns[i] in multiset(ns);
    VisitedMember(bs, b, r, good, ns[i]);
    VisitedMember(bs, b, r, good, n);
    OwnBucketCloser(bs, t, n.id, ns[i].id);
    CloserIsEarlier(t, Visited(bs, b, r, good), count, ns, i, n);
  }

  /** What is collected and nearer than a returned node is returned before it. */
  lemma {:induction false} CloserIsEarlier(t: Id, v: multiset<Node>, count: nat, ns: seq<Node>, i: nat, n: Node)
    requires NearestOf(t, v, count, ns) && i < |ns| && n in v && Closer(t, n.id, ns[i].id)
    ensures n in ns[..i]
  {
    hide Closer;
    assert n !in multiset(ns) ==> n in v - multiset(ns);
    var j :| 0 <= j < |ns| && ns[j] == n;
    CloserTotal(t, n.id, ns[i].id);
    assert ns[..i][j] == n;
  }

  /** A result shorter than count holds every good node of the table. */
  lemma {:induction false} ShortResultIsAll(bs: seq<Bucket>, t: Id, good: set<Node>, count: nat, ns: seq<Node>)
    requires Inv(bs) && WalkResult(bs, t, good, count, ns) && |ns| < count
    ensures multiset(ns) == GoodIn(bs, good)
    ensures forall n :: n in AllNodes(bs) && n in good ==> n in ns
  {
    hide RoundsFrom;
    var b, r := Find(bs, t), RoundsFrom(bs, Find(bs, t), 0, good, count);
    var g := Visited(bs, b, r, good);
    assert TooFew(bs, b, r, good, count);
    assert bs[Low(b, r)..High(b, r, |bs|)] == bs;
    assert g == multiset(ns) + (g - multiset(ns));
    assert |multiset(ns)| == |ns|;
    forall n | n in AllNodes(bs) && n in good
      ensures n in ns
    {
      GoodInCount(bs, good, n);
      assert n in multiset(ns);
    }
  }

  /** Whole buckets are ordered by distance: any two of their ids compare as their bounds do. */
  lemma {:induction false} BucketsDecide(bs: seq<Bucket>, t: Id, u: nat, w: nat, a: Id, c: Id)
    requires Inv(bs) && u < |bs| && w < |bs| && u != w && Find(bs, a) == u && Find(bs, c) == w
    ensures Closer(t, a, c) <==> Closer(t, bs[u].first, bs[w].first)
  {
    hide Less, Contains, Depth, Tiled, Placed;
    var fs := Bounds(bs);
    FindBucketUnique(fs, a, u);
    FindBucketUnique(fs, c, w);
    FindBucketUnique(fs, c, u);
    FindBucketUnique(fs, a, w);
    DepthIsPrefixLength(fs, u, a);
    DepthIsPrefixLength(fs, u, c);
    DepthIsPrefixLength(fs, w, a);
    DepthIsPrefixLength(fs, w, c);
    SamePrefixSameOrder(t, fs[u], Depth(fs, u), fs[w], Depth(fs, w), a, c);
  }

  lemma {:induction false} SamePrefixSameOrder(t: Id, f: Id, d: nat, g: Id, e: nat, a: Id, c: Id)
    requires d <= HASH_BITS && e <= HASH_BITS
    requires Agree(f, a, d) && !Agree(f, c, d) && Agree(g, c, e) && !Agree(g, a, e)
    ensures Closer(t, a, c) <==> Closer(t, f, g)
  {
    var k := CommonBits(a, c);
    CommonIs(a, c);
    FirstDifference(f, g, k);
  }

  /** Bucket u is not visited before the walk stops. */
  ghost predicate LeftOut(bs: seq<Bucket>, t: Id, good: set<Node>, count: nat, u: nat)
    requires |bs| > 0
  {
    var b := Find(bs, t);
    var r := RoundsFrom(bs, b, 0, good, count);
    !(Low(b, r) <= u < High(b, r, |bs|))
  }

  /** The collected nodes whose bucket is nearer to t than bucket u, by the lower bounds of the two. */
  ghost function Ahead(bs: seq<Bucket>, t: Id, good: set<Node>, count: nat, u: nat): set<Node>
    requires u < |bs|
  {
    set n | n in Collected(bs, t, good, count) && Closer(t, bs[Find(bs, n.id)].first, bs[u].first)
  }

  /** Enough collected nodes lie ahead of the bucket of n, if the walk has left that bucket out. */
  ghost predicate Covered(bs: seq<Bucket>, t: Id, good: set<Node>, count: nat, n: Node)
    requires |bs| > 0
  {
    var u := Find(bs, n.id);
    n in good && n in AllNodes(bs) && LeftOut(bs, t, good, count, u) ==> |Ahead(bs, t, good, count, u)| >= count
  }

  /**
   The walk may stop before it has seen a nearer bucket. The result is the globally nearest one
   exactly when every bucket left out that holds a good node has count collected nodes ahead of it.
   */
  lemma {:induction false} GloballyNearestIff(bs: seq<Bucket>, t: Id, good: set<Node>, count: nat, ns: seq<Node>)
    requires Inv(bs) && WalkResult(bs, t, good, count, ns)
    ensures NearestOf(t, GoodIn(bs, good), count, ns) <==> forall n :: Covered(bs, t, good, count, n)
  {
    hide NearestOf, Inv, WalkResult, AllNodes, Ahead, LeftOut, Find;
    if count == 0 {
      NothingWanted(bs, t, good, ns);
    } else if |ns| < count {
      ShortIsNearest(bs, t, good, count, ns);
    } else {
      FullResult(bs, t, good, count, ns);
    }
  }

  lemma {:induction false} NothingWanted(bs: seq<Bucket>, t: Id, good: set<Node>, ns: seq<Node>)
    requires Inv(bs) && WalkResult(bs, t, good, 0, ns)
    ensures NearestOf(t, GoodIn(bs, good), 0, ns)
  {
    hide GoodIn, Collected;
    assert ns == [] && multiset(ns) == multiset{};
  }

  lemma {:induction false} ShortIsNearest(bs: seq<Bucket>, t: Id, good: set<Node>, count: nat, ns: seq<Node>)
    requires Inv(bs) && WalkResult(bs, t, good, count, ns) && |ns| < count
    ensures NearestOf(t, GoodIn(bs, good), count, ns) && forall n :: Covered(bs, t, good, count, n)
  {
    hide Tiled, Placed, GoodIn, Visited, Closer, RoundsFrom, AllNodes;
    ShortResultIsAll(bs, t, good, count, ns);
    var b, r := Find(bs, t), RoundsFrom(bs, Find(bs, t), 0, good, count);
    var g := Visited(bs, b, r, good);
    assert g == multiset(ns) + (g - multiset(ns)) && |multiset(ns)| == |ns|;
    assert TooFew(bs, b, r, good, count);
    assert Low(b, r) == 0 && High(b, r, |bs|) == |bs|;
  }

  lemma {:induction false} FullResult(bs: seq<Bucket>, t: Id, good: set<Node>, count: nat, ns: seq<Node>)
    requires Inv(bs) && WalkResult(bs, t, good, count, ns) && 0 < count <= |ns|
    ensures NearestOf(t, GoodIn(bs, good), count, ns) <==> forall n :: Covered(bs, t, good, count, n)
  {
    hide Tiled, Placed, GoodIn, Visited, Closer, Find, RoundsFrom, Ahead, AllNodes;
    var b, r := Find(bs, t), RoundsFrom(bs, Find(bs, t), 0, good, count);
    var g, last := GoodIn(bs, good), ns[count - 1];
    forall n
      ensures multiset(ns)[n] <= g[n]
      ensures n in g - multiset(ns) ==> (!Closer(t, n.id, last.id) <==> Covered(bs, t, good, count, n))
      ensures n !in g - multiset(ns) ==> Covered(bs, t, good, count, n)
    {
      VisitedMember(bs, b, r, good, n);
      assert multiset(ns)[n] <= Visited(bs, b, r, good)[n];
      if n in g && LeftOut(bs, t, good, count, Find(bs, n.id)) {
        CoveredIff(bs, t, good, count, ns, n);
      }
    }
    NearestByLast(t, g, count, ns);
  }

  /** A node of a bucket left out is no nearer than the last one returned exactly when enough nodes are ahead of its bucket. */
  lemma {:induction false} CoveredIff(bs: seq<Bucket>, t: Id, good: set<Node>, count: nat, ns: seq<Node>, n: Node)
    requires Inv(bs) && WalkResult(bs, t, good, count, ns) && 0 < count == |ns|
    requires LeftOut(bs, t, good, count, Find(bs, n.id))
    ensures !Closer(t, n.id, ns[count - 1].id) <==> |Ahead(bs, t, good, count, Find(bs, n.id))| >= count
  {
    hide Tiled, Placed, Closer, Find, Visited, RoundsFrom, Elements, Sorted;
    var v, last := Collected(bs, t, good, count), ns[count - 1];
    var ahead, es := Ahead(bs, t, good, count, Find(bs, n.id)), Elements(ns);
    ResultDistinct(bs, t, good, count, ns);
    assert last in multiset(ns);
    forall x
      ensures x in ahead <==> x in v && Closer(t, x.id, n.id)
      ensures x in es ==> x in v
    {
      AheadIsCloser(bs, t, good, count, n, x);
      ElementsAre(ns, x);
      assert x in ns ==> x in multiset(ns);
    }
    ElementsAre(ns, last);
    AheadIsCloser(bs, t, good, count, n, last);
    if Closer(t, n.id, last.id) {
      forall x | x in ahead
        ensures x in es - {last}
      {
        CloserTransitive(t, x.id, n.id, last.id);
        CloserTotal(t, x.id, last.id);
        assert x !in multiset(ns) ==> x in v - multiset(ns);
        ElementsAre(ns, x);
      }
      SubsetSize(ahead, es - {last});
    } else {
      forall x | x in es
        ensures x in ahead
      {
        ElementsAre(ns, x);
        UpToLast(t, ns, x, n);
      }
      SubsetSize(es, ahead);
    }
  }

  lemma {:induction false} ElementsAre(ns: seq<Node>, x: Node)
    ensures x in Elements(ns) <==> x in ns
  {
  }

  lemma {:induction false} ResultDistinct(bs: seq<Bucket>, t: Id, good: set<Node>, count: nat, ns: seq<Node>)
    requires Inv(bs) && WalkResult(bs, t, good, count, ns)
    ensures |Elements(ns)| == |ns|
  {
    hide NearestOf, Find, Elements, Collected, AllNodes;
    ResultOrder(bs, t, good, count, ns);
    ElementCount(ns);
  }

  /** A node not in the bucket of n: for collected nodes distance to t is decided by the bounds. */
  lemma {:induction false} AheadIsCloser(bs: seq<Bucket>, t: Id, good: set<Node>, count: nat, n: Node, x: Node)
    requires Inv(bs) && LeftOut(bs, t, good, count, Find(bs, n.id))
    ensures x in Ahead(bs, t, good, count, Find(bs, n.id)) <==> x in Collected(bs, t, good, count) && Closer(t, x.id, n.id)
    ensures x in Collected(bs, t, good, count) ==> x.id != n.id
  {
    hide Tiled, Placed, Closer, Find, Visited, RoundsFrom;
    var b, r := Find(bs, t), RoundsFrom(bs, Find(bs, t), 0, good, count);
    VisitedMember(bs, b, r, good, x);
    if x in Visited(bs, b, r, good) {
      BucketsDecide(bs, t, Find(bs, x.id), Find(bs, n.id), x.id, n.id);
    }
  }

  lemma {:induction false} UpToLast(t: Id, ns: seq<Node>, x: Node, n: Node)
    requires Sorted(t, ns) && x in ns && !Closer(t, n.id, ns[|ns| - 1].id) && n.id != ns[|ns| - 1].id
    ensures Closer(t, x.id, n.id)
  {
    hide Closer;
    var last := ns[|ns| - 1];
    var i :| 0 <= i < |ns| && ns[i] == x;
    CloserTotal(t, n.id, last.id);
    CloserTotal(t, x.id, last.id);
    if x.id != last.id {
      CloserTransitive(t, x.id, last.id, n.id);
    }
  }

  /** For a sorted list it is enough to compare the others with its last node. */
  lemma {:induction false} NearestByLast(t: Id, g: multiset<Node>, count: nat, ns: seq<Node>)
    requires Sorted(t, ns) && 0 < count == |ns| && forall n :: multiset(ns)[n] <= g[n]
    ensures NearestOf(t, g, count, ns) <==> forall x :: x in g - multiset(ns) ==> !Closer(t, x.id, ns[count - 1].id)
  {
    hide Closer;
    assert multiset(ns) <= g;
    assert |multiset(ns)| == |ns| && g == multiset(ns) + (g - multiset(ns));
    forall x: Node, i | 0 <= i < |ns| && Closer(t, x.id, ns[i].id)
      ensures Closer(t, x.id, ns[count - 1].id)
    {
      CloserTotal(t, ns[i].id, ns[count - 1].id);
      if ns[i].id != ns[count - 1].id {
        CloserTransitive(t, x.id, ns[i].id, ns[count - 1].id);
      }
    }
  }

  // ----- a table where the walk stops too early

  /** Bit patterns 0*, 10*, 11*, one node in the first and one in the last bucket. */
  function LopsidedTable(x: Node, y: Node): (bs: seq<Bucket>) {
    var z := Zero();
    [Bucket(z, 0, [x], None), Bucket(z[0 := true], 0, [], None), Bucket(z[0 := true][1 := true], 0, [y], None)]
  }

  lemma {:induction false} LopsidedBounds()
    ensures var z := Zero();
            var fs := [z, z[0 := true], z[0 := true][1 := true]];
            Tiled(fs) && FindBucket(fs, z) == 0 && FindBucket(fs, z[0 := true]) == 1 && FindBucket(fs, z[0 := true][1 := true]) == 2
  {
    var z := Zero();
    var p: Id := z[0 := true];
    var q: Id := p[1 := true];
    var fs := [z];
    assert Lowbit(z) == -1;
    assert Depth(fs, 0) == 0;
    assert EndsAtNext(fs, 0);
    HalvingKeepsTiling(fs, 0);
    assert InsertAfter(fs, 0, p) == [z, p];
    LowbitIs(p, 0);
    HalvingKeepsTiling([z, p], 1);
    assert InsertAfter([z, p], 1, q) == [z, p, q];
    FirstDifference(z, p, 0);
    FirstDifference(p, q, 1);
  }

  /** For a target in 10* the walk returns x of 0*, although y of 11* is nearer: not the globally nearest node. */
  lemma {:induction false} StopsTooEarly(x: Node, y: Node, ns: seq<Node>)
    requires x.id == Zero() && y.id == Zero()[0 := true][1 := true]
    requires WalkResult(LopsidedTable(x, y), Zero()[0 := true], {x, y}, 1, ns)
    ensures var t: Id := Zero()[0 := true];
            var bs := LopsidedTable(x, y);
            Inv(bs) && ns == [x] && Closer(t, y.id, x.id) && !NearestOf(t, GoodIn(bs, {x, y}), 1, ns)
  {
    hide Visited, Find, AllNodes, Inv, GoodIn;
    var t: Id := Zero()[0 := true];
    var bs := LopsidedTable(x, y);
    LopsidedFind(x, y);
    LopsidedInv(x, y);
    LopsidedVisits(x, y);
    FirstDifference(y.id, x.id, 0);
    assert TooFew(bs, 1, 0, {x, y}, 1) && !TooFew(bs, 1, 1, {x, y}, 1);
    assert RoundsFrom(bs, 1, 1, {x, y}, 1) == 1 == RoundsFrom(bs, 1, 0, {x, y}, 1);
    assert Collected(bs, t, {x, y}, 1) == multiset{x};
    assert ns[0] in multiset(ns);
    assert x.id[0] != y.id[0];
    assert y in GoodIn(bs, {x, y}) - multiset(ns) by {
      AllNodesMember(bs, y);
      assert y in bs[2].nodes;
      VisitedMember(bs, 1, 1, {x, y}, y);
    }
  }

  lemma {:induction false} LopsidedInv(x: Node, y: Node)
    requires x.id == Zero() && y.id == Zero()[0 := true][1 := true]
    ensures Inv(LopsidedTable(x, y))
  {
    hide FindBucket, Tiled;
    var bs := LopsidedTable(x, y);
    assert Bounds(bs) == [Zero(), Zero()[0 := true], Zero()[0 := true][1 := true]];
    LopsidedBounds();
    assert bs[1..] == [bs[1], bs[2]] && bs[1..][1..] == [bs[2]] && bs[1..][1..][1..] == [];
    assert AllNodes([bs[2]]) == multiset{y};
    assert AllNodes(bs) == multiset{x} + (multiset{} + multiset{y});
    assert x.id[0] != y.id[0];
  }

  lemma {:induction false} LopsidedFind(x: Node, y: Node)
    ensures Find(LopsidedTable(x, y), Zero()[0 := true]) == 1
  {
    hide FindBucket, Tiled;
    assert Bounds(LopsidedTable(x, y)) == [Zero(), Zero()[0 := true], Zero()[0 := true][1 := true]];
    LopsidedBounds();
  }

  lemma {:induction false} LopsidedVisits(x: Node, y: Node)
    ensures Visited(LopsidedTable(x, y), 1, 0, {x, y}) == multiset{}
    ensures Visited(LopsidedTable(x, y), 1, 1, {x, y}) == multiset{x}
  {
    var bs, good := LopsidedTable(x, y), {x, y};
    assert bs[1..1] == [];
    var sl := bs[0..2];
    assert sl[1..] == [bs[1]] && sl[1..][1..] == [];
    assert GoodOf(bs[0].nodes, good) == [x] by { assert bs[0].nodes[1..] == []; }
    assert GoodOf(bs[1].nodes, good) == [];
    assert GoodIn(sl[1..], good) == multiset{};
  }
}
