/**
 `NodeMap::getCachedNodes`: two iterators move outwards from the target through
 the map, which is sorted by id, always taking the XOR-nearer side.
 */
module NodeCache {
  import opened Prelude
  import opened InfoHash

  /** What a weak pointer in the map gives when it is locked. */
  datatype CachedNode = CachedNode(ref: nat, expired: bool, client: bool)

  datatype Entry = Entry(id: Id, node: Option<CachedNode>)

  ghost predicate SortedMap(es: seq<Entry>) {
    forall i, j :: 0 <= i < j < |es| ==> Less(es[i].id, es[j].id)
  }

  predicate Eligible(e: Entry) {
    e.node.Some? && !e.node.value.expired && !e.node.value.client
  }

  predicate InRange(es: seq<Entry>, vs: seq<nat>) {
    forall i :: 0 <= i < |vs| ==> vs[i] < |es|
  }

  /** The live, unexpired, non-client nodes among the visited entries, in that order. */
  function Picked(es: seq<Entry>, vs: seq<nat>): (ns: seq<CachedNode>)
    requires InRange(es, vs)
  {
    if vs == [] then []
    else
      var rest := Picked(es, vs[..|vs| - 1]);
      var e := es[vs[|vs| - 1]];
      if Eligible(e) then rest + [e.node.value] else rest
  }

  /** Length of the prefix that entry u shares with the target. */
  function Shared(es: seq<Entry>, t: Id, u: nat): (k: nat)
    requires u < |es|
  {
    CommonBits(t, es[u].id)
  }

  /**
   vs lists visited positions: none twice, with shared prefixes that never grow, and
   no position that was left out shares a longer prefix than a visited one.
   */
  ghost predicate NearestFirst(es: seq<Entry>, t: Id, vs: seq<nat>) {
    && InRange(es, vs)
    && (forall i, j :: 0 <= i < j < |vs| ==> vs[i] != vs[j] && Shared(es, t, vs[j]) <= Shared(es, t, vs[i]))
    && (forall u: nat, i :: u < |es| && u !in vs && 0 <= i < |vs| ==> Shared(es, t, u) <= Shared(es, t, vs[i]))
  }

  // ----- numeric order against shared prefixes

  /** Walking away from the target on one side, the shared prefix never grows. */
  lemma {:induction false} AwayBelow(t: Id, a: Id, b: Id)
    requires Less(a, b) && !Less(t, b)
    ensures CommonBits(t, a) <= CommonBits(t, b)
  {
    CommonIs(a, b);
    CommonIs(t, b);
    CommonIs(t, a);
    CommonSymmetric(t, b);
    if CommonBits(t, a) > CommonBits(t, b) {
      FirstDifference(a, b, CommonBits(t, b));
      LessTotal(t, b);
      CommonAll(t, b);
    }
  }

  lemma {:induction false} AwayAbove(t: Id, a: Id, b: Id)
    requires Less(a, b) && !Less(a, t)
    ensures CommonBits(t, b) <= CommonBits(t, a)
  {
    CommonIs(a, b);
    CommonIs(t, b);
    CommonIs(t, a);
    CommonSymmetric(t, a);
    if CommonBits(t, b) > CommonBits(t, a) {
      FirstDifference(a, b, CommonBits(t, a));
      LessTotal(a, t);
      CommonAll(t, a);
    }
  }

  /** lower_bound splits the map around the target. */
  ghost predicate SplitAt(es: seq<Entry>, t: Id, m: nat) {
    && m <= |es|
    && (forall i :: 0 <= i < m ==> Less(es[i].id, t))
    && (forall i :: m <= i < |es| ==> !Less(es[i].id, t))
  }

  method LowerBound(es: seq<Entry>, t: Id) returns (m: nat)
    requires SortedMap(es)
    ensures SplitAt(es, t, m)
  {
    hide Less;
    m := 0;
    while m < |es| && Less(es[m].id, t)
      invariant m <= |es| && forall i :: 0 <= i < m ==> Less(es[i].id, t)
    {
      m := m + 1;
    }
    forall i | m <= i < |es|
      ensures !Less(es[i].id, t)
    {
      if m < i && Less(es[i].id, t) {
        LessTransitive(es[m].id, es[i].id, t);
      }
    }
  }

  /** Of the entries outside [p, n), the two at the border share the longest prefixes of their sides. */
  lemma {:induction false} BorderIsBest(es: seq<Entry>, t: Id, m: nat, p: nat, n: nat, u: nat)
    requires SortedMap(es) && SplitAt(es, t, m) && p <= m <= n <= |es| && u < |es| && !(p <= u < n)
    ensures u < p ==> Shared(es, t, u) <= Shared(es, t, p - 1)
    ensures n <= u ==> Shared(es, t, u) <= Shared(es, t, n)
  {
    hide Less, CommonBits;
    if u < p - 1 {
      LessTotal(t, es[p - 1].id);
      AwayBelow(t, es[u].id, es[p - 1].id);
    }
    if n < u {
      AwayAbove(t, es[n].id, es[u].id);
    }
  }

  /** The side that is taken shares at least as much as anything not yet visited. */
  ghost predicate BestOutside(es: seq<Entry>, t: Id, p: nat, n: nat, x: nat)
    requires x < |es|
  {
    forall u: nat :: u < |es| && !(p <= u < n) ==> Shared(es, t, u) <= Shared(es, t, x)
  }

  lemma {:induction false} TakeNearer(es: seq<Entry>, t: Id, m: nat, p: nat, n: nat, x: nat)
    requires SortedMap(es) && SplitAt(es, t, m) && p <= m <= n <= |es|
    requires (x == n < |es| && (p == 0 || !Closer(t, es[p - 1].id, es[n].id)))
             || (x == p - 1 && (n == |es| || Closer(t, es[p - 1].id, es[n].id)))
    ensures BestOutside(es, t, p, n, x)
  {
    hide Less, Closer, CommonBits;
    if 0 < p && n < |es| {
      CloserTotal(t, es[p - 1].id, es[n].id);
      LessTotal(es[p - 1].id, es[n].id);
      PrefixDecides(t, es[p - 1].id, es[n].id);
      PrefixDecides(t, es[n].id, es[p - 1].id);
    }
    forall u: nat | u < |es| && !(p <= u < n)
      ensures Shared(es, t, u) <= Shared(es, t, x)
    {
      BorderIsBest(es, t, m, p, n, u);
    }
  }

  ghost predicate Covers(vs: seq<nat>, p: nat, n: nat) {
    forall u: nat :: u in vs <==> p <= u < n
  }

  lemma {:induction false} VisitKeeps(es: seq<Entry>, t: Id, vs: seq<nat>, p: nat, n: nat, x: nat)
    requires NearestFirst(es, t, vs) && Covers(vs, p, n) && p <= n <= |es|
    requires x < |es| && (x == n || x == p - 1) && BestOutside(es, t, p, n, x)
    ensures NearestFirst(es, t, vs + [x]) && InRange(es, vs + [x])
    ensures Covers(vs + [x], if x == n then p else p - 1, if x == n then n + 1 else n)
  {
    hide Shared;
    var ws := vs + [x];
    assert forall u: nat :: u in ws <==> u in vs || u == x;
    assert x !in vs;
    forall i, j | 0 <= i < j < |ws|
      ensures ws[i] != ws[j] && Shared(es, t, ws[j]) <= Shared(es, t, ws[i])
    {
      assert ws[i] == vs[i] && ws[i] in vs;
      assert j < |vs| ==> ws[j] == vs[j];
    }
    forall u: nat, i | u < |es| && u !in ws && 0 <= i < |ws|
      ensures Shared(es, t, u) <= Shared(es, t, ws[i])
    {
      assert u !in vs;
      assert i < |vs| ==> ws[i] == vs[i];
    }
  }

  method GetCachedNodes(es: seq<Entry>, t: Id, count: nat) returns (ns: seq<CachedNode>)
    requires SortedMap(es)
    ensures |ns| <= count
    ensures exists vs: seq<nat> ::
              && InRange(es, vs) && NearestFirst(es, t, vs) && ns == Picked(es, vs)
              && (|ns| < count ==> forall u: nat :: u < |es| ==> u in vs)
  {
    hide Closer, Less, NearestFirst;
    ns := [];
    ghost var vs: seq<nat> := [];
    var m := LowerBound(es, t);
    var p: nat, n: nat := m, m;
    NothingVisited(es, t);
    while |ns| < count && (n < |es| || 0 < p)
      invariant p <= m <= n <= |es|
      invariant NearestFirst(es, t, vs) && Covers(vs, p, n) && InRange(es, vs)
      invariant |ns| <= count && ns == Picked(es, vs)
      decreases |es| - n + p
    {
      var below := n == |es| || (0 < p && Closer(t, es[p - 1].id, es[n].id));
      var x: nat := if below then p - 1 else n;
      TakeNearer(es, t, m, p, n, x);
      VisitKeeps(es, t, vs, p, n, x);
      if below {
        p := p - 1;
      } else {
        n := n + 1;
      }
      if Eligible(es[x]) {
        ns := ns + [es[x].node.value];
      }
      assert (vs + [x])[..|vs|] == vs;
      vs := vs + [x];
    }
  }

  lemma {:induction false} NothingVisited(es: seq<Entry>, t: Id)
    ensures NearestFirst(es, t, [])
  {
  }

  /** How many of the first k visited entries hold a node that is alive, not expired and no client. */
  function EligibleBefore(es: seq<Entry>, vs: seq<nat>, k: nat): (n: nat)
    requires InRange(es, vs) && k <= |vs|
  {
    if k == 0 then 0
    else
      EligibleBefore(es, vs, k - 1) +
      match es[vs[k - 1]].node
      case None => 0
      case Some(n) => if n.expired || n.client then 0 else 1
  }

  lemma {:induction false} SameBefore(es: seq<Entry>, vs: seq<nat>, m: nat, k: nat)
    requires InRange(es, vs) && k <= m <= |vs|
    ensures EligibleBefore(es, vs[..m], k) == EligibleBefore(es, vs, k)
  {
    if k > 0 {
      SameBefore(es, vs, m, k - 1);
    }
  }

  /** The result lists exactly the eligible nodes visited, each at its turn. */
  lemma {:induction false} PickedExact(es: seq<Entry>, vs: seq<nat>, k: nat)
    requires InRange(es, vs) && k < |vs|
    ensures |Picked(es, vs)| == EligibleBefore(es, vs, |vs|)
    ensures var e := es[vs[k]];
            e.node.Some? && !e.node.value.expired && !e.node.value.client ==>
              EligibleBefore(es, vs, k) < |Picked(es, vs)| && Picked(es, vs)[EligibleBefore(es, vs, k)] == e.node.value
    decreases |vs|
  {
    var n := |vs| - 1;
    SameBefore(es, vs, n, n);
    if n > 0 {
      PickedExact(es, vs[..n], if k < n then k else 0);
      SameBefore(es, vs, n, if k < n then k else 0);
    } else {
      assert vs[..n] == [];
    }
  }
}
