/**
 The node list of a search: sorted by XOR distance to the target, trimmed to
 SEARCH_NODES nodes that are not bad. Which node objects are expired, and which
 have not been heard of for NODE_EXPIRE_TIME, is given from outside.
 */
module SearchNodes {
  import opened Prelude
  import opened InfoHash
  import RT = RoutingTable

  type Node = RT.Node
  type Blob = seq<bv8>

  const SEARCH_NODES: nat := 14
  const TOKEN_MAX: nat := 64

  datatype SearchNode = SearchNode(node: Node, candidate: bool, token: Blob, lastGetReply: Option<int>)

  /** `stepTime` None is time_point::min(). */
  datatype State = State(target: Id, af: nat, expired: bool, stepTime: Option<int>, nodes: seq<SearchNode>)

  /** Node flags as the call finds them. */
  datatype Flags = Flags(expired: set<Node>, stale: set<Node>)

  /** inserted is what the call returns; dangling says that it wrote through an erased element. */
  datatype Outcome = Outcome(state: State, inserted: bool, dangling: bool)

  predicate IsBad(sn: SearchNode, f: Flags) {
    sn.node in f.expired || sn.candidate
  }

  /** Number of nodes that are not bad. */
  function Usable(ns: seq<SearchNode>, f: Flags): (c: nat)
    ensures c <= |ns|
  {
    if ns == [] then 0 else Usable(ns[..|ns| - 1], f) + if IsBad(ns[|ns| - 1], f) then 0 else 1
  }

  /** Scan backwards from position n for the node, or for the place right after a nearer one. */
  function Scan(t: Id, ns: seq<SearchNode>, node: Node, n: nat): (r: (bool, nat))
    requires n <= |ns|
    ensures r.1 <= n && (r.0 ==> r.1 < |ns| && ns[r.1].node == node)
  {
    if n == 0 then (false, 0)
    else if ns[n - 1].node == node then (true, n - 1)
    else if Closer(t, ns[n - 1].node.id, node.id) then (false, n)
    else Scan(t, ns, node, n - 1)
  }

  /** Longest prefix, of length at most n, with at most SEARCH_NODES usable nodes. */
  function KeepLength(ns: seq<SearchNode>, f: Flags, n: nat): (t: nat)
    requires n <= |ns|
    ensures t <= n
  {
    if Usable(ns[..n], f) <= SEARCH_NODES then n else KeepLength(ns, f, n - 1)
  }

  predicate IsFull(s: State, f: Flags) {
    if s.expired then |s.nodes| >= SEARCH_NODES else Usable(s.nodes, f) >= SEARCH_NODES
  }

  /** Where the list is cut before inserting; all of it if the search is not full. */
  function TrimPoint(s: State, f: Flags): (t: nat)
    ensures t <= |s.nodes|
  {
    if !IsFull(s, f) then |s.nodes|
    else if s.expired then SEARCH_NODES
    else KeepLength(s.nodes, f, |s.nodes|)
  }

  /** How many nodes stay after the insertion; `wasExpired` and `nodeExpired` select the source's three cases. */
  function PopPoint(ns: seq<SearchNode>, f: Flags, wasExpired: bool, nodeExpired: bool): (t: nat)
    ensures t <= |ns|
  {
    if !wasExpired then KeepLength(ns, f, |ns|)
    else if !nodeExpired || |ns| <= SEARCH_NODES then |ns|
    else SEARCH_NODES
  }

  function WriteToken(ns: seq<SearchNode>, n: nat, now: int, token: Blob): (r: seq<SearchNode>) {
    if n < |ns| && token != [] then
      ns[n := ns[n].(candidate := false, lastGetReply := Some(now),
                     token := if |token| <= TOKEN_MAX then token else ns[n].token)]
    else ns
  }

  /** Erase the last expired node that is stale; the node inserted just now is not. */
  function RemoveExpired(ns: seq<SearchNode>, f: Flags, n: nat): (r: seq<SearchNode>)
    requires n <= |ns|
  {
    if n == 0 then ns
    else if ns[n - 1].node in f.expired && ns[n - 1].node in f.stale then ns[..n - 1] + ns[n..]
    else RemoveExpired(ns, f, n - 1)
  }

  function Placed(ns: seq<SearchNode>, n: nat, node: Node): (r: seq<SearchNode>)
    requires n <= |ns|
  {
    ns[..n] + [SearchNode(node, false, [], None)] + ns[n..]
  }

  /** The part of `insertNode` after the position has been found and the list has been cut. */
  function InsertAt(s: State, n: nat, node: Node, now: int, token: Blob, f: Flags): (r: Outcome)
    requires n <= |s.nodes|
  {
    var wide := Placed(s.nodes, n, node);
    var ns := wide[..PopPoint(wide, f, s.expired, node in f.expired)];
    var written := WriteToken(ns, n, now, token);
    Outcome(
      s.(nodes := RemoveExpired(written, f.(stale := f.stale - {node}), |written|),
         stepTime := if s.nodes == [] then None else s.stepTime,
         expired := s.expired && node in f.expired && token == []),
      true,
      token != [] && n >= |ns|)
  }

  /** `Search::insertNode`. */
  function AfterInsert(s: State, node: Node, family: nat, now: int, token: Blob, f: Flags): (r: Outcome) {
    if family != s.af then Outcome(s, false, false)
    else
      var (found, n) := Scan(s.target, s.nodes, node, |s.nodes|);
      if found then
        Outcome(s.(nodes := WriteToken(s.nodes, n, now, token), expired := s.expired && token == []), false, false)
      else
        var t := TrimPoint(s, f);
        if IsFull(s, f) && n >= t then Outcome(s.(nodes := s.nodes[..t]), false, false)
        else InsertAt(s.(nodes := s.nodes[..t]), n, node, now, token, f)
  }

  // ----- what the list keeps

  ghost predicate Sorted(t: Id, ns: seq<SearchNode>) {
    forall i, j :: 0 <= i < j < |ns| ==> !Closer(t, ns[j].node.id, ns[i].node.id)
  }

  ghost predicate Distinct(ns: seq<SearchNode>) {
    forall i, j :: 0 <= i < j < |ns| ==> ns[i].node != ns[j].node
  }

  ghost predicate Holds(ns: seq<SearchNode>, n: Node) {
    exists i :: 0 <= i < |ns| && ns[i].node == n
  }

  ghost predicate Inv(s: State) {
    Sorted(s.target, s.nodes) && Distinct(s.nodes)
  }

  /** No node before p is farther than the given one, none from p on is nearer. */
  ghost predicate FitsAt(t: Id, ns: seq<SearchNode>, p: nat, node: Node)
    requires p <= |ns|
  {
    && (forall i :: 0 <= i < p ==> !Closer(t, node.id, ns[i].node.id))
    && (forall i :: p <= i < |ns| ==> !Closer(t, ns[i].node.id, node.id))
  }

  /** On a sorted list the scan finds the node if it is there, else the place that keeps the order. */
  lemma {:induction false} ScanIsPlace(t: Id, ns: seq<SearchNode>, node: Node, n: nat)
    requires Sorted(t, ns) && n <= |ns|
    requires forall i :: n <= i < |ns| ==> ns[i].node != node && !Closer(t, ns[i].node.id, node.id)
    ensures var (found, p) := Scan(t, ns, node, n);
            && (found <==> Holds(ns, node))
            && (!found ==> FitsAt(t, ns, p, node))
  {
    hide Closer;
    if n > 0 && ns[n - 1].node != node {
      if Closer(t, ns[n - 1].node.id, node.id) {
        forall i | 0 <= i < n
          ensures ns[i].node != node && !Closer(t, node.id, ns[i].node.id)
        {
          CloserTotal(t, ns[n - 1].node.id, node.id);
          if Closer(t, node.id, ns[i].node.id) {
            CloserTransitive(t, ns[n - 1].node.id, node.id, ns[i].node.id);
          }
        }
      } else {
        ScanIsPlace(t, ns, node, n - 1);
      }
    }
  }

  lemma {:induction false} PlacedKeeps(t: Id, ns: seq<SearchNode>, n: nat, node: Node)
    requires Sorted(t, ns) && Distinct(ns) && n <= |ns| && !Holds(ns, node) && FitsAt(t, ns, n, node)
    ensures Sorted(t, Placed(ns, n, node)) && Distinct(Placed(ns, n, node))
  {
    hide Closer;
    var r := Placed(ns, n, node);
    assert forall i :: 0 <= i < n ==> r[i] == ns[i];
    assert forall i :: n < i < |r| ==> r[i] == ns[i - 1];
  }

  lemma {:induction false} PrefixKeeps(t: Id, ns: seq<SearchNode>, n: nat)
    requires Sorted(t, ns) && Distinct(ns) && n <= |ns|
    ensures Sorted(t, ns[..n]) && Distinct(ns[..n])
  {
    hide Closer;
  }

  lemma {:induction false} WriteKeeps(t: Id, ns: seq<SearchNode>, n: nat, now: int, token: Blob)
    requires Sorted(t, ns) && Distinct(ns)
    ensures var r := WriteToken(ns, n, now, token);
            && Sorted(t, r) && Distinct(r) && |r| == |ns|
            && forall i :: 0 <= i < |ns| ==> r[i].node == ns[i].node
  {
    hide Closer;
  }

  /** RemoveExpired erases at most one node, an expired one. */
  ghost predicate ErasesOneOf(ns: seq<SearchNode>, r: seq<SearchNode>, dead: set<Node>) {
    r == ns || exists k :: 0 <= k < |ns| && ns[k].node in dead && r == ns[..k] + ns[k + 1..]
  }

  lemma {:induction false} RemoveErases(ns: seq<SearchNode>, f: Flags, n: nat)
    requires n <= |ns|
    ensures ErasesOneOf(ns, RemoveExpired(ns, f, n), f.expired * f.stale)
  {
    if n > 0 {
      if ns[n - 1].node in f.expired && ns[n - 1].node in f.stale {
        assert ns[n - 1].node in f.expired * f.stale && RemoveExpired(ns, f, n) == ns[..n - 1] + ns[n - 1 + 1..];
      } else {
        RemoveErases(ns, f, n - 1);
      }
    }
  }

  lemma {:induction false} EraseOrder(t: Id, ns: seq<SearchNode>, r: seq<SearchNode>, dead: set<Node>)
    requires Sorted(t, ns) && Distinct(ns) && ErasesOneOf(ns, r, dead)
    ensures Sorted(t, r) && Distinct(r)
  {
    hide Closer;
    if r != ns {
      var k :| 0 <= k < |ns| && ns[k].node in dead && r == ns[..k] + ns[k + 1..];
      assert forall i :: 0 <= i < |r| ==> r[i] == ns[if i < k then i else i + 1];
    }
  }

  lemma {:induction false} EraseUsable(ns: seq<SearchNode>, r: seq<SearchNode>, dead: set<Node>, f: Flags)
    requires ErasesOneOf(ns, r, dead)
    ensures Usable(r, f) <= Usable(ns, f)
  {
    if r != ns {
      var k :| 0 <= k < |ns| && ns[k].node in dead && r == ns[..k] + ns[k + 1..];
      UsableErase(ns, f, k);
    }
  }

  lemma {:induction false} EraseHolds(ns: seq<SearchNode>, r: seq<SearchNode>, dead: set<Node>, x: Node)
    requires ErasesOneOf(ns, r, dead)
    ensures Holds(r, x) ==> Holds(ns, x)
    ensures Holds(ns, x) && x !in dead ==> Holds(r, x)
  {
    if r != ns {
      var k :| 0 <= k < |ns| && ns[k].node in dead && r == ns[..k] + ns[k + 1..];
      assert forall i :: 0 <= i < |r| ==> r[i] == ns[if i < k then i else i + 1];
      if i :| 0 <= i < |ns| && ns[i].node == x && x !in dead {
        assert r[if i < k then i else i - 1].node == x;
      }
    }
  }

  lemma {:induction false} UsableConcat(a: seq<SearchNode>, b: seq<SearchNode>, f: Flags)
    ensures Usable(a + b, f) == Usable(a, f) + Usable(b, f)
    decreases |b|
  {
    if b == [] {
      assert a + b == a;
    } else {
      assert (a + b)[..|a + b| - 1] == a + b[..|b| - 1];
      UsableConcat(a, b[..|b| - 1], f);
    }
  }

  lemma {:induction false} UsableErase(ns: seq<SearchNode>, f: Flags, k: nat)
    requires k < |ns|
    ensures Usable(ns[..k] + ns[k + 1..], f) <= Usable(ns, f)
    ensures Usable(ns, f) == Usable(ns[..k], f) + (if IsBad(ns[k], f) then 0 else 1) + Usable(ns[k + 1..], f)
  {
    assert ns == ns[..k] + ([ns[k]] + ns[k + 1..]);
    UsableConcat(ns[..k], [ns[k]] + ns[k + 1..], f);
    UsableConcat([ns[k]], ns[k + 1..], f);
    UsableConcat(ns[..k], ns[k + 1..], f);
    assert [ns[k]][..0] == [];
  }

  lemma {:induction false} KeepLengthBound(ns: seq<SearchNode>, f: Flags, n: nat)
    requires n <= |ns|
    ensures Usable(ns[..KeepLength(ns, f, n)], f) <= SEARCH_NODES
  {
    if Usable(ns[..n], f) > SEARCH_NODES {
      KeepLengthBound(ns, f, n - 1);
    }
  }

  /** What an insertion may do to the list of a sorted, duplicate-free search. */
  ghost predicate InsertOk(s: State, r: Outcome, node: Node, f: Flags) {
    && Inv(r.state) && r.state.target == s.target && r.state.af == s.af
    && (forall x :: Holds(r.state.nodes, x) ==> Holds(s.nodes, x) || (x == node && r.inserted))
    && forall d, k :: DroppedUsable(s, r.state, f, d) && Holds(r.state.nodes, k) ==> !Closer(s.target, d.id, k.id)
  }

  /** d was in the list as a node that is not bad, and is not in it any more. */
  ghost predicate DroppedUsable(s: State, s': State, f: Flags, d: Node) {
    !Holds(s'.nodes, d) && exists i :: 0 <= i < |s.nodes| && s.nodes[i].node == d && !IsBad(s.nodes[i], f)
  }

  /** Cutting a sorted list loses only nodes at least as far as the ones it keeps. */
  lemma {:induction false} CutLosesFar(t: Id, ns: seq<SearchNode>, n: nat, d: Node, k: Node)
    requires Sorted(t, ns) && n <= |ns| && Holds(ns, d) && !Holds(ns[..n], d) && Holds(ns[..n], k)
    ensures !Closer(t, d.id, k.id)
  {
    hide Closer;
    assert forall j :: 0 <= j < n ==> ns[..n][j] == ns[j];
    var i :| 0 <= i < |ns| && ns[i].node == d;
    var j :| 0 <= j < n && ns[..n][j].node == k;
  }

  lemma {:induction false} HoldsPrefix(ns: seq<SearchNode>, n: nat, x: Node)
    requires n <= |ns| && Holds(ns[..n], x)
    ensures Holds(ns, x)
  {
    var j :| 0 <= j < n && ns[..n][j].node == x;
    assert ns[j].node == x;
  }

  lemma {:induction false} PlacedHolds(ns: seq<SearchNode>, n: nat, node: Node, x: Node)
    requires n <= |ns|
    ensures Holds(Placed(ns, n, node), x) <==> Holds(ns, x) || x == node
  {
    var r := Placed(ns, n, node);
    assert r[n].node == node;
    assert forall i :: 0 <= i < n ==> r[i] == ns[i];
    assert forall i :: n < i < |r| ==> r[i] == ns[i - 1];
    if i :| 0 <= i < |ns| && ns[i].node == x {
      assert r[if i < n then i else i + 1].node == x;
    }
    if i :| 0 <= i < |r| && r[i].node == x && x != node {
      assert ns[if i < n then i else i - 1].node == x;
    }
  }

  lemma {:induction false} WriteHolds(ns: seq<SearchNode>, n: nat, now: int, token: Blob, x: Node)
    ensures Holds(WriteToken(ns, n, now, token), x) <==> Holds(ns, x)
  {
    var r := WriteToken(ns, n, now, token);
    assert |r| == |ns| && forall i :: 0 <= i < |ns| ==> r[i].node == ns[i].node;
    if i :| 0 <= i < |ns| && ns[i].node == x {
      assert r[i].node == x;
    }
    if i :| 0 <= i < |r| && r[i].node == x {
      assert ns[i].node == x;
    }
  }

  /** The list after the pops, before the token is written and an expired node is erased. */
  function Popped(s: State, n: nat, node: Node, f: Flags): (ns: seq<SearchNode>)
    requires n <= |s.nodes|
  {
    var wide := Placed(s.nodes, n, node);
    wide[..PopPoint(wide, f, s.expired, node in f.expired)]
  }

  /** From the popped list to the result no usable node is lost and none appears. */
  lemma {:induction false} FinishKeeps(s: State, n: nat, node: Node, now: int, token: Blob, f: Flags)
    requires n <= |s.nodes| && Sorted(s.target, Popped(s, n, node, f)) && Distinct(Popped(s, n, node, f))
    ensures Inv(InsertAt(s, n, node, now, token, f).state)
    ensures forall x :: Holds(InsertAt(s, n, node, now, token, f).state.nodes, x) ==> Holds(Popped(s, n, node, f), x)
    ensures forall x :: Holds(Popped(s, n, node, f), x) && (x !in f.expired || x == node) ==>
              Holds(InsertAt(s, n, node, now, token, f).state.nodes, x)
  {
    hide Sorted, Distinct, Holds;
    var ns := Popped(s, n, node, f);
    var written := WriteToken(ns, n, now, token);
    var g := f.(stale := f.stale - {node});
    WriteKeeps(s.target, ns, n, now, token);
    RemoveErases(written, g, |written|);
    var r := RemoveExpired(written, g, |written|);
    EraseOrder(s.target, written, r, g.expired * g.stale);
    forall x
      ensures Holds(r, x) ==> Holds(ns, x)
      ensures Holds(ns, x) && (x !in f.expired || x == node) ==> Holds(r, x)
    {
      WriteHolds(ns, n, now, token, x);
      EraseHolds(written, r, g.expired * g.stale, x);
    }
  }

  lemma {:induction false} InsertAtOk(s: State, t: nat, n: nat, node: Node, now: int, token: Blob, f: Flags)
    requires Inv(s) && n <= t <= |s.nodes| && !Holds(s.nodes, node) && FitsAt(s.target, s.nodes, n, node)
    ensures InsertOk(s, InsertAt(s.(nodes := s.nodes[..t]), n, node, now, token, f), node, f)
  {
    var cut := s.(nodes := s.nodes[..t]);
    var r := InsertAt(cut, n, node, now, token, f);
    var wide := Placed(cut.nodes, n, node);
    var ns := Popped(cut, n, node, f);
    CutFits(s, t, n, node);
    PlacedKeeps(s.target, cut.nodes, n, node);
    PrefixKeeps(s.target, wide, |ns|);
    FinishKeeps(cut, n, node, now, token, f);
    hide Sorted, Distinct, FitsAt, Closer, Placed, PopPoint, InsertAt;
    forall x | Holds(r.state.nodes, x)
      ensures Holds(s.nodes, x) || x == node
    {
      HoldsPrefix(wide, |ns|, x);
      PlacedHolds(cut.nodes, n, node, x);
      if x != node {
        HoldsPrefix(s.nodes, t, x);
      }
    }
    forall d, k | DroppedUsable(s, r.state, f, d) && Holds(r.state.nodes, k)
      ensures !Closer(s.target, d.id, k.id)
    {
      DroppedIsFar(s, t, n, node, f, d, k);
    }
  }

  lemma {:induction false} CutFits(s: State, t: nat, n: nat, node: Node)
    requires Inv(s) && n <= t <= |s.nodes| && !Holds(s.nodes, node) && FitsAt(s.target, s.nodes, n, node)
    ensures FitsAt(s.target, s.nodes[..t], n, node) && !Holds(s.nodes[..t], node)
    ensures Sorted(s.target, s.nodes[..t]) && Distinct(s.nodes[..t])
  {
    hide Closer;
    var ns := s.nodes[..t];
    assert forall i :: 0 <= i < t ==> ns[i] == s.nodes[i];
  }

  lemma {:induction false} DroppedIsFar(s: State, t: nat, n: nat, node: Node, f: Flags, d: Node, k: Node)
    requires Inv(s) && n <= t <= |s.nodes| && !Holds(s.nodes, node) && FitsAt(s.target, s.nodes, n, node)
    requires var ns := Popped(s.(nodes := s.nodes[..t]), n, node, f); !Holds(ns, d) && Holds(ns, k)
    requires Holds(s.nodes, d)
    ensures !Closer(s.target, d.id, k.id)
  {
    var cut := s.(nodes := s.nodes[..t]);
    var wide := Placed(cut.nodes, n, node);
    var ns := Popped(cut, n, node, f);
    hide Closer;
    CutFits(s, t, n, node);
    PlacedKeeps(s.target, cut.nodes, n, node);
    PlacedHolds(cut.nodes, n, node, d);
    PlacedHolds(cut.nodes, n, node, k);
    HoldsPrefix(wide, |ns|, k);
    if Holds(cut.nodes, d) {
      CutLosesFar(s.target, wide, |ns|, d, k);
    } else if k == node {
      assert forall j :: 0 <= j < t ==> cut.nodes[j] == s.nodes[j];
      var i :| 0 <= i < |s.nodes| && s.nodes[i].node == d;
    } else {
      CutLosesFar(s.target, s.nodes, t, d, k);
    }
  }

  lemma {:induction false} UsablePrefix(ns: seq<SearchNode>, f: Flags, n: nat)
    requires n <= |ns|
    ensures Usable(ns, f) == Usable(ns[..n], f) + Usable(ns[n..], f)
  {
    UsableConcat(ns[..n], ns[n..], f);
    assert ns[..n] + ns[n..] == ns;
  }

  /**
   Insertion keeps the list sorted and duplicate-free, adds nothing but the node, and
   never drops a usable node that is strictly nearer than one it keeps.
   */
  lemma {:induction false} InsertKeeps(s: State, node: Node, family: nat, now: int, token: Blob, f: Flags)
    requires Inv(s)
    ensures InsertOk(s, AfterInsert(s, node, family, now, token, f), node, f)
  {
    hide Closer, InsertAt, IsFull;
    var r := AfterInsert(s, node, family, now, token, f);
    var (found, n) := Scan(s.target, s.nodes, node, |s.nodes|);
    ScanIsPlace(s.target, s.nodes, node, |s.nodes|);
    var t := TrimPoint(s, f);
    if family != s.af {
    } else if found {
      WriteKeeps(s.target, s.nodes, n, now, token);
      forall x
        ensures Holds(r.state.nodes, x) <==> Holds(s.nodes, x)
      {
        WriteHolds(s.nodes, n, now, token, x);
      }
    } else if IsFull(s, f) && n >= t {
      PrefixKeeps(s.target, s.nodes, t);
      forall x | Holds(r.state.nodes, x)
        ensures Holds(s.nodes, x)
      {
        HoldsPrefix(s.nodes, t, x);
      }
      forall d, k | DroppedUsable(s, r.state, f, d) && Holds(r.state.nodes, k)
        ensures !Closer(s.target, d.id, k.id)
      {
        CutLosesFar(s.target, s.nodes, t, d, k);
      }
    } else {
      InsertAtOk(s, t, n, node, now, token, f);
    }
  }

  // ----- how many usable nodes stay, and when the new node is among them

  lemma {:induction false} UsableSame(a: seq<SearchNode>, b: seq<SearchNode>, f: Flags)
    requires |a| == |b| && forall i :: 0 <= i < |a| ==> (IsBad(a[i], f) <==> IsBad(b[i], f))
    ensures Usable(a, f) == Usable(b, f)
  {
    if a != [] {
      UsableSame(a[..|a| - 1], b[..|b| - 1], f);
    }
  }

  /** A search that is not expired ends with at most SEARCH_NODES usable nodes when a node is inserted. */
  lemma {:induction false} InsertBound(s: State, node: Node, family: nat, now: int, token: Blob, f: Flags)
    requires !s.expired && AfterInsert(s, node, family, now, token, f).inserted
    ensures Usable(AfterInsert(s, node, family, now, token, f).state.nodes, f) <= SEARCH_NODES
  {
    hide IsFull, KeepLength;
    var (found, n) := Scan(s.target, s.nodes, node, |s.nodes|);
    var cut := s.(nodes := s.nodes[..TrimPoint(s, f)]);
    var wide := Placed(cut.nodes, n, node);
    var ns := Popped(cut, n, node, f);
    var written := WriteToken(ns, n, now, token);
    var g := f.(stale := f.stale - {node});
    assert wide[n].node == node && !wide[n].candidate;
    KeepLengthBound(wide, f, |wide|);
    UsableSame(ns, written, f);
    RemoveErases(written, g, |written|);
    EraseUsable(written, RemoveExpired(written, g, |written|), g.expired * g.stale, f);
  }

  /** KeepLength is the longest prefix with few enough usable nodes. */
  lemma {:induction false} KeepLengthExact(ns: seq<SearchNode>, f: Flags, n: nat, j: nat)
    requires j <= n <= |ns|
    ensures j <= KeepLength(ns, f, n) <==> Usable(ns[..j], f) <= SEARCH_NODES
  {
    if Usable(ns[..n], f) <= SEARCH_NODES {
      UsablePrefix(ns[..n], f, j);
      assert ns[..n][..j] == ns[..j];
    } else if j < n {
      KeepLengthExact(ns, f, n - 1, j);
    }
  }

  /**
   The new node is usable, SEARCH_NODES usable nodes come before its place, and only
   bad nodes that were not cut off come after it.
   */
  predicate Crowded(s: State, node: Node, family: nat, f: Flags) {
    var (found, n) := Scan(s.target, s.nodes, node, |s.nodes|);
    && family == s.af && !s.expired && !found && node !in f.expired
    && Usable(s.nodes[..n], f) >= SEARCH_NODES
    && n < KeepLength(s.nodes, f, |s.nodes|)
  }

  lemma {:induction false} PoppedAtOnce(s: State, n: nat, node: Node, f: Flags)
    requires n <= |s.nodes| && !s.expired && Usable(s.nodes, f) <= SEARCH_NODES
    ensures n >= |Popped(s, n, node, f)| <==> node !in f.expired && Usable(s.nodes[..n], f) >= SEARCH_NODES
  {
    hide KeepLength;
    var wide := Placed(s.nodes, n, node);
    KeepLengthExact(wide, f, |wide|, n + 1);
    UsablePrefix(s.nodes, f, n);
    assert wide[..n + 1][..n] == s.nodes[..n];
  }

  /** The call says the node was inserted, but has popped it again, exactly when it is crowded out. */
  lemma {:induction false} InsertedIsKeptIff(s: State, node: Node, family: nat, now: int, token: Blob, f: Flags)
    requires Inv(s)
    ensures var r := AfterInsert(s, node, family, now, token, f);
            && (r.inserted && !Holds(r.state.nodes, node) <==> Crowded(s, node, family, f))
            && (r.dangling <==> token != [] && Crowded(s, node, family, f))
  {
    hide Closer, Sorted, Distinct;
    var (found, n) := Scan(s.target, s.nodes, node, |s.nodes|);
    assert Sorted(s.target, s.nodes) && Distinct(s.nodes);
    var t := TrimPoint(s, f);
    if family == s.af && !found && !(IsFull(s, f) && n >= t) {
      var cut := s.(nodes := s.nodes[..t]);
      CutUsable(s, f, n);
      if !s.expired {
        PoppedAtOnce(cut, n, node, f);
      }
      KeptIffLong(s, t, n, node, now, token, f);
    }
  }

  lemma {:induction false} CutUsable(s: State, f: Flags, n: nat)
    requires n <= TrimPoint(s, f)
    ensures !s.expired ==> Usable(s.nodes[..TrimPoint(s, f)], f) <= SEARCH_NODES
    ensures s.nodes[..TrimPoint(s, f)][..n] == s.nodes[..n]
    ensures !s.expired && Usable(s.nodes[..n], f) >= SEARCH_NODES ==> IsFull(s, f)
  {
    KeepLengthBound(s.nodes, f, |s.nodes|);
    UsablePrefix(s.nodes, f, n);
    assert s.nodes[..|s.nodes|] == s.nodes;
  }

  lemma {:induction false} KeptIffLong(s: State, t: nat, n: nat, node: Node, now: int, token: Blob, f: Flags)
    requires Sorted(s.target, s.nodes) && Distinct(s.nodes) && n <= t <= |s.nodes|
    requires (false, n) == Scan(s.target, s.nodes, node, |s.nodes|)
    ensures var cut := s.(nodes := s.nodes[..t]);
            Holds(InsertAt(cut, n, node, now, token, f).state.nodes, node) <==> n < |Popped(cut, n, node, f)|
  {
    hide Closer, InsertAt, PopPoint;
    var cut := s.(nodes := s.nodes[..t]);
    var wide := Placed(cut.nodes, n, node);
    var ns := Popped(cut, n, node, f);
    ScanIsPlace(s.target, s.nodes, node, |s.nodes|);
    CutFits(s, t, n, node);
    PlacedKeeps(s.target, cut.nodes, n, node);
    PrefixKeeps(s.target, wide, |ns|);
    FinishKeeps(cut, n, node, now, token, f);
    assert wide[n].node == node;
    if n < |ns| {
      assert ns[n].node == node;
    } else {
      assert forall i :: 0 <= i < |ns| ==> ns[i] == wide[i];
    }
  }

  lemma {:induction false} UsableAll(ns: seq<SearchNode>, f: Flags)
    requires forall i :: 0 <= i < |ns| ==> !IsBad(ns[i], f)
    ensures Usable(ns, f) == |ns|
  {
    if ns != [] {
      UsableAll(ns[..|ns| - 1], f);
    }
  }

  /** Ids at growing distance from zero. */
  function Spike(i: nat): (x: Id)
    requires i < HASH_BITS
  {
    Zero()[HASH_BITS - 1 - i := true]
  }

  lemma {:induction false} SpikeOrder(i: nat, j: nat)
    requires i < j < HASH_BITS
    ensures Closer(Zero(), Spike(i), Spike(j)) && !Closer(Zero(), Spike(j), Spike(i)) && Spike(i) != Spike(j)
  {
    FirstDifference(Spike(i), Spike(j), HASH_BITS - 1 - j);
    CloserTotal(Zero(), Spike(i), Spike(j));
    assert Spike(j)[HASH_BITS - 1 - j] && !Spike(i)[HASH_BITS - 1 - j];
  }

  function SpikeNode(i: nat): (sn: SearchNode)
    requires i < HASH_BITS
  {
    SearchNode(RT.Node(i, Spike(i)), i > SEARCH_NODES, [], None)
  }

  /**
   SEARCH_NODES usable nodes and one candidate behind them, all with ids of their own, lose a node that
   belongs in between: the call says it was inserted, and it is not in the list.
   */
  lemma {:induction false} CrowdedOut() returns (s: State, node: Node, f: Flags)
    ensures Inv(s) && Crowded(s, node, s.af, f)
    ensures forall i, j :: 0 <= i < j < |s.nodes| ==> s.nodes[i].node.id != s.nodes[j].node.id
    ensures forall i :: 0 <= i < |s.nodes| ==> s.nodes[i].node.id != node.id
    ensures var r := AfterInsert(s, node, s.af, 0, [], f); r.inserted && !Holds(r.state.nodes, node)
  {
    hide Closer, Spike;
    f := Flags({}, {});
    node := RT.Node(SEARCH_NODES, Spike(SEARCH_NODES));
    var good := seq(SEARCH_NODES, i requires 0 <= i < SEARCH_NODES => SpikeNode(i));
    var ns := good + [SpikeNode(SEARCH_NODES + 1)];
    s := State(Zero(), 0, false, None, ns);
    forall i: nat, j: nat | i < j <= SEARCH_NODES + 1
      ensures Closer(Zero(), Spike(i), Spike(j)) && !Closer(Zero(), Spike(j), Spike(i)) && Spike(i) != Spike(j)
    {
      SpikeOrder(i, j);
    }
    assert Scan(Zero(), ns, node, SEARCH_NODES) == (false, SEARCH_NODES);
    assert Scan(Zero(), ns, node, |ns|) == (false, SEARCH_NODES);
    assert ns[..SEARCH_NODES] == good;
    UsableAll(good, f);
    assert ns[..|ns|] == ns && ns[..|ns| - 1] == good;
    InsertedIsKeptIff(s, node, s.af, 0, [], f);
  }

  // ----- the object

  class Search {
    const target: Id
    const af: nat
    var expired: bool
    var stepTime: Option<int>
    var nodes: seq<SearchNode>

    ghost function View(): (s: State)
      reads this
    {
      State(target, af, expired, stepTime, nodes)
    }

    method FindPlace(node: Node) returns (found: bool, n: nat)
      ensures (found, n) == Scan(target, nodes, node, |nodes|)
    {
      n := |nodes|;
      found := false;
      while n != 0
        invariant n <= |nodes| && !found
        invariant Scan(target, nodes, node, n) == Scan(target, nodes, node, |nodes|)
      {
        if nodes[n - 1].node == node {
          return true, n - 1;
        }
        if Closer(target, nodes[n - 1].node.id, node.id) {
          return;
        }
        n := n - 1;
      }
    }

    /** The search for the trim point, counting bad nodes down as they are passed. */
    method FindTrim(f: Flags) returns (full: bool, t: nat)
      ensures full == IsFull(View(), f)
      ensures t == TrimPoint(View(), f)
    {
      t := |nodes|;
      if expired {
        full := |nodes| >= SEARCH_NODES;
        if full {
          t := SEARCH_NODES;
        }
        return;
      }
      var bad := CountBad(nodes, f);
      full := |nodes| - bad >= SEARCH_NODES;
      assert nodes[..t] == nodes;
      while t - bad > SEARCH_NODES
        invariant t <= |nodes| && t - bad == Usable(nodes[..t], f)
        invariant KeepLength(nodes, f, t) == KeepLength(nodes, f, |nodes|)
        decreases t
      {
        assert nodes[..t][..t - 1] == nodes[..t - 1];
        t := t - 1;
        if IsBad(nodes[t], f) {
          bad := bad - 1;
        }
      }
    }

    method InsertNode(node: Node, family: nat, now: int, token: Blob, f: Flags) returns (inserted: bool, dangling: bool)
      modifies this`nodes, this`expired, this`stepTime
      ensures Outcome(View(), inserted, dangling) == AfterInsert(old(View()), node, family, now, token, f)
    {
      if family != af {
        return false, false;
      }
      var found, n := FindPlace(node);
      if found {
        nodes := WriteToken(nodes, n, now, token);
        if token != [] {
          expired := false;
        }
        return false, false;
      }
      var full, t := FindTrim(f);
      nodes := nodes[..t];
      if full && n >= t {
        return false, false;
      }
      if nodes == [] {
        stepTime := None;
      }
      var wasExpired := expired;
      nodes := Placed(nodes, n, node);
      if node !in f.expired {
        expired := false;
      }
      PopExcess(f, wasExpired, node in f.expired);
      dangling := token != [] && n >= |nodes|;
      nodes := WriteToken(nodes, n, now, token);
      if token != [] {
        expired := false;
      }
      RemoveExpiredNode(f.(stale := f.stale - {node}));
      inserted := true;
    }

    /** The popping loop, whose three cases differ in which nodes count. */
    method PopExcess(f: Flags, wasExpired: bool, nodeExpired: bool)
      requires nodes != []
      requires expired == (wasExpired && nodeExpired)
      modifies this`nodes
      ensures nodes == old(nodes)[..PopPoint(old(nodes), f, wasExpired, nodeExpired)]
    {
      hide KeepLength, Usable;
      if !wasExpired {
        PopUsable(f);
      } else if expired {
        PopAny();
      }
    }

    /** Not counting bad nodes. */
    method PopUsable(f: Flags)
      modifies this`nodes
      ensures nodes == old(nodes)[..KeepLength(old(nodes), f, |old(nodes)|)]
    {
      ghost var ns := nodes;
      assert nodes[..|nodes|] == nodes;
      var bad := CountBad(nodes, f);
      while |nodes| - bad > SEARCH_NODES
        invariant |nodes| <= |ns| && nodes == ns[..|nodes|]
        invariant |nodes| - bad == Usable(nodes, f)
        invariant KeepLength(ns, f, |nodes|) == KeepLength(ns, f, |ns|)
        decreases |nodes|
      {
        if IsBad(nodes[|nodes| - 1], f) {
          bad := bad - 1;
        }
        assert ns[..|nodes|][..|nodes| - 1] == ns[..|nodes| - 1];
        nodes := nodes[..|nodes| - 1];
      }
    }

    /** Counting all nodes, as long as the search stays expired. */
    method PopAny()
      modifies this`nodes
      ensures nodes == if |old(nodes)| <= SEARCH_NODES then old(nodes) else old(nodes)[..SEARCH_NODES]
    {
      ghost var ns := nodes;
      while |nodes| > SEARCH_NODES
        invariant |nodes| <= |ns| && nodes == ns[..|nodes|] && (|nodes| == |ns| || |nodes| >= SEARCH_NODES)
        decreases |nodes|
      {
        nodes := nodes[..|nodes| - 1];
      }
    }

    method RemoveExpiredNode(f: Flags)
      modifies this`nodes
      ensures nodes == RemoveExpired(old(nodes), f, |old(nodes)|)
    {
      var e: nat := |nodes|;
      while e != 0
        invariant e <= |nodes| && nodes == old(nodes)
        invariant RemoveExpired(nodes, f, e) == RemoveExpired(nodes, f, |nodes|)
      {
        e := e - 1;
        if nodes[e].node in f.expired && nodes[e].node in f.stale {
          nodes := nodes[..e] + nodes[e + 1..];
          return;
        }
      }
    }
  }

  method CountBad(ns: seq<SearchNode>, f: Flags) returns (bad: nat)
    ensures bad == |ns| - Usable(ns, f)
  {
    bad := 0;
    for i := 0 to |ns|
      invariant bad == i - Usable(ns[..i], f)
    {
      assert ns[..i + 1][..i] == ns[..i];
      if IsBad(ns[i], f) {
        bad := bad + 1;
      }
    }
    assert ns[..|ns|] == ns;
  }
}
