/**
 What `insertNode` does, told from the list before, the list after and the node
 flags: when a node is taken, which nodes may go for it, and what is written.
 */
module SearchInserts {
  import opened Prelude
  import opened InfoHash
  import opened SearchNodes

  /** Fewer than SEARCH_NODES nodes that count: all of an expired search, the usable ones of any other. */
  predicate HasRoom(s: State, f: Flags) {
    if s.expired then |s.nodes| < SEARCH_NODES else Usable(s.nodes, f) < SEARCH_NODES
  }

  /** Entry j is within the first SEARCH_NODES that count. */
  predicate Within(s: State, f: Flags, j: nat)
    requires j < |s.nodes|
  {
    if s.expired then j < SEARCH_NODES else Usable(s.nodes[..j + 1], f) <= SEARCH_NODES
  }

  ghost predicate BeatsKept(s: State, node: Node, f: Flags) {
    exists j: nat :: j < |s.nodes| && Within(s, f, j) && !Closer(s.target, s.nodes[j].node.id, node.id)
  }

  lemma {:induction false} WithinTrim(s: State, f: Flags, j: nat)
    requires j < |s.nodes| && IsFull(s, f)
    ensures Within(s, f, j) <==> j < TrimPoint(s, f)
  {
    hide KeepLength, Usable;
    KeepLengthExact(s.nodes, f, |s.nodes|, j + 1);
  }

  /** Before the place found by the scan all nodes are nearer than the new one. */
  lemma {:induction false} NearerBefore(t: Id, ns: seq<SearchNode>, node: Node, n: nat, i: nat)
    requires Sorted(t, ns) && n <= |ns| && !Scan(t, ns, node, n).0 && i < Scan(t, ns, node, n).1
    ensures Closer(t, ns[i].node.id, node.id)
  {
    hide Closer;
    if Closer(t, ns[n - 1].node.id, node.id) {
      var last := ns[n - 1].node.id;
      CloserTotal(t, ns[i].node.id, last);
      if ns[i].node.id != last {
        CloserTransitive(t, ns[i].node.id, last, node.id);
      }
    } else {
      NearerBefore(t, ns, node, n - 1, i);
    }
  }

  /** A node of the right family that is not in the list is taken if and only if there is room, or it is no farther than a node within the limit. */
  lemma {:induction false} InsertedIff(s: State, node: Node, family: nat, now: int, token: Blob, f: Flags)
    requires Inv(s)
    ensures AfterInsert(s, node, family, now, token, f).inserted <==>
            family == s.af && !Holds(s.nodes, node) && (HasRoom(s, f) || BeatsKept(s, node, f))
  {
    hide Closer, KeepLength, Usable, Holds, Sorted, Distinct;
    var (found, n) := Scan(s.target, s.nodes, node, |s.nodes|);
    var t := TrimPoint(s, f);
    ScanIsPlace(s.target, s.nodes, node, |s.nodes|);
    if IsFull(s, f) && !found {
      if n < t {
        WithinTrim(s, f, n);
        assert FitsAt(s.target, s.nodes, n, node);
      } else {
        forall j: nat | j < |s.nodes| && Within(s, f, j)
          ensures Closer(s.target, s.nodes[j].node.id, node.id)
        {
          WithinTrim(s, f, j);
          NearerBefore(s.target, s.nodes, node, |s.nodes|, j);
        }
      }
    }
  }

  // ----- which nodes stay

  /** Whether the new node counts against entry j: it is placed before it, and counts at all. */
  predicate Displaces(s: State, node: Node, f: Flags, j: nat)
    requires j < |s.nodes|
  {
    !Closer(s.target, s.nodes[j].node.id, node.id) && (s.expired <==> node in f.expired)
  }

  /** Entry j is still within the first SEARCH_NODES that count once the node is in. */
  predicate Stays(s: State, node: Node, f: Flags, j: nat)
    requires j < |s.nodes|
  {
    (if s.expired then j + 1 else Usable(s.nodes[..j + 1], f)) + (if Displaces(s, node, f, j) then 1 else 0) <= SEARCH_NODES
  }

  predicate Removable(x: Node, f: Flags) {
    x in f.expired && x in f.stale
  }

  /** Where entry j goes when the node is placed at n. */
  function Shifted(j: nat, n: nat): nat {
    if j < n then j else j + 1
  }

  lemma {:induction false} UsablePlaced(ns: seq<SearchNode>, n: nat, node: Node, f: Flags)
    requires n <= |ns|
    ensures Usable(Placed(ns, n, node), f) == Usable(ns, f) + if node in f.expired then 0 else 1
  {
    hide Usable;
    var x := SearchNode(node, false, [], None);
    UsableConcat(ns[..n] + [x], ns[n..], f);
    UsableConcat(ns[..n], [x], f);
    UsablePrefix(ns, f, n);
    UsableOne(x, f);
  }

  lemma {:induction false} UsableOne(x: SearchNode, f: Flags)
    ensures Usable([x], f) == if IsBad(x, f) then 0 else 1
  {
    assert [x][..0] == [];
  }

  lemma {:induction false} PlacedAt(ns: seq<SearchNode>, n: nat, node: Node, j: nat)
    requires n <= |ns| && j < |ns|
    ensures var wide := Placed(ns, n, node);
            && Shifted(j, n) < |wide| && wide[Shifted(j, n)] == ns[j] && wide[n].node == node
            && wide[..Shifted(j, n) + 1] == if j < n then ns[..j + 1] else Placed(ns[..j + 1], n, node)
  {
    var wide := Placed(ns, n, node);
    if j >= n {
      assert wide[..j + 2] == Placed(ns[..j + 1], n, node);
    }
  }

  /** The pops leave exactly the entries that stay. */
  lemma {:induction false} PoppedAre(s: State, node: Node, f: Flags, n: nat, t: nat, j: nat)
    requires Inv(s) && n <= t <= |s.nodes| && j < |s.nodes| && Scan(s.target, s.nodes, node, |s.nodes|) == (false, n) && t == TrimPoint(s, f)
    ensures var wide := Placed(s.nodes[..t], n, node);
            Stays(s, node, f, j) <==> j < t && Shifted(j, n) < PopPoint(wide, f, s.expired, node in f.expired)
  {
    hide Closer, KeepLength, Usable, Holds, Sorted, Distinct;
    var cut := s.nodes[..t];
    var wide := Placed(cut, n, node);
    ScanIsPlace(s.target, s.nodes, node, |s.nodes|);
    assert FitsAt(s.target, s.nodes, n, node);
    if j < n {
      NearerBefore(s.target, s.nodes, node, |s.nodes|, j);
    }
    assert Displaces(s, node, f, j) <==> j >= n && (s.expired <==> node in f.expired);
    InTrim(s, f, j);
    if j < t {
      assert cut[..j + 1] == s.nodes[..j + 1];
      PlacedAt(cut, n, node, j);
      if !s.expired {
        KeepLengthExact(wide, f, |wide|, Shifted(j, n) + 1);
        if j >= n {
          UsablePlaced(cut[..j + 1], n, node, f);
        }
      }
    }
  }

  /** An entry that is cut off is not within the limit. */
  lemma {:induction false} InTrim(s: State, f: Flags, j: nat)
    requires j < |s.nodes|
    ensures Within(s, f, j) ==> j < TrimPoint(s, f)
    ensures j < TrimPoint(s, f) && s.expired ==> j < SEARCH_NODES
  {
    hide KeepLength, Usable;
    if IsFull(s, f) {
      WithinTrim(s, f, j);
    }
  }

  lemma {:induction false} RemoveExact(ns: seq<SearchNode>, f: Flags, n: nat, k: nat)
    requires Distinct(ns) && n <= |ns| && k < |ns| && forall i :: n <= i < |ns| ==> !Removable(ns[i].node, f)
    ensures Holds(RemoveExpired(ns, f, n), ns[k].node) <==>
            !(Removable(ns[k].node, f) && forall i :: k < i < |ns| ==> !Removable(ns[i].node, f))
  {
    if n == 0 {
      assert ns[k].node == ns[k].node;
    } else if Removable(ns[n - 1].node, f) {
      var r := ns[..n - 1] + ns[n..];
      assert RemoveExpired(ns, f, n) == r;
      assert forall i :: 0 <= i < |r| ==> r[i] == ns[if i < n - 1 then i else i + 1];
      if k != n - 1 {
        assert r[if k < n - 1 then k else k - 1] == ns[k];
      }
    } else {
      RemoveExact(ns, f, n - 1, k);
    }
  }

  /** The farthest of the entries that stay and are removable. */
  ghost predicate FarthestRemovable(s: State, node: Node, f: Flags, j: nat)
    requires j < |s.nodes|
  {
    Removable(s.nodes[j].node, f) &&
    forall k: nat :: j < k < |s.nodes| && Stays(s, node, f, k) ==> !Removable(s.nodes[k].node, f)
  }

  /** Exactly which nodes are left after an insertion: those within the limit, but for the farthest removable one. */
  lemma {:induction false} InsertContents(s: State, node: Node, family: nat, now: int, token: Blob, f: Flags, j: nat)
    requires Inv(s) && j < |s.nodes| && AfterInsert(s, node, family, now, token, f).inserted
    ensures Holds(AfterInsert(s, node, family, now, token, f).state.nodes, s.nodes[j].node) <==>
            Stays(s, node, f, j) && !FarthestRemovable(s, node, f, j)
  {
    hide Closer, KeepLength, Usable, Sorted, Distinct, Holds, RemoveExpired, PopPoint, Stays;
    var t := TrimPoint(s, f);
    var n := Scan(s.target, s.nodes, node, |s.nodes|).1;
    var cut := s.(nodes := s.nodes[..t]);
    var wide, ns := Placed(cut.nodes, n, node), Popped(cut, n, node, f);
    var written, g := WriteToken(ns, n, now, token), f.(stale := f.stale - {node});
    InsertedDistinct(s, node, f, n, t, now, token);
    forall k: nat | k < |s.nodes|
      ensures Stays(s, node, f, k) <==> k < t && Shifted(k, n) < |ns|
      ensures k < t ==> wide[Shifted(k, n)] == s.nodes[k]
    {
      PoppedAre(s, node, f, n, t, k);
      if k < t {
        PlacedAt(cut.nodes, n, node, k);
      }
    }
    if Stays(s, node, f, j) {
      var k := Shifted(j, n);
      assert written[k].node == s.nodes[j].node;
      RemoveExact(written, g, |written|, k);
      RemovableAlike(s, node, f, n, t, written, j);
    } else {
      NotHeld(s, node, f, n, t, written, g, j);
    }
  }

  lemma {:induction false} InsertedDistinct(s: State, node: Node, f: Flags, n: nat, t: nat, now: int, token: Blob)
    requires Inv(s) && Scan(s.target, s.nodes, node, |s.nodes|) == (false, n) && n <= t <= |s.nodes|
    ensures var ns := Popped(s.(nodes := s.nodes[..t]), n, node, f);
            var written := WriteToken(ns, n, now, token);
            && Distinct(written) && |written| == |ns| && !Holds(s.nodes, node)
            && forall i :: 0 <= i < |ns| ==> written[i].node == Placed(s.nodes[..t], n, node)[i].node
  {
    hide Closer, KeepLength, Usable, PopPoint;
    var cut := s.(nodes := s.nodes[..t]);
    var wide, ns := Placed(cut.nodes, n, node), Popped(cut, n, node, f);
    ScanIsPlace(s.target, s.nodes, node, |s.nodes|);
    CutFits(s, t, n, node);
    PlacedKeeps(s.target, cut.nodes, n, node);
    PrefixKeeps(s.target, wide, |ns|);
    WriteKeeps(s.target, ns, n, now, token);
  }

  /** Later removable entries of the list are later removable entries of the old one that stay. */
  lemma {:induction false} RemovableAlike(s: State, node: Node, f: Flags, n: nat, t: nat, written: seq<SearchNode>, j: nat)
    requires n <= t <= |s.nodes| && j < t && Shifted(j, n) < |written| && |written| <= t + 1 && !Holds(s.nodes, node)
    requires forall k: nat :: k < t && Shifted(k, n) < |written| ==> written[Shifted(k, n)].node == s.nodes[k].node
    requires n < |written| ==> written[n].node == node
    requires forall k: nat :: k < |s.nodes| ==> (Stays(s, node, f, k) <==> k < t && Shifted(k, n) < |written|)
    ensures var g := f.(stale := f.stale - {node});
            FarthestRemovable(s, node, f, j) <==>
            (Removable(written[Shifted(j, n)].node, g) &&
             forall i :: Shifted(j, n) < i < |written| ==> !Removable(written[i].node, g))
  {
    hide Stays;
    var g := f.(stale := f.stale - {node});
    forall k: nat | k < t && Shifted(k, n) < |written|
      ensures Removable(written[Shifted(k, n)].node, g) <==> Removable(s.nodes[k].node, f)
    {
      assert s.nodes[k].node != node;
    }
    if FarthestRemovable(s, node, f, j) {
      forall i | Shifted(j, n) < i < |written|
        ensures !Removable(written[i].node, g)
      {
        if i != n {
          var k := if i < n then i else i - 1;
          assert Shifted(k, n) == i && Stays(s, node, f, k);
        }
      }
    } else if Removable(s.nodes[j].node, f) {
      var k: nat :| j < k < |s.nodes| && Stays(s, node, f, k) && Removable(s.nodes[k].node, f);
      assert Shifted(j, n) < Shifted(k, n) < |written|;
    }
  }

  lemma {:induction false} NotHeld(s: State, node: Node, f: Flags, n: nat, t: nat, written: seq<SearchNode>, g: Flags, j: nat)
    requires Inv(s) && n <= t <= |s.nodes| && j < |s.nodes| && |written| <= t + 1 && !Holds(s.nodes, node)
    requires !(j < t && Shifted(j, n) < |written|)
    requires forall i :: 0 <= i < |written| ==> written[i].node == Placed(s.nodes[..t], n, node)[i].node
    ensures !Holds(RemoveExpired(written, g, |written|), s.nodes[j].node)
  {
    hide Closer, Sorted, RemoveExpired;
    var x := s.nodes[j].node;
    forall i | 0 <= i < |written|
      ensures written[i].node != x
    {
      if i == n {
        assert written[i].node == node && s.nodes[j].node == x;
      } else {
        var k := if i < n then i else i - 1;
        PlacedAt(s.nodes[..t], n, node, k);
        assert written[i].node == s.nodes[k].node && k != j;
      }
    }
    RemoveErases(written, g, |written|);
    EraseHolds(written, RemoveExpired(written, g, |written|), g.expired * g.stale, x);
  }

  /** A call that inserts nothing: a known node leaves the list as it is, a refusal cuts it to the nodes within the limit. */
  lemma {:induction false} RefusalContents(s: State, node: Node, family: nat, now: int, token: Blob, f: Flags, j: nat)
    requires Inv(s) && j < |s.nodes| && !AfterInsert(s, node, family, now, token, f).inserted
    ensures Holds(AfterInsert(s, node, family, now, token, f).state.nodes, s.nodes[j].node) <==>
            family != s.af || Holds(s.nodes, node) || Within(s, f, j)
  {
    hide Closer, KeepLength, Usable, Sorted;
    var (found, n) := Scan(s.target, s.nodes, node, |s.nodes|);
    ScanIsPlace(s.target, s.nodes, node, |s.nodes|);
    var x := s.nodes[j].node;
    assert s.nodes[j].node == x;
    if family == s.af && !found {
      var t := TrimPoint(s, f);
      WithinTrim(s, f, j);
      if j < t {
        assert s.nodes[..t][j].node == x;
      }
    } else if family == s.af {
      WriteHolds(s.nodes, n, now, token, x);
    }
  }

  // ----- what is written

  /** The entry of a node that has just replied with a token. */
  predicate Replied(sn: SearchNode, now: int, token: Blob) {
    !sn.candidate && sn.lastGetReply == Some(now) && (|token| <= TOKEN_MAX ==> sn.token == token)
  }

  /** An entry of the list before, or the blank one of the new node. */
  ghost predicate Untouched(s: State, node: Node, sn: SearchNode) {
    sn in s.nodes || sn == SearchNode(node, false, [], None)
  }

  lemma {:induction false} RemoveSubset(ns: seq<SearchNode>, f: Flags, n: nat, sn: SearchNode)
    requires n <= |ns| && sn in RemoveExpired(ns, f, n)
    ensures sn in ns
  {
    if n > 0 && !(ns[n - 1].node in f.expired && ns[n - 1].node in f.stale) {
      RemoveSubset(ns, f, n - 1, sn);
    }
  }

  /** Whatever is in the list afterwards: the node has its reply written if it brought a token, every other entry is as it was. */
  lemma {:induction false} EntriesAfter(s: State, node: Node, family: nat, now: int, token: Blob, f: Flags, sn: SearchNode)
    requires Inv(s) && sn in AfterInsert(s, node, family, now, token, f).state.nodes
    ensures if sn.node == node && family == s.af && token != [] then Replied(sn, now, token) else Untouched(s, node, sn)
  {
    hide Closer, KeepLength, Usable, PopPoint, RemoveExpired;
    var (found, n) := Scan(s.target, s.nodes, node, |s.nodes|);
    ScanIsPlace(s.target, s.nodes, node, |s.nodes|);
    if family == s.af {
      if found {
        WrittenAt(s.nodes, n, now, token, node, sn);
      } else if AfterInsert(s, node, family, now, token, f).inserted {
        var t := TrimPoint(s, f);
        var cut := s.(nodes := s.nodes[..t]);
        var ns := Popped(cut, n, node, f);
        var written := WriteToken(ns, n, now, token);
        InsertedDistinct(s, node, f, n, t, now, token);
        RemoveSubset(written, f.(stale := f.stale - {node}), |written|, sn);
        assert n < |ns| ==> ns[n].node == node;
        WrittenAt(ns, n, now, token, node, sn);
        if sn in ns {
          PlacedEntries(s, n, t, node, sn);
        }
      } else {
        assert !Holds(s.nodes, node);
      }
    }
  }

  lemma {:induction false} PlacedEntries(s: State, n: nat, t: nat, node: Node, sn: SearchNode)
    requires n <= t <= |s.nodes| && sn in Placed(s.nodes[..t], n, node)
    ensures Untouched(s, node, sn)
  {
  }

  /** Writing at the position of the node: its entry, and only its, is new. */
  lemma {:induction false} WrittenAt(ns: seq<SearchNode>, n: nat, now: int, token: Blob, node: Node, sn: SearchNode)
    requires n < |ns| ==> ns[n].node == node
    requires Distinct(WriteToken(ns, n, now, token)) && sn in WriteToken(ns, n, now, token)
    ensures if sn.node == node && token != [] && n < |ns| then Replied(sn, now, token) else sn in ns
  {
    var r := WriteToken(ns, n, now, token);
    var k :| 0 <= k < |r| && r[k] == sn;
    if n < |ns| && token != [] {
      assert r[n].node == node;
      if k != n {
        assert sn == ns[k];
      }
    }
  }

  /** The search counts as alive again after a token, or a new node that has not expired; an empty one has its timer reset. */
  lemma {:induction false} FlagsAfter(s: State, node: Node, family: nat, now: int, token: Blob, f: Flags)
    requires Inv(s)
    ensures var r := AfterInsert(s, node, family, now, token, f);
            && (r.state.expired <==> s.expired && !(r.inserted && node !in f.expired)
                                     && !(token != [] && (r.inserted || (family == s.af && Holds(s.nodes, node)))))
            && r.state.stepTime == (if r.inserted && s.nodes == [] then None else s.stepTime)
            && r.state.target == s.target && r.state.af == s.af
  {
    hide Closer, Usable, Sorted, Distinct, Holds, PopPoint, RemoveExpired, WriteToken, Placed;
    ScanIsPlace(s.target, s.nodes, node, |s.nodes|);
    if s.nodes != [] {
      SomeKept(s, f);
    }
  }

  lemma {:induction false} SomeKept(s: State, f: Flags)
    requires s.nodes != []
    ensures TrimPoint(s, f) > 0
  {
    hide KeepLength;
    KeepLengthExact(s.nodes, f, |s.nodes|, 1);
    assert s.nodes[..1][..0] == [];
  }
}
