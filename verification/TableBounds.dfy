/**
 The lower bounds of the buckets of a routing table, on their own: how `depth`
 recovers the prefix length of a bucket from two neighbouring bounds, and how
 halving a bucket keeps the whole id space tiled by aligned intervals.
 */
module TableBounds {
  import opened Prelude
  import opened InfoHash

  function Max(a: int, b: int): int {
    if a >= b then a else b
  }

  /** `RoutingTable::depth`: only the low bits of this bound and of the next one. */
  function Depth(fs: seq<Id>, i: nat): (d: nat)
    requires i < |fs|
    ensures d <= HASH_BITS
  {
    Max(Lowbit(fs[i]), if i + 1 < |fs| then Lowbit(fs[i + 1]) else -1) + 1
  }

  /** `RoutingTable::contains`. */
  predicate Contains(fs: seq<Id>, i: nat, id: Id)
    requires i < |fs|
  {
    !Less(id, fs[i]) && (i + 1 == |fs| || Less(id, fs[i + 1]))
  }

  function FindFrom(fs: seq<Id>, id: Id, i: nat): (r: nat)
    requires i < |fs|
    ensures i <= r < |fs|
    decreases |fs| - i
  {
    if i + 1 == |fs| || Less(id, fs[i + 1]) then i else FindFrom(fs, id, i + 1)
  }

  lemma {:induction false} FindFromStops(fs: seq<Id>, id: Id, i: nat)
    requires i < |fs|
    ensures var r := FindFrom(fs, id, i);
            && (forall j :: i < j <= r ==> !Less(id, fs[j]))
            && (r + 1 < |fs| ==> Less(id, fs[r + 1]))
    decreases |fs| - i
  {
    hide Less;
    if i + 1 < |fs| && !Less(id, fs[i + 1]) {
      FindFromStops(fs, id, i + 1);
    }
  }

  /** `RoutingTable::findBucket`: scan upwards until the next bound lies above the id. */
  function FindBucket(fs: seq<Id>, id: Id): (r: nat)
    requires |fs| > 0
    ensures r < |fs|
    ensures forall j :: 0 < j <= r ==> !Less(id, fs[j])
    ensures r + 1 < |fs| ==> Less(id, fs[r + 1])
  {
    FindFromStops(fs, id, 0);
    FindFrom(fs, id, 0)
  }

  // ----- aligned intervals

  /** f is the lower bound of an interval of 2^(HASH_BITS - d) ids sharing d bits. */
  ghost predicate Aligned(f: Id, d: nat)
    requires d <= HASH_BITS
  {
    forall j :: d <= j < HASH_BITS ==> !f[j]
  }

  function LastZero(f: Id, d: nat): (q: int)
    requires d <= HASH_BITS
    ensures -1 <= q < d
    ensures q >= 0 ==> !f[q]
    ensures forall j :: q < j < d ==> f[j]
  {
    if d == 0 then -1 else if !f[d - 1] then d - 1 else LastZero(f, d - 1)
  }

  function CarryInto(f: Id, q: nat): (g: Id)
    requires q < HASH_BITS
    ensures forall j :: 0 <= j < HASH_BITS ==> g[j] == if j < q then f[j] else j == q
  {
    seq(HASH_BITS, j requires 0 <= j < HASH_BITS => if j < q then f[j] else j == q)
  }

  /** The id just above the interval (f, d), if it is not the last of the space. */
  function Above(f: Id, d: nat): (g: Option<Id>)
    requires d <= HASH_BITS
  {
    if LastZero(f, d) < 0 then None else Some(CarryInto(f, LastZero(f, d)))
  }

  /** An aligned interval of the numeric order is exactly the set of ids sharing its prefix. */
  lemma {:induction false} IntervalIsPrefix(f: Id, d: nat, id: Id)
    requires d <= HASH_BITS && Aligned(f, d)
    ensures Agree(f, id, d) <==> !Less(id, f) && (Above(f, d).Some? ==> Less(id, Above(f, d).value))
  {
    AgreeIsCommon(f, id, d);
    if d <= CommonBits(f, id) {
      PrefixIsInside(f, d, id);
    } else {
      OtherPrefixIsOutside(f, d, id);
    }
  }

  lemma {:induction false} PrefixIsInside(f: Id, d: nat, id: Id)
    requires d <= HASH_BITS && Aligned(f, d) && d <= CommonBits(f, id)
    ensures !Less(id, f) && (Above(f, d).Some? ==> Less(id, Above(f, d).value))
  {
    var q := LastZero(f, d);
    CommonIs(f, id);
    CommonSymmetric(f, id);
    hide LastZero;
    if q >= 0 {
      FirstDifference(id, CarryInto(f, q), q);
    }
  }

  lemma {:induction false} OtherPrefixIsOutside(f: Id, d: nat, id: Id)
    requires d <= HASH_BITS && CommonBits(f, id) < d
    ensures Less(id, f) || (Above(f, d).Some? && !Less(id, Above(f, d).value))
  {
    var k, q := CommonBits(f, id), LastZero(f, d);
    CommonIs(f, id);
    CommonSymmetric(f, id);
    hide LastZero;
    if !f[k] {
      if q > k {
        FirstDifference(id, CarryInto(f, q), k);
      }
      CommonIs(id, CarryInto(f, q));
    }
  }

  // ----- tilings of the id space

  /**
   Each bound is aligned at the computed depth and the next bound is the end of
   its interval; the first starts at zero and the last reaches the top.
   */
  ghost predicate Tiled(fs: seq<Id>) {
    && |fs| > 0
    && fs[0] == Zero()
    && forall i :: 0 <= i < |fs| ==> EndsAtNext(fs, i)
  }

  /** The interval of bucket i ends where bucket i + 1 starts, or at the top of the space. */
  ghost predicate EndsAtNext(fs: seq<Id>, i: nat)
    requires i < |fs|
  {
    Above(fs[i], Depth(fs, i)) == NextBound(fs, i)
  }

  function NextBound(fs: seq<Id>, i: nat): (g: Option<Id>)
    requires i < |fs|
  {
    if i + 1 < |fs| then Some(fs[i + 1]) else None
  }

  lemma {:induction false} TiledSorted(fs: seq<Id>, i: nat, j: nat)
    requires Tiled(fs) && i < j < |fs|
    ensures Less(fs[i], fs[j])
  {
    var q := LastZero(fs[j - 1], Depth(fs, j - 1));
    assert EndsAtNext(fs, j - 1);
    FirstDifference(fs[j - 1], fs[j], q);
    if i < j - 1 {
      TiledSorted(fs, i, j - 1);
      LessTransitive(fs[i], fs[j - 1], fs[j]);
    }
  }

  /** `depth` is the prefix length: a bucket holds exactly the ids sharing that many bits. */
  lemma {:induction false} DepthIsPrefixLength(fs: seq<Id>, i: nat, id: Id)
    requires Tiled(fs) && i < |fs|
    ensures Aligned(fs[i], Depth(fs, i))
    ensures Contains(fs, i, id) <==> Agree(fs[i], id, Depth(fs, i))
  {
    assert EndsAtNext(fs, i);
    IntervalIsPrefix(fs[i], Depth(fs, i), id);
  }

  /** The buckets partition the id space, and findBucket finds the one part holding an id. */
  lemma {:induction false} FindBucketUnique(fs: seq<Id>, id: Id, i: nat)
    requires Tiled(fs) && i < |fs|
    ensures Contains(fs, i, id) <==> i == FindBucket(fs, id)
  {
    hide Less, Depth, EndsAtNext;
    var r := FindBucket(fs, id);
    ZeroIsLeast(id);
    if r + 1 < i {
      TiledSorted(fs, r + 1, i);
      LessTransitive(id, fs[r + 1], fs[i]);
    }
  }

  // ----- halving one interval

  /** `RoutingTable::middle`; None is the out_of_range exception. */
  function Middle(fs: seq<Id>, i: nat): (m: Option<Id>)
    requires i < |fs|
  {
    var d := Depth(fs, i);
    if d >= HASH_BITS then None else Some(fs[i][d := true])
  }

  function InsertAfter(fs: seq<Id>, i: nat, m: Id): (gs: seq<Id>)
    requires i < |fs|
    ensures |gs| == |fs| + 1 && gs[i + 1] == m
    ensures forall j :: 0 <= j <= i ==> gs[j] == fs[j]
    ensures forall j :: i < j < |fs| ==> gs[j + 1] == fs[j]
  {
    fs[..i + 1] + [m] + fs[i + 1..]
  }

  /** Halving a bucket adds one bit to the prefix of both halves and to no other bucket. */
  lemma {:induction false} HalvingDepths(fs: seq<Id>, i: nat)
    requires Tiled(fs) && i < |fs| && Depth(fs, i) < HASH_BITS
    ensures var gs := InsertAfter(fs, i, Middle(fs, i).value);
            && Depth(gs, i) == Depth(gs, i + 1) == Depth(fs, i) + 1
            && (forall j :: 0 <= j < i ==> Depth(gs, j) == Depth(fs, j))
            && (forall j :: i < j < |fs| ==> Depth(gs, j + 1) == Depth(fs, j))
  {
    var d, m := Depth(fs, i), Middle(fs, i).value;
    var gs := InsertAfter(fs, i, m);
    DepthIsPrefixLength(fs, i, m);
    LowbitIs(m, d);
    if i + 1 < |fs| {
      assert gs[i + 2] == fs[i + 1];
    }
  }

  lemma {:induction false} HalvingKeepsTiling(fs: seq<Id>, i: nat)
    requires Tiled(fs) && i < |fs| && Depth(fs, i) < HASH_BITS
    ensures Tiled(InsertAfter(fs, i, Middle(fs, i).value))
  {
    var d, m := Depth(fs, i), Middle(fs, i).value;
    var gs := InsertAfter(fs, i, m);
    HalvingDepths(fs, i);
    DepthIsPrefixLength(fs, i, m);
    HalvedAbove(fs[i], d);
    assert EndsAtNext(fs, i);
    forall j | 0 <= j < |gs|
      ensures EndsAtNext(gs, j)
    {
      hide Above, Depth;
      if j < i {
        assert EndsAtNext(fs, j);
      } else if i + 1 < j {
        assert EndsAtNext(fs, j - 1);
        assert gs[j] == fs[j - 1] && (j + 1 < |gs| ==> gs[j + 1] == fs[j]);
      }
    }
  }

  /** The lower half of an interval ends at its middle, the upper half where the whole ended. */
  lemma {:induction false} HalvedAbove(f: Id, d: nat)
    requires d < HASH_BITS && Aligned(f, d)
    ensures Above(f, d + 1) == Some(f[d := true])
    ensures Above(f[d := true], d + 1) == Above(f, d)
  {
    var m: Id := f[d := true];
    assert LastZero(f, d + 1) == d;
    assert CarryInto(f, d) == m;
    LastZeroIs(m, d + 1, LastZero(f, d));
    if LastZero(f, d) >= 0 {
      assert CarryInto(m, LastZero(f, d)) == CarryInto(f, LastZero(f, d));
    }
  }

  lemma {:induction false} LastZeroIs(f: Id, d: nat, q: int)
    requires d <= HASH_BITS && -1 <= q < d
    requires q >= 0 ==> !f[q]
    requires forall j :: q < j < d ==> f[j]
    ensures LastZero(f, d) == q
  {
  }

  lemma {:induction false} LowbitIs(a: Id, k: nat)
    requires k < HASH_BITS && a[k] && forall j :: k < j < HASH_BITS ==> !a[j]
    ensures Lowbit(a) == k
  {
  }

  /** Every id of the halved bucket is found in one of its halves, at the larger depth. */
  lemma {:induction false} HalvingDeepens(fs: seq<Id>, i: nat, id: Id)
    requires Tiled(fs) && i < |fs| && Depth(fs, i) < HASH_BITS
    ensures var gs := InsertAfter(fs, i, Middle(fs, i).value);
            var r := FindBucket(fs, id);
            var s := FindBucket(gs, id);
            && Tiled(gs)
            && (r < i ==> s == r) && (r > i ==> s == r + 1)
            && (r == i ==> (s == i || s == i + 1) && Depth(gs, s) == Depth(fs, i) + 1)
  {
    var m := Middle(fs, i).value;
    var gs := InsertAfter(fs, i, m);
    HalvingKeepsTiling(fs, i);
    HalvingDepths(fs, i);
    hide Less, Depth, Tiled, InsertAfter, FindBucket, Contains;
    var r := FindBucket(fs, id);
    FindBucketUnique(fs, id, r);
    var s := HalvedPosition(fs, i, m, r, id);
    FindBucketUnique(gs, id, s);
  }

  lemma {:induction false} HalvedPosition(fs: seq<Id>, i: nat, m: Id, r: nat, id: Id) returns (s: nat)
    requires i < |fs| && r < |fs| && Contains(fs, r, id)
    ensures s <= |fs| && Contains(InsertAfter(fs, i, m), s, id)
    ensures (r < i ==> s == r) && (r > i ==> s == r + 1) && (r == i ==> s == i || s == i + 1)
  {
    hide Less;
    s := if r < i || (r == i && Less(id, m)) then r else r + 1;
  }

  // ----- the path to our own id

  /** Every bucket but the own one is the sibling hanging off the path to `me`. */
  ghost predicate OwnPath(fs: seq<Id>, me: Id) {
    && Tiled(fs)
    && |fs| == Depth(fs, FindBucket(fs, me)) + 1
    && forall i :: 0 <= i < |fs| && i != FindBucket(fs, me) ==> Sibling(fs, i, me)
  }

  /** Bucket i leaves the path to `me` at its last prefix bit. */
  ghost predicate Sibling(fs: seq<Id>, i: nat, me: Id)
    requires i < |fs|
  {
    CommonBits(fs[i], me) + 1 == Depth(fs, i)
  }

  /** The half that does not hold `me` leaves its path at the bit that was split. */
  lemma {:induction false} OtherHalf(fs: seq<Id>, i: nat, me: Id)
    requires Tiled(fs) && i < |fs| && Depth(fs, i) < HASH_BITS && FindBucket(fs, me) == i
    ensures var gs := InsertAfter(fs, i, Middle(fs, i).value);
            var s := FindBucket(gs, me);
            i <= s <= i + 1 && CommonBits(gs[if s == i then i + 1 else i], me) == Depth(fs, i)
  {
    var d, m := Depth(fs, i), Middle(fs, i).value;
    var gs := InsertAfter(fs, i, m);
    HalvingDeepens(fs, i, me);
    HalvingDepths(fs, i);
    var s := FindBucket(gs, me);
    FindBucketUnique(gs, me, s);
    DepthIsPrefixLength(gs, s, me);
    DepthIsPrefixLength(fs, i, m);
    hide Depth, Tiled, FindBucket, InsertAfter;
    FirstDifference(fs[i], m, d);
    AgreeIsCommon(gs[s], me, d + 1);
    Ultrametric(gs[if s == i then i + 1 else i], gs[s], me);
  }

  lemma {:induction false} HalvingKeepsOwnPath(fs: seq<Id>, me: Id)
    requires OwnPath(fs, me) && Depth(fs, FindBucket(fs, me)) < HASH_BITS
    ensures var i := FindBucket(fs, me);
            OwnPath(InsertAfter(fs, i, Middle(fs, i).value), me)
  {
    var i := FindBucket(fs, me);
    var d, m := Depth(fs, i), Middle(fs, i).value;
    var gs := InsertAfter(fs, i, m);
    hide Depth, CommonBits, Tiled, FindBucket, InsertAfter;
    var s := FindBucket(gs, me);
    HalvingDeepens(fs, i, me);
    HalvingDepths(fs, i);
    OtherHalf(fs, i, me);
    forall j | 0 <= j < |gs| && j != s
      ensures Sibling(gs, j, me)
    {
      if j < i {
        assert Sibling(fs, j, me);
      } else if j > i + 1 {
        assert Sibling(fs, j - 1, me);
        assert gs[j] == fs[j - 1];
      }
    }
  }

  /** Bucket i is exactly the set of ids sharing k leading bits, and no more, with `me`. */
  ghost predicate HoldsSharing(fs: seq<Id>, i: nat, me: Id, k: nat)
    requires i < |fs|
  {
    forall id: Id :: Contains(fs, i, id) <==> CommonBits(id, me) == k
  }

  /**
   For each k below the own depth there is exactly one other bucket sharing k bits
   with `me`, and it holds exactly the ids that share k bits with `me` and no more.
   */
  lemma {:induction false} OwnPathBuckets(fs: seq<Id>, me: Id, k: nat) returns (i: nat)
    requires OwnPath(fs, me) && k < Depth(fs, FindBucket(fs, me))
    ensures i < |fs| && i != FindBucket(fs, me) && HoldsSharing(fs, i, me, k)
    ensures forall j :: 0 <= j < |fs| && j != FindBucket(fs, me) && CommonBits(fs[j], me) == k ==> j == i
  {
    hide Less, Depth, Contains, Tiled, FindBucket;
    var own := FindBucket(fs, me);
    var id: Id := me[k := !me[k]];
    FirstDifference(id, me, k);
    i := FindBucket(fs, id);
    FindBucketUnique(fs, id, i);
    FindBucketUnique(fs, me, own);
    DepthIsPrefixLength(fs, own, id);
    DepthIsPrefixLength(fs, own, me);
    SiblingHolds(fs, me, i, id);
    forall x: Id
      ensures Contains(fs, i, x) <==> CommonBits(x, me) == k
    {
      SiblingHolds(fs, me, i, x);
    }
    forall j | 0 <= j < |fs| && j != own && CommonBits(fs[j], me) == k
      ensures j == i
    {
      SiblingHolds(fs, me, j, id);
      FindBucketUnique(fs, id, j);
    }
  }

  lemma {:induction false} SiblingHolds(fs: seq<Id>, me: Id, i: nat, x: Id)
    requires OwnPath(fs, me) && i < |fs| && i != FindBucket(fs, me)
    ensures Contains(fs, i, x) <==> CommonBits(x, me) == CommonBits(fs[i], me)
  {
    assert Sibling(fs, i, me);
    DepthIsPrefixLength(fs, i, x);
    SharesExactly(fs[i], me, x);
  }

  /** With two branches at each bit, leaving `me` where f does means sharing one bit more with f. */
  lemma {:induction false} SharesExactly(f: Id, me: Id, x: Id)
    requires CommonBits(f, me) < HASH_BITS
    ensures Agree(f, x, CommonBits(f, me) + 1) <==> CommonBits(x, me) == CommonBits(f, me)
  {
    var k := CommonBits(f, me);
    CommonIs(f, me);
    CommonIs(x, me);
    if Agree(f, x, k + 1) {
      FirstDifference(x, me, k);
    }
  }
}
