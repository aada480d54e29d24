/**
 An InfoHash is a path from the root of a binary tree: HASH_BITS bits, most
 significant first. Numeric order (`Less`) and the order of XOR distances to a
 target (`Closer`) are both decided at the first bit where two ids differ.
 */
module InfoHash {

  const HASH_BITS: nat := 160

  type Id = s: seq<bool> | |s| == HASH_BITS witness seq(HASH_BITS, i => false)

  function Zero(): (z: Id)
    ensures forall j :: 0 <= j < HASH_BITS ==> !z[j]
  {
    seq(HASH_BITS, i => false)
  }

  /** First position at or after i where a and b differ, HASH_BITS if there is none. */
  function CommonFrom(a: Id, b: Id, i: nat): (k: nat)
    requires i <= HASH_BITS
    ensures i <= k <= HASH_BITS
    decreases HASH_BITS - i
  {
    if i == HASH_BITS || a[i] != b[i] then i else CommonFrom(a, b, i + 1)
  }

  lemma {:induction false} CommonFromIs(a: Id, b: Id, i: nat)
    requires i <= HASH_BITS
    ensures var k := CommonFrom(a, b, i);
            && (forall j :: i <= j < k ==> a[j] == b[j])
            && (k < HASH_BITS ==> a[k] != b[k])
    decreases HASH_BITS - i
  {
    if i < HASH_BITS && a[i] == b[i] {
      CommonFromIs(a, b, i + 1);
    }
  }

  /** Number of leading bits a and b have in common. */
  function CommonBits(a: Id, b: Id): (k: nat)
    ensures k <= HASH_BITS
  {
    CommonFrom(a, b, 0)
  }

  /** CommonBits is the position of the first difference. */
  lemma {:induction false} CommonIs(a: Id, b: Id)
    ensures Agree(a, b, CommonBits(a, b))
    ensures CommonBits(a, b) < HASH_BITS ==> a[CommonBits(a, b)] != b[CommonBits(a, b)]
  {
    CommonFromIs(a, b, 0);
  }

  /** Index of the last one-bit below n, -1 if there is none. */
  function LastOne(a: Id, n: nat): (k: int)
    requires n <= HASH_BITS
    ensures -1 <= k < n
    ensures k >= 0 ==> a[k]
    ensures forall j :: k < j < n ==> !a[j]
  {
    if n == 0 then -1 else if a[n - 1] then n - 1 else LastOne(a, n - 1)
  }

  function Lowbit(a: Id): (k: int)
    ensures -1 <= k < HASH_BITS
    ensures k >= 0 ==> a[k]
    ensures forall j :: k < j < HASH_BITS ==> !a[j]
  {
    LastOne(a, HASH_BITS)
  }

  /** Numeric order. */
  predicate Less(a: Id, b: Id) {
    var k := CommonBits(a, b);
    k < HASH_BITS && b[k]
  }

  /** a is strictly nearer to t than b by XOR distance. */
  predicate Closer(t: Id, a: Id, b: Id) {
    var k := CommonBits(a, b);
    k < HASH_BITS && a[k] == t[k]
  }

  function Xor(a: Id, b: Id): Id {
    seq(HASH_BITS, i requires 0 <= i < HASH_BITS => a[i] != b[i])
  }

  // ----- prefixes

  /** The first d bits of a and b are equal. */
  ghost predicate Agree(a: Id, b: Id, d: nat)
    requires d <= HASH_BITS
  {
    forall j :: 0 <= j < d ==> a[j] == b[j]
  }

  lemma {:induction false} AgreeIsCommon(a: Id, b: Id, d: nat)
    requires d <= HASH_BITS
    ensures Agree(a, b, d) <==> d <= CommonBits(a, b)
  {
    CommonIs(a, b);
  }

  /** The position of the first difference determines CommonBits. */
  lemma {:induction false} FirstDifference(a: Id, b: Id, k: nat)
    requires k < HASH_BITS && Agree(a, b, k) && a[k] != b[k]
    ensures CommonBits(a, b) == k == CommonBits(b, a)
  {
    CommonIs(a, b);
    CommonIs(b, a);
  }

  lemma {:induction false} CommonAll(a: Id, b: Id)
    ensures CommonBits(a, b) == HASH_BITS <==> a == b
  {
    CommonIs(a, b);
  }

  lemma {:induction false} CommonSymmetric(a: Id, b: Id)
    ensures CommonBits(a, b) == CommonBits(b, a)
  {
    CommonIs(a, b);
    if CommonBits(a, b) < HASH_BITS {
      FirstDifference(a, b, CommonBits(a, b));
    } else {
      CommonAll(a, b);
      CommonAll(b, a);
    }
  }

  /** Common prefixes form an ultrametric. */
  lemma {:induction false} Ultrametric(a: Id, b: Id, c: Id)
    ensures CommonBits(a, c) >= CommonBits(a, b) || CommonBits(a, c) >= CommonBits(b, c)
    ensures CommonBits(a, b) < CommonBits(b, c) ==> CommonBits(a, c) == CommonBits(a, b)
    ensures CommonBits(a, b) > CommonBits(b, c) ==> CommonBits(a, c) == CommonBits(b, c)
  {
    CommonIs(a, b);
    CommonIs(b, c);
    CommonIs(a, c);
  }

  // ----- orders

  lemma {:induction false} LessTotal(a: Id, b: Id)
    ensures Less(a, b) || a == b || Less(b, a)
    ensures !(Less(a, b) && Less(b, a)) && !Less(a, a)
  {
    CommonIs(a, b);
    CommonSymmetric(a, b);
    CommonAll(a, b);
    CommonAll(a, a);
  }

  lemma {:induction false} LessTransitive(a: Id, b: Id, c: Id)
    requires Less(a, b) && Less(b, c)
    ensures Less(a, c)
  {
    var i, j := CommonBits(a, b), CommonBits(b, c);
    CommonIs(a, b);
    CommonIs(b, c);
    FirstDifference(a, c, if i < j then i else j);
  }

  lemma {:induction false} ZeroIsLeast(a: Id)
    ensures !Less(a, Zero())
  {
    CommonIs(a, Zero());
  }

  /** XOR comparison without computing a distance compares the distances numerically. */
  lemma {:induction false} CloserIsXorLess(t: Id, a: Id, b: Id)
    ensures Closer(t, a, b) <==> Less(Xor(t, a), Xor(t, b))
  {
    var k := CommonBits(a, b);
    CommonIs(a, b);
    if k < HASH_BITS {
      FirstDifference(Xor(t, a), Xor(t, b), k);
    } else {
      assert a == b;
      LessTotal(Xor(t, a), Xor(t, b));
    }
  }

  lemma {:induction false} CloserTotal(t: Id, a: Id, b: Id)
    ensures Closer(t, a, b) || a == b || Closer(t, b, a)
    ensures !(Closer(t, a, b) && Closer(t, b, a)) && !Closer(t, a, a)
  {
    CommonIs(a, b);
    CommonSymmetric(a, b);
    CommonAll(a, b);
    CommonAll(a, a);
  }

  lemma {:induction false} CloserTransitive(t: Id, a: Id, b: Id, c: Id)
    requires Closer(t, a, b) && Closer(t, b, c)
    ensures Closer(t, a, c)
  {
    CloserIsXorLess(t, a, b);
    CloserIsXorLess(t, b, c);
    LessTransitive(Xor(t, a), Xor(t, b), Xor(t, c));
    CloserIsXorLess(t, a, c);
  }

  /** A longer common prefix with the target is nearer; nearer never has a shorter one. */
  lemma {:induction false} PrefixDecides(t: Id, a: Id, b: Id)
    ensures CommonBits(t, a) > CommonBits(t, b) ==> Closer(t, a, b)
    ensures Closer(t, a, b) ==> CommonBits(t, a) >= CommonBits(t, b)
  {
    CommonIs(t, a);
    CommonIs(t, b);
    if CommonBits(t, a) > CommonBits(t, b) {
      FirstDifference(a, b, CommonBits(t, b));
    }
    if CommonBits(t, a) < CommonBits(t, b) {
      FirstDifference(a, b, CommonBits(t, a));
    }
  }
}
