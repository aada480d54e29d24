/** `RoutingTable::randomId`: a random id of a bucket, assembled byte by byte from drawn bytes. */
module RandomIds {
  import opened InfoHash
  import opened TableBounds

  const HASH_LEN: nat := 20

  /** Eight bits, most significant first. */
  type Byte = b: seq<bool> | |b| == 8 witness seq(8, i => false)

  function ByteAt(id: Id, k: nat): (b: Byte)
    requires k < HASH_LEN
  {
    id[8 * k..8 * k + 8]
  }

  /** `x >> r`. */
  function ShiftRight(x: Byte, r: nat): (y: Byte)
    requires r < 8
  {
    seq(8, i requires 0 <= i < 8 => i >= r && x[i - r])
  }

  /** `x & (0xFF00 >> r)`, truncated to a byte: the first r bits. */
  function KeepHigh(x: Byte, r: nat): (y: Byte)
    requires r < 8
  {
    seq(8, i requires 0 <= i < 8 => i < r && x[i])
  }

  function Or(x: Byte, y: Byte): (z: Byte) {
    seq(8, i requires 0 <= i < 8 => x[i] || y[i])
  }

  function Flat(bytes: seq<Byte>): (id: Id)
    requires |bytes| == HASH_LEN
  {
    seq(HASH_BITS, j requires 0 <= j < HASH_BITS => bytes[j / 8][j % 8])
  }

  /** Bit j of the id drawn for a prefix of d bits: kept from the bound, or taken from the draws in order. */
  predicate DrawnBit(first: Id, d: nat, draws: seq<Byte>, j: nat)
    requires d < HASH_BITS && j < HASH_BITS && |draws| == HASH_LEN
  {
    if j < d then first[j]
    else if j / 8 == d / 8 then draws[0][j % 8 - d % 8]
    else draws[j / 8 - d / 8][j % 8]
  }

  method RandomId(fs: seq<Id>, i: nat, draws: seq<Byte>) returns (id: Id)
    requires i < |fs| && |draws| == HASH_LEN
    ensures var d := Depth(fs, i);
            if d == HASH_BITS then id == fs[i]
            else forall j :: 0 <= j < HASH_BITS ==> id[j] == DrawnBit(fs[i], d, draws, j)
  {
    var first, bit := fs[i], Depth(fs, i);
    if bit >= HASH_BITS {
      return first;
    }
    var b := bit / 8;
    var bytes: seq<Byte> := seq(HASH_LEN, k requires 0 <= k < HASH_LEN => if k < b then ByteAt(first, k) else ByteAt(Zero(), k));
    bytes := bytes[b := Or(KeepHigh(ByteAt(first, b), bit % 8), ShiftRight(draws[0], bit % 8))];
    for k := b + 1 to HASH_LEN
      invariant |bytes| == HASH_LEN
      invariant forall m :: 0 <= m < b ==> bytes[m] == ByteAt(first, m)
      invariant bytes[b] == Or(KeepHigh(ByteAt(first, b), bit % 8), ShiftRight(draws[0], bit % 8))
      invariant forall m :: b < m < k ==> bytes[m] == draws[m - b]
    {
      bytes := bytes[k := draws[k - b]];
    }
    id := Flat(bytes);
    forall j | 0 <= j < HASH_BITS
      ensures id[j] == DrawnBit(first, bit, draws, j)
    {
      AssembledBit(first, bit, draws, bytes, j);
    }
  }

  lemma {:induction false} AssembledBit(first: Id, d: nat, draws: seq<Byte>, bytes: seq<Byte>, j: nat)
    requires d < HASH_BITS && j < HASH_BITS && |draws| == HASH_LEN && |bytes| == HASH_LEN
    requires j / 8 < d / 8 ==> bytes[j / 8] == ByteAt(first, j / 8)
    requires j / 8 == d / 8 ==> bytes[j / 8] == Or(KeepHigh(ByteAt(first, d / 8), d % 8), ShiftRight(draws[0], d % 8))
    requires j / 8 > d / 8 ==> bytes[j / 8] == draws[j / 8 - d / 8]
    ensures Flat(bytes)[j] == DrawnBit(first, d, draws, j)
  {
    assert 8 * (j / 8) + j % 8 == j && 8 * (d / 8) + d % 8 == d;
    assert j / 8 <= d / 8 ==> ByteAt(first, j / 8)[j % 8] == first[j];
  }

  /** Whatever is drawn, the id lies in the bucket it was drawn for. */
  lemma {:induction false} DrawnIdInBucket(fs: seq<Id>, i: nat, draws: seq<Byte>, id: Id)
    requires Tiled(fs) && i < |fs| && |draws| == HASH_LEN
    requires var d := Depth(fs, i);
             if d == HASH_BITS then id == fs[i]
             else forall j :: 0 <= j < HASH_BITS ==> id[j] == DrawnBit(fs[i], d, draws, j)
    ensures FindBucket(fs, id) == i
  {
    hide Tiled, FindBucket, Contains;
    DepthIsPrefixLength(fs, i, id);
    FindBucketUnique(fs, id, i);
  }

  /** Every id of the bucket comes from some draw. */
  lemma {:induction false} EveryIdIsDrawn(fs: seq<Id>, i: nat, id: Id) returns (draws: seq<Byte>)
    requires Tiled(fs) && i < |fs| && FindBucket(fs, id) == i
    ensures |draws| == HASH_LEN
    ensures var d := Depth(fs, i);
            if d == HASH_BITS then id == fs[i]
            else forall j :: 0 <= j < HASH_BITS ==> id[j] == DrawnBit(fs[i], d, draws, j)
  {
    hide Tiled, FindBucket, Contains;
    var d := Depth(fs, i);
    DepthIsPrefixLength(fs, i, id);
    FindBucketUnique(fs, id, i);
    draws := DrawsFor(id, d);
    if d < HASH_BITS {
      forall j | 0 <= j < HASH_BITS
        ensures id[j] == DrawnBit(fs[i], d, draws, j)
      {
        DrawBack(id, d, j);
      }
    }
  }

  function Left(id: Id, d: nat): (y: Byte) {
    seq(8, k requires 0 <= k < 8 => d + k < HASH_BITS && id[d + k])
  }

  function DrawFor(id: Id, d: nat, m: nat): (b: Byte) {
    if m == 0 then Left(id, d) else Left(id, 8 * (d / 8 + m))
  }

  /** The draws that reproduce the bits of id from position d on. */
  function DrawsFor(id: Id, d: nat): (draws: seq<Byte>) {
    seq(HASH_LEN, m requires 0 <= m < HASH_LEN => DrawFor(id, d, m))
  }

  lemma {:induction false} DrawBack(id: Id, d: nat, j: nat)
    requires d < HASH_BITS && j < HASH_BITS
    ensures d <= j ==> DrawnBit(id, d, DrawsFor(id, d), j) == id[j]
  {
    if d <= j {
      var m := j / 8 - d / 8;
      if m == 0 {
        assert d + (j % 8 - d % 8) == j;
      } else {
        assert 8 * (d / 8 + m) + j % 8 == j;
      }
    }
  }
}
