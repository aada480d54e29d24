/**
 Values, filters on values, and queries. Pointers that the source compares by
 address (`Sp<Value>`, the owner's `Sp<PublicKey>`) carry a `ref`.
 */
module Values {
  import opened Prelude

  type Blob = seq<bv8>
  type Hash = nat

  const INVALID_ID: nat := 0
  const USER_DATA: nat := 0

  /** A shared public key object; `id` is the fingerprint of the key. */
  datatype KeyPtr = KeyPtr(ref: nat, id: Hash)

  datatype Value = Value(
    ref: nat,
    id: nat,
    owner: Option<KeyPtr>,
    recipient: Hash,
    vtype: nat,
    data: Blob,
    userType: Blob,
    seqNum: nat,
    signature: Blob,
    cypher: Blob)

  /** The bytes a value takes. */
  function ByteSize(v: Value): (n: nat) {
    |v.cypher| + |v.data| + |v.signature| + |v.userType|
  }

  predicate IsSigned(v: Value) {
    v.owner.Some? && v.signature != []
  }

  predicate SameOwner(a: Option<KeyPtr>, b: Option<KeyPtr>) {
    a == b || (a.Some? && b.Some? && a.value.id == b.value.id)
  }

  /** `Value::operator==`: the id and the contents, whatever the object; the sequence number is not compared. */
  predicate SameValue(v: Value, o: Value) {
    v.id == o.id &&
    if v.cypher != [] then v.cypher == o.cypher
    else SameOwner(v.owner, o.owner) && v.vtype == o.vtype && v.data == o.data &&
         v.userType == o.userType && v.signature == o.signature
  }

  /**
   Copies of a value are equal to it, whatever their object, sequence number or recipient; equal values have the same id, and the
   same cypher, or else the same type, data, user type, signature and owner.
   */
  lemma {:induction false} SameValueIff(v: Value, o: Value)
    ensures v.cypher == [] ==> (SameValue(v, o) <==>
              v.id == o.id && v.vtype == o.vtype && v.data == o.data && v.userType == o.userType && v.signature == o.signature
              && (v.owner.Some? <==> o.owner.Some?) && (v.owner.Some? && o.owner.Some? ==> v.owner.value.id == o.owner.value.id))
    ensures v.cypher != [] ==> (SameValue(v, o) <==> v.id == o.id && v.cypher == o.cypher)
  {
  }

  function Truncate16(x: nat): (y: nat)
    ensures y < 0x1_0000 && (x < 0x1_0000 ==> y == x)
  {
    x % 0x1_0000
  }

  /** An empty std::function accepts everything. */
  type Filter = Option<Value -> bool>

  predicate Accepts(f: Filter, v: Value) {
    f.None? || f.value(v)
  }

  // ----- queries

  /** `Other` stands for COUNT and every number that is no field. */
  datatype Field = NoField | IdField | TypeField | OwnerField | SeqField | UserTypeField | Other

  datatype FieldValue = FieldValue(field: Field, intValue: nat, hashValue: Hash, blobValue: Blob)

  datatype Query = Query(select: seq<Field>, filters: seq<FieldValue>, none: bool)

  /** `FieldValue::operator==` compares the one payload its field uses. */
  predicate SameFieldValue(a: FieldValue, b: FieldValue) {
    a.field == b.field &&
    match a.field
    case IdField => a.intValue == b.intValue
    case TypeField => a.intValue == b.intValue
    case SeqField => a.intValue == b.intValue
    case OwnerField => a.hashValue == b.hashValue
    case UserTypeField => a.blobValue == b.blobValue
    case NoField => true
    case Other => false
  }

  /** `FieldValue::getLocalFilter`, with the narrowing of the type and sequence number to 16 bits. */
  function LocalFilter(f: FieldValue): (r: Filter) {
    match f.field
    case IdField => Some((v: Value) => v.id == f.intValue)
    case TypeField => Some((v: Value) => v.vtype == Truncate16(f.intValue))
    case OwnerField => Some((v: Value) => v.owner.Some? && v.owner.value.id == f.hashValue)
    case SeqField => Some((v: Value) => v.seqNum == Truncate16(f.intValue))
    case UserTypeField => Some((v: Value) => v.userType == f.blobValue)
    case NoField => None
    case Other => None
  }

  predicate AcceptsAll(fs: seq<FieldValue>, v: Value) {
    forall i :: 0 <= i < |fs| ==> Accepts(LocalFilter(fs[i]), v)
  }

  /** `subset`: every element of fs has an equal one in qfs. */
  predicate SubsetOf(fs: seq<FieldValue>, qfs: seq<FieldValue>) {
    forall i :: 0 <= i < |fs| ==> HasEqual(fs[i], qfs)
  }

  predicate HasEqual(f: FieldValue, qfs: seq<FieldValue>) {
    exists j :: 0 <= j < |qfs| && SameFieldValue(f, qfs[j])
  }

  predicate SelectSatisfied(s: seq<Field>, os: seq<Field>) {
    if s == [] then os == [] else forall i :: 0 <= i < |s| ==> s[i] in os
  }

  /** `Query::isSatisfiedBy`: what q asks for can be answered from what other asks for. */
  predicate IsSatisfiedBy(q: Query, other: Query) {
    q.none || (SubsetOf(other.filters, q.filters) && SelectSatisfied(q.select, other.select))
  }

  /** An empty selection selects every field. */
  predicate Selects(s: seq<Field>, f: Field) {
    s == [] || f in s
  }

  lemma {:induction false} SameFieldSameFilter(a: FieldValue, b: FieldValue, v: Value)
    requires SameFieldValue(a, b)
    ensures Accepts(LocalFilter(a), v) <==> Accepts(LocalFilter(b), v)
  {
  }

  /** A value that q wants is wanted by every query that satisfies q, with every field that q selects. */
  lemma {:induction false} SatisfyingIsWeaker(q: Query, other: Query, v: Value)
    requires IsSatisfiedBy(q, other) && !q.none && AcceptsAll(q.filters, v)
    ensures AcceptsAll(other.filters, v)
    ensures forall f :: Selects(q.select, f) ==> Selects(other.select, f)
  {
    forall i | 0 <= i < |other.filters|
      ensures Accepts(LocalFilter(other.filters[i]), v)
    {
      assert HasEqual(other.filters[i], q.filters);
      var j :| 0 <= j < |q.filters| && SameFieldValue(other.filters[i], q.filters[j]);
      SameFieldSameFilter(other.filters[i], q.filters[j], v);
    }
  }

  /** Which part of a value each field's filter compares; the type and the sequence number are taken modulo 2^16. */
  lemma {:induction false} FilterCompares(f: FieldValue, v: Value)
    ensures f.field == IdField ==> (Accepts(LocalFilter(f), v) <==> v.id == f.intValue)
    ensures f.field == TypeField ==> (Accepts(LocalFilter(f), v) <==> v.vtype == f.intValue % 0x1_0000)
    ensures f.field == SeqField ==> (Accepts(LocalFilter(f), v) <==> v.seqNum == f.intValue % 0x1_0000)
    ensures f.field == OwnerField ==> (Accepts(LocalFilter(f), v) <==> exists k: KeyPtr :: v.owner == Some(k) && k.id == f.hashValue)
    ensures f.field == UserTypeField ==> (Accepts(LocalFilter(f), v) <==> v.userType == f.blobValue)
    ensures f.field == NoField || f.field == Other ==> Accepts(LocalFilter(f), v)
  {
    if f.field == OwnerField && v.owner.Some? {
      assert v.owner == Some(v.owner.value);
    }
  }

  /** A query is satisfied by itself unless it names a field that does not exist, whose values are never equal. */
  lemma {:induction false} SatisfiedByItself(q: Query)
    ensures IsSatisfiedBy(q, q) <==> q.none || forall i :: 0 <= i < |q.filters| ==> q.filters[i].field != Other
  {
    if !q.none {
      if forall i :: 0 <= i < |q.filters| ==> q.filters[i].field != Other {
        forall i | 0 <= i < |q.filters|
          ensures HasEqual(q.filters[i], q.filters)
        {
          assert SameFieldValue(q.filters[i], q.filters[i]);
        }
      } else {
        var i :| 0 <= i < |q.filters| && q.filters[i].field == Other;
        assert !HasEqual(q.filters[i], q.filters);
      }
    }
  }

  /** A query with more conditions and fewer selected fields is satisfied by one with less conditions and more fields. */
  lemma {:induction false} MoreIsSatisfied(q: Query, other: Query)
    requires forall i :: 0 <= i < |other.filters| ==> other.filters[i] in q.filters && other.filters[i].field != Other
    requires if q.select == [] then other.select == [] else forall f :: f in q.select ==> f in other.select
    ensures IsSatisfiedBy(q, other)
  {
    forall i | 0 <= i < |other.filters|
      ensures HasEqual(other.filters[i], q.filters)
    {
      var j :| 0 <= j < |q.filters| && q.filters[j] == other.filters[i];
      assert SameFieldValue(other.filters[i], q.filters[j]);
    }
  }

  /** Everything q accepts is accepted by whatever satisfies q. */
  ghost predicate AlwaysCovered(q: Query) {
    forall other, v :: IsSatisfiedBy(q, other) && AcceptsAll(q.filters, v) ==> AcceptsAll(other.filters, v)
  }

  /**
   A `none` query is satisfied by any query, so it is covered only if it accepts nothing;
   every other query is covered.
   */
  lemma {:induction false} CoveredIffNotNone(q: Query)
    ensures AlwaysCovered(q) <==> !q.none || forall v :: !AcceptsAll(q.filters, v)
  {
    if !q.none {
      forall other, v | IsSatisfiedBy(q, other) && AcceptsAll(q.filters, v)
        ensures AcceptsAll(other.filters, v)
      {
        SatisfyingIsWeaker(q, other, v);
      }
    } else if v :| AcceptsAll(q.filters, v) {
      var other := Query([], [FieldValue(IdField, v.id + 1, 0, [])], false);
      assert IsSatisfiedBy(q, other);
      assert !Accepts(LocalFilter(other.filters[0]), v);
    }
  }

  /** Satisfaction composes, so an operation stands in for every query its stand-ins stand in for. */
  lemma {:induction false} SatisfactionTransitive(a: Query, b: Query, c: Query)
    requires IsSatisfiedBy(a, b) && IsSatisfiedBy(b, c) && !b.none
    ensures IsSatisfiedBy(a, c)
  {
    if !a.none {
      forall i | 0 <= i < |c.filters|
        ensures HasEqual(c.filters[i], a.filters)
      {
        assert HasEqual(c.filters[i], b.filters);
        var k :| 0 <= k < |b.filters| && SameFieldValue(c.filters[i], b.filters[k]);
        assert HasEqual(b.filters[k], a.filters);
        var j :| 0 <= j < |a.filters| && SameFieldValue(b.filters[k], a.filters[j]);
        assert SameFieldValue(c.filters[i], a.filters[j]);
      }
      forall i | 0 <= i < |a.select|
        ensures a.select[i] in c.select
      {
        var k :| 0 <= k < |b.select| && b.select[k] == a.select[i];
        assert b.select[k] in c.select;
      }
    }
  }

  // ----- the filter of a listener

  /** `Where::getFilter`: nothing to ask when no field gives a filter. */
  function QueryFilter(q: Query): (f: Filter) {
    if exists i :: 0 <= i < |q.filters| && LocalFilter(q.filters[i]).Some?
    then Some((v: Value) => AcceptsAll(q.filters, v)) else None
  }

  /** `Value::Filter::chain`. */
  function Chain(f: Filter, g: Filter): (h: Filter) {
    if f.None? then g
    else if g.None? then f
    else Some((v: Value) => f.value(v) && g.value(v))
  }

  lemma {:induction false} ChainAccepts(f: Filter, q: Query, v: Value)
    ensures Accepts(Chain(f, QueryFilter(q)), v) <==> Accepts(f, v) && AcceptsAll(q.filters, v)
  {
    if QueryFilter(q).None? {
      forall i | 0 <= i < |q.filters|
        ensures Accepts(LocalFilter(q.filters[i]), v)
      {
      }
    }
  }

  // ----- filtering a batch

  /**
   `Value::Filter::filter` hands the shared pointer itself to the filter. The pointer
   is converted to a new value of type USER_DATA whose data is the packed original,
   with no id, owner, sequence number or user type of its own.
   */
  function Boxed(v: Value, packed: Blob): (b: Value) {
    Value(0, INVALID_ID, None, 0, USER_DATA, packed, [], 0, [], [])
  }
}
