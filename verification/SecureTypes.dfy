/**
 Value types and their policies, and the policies that `SecureDht::secureType`
 wraps around them: a signed value must carry a good signature, and an edit of a
 signed value must come from its owner with a sequence number that does not go back.
 */
module SecureTypes {
  import opened Prelude
  import opened Values

  const MAX_VALUE_SIZE: nat := 65536

  /** What a signature covers; the packed bytes determine exactly these fields. */
  datatype Body = Body(signer: Option<(nat, Hash, Hash)>, vtype: nat, data: Blob, userType: Blob)

  /** A key object that holds no key has the zero fingerprint. */
  function ToSign(v: Value): (b: Body) {
    var signer :=
      if v.owner.Some? && v.owner.value.id != 0 then Some((v.seqNum, v.owner.value.id, v.recipient)) else None;
    Body(signer, v.vtype, v.data, v.userType)
  }

  type Verify = (Hash, Body, Blob) -> bool

  predicate CheckSignature(verify: Verify, key: Option<KeyPtr>, v: Value) {
    key.Some? && key.value.id != 0 && verify(key.value.id, ToSign(v), v.signature)
  }

  /** A value with its cached signature check. */
  datatype Flagged = Flagged(value: Value, checked: bool, valid: bool)

  /** A policy refuses a value, or accepts it, possibly put in another form. */
  datatype ValueType = ValueType(
    life: int,
    store: (Hash, Value, nat) -> Option<Value>,
    edit: (Hash, Value, Value, nat) -> Option<Value>,
    secured: bool)

  type Types = map<nat, ValueType>

  function DefaultStore(h: Hash, v: Value, from: nat): Option<Value> {
    if ByteSize(v) <= MAX_VALUE_SIZE then Some(v) else None
  }

  function DefaultEdit(h: Hash, o: Value, n: Value, from: nat): Option<Value> {
    None
  }

  function GetType(types: Types, t: nat): (r: ValueType) {
    if t in types then types[t] else ValueType(600, DefaultStore, DefaultEdit, false)
  }

  function Checked(f: Flagged, key: Option<KeyPtr>, verify: Verify): (g: Flagged) {
    if f.checked then f else Flagged(f.value, true, CheckSignature(verify, key, f.value))
  }

  function StoreDecision(t: ValueType, verify: Verify, h: Hash, f: Flagged, from: nat): (r: (Flagged, Option<Value>)) {
    if t.secured && IsSigned(f.value) then
      var g := Checked(f, f.value.owner, verify);
      (g, if g.valid then t.store(h, f.value, from) else None)
    else (f, t.store(h, f.value, from))
  }

  function EditDecision(t: ValueType, verify: Verify, h: Hash, o: Value, f: Flagged, from: nat):
    (r: (Flagged, Option<Value>))
  {
    var n := f.value;
    if !t.secured || !IsSigned(o) then (f, t.edit(h, o, n, from))
    else if o.owner != n.owner then (f, None)
    else
      var g := Checked(f, o.owner, verify);
      if !g.valid then (g, None)
      else if o.seqNum == n.seqNum then (g, if ToSign(o) != ToSign(n) then None else Some(n))
      else (g, if n.seqNum < o.seqNum then None else Some(n))
  }

  /** The cached check, if there is one, is the outcome of checking with the value's own owner. */
  ghost predicate Honest(f: Flagged, verify: Verify) {
    f.checked ==> f.valid == CheckSignature(verify, f.value.owner, f.value)
  }

  lemma {:induction false} DecisionsStayHonest(t: ValueType, verify: Verify, h: Hash, o: Value, f: Flagged, from: nat)
    requires Honest(f, verify)
    ensures Honest(StoreDecision(t, verify, h, f, from).0, verify)
    ensures Honest(EditDecision(t, verify, h, o, f, from).0, verify)
  {
  }

  /** What may take the place of a signed value. */
  ghost predicate Succeeds(o: Value, n: Value) {
    && IsSigned(n) && n.owner == o.owner
    && o.seqNum <= n.seqNum
    && (o.seqNum == n.seqNum ==> ToSign(n) == ToSign(o))
  }

  lemma {:induction false} SucceedsTransitive(a: Value, b: Value, c: Value)
    requires Succeeds(a, b) && Succeeds(b, c)
    ensures Succeeds(a, c)
  {
  }

  /** Exactly which edits of a signed value a secure type accepts. */
  lemma {:induction false} EditAcceptedIff(t: ValueType, verify: Verify, h: Hash, o: Value, f: Flagged, from: nat)
    requires t.secured && IsSigned(o) && Honest(f, verify)
    requires forall k, b :: !verify(k, b, [])
    ensures EditDecision(t, verify, h, o, f, from).1 ==
            if Succeeds(o, f.value) && CheckSignature(verify, o.owner, f.value) then Some(f.value) else None
  {
  }

  /** What a type accepts as new: a secure one asks a signed value for a good signature first, an unknown one only for its size. */
  lemma {:induction false} StoreAcceptedIff(types: Types, t: nat, verify: Verify, h: Hash, f: Flagged, from: nat)
    requires Honest(f, verify)
    ensures var r := StoreDecision(GetType(types, t), verify, h, f, from).1;
            if t !in types then r == (if |f.value.cypher| + |f.value.data| + |f.value.signature| + |f.value.userType| <= 65536 then Some(f.value) else None)
            else if types[t].secured && IsSigned(f.value) && !CheckSignature(verify, f.value.owner, f.value) then r == None
            else r == types[t].store(h, f.value, from)
    ensures t !in types ==> GetType(types, t).life == 600
  {
  }

  /** Edits of unsigned values, and of values of insecure or unknown types, are left to the policy underneath. */
  lemma {:induction false} EditElsewhere(types: Types, t: nat, verify: Verify, h: Hash, o: Value, f: Flagged, from: nat)
    requires !(t in types && types[t].secured && IsSigned(o))
    ensures EditDecision(GetType(types, t), verify, h, o, f, from) == (f, if t in types then types[t].edit(h, o, f.value, from) else None)
  {
  }

  /** A value unpacked from the network has an owner object of its own, so it never edits a signed value. */
  lemma {:induction false} FreshOwnerIsRefused(t: ValueType, verify: Verify, h: Hash, o: Value, f: Flagged, from: nat)
    requires t.secured && IsSigned(o)
    requires f.value.owner.Some? ==> f.value.owner.value.ref != o.owner.value.ref
    ensures EditDecision(t, verify, h, o, f, from).1 == None
  {
  }

  /** The same key in two objects: a well signed successor is refused. */
  lemma {:induction false} SameKeyIsRefused()
    ensures exists t: ValueType, verify: Verify, o: Value, f: Flagged ::
              && t.secured && IsSigned(o) && Honest(f, verify)
              && SameOwner(o.owner, f.value.owner) && o.seqNum < f.value.seqNum
              && CheckSignature(verify, f.value.owner, f.value)
              && EditDecision(t, verify, 1, o, f, 0).1 == None
  {
    var verify: Verify := (k, b, s) => s != [];
    var t := ValueType(600, DefaultStore, DefaultEdit, true);
    var o := Value(0, 1, Some(KeyPtr(0, 5)), 0, 0, [], [], 0, [1], []);
    var n := Value(1, 1, Some(KeyPtr(1, 5)), 0, 0, [], [], 1, [1], []);
    var f := Flagged(n, false, false);
    assert CheckSignature(verify, n.owner, n);
    assert EditDecision(t, verify, 1, o, f, 0).1 == None;
  }
}
