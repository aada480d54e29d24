/**
 `Storage`: the values kept for one hash, with a running total of their sizes.
 */
module Storages {
  import opened Prelude
  import opened Values

  const MAX_VALUES: nat := 1024

  /** `Never` is the end of time, the expiration of a permanent value. */
  datatype Deadline = At(time: int) | Never {
    predicate After(now: int) {
      Never? || time > now
    }

    predicate Before(now: int) {
      At? && time < now
    }

    function Extended(t: int): Deadline {
      if At? && time < t then At(t) else this
    }
  }

  datatype Stored = Stored(data: Value, created: int, expiration: Deadline)

  const NODE_EXPIRE_TIME: int := 600

  /** When each remote listener, a node with a socket, was last heard of. */
  type Listeners = map<(nat, nat), int>

  /** `local` is the number of local listeners. */
  datatype Storage = Storage(values: seq<Stored>, total: int, remote: Listeners, local: nat)

  datatype Diff = Diff(size: int, count: int)

  function Sum(vs: seq<Stored>): (n: int)
    decreases |vs|
  {
    if vs == [] then 0 else ByteSize(vs[0].data) + Sum(vs[1..])
  }

  /** The first entry that is the same object as v or has its id. */
  function Find(vs: seq<Stored>, v: Value): (i: nat)
    ensures i <= |vs|
    ensures i < |vs| ==> vs[i].data.ref == v.ref || vs[i].data.id == v.id
    ensures forall j :: 0 <= j < i ==> vs[j].data.ref != v.ref && vs[j].data.id != v.id
  {
    if vs == [] || vs[0].data.ref == v.ref || vs[0].data.id == v.id then 0 else 1 + Find(vs[1..], v)
  }

  function FindId(vs: seq<Stored>, id: nat): (i: nat)
    ensures i <= |vs|
    ensures i < |vs| ==> vs[i].data.id == id
    ensures forall j :: 0 <= j < i ==> vs[j].data.id != id
  {
    if vs == [] || vs[0].data.id == id then 0 else 1 + FindId(vs[1..], id)
  }

  function ById(vs: seq<Stored>, id: nat): (r: Option<Value>) {
    var i := FindId(vs, id);
    if i < |vs| then Some(vs[i].data) else None
  }

  function Unexpired(vs: seq<Stored>, now: int): (r: seq<Stored>)
    decreases |vs|
  {
    if vs == [] then [] else (if vs[0].expiration.After(now) then [vs[0]] else []) + Unexpired(vs[1..], now)
  }

  function ExpiredData(vs: seq<Stored>, now: int): (r: seq<Value>)
    decreases |vs|
  {
    if vs == [] then [] else (if vs[0].expiration.After(now) then [] else [vs[0].data]) + ExpiredData(vs[1..], now)
  }

  predicate StillListening(time: int, now: int) {
    time + NODE_EXPIRE_TIME >= now
  }

  function LiveListeners(ls: Listeners, now: int): (r: Listeners) {
    map l | l in ls && StillListening(ls[l], now) :: ls[l]
  }

  // ----- operations

  function Store(s: Storage, v: Value, created: int, expiration: Deadline): (r: (Storage, bool, Diff)) {
    var i := Find(s.values, v);
    if i < |s.values| then
      var vs := s.values[i];
      if vs.data.ref != v.ref then
        var d := ByteSize(v) - ByteSize(vs.data);
        (s.(values := s.values[i := Stored(v, created, expiration)], total := s.total + d), true, Diff(d, 0))
      else (s.(values := s.values[i := vs.(created := created)]), false, Diff(0, 0))
    else if |s.values| < MAX_VALUES then
      (s.(values := s.values + [Stored(v, created, expiration)], total := s.total + ByteSize(v)), true,
       Diff(ByteSize(v), 1))
    else (s, false, Diff(0, 0))
  }

  function Without(vs: seq<Stored>, i: nat): seq<Stored>
    requires i < |vs|
  {
    vs[..i] + vs[i + 1..]
  }

  function Remove(s: Storage, id: nat): (r: (Storage, Diff)) {
    var i := FindId(s.values, id);
    if i < |s.values| then
      var n: int := ByteSize(s.values[i].data);
      (s.(values := Without(s.values, i), total := s.total - n), Diff(-n, -1))
    else (s, Diff(0, 0))
  }

  function Clear(s: Storage): (r: (Storage, Diff)) {
    (s.(values := [], total := 0), Diff(-s.total, -|s.values|))
  }

  function Expire(s: Storage, now: int): (r: (Storage, Diff)) {
    var vs := Unexpired(s.values, now);
    var d := Sum(vs) - Sum(s.values);
    (s.(values := vs, total := s.total + d, remote := LiveListeners(s.remote, now)), Diff(d, |vs| - |s.values|))
  }

  function Refresh(s: Storage, id: nat, now: int, life: nat -> int): (r: Storage) {
    var i := FindId(s.values, id);
    if i < |s.values| then
      var vs := s.values[i];
      s.(values := s.values[i := vs.(created := now, expiration := vs.expiration.Extended(now + life(vs.data.vtype)))])
    else s
  }

  // ----- what they keep

  ghost predicate DistinctIds(vs: seq<Stored>) {
    forall i, j :: 0 <= i < j < |vs| ==> vs[i].data.id != vs[j].data.id
  }

  ghost predicate Accounted(s: Storage) {
    s.total == Sum(s.values) && DistinctIds(s.values) && |s.values| <= MAX_VALUES
  }

  /** The change reported to the caller is the change made. */
  ghost predicate Reports(s: Storage, s': Storage, d: Diff) {
    s'.total == s.total + d.size && |s'.values| == |s.values| + d.count
  }

  lemma {:induction false} SumConcat(a: seq<Stored>, b: seq<Stored>)
    ensures Sum(a + b) == Sum(a) + Sum(b)
    decreases |a|
  {
    if a == [] {
      assert a + b == b;
    } else {
      assert (a + b)[0] == a[0] && (a + b)[1..] == a[1..] + b;
      SumConcat(a[1..], b);
    }
  }

  lemma {:induction false} SumOne(x: Stored)
    ensures Sum([x]) == ByteSize(x.data)
  {
    assert [x][1..] == [];
  }

  lemma {:induction false} SumAt(vs: seq<Stored>, i: nat)
    requires i < |vs|
    ensures Sum(vs) == Sum(Without(vs, i)) + ByteSize(vs[i].data)
  {
    assert vs == vs[..i] + ([vs[i]] + vs[i + 1..]);
    SumConcat(vs[..i], [vs[i]] + vs[i + 1..]);
    SumConcat([vs[i]], vs[i + 1..]);
    SumOne(vs[i]);
    SumConcat(vs[..i], vs[i + 1..]);
  }

  lemma {:induction false} SumUpdate(vs: seq<Stored>, i: nat, x: Stored)
    requires i < |vs|
    ensures Sum(vs[i := x]) == Sum(vs) - ByteSize(vs[i].data) + ByteSize(x.data)
  {
    SumAt(vs, i);
    SumAt(vs[i := x], i);
    assert Without(vs[i := x], i) == Without(vs, i);
  }

  lemma {:induction false} UnexpiredIs(vs: seq<Stored>, now: int)
    ensures |Unexpired(vs, now)| <= |vs|
    ensures forall x :: x in Unexpired(vs, now) <==> x in vs && x.expiration.After(now)
    decreases |vs|
  {
    if vs != [] {
      UnexpiredIs(vs[1..], now);
      assert vs == [vs[0]] + vs[1..];
    }
  }

  lemma {:induction false} UnexpiredDistinct(vs: seq<Stored>, now: int)
    requires DistinctIds(vs)
    ensures DistinctIds(Unexpired(vs, now))
    decreases |vs|
  {
    if vs != [] {
      var rest := Unexpired(vs[1..], now);
      UnexpiredDistinct(vs[1..], now);
      UnexpiredIs(vs[1..], now);
      forall j | 0 <= j < |rest|
        ensures rest[j].data.id != vs[0].data.id
      {
        assert rest[j] in vs[1..];
      }
    }
  }

  lemma {:induction false} StoreKeeps(s: Storage, v: Value, created: int, expiration: Deadline)
    ensures var (s', _, d) := Store(s, v, created, expiration);
            Reports(s, s', d) && (Accounted(s) ==> Accounted(s'))
  {
    var i := Find(s.values, v);
    if i < |s.values| {
      SumUpdate(s.values, i, Stored(v, created, expiration));
      SumUpdate(s.values, i, s.values[i].(created := created));
    } else {
      SumConcat(s.values, [Stored(v, created, expiration)]);
      SumOne(Stored(v, created, expiration));
    }
  }

  lemma {:induction false} RemoveKeeps(s: Storage, id: nat)
    ensures var (s', d) := Remove(s, id);
            Reports(s, s', d) && (Accounted(s) ==> Accounted(s'))
  {
    var i := FindId(s.values, id);
    if i < |s.values| {
      SumAt(s.values, i);
    }
  }

  lemma {:induction false} ClearKeeps(s: Storage)
    ensures var (s', d) := Clear(s);
            Reports(s, s', d) && (Accounted(s) ==> Accounted(s'))
  {
  }

  lemma {:induction false} ExpireKeeps(s: Storage, now: int)
    ensures var (s', d) := Expire(s, now);
            Reports(s, s', d) && (Accounted(s) ==> Accounted(s'))
  {
    UnexpiredIs(s.values, now);
    if DistinctIds(s.values) {
      UnexpiredDistinct(s.values, now);
    }
  }

  lemma {:induction false} RefreshKeeps(s: Storage, id: nat, now: int, life: nat -> int)
    ensures var s' := Refresh(s, id, now, life);
            Reports(s, s', Diff(0, 0)) && (Accounted(s) ==> Accounted(s'))
  {
    var i := FindId(s.values, id);
    if i < |s.values| {
      SumUpdate(s.values, i, Refresh(s, id, now, life).values[i]);
    }
  }

  // ----- what is found afterwards

  lemma {:induction false} ByIdIs(vs: seq<Stored>, i: nat)
    requires DistinctIds(vs) && i < |vs|
    ensures ById(vs, vs[i].data.id) == Some(vs[i].data)
  {
  }

  /** Storing v can change only what is found under its id, and there never the same object. */
  lemma {:induction false} StoreFinds(s: Storage, v: Value, created: int, expiration: Deadline, id: nat)
    ensures var (s', ok, _) := Store(s, v, created, expiration);
            && ById(s'.values, id) == (if ok && id == v.id then Some(v) else ById(s.values, id))
            && (ok && ById(s.values, v.id).Some? ==> ById(s.values, v.id).value.ref != v.ref)
  {
    var i := Find(s.values, v);
    var k := FindId(s.values, id);
    var s' := Store(s, v, created, expiration).0;
    var k' := FindId(s'.values, id);
    if i == |s.values| && |s.values| < MAX_VALUES {
      assert s'.values[i].data == v;
      assert forall j :: 0 <= j < i ==> s'.values[j] == s.values[j];
    } else if i < |s.values| {
      assert forall j :: 0 <= j < |s.values| ==> s'.values[j].data.id == s.values[j].data.id;
      assert k' == k;
    }
  }

  lemma {:induction false} RemoveFinds(s: Storage, id: nat, other: nat)
    requires DistinctIds(s.values)
    ensures ById(Remove(s, id).0.values, other) == if other == id then None else ById(s.values, other)
  {
    var vs := s.values;
    var i := FindId(vs, id);
    if i < |vs| {
      var ws := Without(vs, i);
      assert forall j :: 0 <= j < |ws| ==> ws[j] == vs[if j < i then j else j + 1];
      var k := FindId(vs, other);
      if other != id && k < |vs| {
        assert ws[if k < i then k else k - 1] == vs[k];
        assert DistinctIds(ws);
        ByIdIs(ws, if k < i then k else k - 1);
      }
    }
  }

  lemma {:induction false} ExpireFinds(s: Storage, now: int, id: nat)
    requires DistinctIds(s.values)
    ensures var i := FindId(s.values, id);
            ById(Expire(s, now).0.values, id) ==
            if i < |s.values| && s.values[i].expiration.After(now) then Some(s.values[i].data) else None
  {
    var i := FindId(s.values, id);
    var ws := Unexpired(s.values, now);
    UnexpiredIs(s.values, now);
    UnexpiredDistinct(s.values, now);
    var k := FindId(ws, id);
    if k < |ws| {
      assert ws[k] in s.values;
      var j :| 0 <= j < |s.values| && s.values[j] == ws[k];
      assert i == j;
    } else {
      assert i < |s.values| ==> s.values[i] in s.values;
    }
  }

  lemma {:induction false} RefreshFinds(s: Storage, id: nat, now: int, life: nat -> int, other: nat)
    ensures ById(Refresh(s, id, now, life).values, other) == ById(s.values, other)
  {
    var s' := Refresh(s, id, now, life);
    assert forall j :: 0 <= j < |s.values| ==> s'.values[j].data == s.values[j].data;
    assert FindId(s'.values, other) == FindId(s.values, other);
  }

  // ----- the object

  lemma {:induction false} SumNothing()
    ensures Sum([]) == 0
  {
  }

  lemma {:induction false} PartitionStep(vs: seq<Stored>, now: int, kept: seq<Stored>, gone: seq<Value>)
    requires vs != []
    ensures Sum(vs) == ByteSize(vs[0].data) + Sum(vs[1..]) && Sum(kept + [vs[0]]) == Sum(kept) + ByteSize(vs[0].data)
    ensures kept + Unexpired(vs, now) == (if vs[0].expiration.After(now) then kept + [vs[0]] else kept) + Unexpired(vs[1..], now)
    ensures gone + ExpiredData(vs, now) == (if vs[0].expiration.After(now) then gone else gone + [vs[0].data]) + ExpiredData(vs[1..], now)
  {
    SumConcat(kept, [vs[0]]);
    SumOne(vs[0]);
    hide Sum;
    var stay, go := Unexpired(vs[1..], now), ExpiredData(vs[1..], now);
    assert Unexpired(vs, now) == (if vs[0].expiration.After(now) then [vs[0]] else []) + stay;
    assert ExpiredData(vs, now) == (if vs[0].expiration.After(now) then [] else [vs[0].data]) + go;
    hide Unexpired, ExpiredData;
    Regroup(kept, vs[0], stay);
    Regroup(gone, vs[0].data, go);
  }

  lemma {:induction false} Regroup<T>(a: seq<T>, x: T, b: seq<T>)
    ensures a + ([x] + b) == a + [x] + b && [] + b == b
  {
  }

  lemma {:induction false} PartitionEnd(now: int, kept: seq<Stored>, gone: seq<Value>)
    ensures kept + Unexpired([], now) == kept && gone + ExpiredData([], now) == gone && Sum([]) == 0
  {
  }

  class StorageObject {
    var values: seq<Stored>
    var total: int
    var remote: Listeners
    var local: nat

    ghost function State(): (s: Storage)
      reads this
    {
      Storage(values, total, remote, local)
    }

    constructor ()
      ensures State() == Storage([], 0, map[], 0)
    {
      values, total, remote, local := [], 0, map[], 0;
    }

    method IndexOf(id: nat) returns (i: nat)
      ensures i == FindId(values, id)
    {
      i := 0;
      while i < |values| && values[i].data.id != id
        invariant i <= |values| && forall j :: 0 <= j < i ==> values[j].data.id != id
      {
        i := i + 1;
      }
    }

    method StoreValue(v: Value, created: int, expiration: Deadline) returns (changed: bool, d: Diff)
      modifies this`values, this`total
      ensures (State(), changed, d) == Store(old(State()), v, created, expiration)
    {
      var i := 0;
      while i < |values| && values[i].data.ref != v.ref && values[i].data.id != v.id
        invariant i <= |values| && forall j :: 0 <= j < i ==> values[j].data.ref != v.ref && values[j].data.id != v.id
      {
        i := i + 1;
      }
      assert i == Find(values, v);
      var sizeNew := ByteSize(v);
      if i < |values| {
        var vs := values[i];
        values := values[i := vs.(created := created)];
        if vs.data.ref != v.ref {
          d := Diff(sizeNew - ByteSize(vs.data), 0);
          values := values[i := values[i].(expiration := expiration)];
          values := values[i := values[i].(data := v)];
          total := total + d.size;
          changed := true;
          assert values == old(values)[i := Stored(v, created, expiration)];
        } else {
          changed, d := false, Diff(0, 0);
        }
      } else if |values| < MAX_VALUES {
        total := total + sizeNew;
        values := values + [Stored(v, created, expiration)];
        changed, d := true, Diff(sizeNew, 1);
      } else {
        changed, d := false, Diff(0, 0);
      }
    }

    method RemoveValue(id: nat) returns (d: Diff)
      modifies this`values, this`total
      ensures (State(), d) == Remove(old(State()), id)
    {
      var i := IndexOf(id);
      if i == |values| {
        return Diff(0, 0);
      }
      var n: int := ByteSize(values[i].data);
      total := total - n;
      values := values[..i] + values[i + 1..];
      return Diff(-n, -1);
    }

    method ClearValues() returns (d: Diff)
      modifies this`values, this`total
      ensures (State(), d) == Clear(old(State()))
    {
      d := Diff(-total, -|values|);
      values, total := [], 0;
    }

    method ExpireListeners(now: int)
      modifies this`remote
      ensures remote == LiveListeners(old(remote), now)
    {
      var todo := remote.Keys;
      while todo != {}
        invariant todo <= remote.Keys <= old(remote).Keys
        invariant forall l :: l in remote ==> remote[l] == old(remote)[l]
        invariant forall l :: l in old(remote) && l !in todo ==> (l in remote <==> StillListening(old(remote)[l], now))
      {
        var l :| l in todo;
        todo := todo - {l};
        if remote[l] + NODE_EXPIRE_TIME < now {
          remote := remote - {l};
        }
      }
    }

    /** gone are the data of the values that go; the size difference is summed over them. */
    method ExpireValues(now: int) returns (d: Diff, gone: seq<Value>)
      modifies this`values, this`total, this`remote
      ensures (State(), d) == Expire(old(State()), now)
      ensures gone == ExpiredData(old(values), now) && d.count == -|gone|
    {
      hide Unexpired, Sum, ExpiredData, LiveListeners;
      ExpireListeners(now);
      var kept, size;
      kept, gone, size := Partition(now);
      d := Diff(size, -|gone|);
      total := total + size;
      values := kept;
    }

    /** Only reads: the values that stay, those that go, and the size difference. */
    method Partition(now: int) returns (kept: seq<Stored>, gone: seq<Value>, size: int)
      ensures kept == Unexpired(values, now) && gone == ExpiredData(values, now) && |kept| + |gone| == |values|
      ensures size == Sum(kept) - Sum(values)
    {
      hide Unexpired, ExpiredData, Sum;
      kept, gone, size := [], [], 0;
      assert values[0..] == values;
      SumNothing();
      for i := 0 to |values|
        invariant kept + Unexpired(values[i..], now) == Unexpired(values, now)
        invariant gone + ExpiredData(values[i..], now) == ExpiredData(values, now)
        invariant size == Sum(kept) - (Sum(values) - Sum(values[i..])) && |gone| + |kept| == i
      {
        var vs := values[i];
        PartitionStep(values[i..], now, kept, gone);
        assert values[i..][0] == vs && values[i..][1..] == values[i + 1..];
        if vs.expiration.After(now) {
          kept := kept + [vs];
        } else {
          size := size - ByteSize(vs.data);
          gone := gone + [vs.data];
        }
      }
      PartitionEnd(now, kept, gone);
      assert values[|values|..] == [];
    }

    method AddListener(node: nat, socket: nat, now: int)
      modifies this`remote
      ensures remote == old(remote)[(node, socket) := now]
    {
      remote := remote[(node, socket) := now];
    }

    method RefreshValue(id: nat, now: int, life: nat -> int)
      modifies this`values
      ensures State() == Refresh(old(State()), id, now, life)
    {
      var i := IndexOf(id);
      if i < |values| {
        var vs := values[i];
        values := values[i := vs.(created := now, expiration := vs.expiration.Extended(now + life(vs.data.vtype)))];
      }
    }
  }
}
