/**
 What a cache of one remote node holds after a message: id by id, from the message
 and the contents before, up to the limit on the number of values.
 */
module CacheOutcomes {
  import opened Prelude
  import opened Values
  import opened ValueCaches

  /** The first of the values that has the id. */
  function FirstWithId(vs: seq<Value>, id: nat): (r: Option<Value>)
    ensures r.None? <==> forall i :: 0 <= i < |vs| ==> vs[i].id != id
    ensures r.Some? ==> exists i :: 0 <= i < |vs| && vs[i] == r.value && vs[i].id == id && forall j :: 0 <= j < i ==> vs[j].id != id
    decreases |vs|
  {
    if vs == [] then None
    else if vs[0].id == id then Some(vs[0])
    else
      var r := FirstWithId(vs[1..], id);
      assert forall i :: 1 <= i < |vs| ==> vs[i] == vs[1..][i - 1];
      assert r.Some? ==> exists i :: 0 <= i < |vs| && vs[i] == r.value && vs[i].id == id && forall j :: 0 <= j < i ==> vs[j].id != id by {
        if r.Some? {
          var i :| 0 <= i < |vs[1..]| && vs[1..][i] == r.value && vs[1..][i].id == id && forall j :: 0 <= j < i ==> vs[1..][j].id != id;
          assert vs[i + 1] == r.value;
          assert forall j :: 0 <= j < i + 1 ==> vs[j].id != id;
        }
      }
      r
  }

  function EntryOf(m: CacheMap, id: nat): (r: Option<Cached>) {
    if id in m then Some(m[id]) else None
  }

  /**
   What the message makes of an id: nothing if it is listed as expired, or neither held nor sent; else the value held, or the
   first sent, its life starting now if it was sent or refreshed; and nothing if that life is over.
   */
  function EntryAfter(m: CacheMap, vs: seq<Value>, refreshed: seq<nat>, expired: seq<nat>, life: Life, now: int, id: nat):
    (r: Option<Cached>)
  {
    var sent := FirstWithId(vs, id);
    var data := if id in m then Some(m[id].data) else sent;
    if data.None? || id in expired then None
    else
      var c := if sent.Some? || id in refreshed then Cached(data.value, now, now + life(data.value.vtype)) else m[id];
      if c.expiration > now then Some(c) else None
  }

  lemma {:induction false} AddedEntry(m: CacheMap, vs: seq<Value>, life: Life, now: int, id: nat)
    ensures var sent := FirstWithId(vs, id);
            EntryOf(AddValues(m, vs, life, now).0, id) ==
            if sent.None? then EntryOf(m, id)
            else Some(var v := if id in m then m[id].data else sent.value; Cached(v, now, now + life(v.vtype)))
    decreases |vs|
  {
    if vs != [] {
      var v := vs[0];
      var c := if v.id in m then Refreshed(m[v.id], life, now) else Cached(v, now, now + life(v.vtype));
      AddedEntry(m[v.id := c], vs[1..], life, now, id);
    }
  }

  lemma {:induction false} RefreshedEntry(m: CacheMap, ids: seq<nat>, life: Life, now: int, id: nat)
    ensures EntryOf(RefreshValues(m, ids, life, now), id) ==
            if id in m && id in ids then Some(Cached(m[id].data, now, now + life(m[id].data.vtype))) else EntryOf(m, id)
    decreases |ids|
  {
    if ids != [] {
      assert id in ids <==> id == ids[0] || id in ids[1..];
      if ids[0] in m {
        RefreshedEntry(m[ids[0] := Refreshed(m[ids[0]], life, now)], ids[1..], life, now, id);
      } else {
        RefreshedEntry(m, ids[1..], life, now, id);
      }
    }
  }

  lemma {:induction false} ExpiredEntry(m: CacheMap, ids: seq<nat>, id: nat)
    ensures EntryOf(ExpireIds(m, ids).0, id) == if id in ids then None else EntryOf(m, id)
    decreases |ids|
  {
    if ids != [] {
      assert id in ids <==> id == ids[0] || id in ids[1..];
      ExpiredEntry(if ids[0] in m then m - {ids[0]} else m, ids[1..], id);
    }
  }

  /** Eviction keeps entries as they are, as many as fit, and none that is older than one it drops. */
  lemma {:induction false} EvictedAre(m: CacheMap)
    ensures var r := Evicted(m);
            && (forall k :: k in r ==> k in m && r[k] == m[k])
            && |r| == (if |m| <= 4096 then |m| else 4096)
            && (forall j, k :: j in r && k in m && k !in r ==> m[k].created <= m[j].created)
    decreases |m|
  {
    if |m| > MAX_VALUES {
      var o := Oldest(m);
      var m1 := m - {o};
      assert m1.Keys == m.Keys - {o} && |m1| == |m1.Keys| && |m| == |m.Keys|;
      EvictedAre(m1);
    }
  }

  /** The id by id outcome of a message, before the limit on the number of values applies. */
  function Intended(m: CacheMap, vs: seq<Value>, refreshed: seq<nat>, expired: seq<nat>, life: Life, now: int): (w: CacheMap) {
    Unexpired(ExpireIds(RefreshValues(AddValues(m, vs, life, now).0, refreshed, life, now), expired).0, now)
  }

  lemma {:induction false} IntendedEntry(m: CacheMap, vs: seq<Value>, refreshed: seq<nat>, expired: seq<nat>, life: Life, now: int, id: nat)
    ensures EntryOf(Intended(m, vs, refreshed, expired, life, now), id) == EntryAfter(m, vs, refreshed, expired, life, now, id)
  {
    hide AddValues, RefreshValues, ExpireIds;
    var m1 := AddValues(m, vs, life, now).0;
    var m2 := RefreshValues(m1, refreshed, life, now);
    AddedEntry(m, vs, life, now, id);
    RefreshedEntry(m1, refreshed, life, now, id);
    ExpiredEntry(m2, expired, id);
  }

  /**
   After a message the cache holds exactly what the message makes of every id, as long as that is at most 4096 values; of more, it
   holds 4096, and drops none that is newer than one it holds. In particular it holds no id listed as expired.
   */
  lemma {:induction false} MessageOutcome(m: CacheMap, vs: seq<Value>, refreshed: seq<nat>, expired: seq<nat>, life: Life, now: int)
    returns (w: CacheMap)
    ensures forall id: nat :: EntryOf(w, id) == EntryAfter(m, vs, refreshed, expired, life, now, id)
    ensures var r := AfterValues(m, vs, refreshed, expired, life, now);
            && (|w| <= 4096 ==> r == w) && (|w| > 4096 ==> |r| == 4096)
            && (forall id :: id in r ==> id in w && r[id] == w[id] && id !in expired)
            && (forall j, k :: j in r && k in w && k !in r ==> w[k].created <= w[j].created)
  {
    hide Unexpired, EntryAfter;
    w := Intended(m, vs, refreshed, expired, life, now);
    forall id: nat
      ensures EntryOf(w, id) == EntryAfter(m, vs, refreshed, expired, life, now, id)
    {
      IntendedEntry(m, vs, refreshed, expired, life, now, id);
    }
    EvictedAre(w);
    var r := AfterValues(m, vs, refreshed, expired, life, now);
    forall id | id in r
      ensures id !in expired
    {
      ExpiredIsOut(m, vs, refreshed, expired, life, now, id);
      assert EntryOf(w, id).Some?;
    }
  }

  lemma {:induction false} ExpiredIsOut(m: CacheMap, vs: seq<Value>, refreshed: seq<nat>, expired: seq<nat>, life: Life, now: int, id: nat)
    ensures id in expired ==> EntryAfter(m, vs, refreshed, expired, life, now, id).None?
  {
  }

  /** The passing of time alone: exactly the values that are not due stay, up to the limit. */
  lemma {:induction false} TickOutcome(m: CacheMap, now: int, id: nat)
    ensures var r := AfterExpiry(m, now);
            && (id in r ==> id in m && r[id] == m[id] && m[id].expiration > now)
            && (id in m && m[id].expiration > now && |m| <= 4096 ==> id in r)
  {
    EvictedAre(Unexpired(m, now));
    var u := Unexpired(m, now);
    SubsetSize(u.Keys, m.Keys);
    assert |u| == |u.Keys| && |m| == |m.Keys|;
  }
}
