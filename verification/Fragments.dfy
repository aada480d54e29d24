/**
 Values that do not fit one packet: `sendValueParts` cuts each serialized value
 into fragments of at most MTU bytes, `ParsedMessage::append` puts them together
 again from whatever arrives.
 */
module Fragments {
  import opened Prelude
  import opened Values

  const MTU: nat := 1280
  const MAX_VALUE_SIZE: nat := 65536

  datatype Fragment = Fragment(index: nat, offset: nat, data: Blob)

  function Min(a: nat, b: nat): nat {
    if a <= b then a else b
  }

  // ----- sending

  /** The fragments of value i from byte `start` on; an empty value is sent as one empty fragment. */
  function PartsFrom(v: Blob, i: nat, start: nat): (fs: seq<Fragment>)
    requires start <= |v|
    decreases |v| - start
  {
    var end := Min(start + MTU, |v|);
    [Fragment(i, start, v[start..end])] + if end == |v| then [] else PartsFrom(v, i, end)
  }

  function AllParts(svals: seq<Blob>, i: nat): (fs: seq<Fragment>)
    requires i <= |svals|
    decreases |svals| - i
  {
    if i == |svals| then [] else PartsFrom(svals[i], i, 0) + AllParts(svals, i + 1)
  }

  lemma {:induction false} NextPart(out: seq<Fragment>, v: Blob, i: nat, start: nat)
    requires start <= |v|
    ensures var end := Min(start + MTU, |v|);
            var next := out + [Fragment(i, start, v[start..end])];
            out + PartsFrom(v, i, start) == if end == |v| then next else next + PartsFrom(v, i, end)
  {
    var end := Min(start + MTU, |v|);
    var f := Fragment(i, start, v[start..end]);
    if end == |v| {
      assert [f] + [] == [f];
    } else {
      assert out + ([f] + PartsFrom(v, i, end)) == out + [f] + PartsFrom(v, i, end);
    }
  }

  /** The inner loop, for one value. */
  method SendParts(v: Blob, i: nat) returns (out: seq<Fragment>)
    ensures out == PartsFrom(v, i, 0)
  {
    hide PartsFrom;
    out := [];
    var start, end := 0, 0;
    while true
      invariant start <= |v| && out + PartsFrom(v, i, start) == PartsFrom(v, i, 0)
      decreases |v| - start
    {
      end := Min(start + MTU, |v|);
      NextPart(out, v, i, start);
      out := out + [Fragment(i, start, v[start..end])];
      if end == |v| {
        break;
      }
      start := end;
    }
  }

  method SendValueParts(svals: seq<Blob>) returns (out: seq<Fragment>)
    ensures out == AllParts(svals, 0)
  {
    hide PartsFrom;
    out := [];
    for i := 0 to |svals|
      invariant out + AllParts(svals, i) == AllParts(svals, 0)
    {
      var here := SendParts(svals[i], i);
      assert out + (here + AllParts(svals, i + 1)) == out + here + AllParts(svals, i + 1);
      out := out + here;
    }
    assert out + [] == out;
  }

  /** A fragment is a piece of its value of at most MTU bytes, at an offset that is a multiple of MTU. */
  ghost predicate PieceOf(svals: seq<Blob>, f: Fragment) {
    && f.index < |svals|
    && f.offset % MTU == 0
    && f.offset <= |svals[f.index]|
    && f.data == svals[f.index][f.offset..Min(f.offset + MTU, |svals[f.index]|)]
  }

  lemma {:induction false} PartsArePieces(svals: seq<Blob>, i: nat, start: nat, k: nat)
    requires i < |svals| && start <= |svals[i]| && start % MTU == 0 && k < |PartsFrom(svals[i], i, start)|
    ensures PieceOf(svals, PartsFrom(svals[i], i, start)[k])
    decreases |svals[i]| - start
  {
    var v := svals[i];
    var end := Min(start + MTU, |v|);
    if k > 0 {
      PartsArePieces(svals, i, end, k - 1);
    }
  }

  lemma {:induction false} SentArePieces(svals: seq<Blob>, i: nat, f: Fragment)
    requires i <= |svals| && f in AllParts(svals, i)
    ensures PieceOf(svals, f)
    decreases |svals| - i
  {
    var here := PartsFrom(svals[i], i, 0);
    if f in here {
      var k :| 0 <= k < |here| && here[k] == f;
      PartsArePieces(svals, i, 0, k);
    } else {
      SentArePieces(svals, i + 1, f);
    }
  }

  // ----- receiving

  datatype Part = Part(total: nat, buf: Blob)

  type Parts = map<nat, Part>

  /** The entries that the header announces; values that are too large are skipped. */
  function HeaderParts(sizes: seq<nat>): (ps: Parts) {
    map i | 0 <= i < |sizes| && sizes[i] <= MAX_VALUE_SIZE + 32 :: Part(sizes[i], [])
  }

  function Header(svals: seq<Blob>): (ps: Parts) {
    HeaderParts(seq(|svals|, i requires 0 <= i < |svals| => |svals[i]|))
  }

  /** A fragment is taken only if it continues its buffer exactly. */
  predicate Takes(ps: Parts, f: Fragment) {
    f.index in ps && |ps[f.index].buf| < ps[f.index].total && f.offset == |ps[f.index].buf|
  }

  function AppendOne(ps: Parts, f: Fragment): (r: Parts) {
    if Takes(ps, f) then ps[f.index := ps[f.index].(buf := ps[f.index].buf + f.data)] else ps
  }

  /** `ParsedMessage::append` for a block of fragments. */
  function AppendBlock(ps: Parts, fs: seq<Fragment>): (r: (Parts, bool))
    decreases |fs|
  {
    if fs == [] then (ps, false)
    else
      var (ps', ret) := AppendBlock(AppendOne(ps, fs[0]), fs[1..]);
      (ps', Takes(ps, fs[0]) || ret)
  }

  predicate Complete(ps: Parts) {
    forall i :: i in ps ==> ps[i].total <= |ps[i].buf|
  }

  /** The buffers in the order of their indices below n. */
  function InOrder(ps: Parts, n: nat): (r: seq<Blob>) {
    if n == 0 then [] else InOrder(ps, n - 1) + if n - 1 in ps then [ps[n - 1].buf] else []
  }

  class PartialMessage {
    const from: nat
    /** How many values the header announced. */
    const count: nat
    var parts: Parts

    ghost predicate Valid()
      reads this
    {
      forall i :: i in parts ==> i < count
    }

    constructor (from: nat, sizes: seq<nat>)
      ensures Valid() && this.from == from && count == |sizes| && parts == HeaderParts(sizes)
    {
      this.from, count, parts := from, |sizes|, HeaderParts(sizes);
    }

    method Append(block: seq<Fragment>) returns (ret: bool)
      requires Valid()
      modifies this`parts
      ensures Valid() && (parts, ret) == AppendBlock(old(parts), block)
    {
      ghost var ps := parts;
      ret := false;
      assert block[0..] == block;
      for k := 0 to |block|
        invariant Valid()
        invariant AppendBlock(ps, block) == (AppendBlock(parts, block[k..]).0, ret || AppendBlock(parts, block[k..]).1)
      {
        var f := block[k];
        assert block[k..][0] == f && block[k..][1..] == block[k + 1..];
        if f.index in parts && |parts[f.index].buf| < parts[f.index].total && f.offset == |parts[f.index].buf| {
          ret := true;
          parts := parts[f.index := parts[f.index].(buf := parts[f.index].buf + f.data)];
        }
      }
    }

    /** `ParsedMessage::complete`: nothing while a buffer is short, else the buffers in order. */
    method CollectValues() returns (r: Option<seq<Blob>>)
      requires Valid()
      ensures r == if Complete(parts) then Some(InOrder(parts, count)) else None
    {
      for i := 0 to count
        invariant forall j :: j in parts && j < i ==> parts[j].total <= |parts[j].buf|
      {
        if i in parts && parts[i].total > |parts[i].buf| {
          return None;
        }
      }
      var blobs := [];
      for i := 0 to count
        invariant blobs == InOrder(parts, i)
      {
        if i in parts {
          blobs := blobs + [parts[i].buf];
        }
      }
      return Some(blobs);
    }
  }

  /** One entry of the table of partial messages. */
  datatype Rx = Rx(from: nat, session: Session, count: nat)

  /** The partial messages by transaction id. */
  class RxTable {
    var partial: map<nat, PartialMessage>

    ghost predicate Valid()
      reads this, partial.Values
    {
      && (forall t :: t in partial ==> partial[t].Valid())
      && (forall t, u :: t in partial && u in partial && t != u ==> partial[t] != partial[u])
    }

    ghost function View(): (m: map<nat, Rx>)
      reads this, partial.Values
    {
      map t | t in partial :: Rx(partial[t].from, Waiting(partial[t].parts), partial[t].count)
    }

    constructor ()
      ensures Valid() && View() == map[]
    {
      partial := map[];
    }

    /** The value data branch of `processMessage`: the values are returned when the message is complete. */
    method OnValueData(tid: nat, from: nat, f: Fragment) returns (r: Option<seq<Blob>>)
      requires Valid()
      modifies this, partial.Values
      ensures Valid() && partial.Values <= old(partial.Values)
      ensures (View(), r) == Arrive(old(View()), tid, from, f)
    {
      ghost var v := View();
      if tid !in partial || partial[tid].from != from {
        return None;
      }
      var p := partial[tid];
      var taken := p.Append([f]);
      OneFragment(old(p.parts), f);
      assert View() == v[tid := Rx(from, Waiting(p.parts), p.count)];
      if taken {
        var blobs := p.CollectValues();
        if blobs.Some? {
          partial := partial - {tid};
          assert View() == v - {tid};
          return blobs;
        }
      }
      return None;
    }
  }

  /** A fragment concerns only the message of its transaction, and only if it comes from the same peer. */
  function Arrive(m: map<nat, Rx>, tid: nat, from: nat, f: Fragment): (r: (map<nat, Rx>, Option<seq<Blob>>)) {
    if tid !in m || m[tid].from != from then (m, None)
    else
      match Receive(m[tid].session, m[tid].count, f)
      case Waiting(ps) => (m[tid := m[tid].(session := Waiting(ps))], None)
      case Done(blobs) => (m - {tid}, Some(blobs))
  }

  lemma {:induction false} OneFragment(ps: Parts, f: Fragment)
    ensures AppendBlock(ps, [f]) == (AppendOne(ps, f), Takes(ps, f))
  {
    assert [f][1..] == [];
  }

  // ----- one session

  /** A partial message is kept until it is complete; then its values are processed and it is erased. */
  datatype Session = Waiting(parts: Parts) | Done(blobs: seq<Blob>)

  function Receive(s: Session, n: nat, f: Fragment): (r: Session) {
    match s
    case Done(_) => s
    case Waiting(ps) =>
      var ps' := AppendOne(ps, f);
      if Takes(ps, f) && Complete(ps') then Done(InOrder(ps', n)) else Waiting(ps')
  }

  function ReceiveAll(s: Session, n: nat, fs: seq<Fragment>): (r: Session)
    decreases |fs|
  {
    if fs == [] then s else ReceiveAll(Receive(s, n, fs[0]), n, fs[1..])
  }

  function AppendAll(ps: Parts, fs: seq<Fragment>): (r: Parts)
    decreases |fs|
  {
    if fs == [] then ps else AppendAll(AppendOne(ps, fs[0]), fs[1..])
  }

  /** Each buffer is a prefix of its value, cut at a fragment boundary. */
  ghost predicate PrefixAt(svals: seq<Blob>, ps: Parts, i: nat) {
    && (i in ps <==> i < |svals| && |svals[i]| <= MAX_VALUE_SIZE + 32)
    && (i in ps ==>
          var p := ps[i];
          && p.total == |svals[i]|
          && p.buf <= svals[i]
          && (|p.buf| % MTU == 0 || |p.buf| == p.total))
  }

  ghost predicate Prefixes(svals: seq<Blob>, ps: Parts) {
    forall i: nat :: PrefixAt(svals, ps, i)
  }

  lemma {:induction false} AppendKeepsPrefix(svals: seq<Blob>, ps: Parts, f: Fragment)
    requires Prefixes(svals, ps) && PieceOf(svals, f)
    ensures Prefixes(svals, AppendOne(ps, f))
  {
    forall i: nat
      ensures PrefixAt(svals, AppendOne(ps, f), i)
    {
      assert PrefixAt(svals, ps, i);
      if i == f.index && Takes(ps, f) {
        var v, p := svals[i], ps[i];
        assert p.buf + f.data == v[..Min(f.offset + MTU, |v|)];
      }
    }
  }

  /** What a complete set of buffers holds: every value that was not too large, in order. */
  function Expected(svals: seq<Blob>, n: nat): (r: seq<Blob>)
    requires n <= |svals|
  {
    if n == 0 then []
    else Expected(svals, n - 1) + if |svals[n - 1]| <= MAX_VALUE_SIZE + 32 then [svals[n - 1]] else []
  }

  lemma {:induction false} CompleteIsExact(svals: seq<Blob>, ps: Parts, n: nat)
    requires Prefixes(svals, ps) && Complete(ps) && n <= |svals|
    ensures InOrder(ps, n) == Expected(svals, n)
  {
    if n > 0 {
      CompleteIsExact(svals, ps, n - 1);
      assert PrefixAt(svals, ps, n - 1);
      if n - 1 in ps {
        assert ps[n - 1].buf == svals[n - 1];
      }
    }
  }

  ghost predicate Sound(svals: seq<Blob>, s: Session) {
    match s
    case Waiting(ps) => Prefixes(svals, ps)
    case Done(blobs) => blobs == Expected(svals, |svals|)
  }

  /** Whatever is lost, repeated or reordered, buffers stay prefixes and a delivered message is the one sent. */
  lemma {:induction false} AnyArrivalIsSound(svals: seq<Blob>, s: Session, fs: seq<Fragment>)
    requires Sound(svals, s) && forall k :: 0 <= k < |fs| ==> fs[k] in AllParts(svals, 0)
    ensures Sound(svals, ReceiveAll(s, |svals|, fs))
    decreases |fs|
  {
    hide Prefixes, AllParts, Complete;
    if fs != [] {
      if s.Waiting? {
        SentArePieces(svals, 0, fs[0]);
        AppendKeepsPrefix(svals, s.parts, fs[0]);
        if Complete(AppendOne(s.parts, fs[0])) {
          CompleteIsExact(svals, AppendOne(s.parts, fs[0]), |svals|);
        }
      }
      AnyArrivalIsSound(svals, Receive(s, |svals|, fs[0]), fs[1..]);
    }
  }

  lemma {:induction false} HeaderSound(svals: seq<Blob>)
    ensures Sound(svals, Waiting(Header(svals)))
  {
    forall i: nat
      ensures PrefixAt(svals, Header(svals), i)
    {
    }
  }

  // ----- a full resend completes

  lemma {:induction false} CompleteStays(ps: Parts, fs: seq<Fragment>)
    requires Complete(ps)
    ensures AppendAll(ps, fs) == ps
    decreases |fs|
  {
    if fs != [] {
      CompleteStays(ps, fs[1..]);
    }
  }

  /** From an incomplete state, the session is done exactly when the buffers have become complete. */
  lemma {:induction false} DoneIffComplete(ps: Parts, n: nat, fs: seq<Fragment>)
    requires !Complete(ps)
    ensures ReceiveAll(Waiting(ps), n, fs) ==
            if Complete(AppendAll(ps, fs)) then Done(InOrder(AppendAll(ps, fs), n)) else Waiting(AppendAll(ps, fs))
    decreases |fs|
  {
    hide Complete;
    if fs != [] {
      var ps' := AppendOne(ps, fs[0]);
      if Complete(ps') {
        CompleteStays(ps', fs[1..]);
        DoneStays(InOrder(ps', n), n, fs[1..]);
      } else {
        DoneIffComplete(ps', n, fs[1..]);
      }
    }
  }

  lemma {:induction false} DoneStays(blobs: seq<Blob>, n: nat, fs: seq<Fragment>)
    ensures ReceiveAll(Done(blobs), n, fs) == Done(blobs)
    decreases |fs|
  {
    if fs != [] {
      DoneStays(blobs, n, fs[1..]);
    }
  }

  lemma {:induction false} AppendAllConcat(ps: Parts, a: seq<Fragment>, b: seq<Fragment>)
    ensures AppendAll(ps, a + b) == AppendAll(AppendAll(ps, a), b)
    decreases |a|
  {
    if a == [] {
      assert a + b == b;
    } else {
      assert (a + b)[0] == a[0] && (a + b)[1..] == a[1..] + b;
      AppendAllConcat(AppendOne(ps, a[0]), a[1..], b);
    }
  }

  /** The in-order fragments of one value, from a boundary at or before the end of its buffer, fill the buffer. */
  lemma {:induction false} PartFills(svals: seq<Blob>, ps: Parts, i: nat, start: nat)
    requires Prefixes(svals, ps) && i < |svals| && start <= |svals[i]| && start % MTU == 0
    requires i in ps ==> start <= |ps[i].buf|
    ensures var ps' := AppendAll(ps, PartsFrom(svals[i], i, start));
            && Prefixes(svals, ps') && ps'.Keys == ps.Keys
            && (i in ps ==> ps'[i].buf == svals[i])
            && forall j :: j in ps && j != i ==> ps'[j] == ps[j]
    decreases |svals[i]| - start
  {
    hide Prefixes;
    var v := svals[i];
    var end := Min(start + MTU, |v|);
    var f := Fragment(i, start, v[start..end]);
    var rest := if end == |v| then [] else PartsFrom(v, i, end);
    assert PrefixAt(svals, ps, i) by { PrefixesAt(svals, ps, i); }
    AppendKeepsPrefix(svals, ps, f);
    var ps1 := AppendOne(ps, f);
    assert PrefixAt(svals, ps1, i) by { PrefixesAt(svals, ps1, i); }
    assert ([f] + rest)[1..] == rest;
    if i in ps {
      FillsOneStep(v, ps[i], ps1[i], start, end);
    }
    if end != |v| {
      PartFills(svals, ps1, i, end);
    }
  }

  lemma {:induction false} PrefixesAt(svals: seq<Blob>, ps: Parts, i: nat)
    requires Prefixes(svals, ps)
    ensures PrefixAt(svals, ps, i)
  {
  }

  lemma {:induction false} FillsOneStep(v: Blob, p: Part, q: Part, start: nat, end: nat)
    requires p.total == |v| && p.buf <= v && (|p.buf| % MTU == 0 || |p.buf| == |v|)
    requires start <= |p.buf| && start % MTU == 0 && start <= |v| && end == Min(start + MTU, |v|)
    requires q == if |p.buf| < p.total && start == |p.buf| then p.(buf := p.buf + v[start..end]) else p
    ensures end <= |q.buf| && (end == |v| ==> q.buf <= v ==> q.buf == v)
  {
    if |p.buf| < |v| && start < |p.buf| {
      assert |p.buf| - start >= MTU by {
        assert (|p.buf| - start) % MTU == 0;
      }
    }
  }

  lemma {:induction false} ResendFills(svals: seq<Blob>, ps: Parts, i: nat)
    requires Prefixes(svals, ps) && i <= |svals|
    requires forall j :: j in ps && j < i ==> ps[j].buf == svals[j]
    ensures var ps' := AppendAll(ps, AllParts(svals, i)); Prefixes(svals, ps') && Complete(ps')
    decreases |svals| - i
  {
    hide Prefixes;
    if i == |svals| {
      forall j | j in ps
        ensures ps[j].total <= |ps[j].buf|
      {
        PrefixesAt(svals, ps, j);
      }
    } else {
      var here := PartsFrom(svals[i], i, 0);
      PartFills(svals, ps, i, 0);
      AppendAllConcat(ps, here, AllParts(svals, i + 1));
      var ps1 := AppendAll(ps, here);
      forall j | j in ps1
        ensures j in ps
      {
        PrefixesAt(svals, ps, j);
        PrefixesAt(svals, ps1, j);
      }
      ResendFills(svals, ps1, i + 1);
    }
  }

  /** From any incomplete state reached by any arrivals, one in-order resend delivers every value exactly. */
  lemma {:induction false} ResendCompletes(svals: seq<Blob>, fs: seq<Fragment>)
    requires forall k :: 0 <= k < |fs| ==> fs[k] in AllParts(svals, 0)
    ensures var s := ReceiveAll(Waiting(Header(svals)), |svals|, fs);
            s.Waiting? && !Complete(s.parts) ==>
              ReceiveAll(s, |svals|, AllParts(svals, 0)) == Done(Expected(svals, |svals|))
  {
    hide Prefixes, Complete, AllParts, ReceiveAll;
    var s := ReceiveAll(Waiting(Header(svals)), |svals|, fs);
    HeaderSound(svals);
    AnyArrivalIsSound(svals, Waiting(Header(svals)), fs);
    if s.Waiting? && !Complete(s.parts) {
      ResendFills(svals, s.parts, 0);
      DoneIffComplete(s.parts, |svals|, AllParts(svals, 0));
      CompleteIsExact(svals, AppendAll(s.parts, AllParts(svals, 0)), |svals|);
    }
  }

  /** A session with a value that is not empty starts incomplete, and stays so until it is done. */
  lemma {:induction false} WaitingIsIncomplete(svals: seq<Blob>, fs: seq<Fragment>, i: nat)
    requires i in Header(svals) && svals[i] != []
    ensures var s := ReceiveAll(Waiting(Header(svals)), |svals|, fs); s.Waiting? ==> !Complete(s.parts)
  {
    assert !Complete(Header(svals)) by { assert Header(svals)[i].total > |Header(svals)[i].buf|; }
    DoneIffComplete(Header(svals), |svals|, fs);
  }
}
