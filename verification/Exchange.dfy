/**
 `exchange_a` of the bundled getopt: the arguments that are no options, skipped so
 far, change places in `argv` with the options that were found after them.
 */
module Exchange {

  /** s with the neighbouring blocks s[f..l] and s[l..o] in the other order. */
  function BlockSwap<T>(s: seq<T>, f: nat, l: nat, o: nat): (r: seq<T>)
    requires f <= l <= o <= |s|
    ensures |r| == |s|
  {
    s[..f] + s[l..o] + s[f..l] + s[o..]
  }

  /** s with the equally long, disjoint blocks at p and q exchanged. */
  function Exchanged<T>(s: seq<T>, p: nat, q: nat, len: nat): (r: seq<T>)
    requires p + len <= q && q + len <= |s|
    ensures |r| == |s|
  {
    s[..p] + s[q..q + len] + s[p + len..q] + s[p..p + len] + s[q + len..]
  }

  /** Where the element at k comes from. */
  function SwapIndex(f: nat, l: nat, o: nat, k: nat): (i: nat)
    requires f <= l <= o
  {
    if k < f || k >= o then k else if k < f + (o - l) then k - f + l else k - (o - l)
  }

  function ExchangedIndex(p: nat, q: nat, len: nat, k: nat): (i: nat)
    requires p + len <= q
  {
    if p <= k < p + len then k - p + q else if q <= k < q + len then k - q + p else k
  }

  lemma {:induction false} SwapAt<T>(s: seq<T>, f: nat, l: nat, o: nat, k: nat)
    requires f <= l <= o <= |s| && k < |s|
    ensures SwapIndex(f, l, o, k) < |s| && BlockSwap(s, f, l, o)[k] == s[SwapIndex(f, l, o, k)]
  {
  }

  lemma {:induction false} ExchangedAt<T>(s: seq<T>, p: nat, q: nat, len: nat, k: nat)
    requires p + len <= q && q + len <= |s| && k < |s|
    ensures ExchangedIndex(p, q, len, k) < |s| && Exchanged(s, p, q, len)[k] == s[ExchangedIndex(p, q, len, k)]
  {
  }

  lemma {:induction false} SwapEmpty<T>(s: seq<T>, f: nat, l: nat, o: nat)
    requires f <= l <= o <= |s| && (f == l || l == o)
    ensures BlockSwap(s, f, l, o) == s
  {
    assert s == s[..f] + s[f..o] + s[o..];
  }

  /** Left block shorter: once it is exchanged with the end of the right block, it is in place. */
  lemma {:induction false} ShortLeft<T>(s: seq<T>, f: nat, l: nat, o: nat)
    requires f <= l <= o <= |s| && l - f <= o - l
    ensures var n := l - f; BlockSwap(Exchanged(s, f, o - n, n), f, l, o - n) == BlockSwap(s, f, l, o)
  {
    hide BlockSwap, Exchanged;
    var n := l - f;
    var e := Exchanged(s, f, o - n, n);
    var x, y := BlockSwap(e, f, l, o - n), BlockSwap(s, f, l, o);
    forall k | 0 <= k < |s|
      ensures x[k] == y[k]
    {
      SwapAt(s, f, l, o, k);
      SwapAt(e, f, l, o - n, k);
      ExchangedAt(s, f, o - n, n, SwapIndex(f, l, o - n, k));
    }
  }

  /** Right block not longer: once it is exchanged with the start of the left block, it is in place. */
  lemma {:induction false} ShortRight<T>(s: seq<T>, f: nat, l: nat, o: nat)
    requires f <= l <= o <= |s| && o - l <= l - f
    ensures var n := o - l; BlockSwap(Exchanged(s, f, l, n), f + n, l, o) == BlockSwap(s, f, l, o)
  {
    hide BlockSwap, Exchanged;
    var n := o - l;
    var e := Exchanged(s, f, l, n);
    var x, y := BlockSwap(e, f + n, l, o), BlockSwap(s, f, l, o);
    forall k | 0 <= k < |s|
      ensures x[k] == y[k]
    {
      SwapAt(s, f, l, o, k);
      SwapAt(e, f + n, l, o, k);
      ExchangedAt(s, f, l, n, SwapIndex(f + n, l, o, k));
    }
  }

  /** Swapping back at the new border restores the sequence. */
  lemma {:induction false} SwapUndoes<T>(s: seq<T>, f: nat, l: nat, o: nat)
    requires f <= l <= o <= |s|
    ensures BlockSwap(BlockSwap(s, f, l, o), f, f + (o - l), o) == s
  {
    var r := BlockSwap(s, f, l, o);
    var m := f + (o - l);
    assert r[..f] == s[..f] && r[o..] == s[o..];
    assert r[f..m] == s[l..o] && r[m..o] == s[f..l];
    assert s == s[..f] + s[f..l] + s[l..o] + s[o..];
  }

  lemma {:induction false} SwapParts<T>(s: seq<T>, f: nat, l: nat, o: nat)
    requires f <= l <= o <= |s|
    ensures var m := f + (o - l); BlockSwap(s, f, l, o)[f..m] == s[l..o] && BlockSwap(s, f, l, o)[m..o] == s[f..l]
  {
  }

  lemma {:induction false} SwapIsPermutation<T>(s: seq<T>, f: nat, l: nat, o: nat)
    requires f <= l <= o <= |s|
    ensures multiset(BlockSwap(s, f, l, o)) == multiset(s)
  {
    assert s == s[..f] + s[f..l] + s[l..o] + s[o..];
  }

  lemma {:induction false} OneMore<T>(s: seq<T>, p: nat, q: nat, i: nat)
    requires p + i < q && q + i < |s|
    ensures var e := Exchanged(s, p, q, i); Exchanged(s, p, q, i + 1) == e[p + i := e[q + i]][q + i := e[p + i]]
  {
    var e := Exchanged(s, p, q, i);
    assert e[p + i] == s[p + i] && e[q + i] == s[q + i];
    assert s[q..q + i + 1] == s[q..q + i] + [s[q + i]];
    assert s[p..p + i + 1] == s[p..p + i] + [s[p + i]];
    assert s[p + i..q] == [s[p + i]] + s[p + i + 1..q];
    assert s[q + i..] == [s[q + i]] + s[q + i + 1..];
  }

  class GetoptData {
    var optind: nat
    var firstNonopt: nat
    var lastNonopt: nat
  }

  method ExchangeBlocks<T>(argv: array<T>, p: nat, q: nat, len: nat)
    requires p + len <= q && q + len <= argv.Length
    modifies argv
    ensures argv[..] == Exchanged(old(argv[..]), p, q, len)
  {
    ghost var s := argv[..];
    assert Exchanged(s, p, q, 0) == s;
    for i := 0 to len
      invariant argv[..] == Exchanged(s, p, q, i)
    {
      hide Exchanged;
      OneMore(s, p, q, i);
      var tem := argv[p + i];
      argv[p + i] := argv[q + i];
      argv[q + i] := tem;
    }
  }

  method ExchangeArgs<T>(argv: array<T>, d: GetoptData)
    requires d.firstNonopt <= d.lastNonopt <= d.optind <= argv.Length
    modifies argv, d`firstNonopt, d`lastNonopt
    ensures argv[..] == BlockSwap(old(argv[..]), old(d.firstNonopt), old(d.lastNonopt), d.optind)
    ensures old(d.firstNonopt) <= d.firstNonopt <= d.lastNonopt == d.optind
    ensures argv[old(d.firstNonopt)..d.firstNonopt] == old(argv[d.lastNonopt..d.optind])
    ensures argv[d.firstNonopt..d.lastNonopt] == old(argv[d.firstNonopt..d.lastNonopt])
  {
    hide BlockSwap, Exchanged;
    var bottom: nat, middle: nat, top: nat := d.firstNonopt, d.lastNonopt, d.optind;
    ghost var goal := BlockSwap(argv[..], bottom, middle, top);
    while top > middle > bottom
      invariant bottom <= middle <= top <= argv.Length
      invariant BlockSwap(argv[..], bottom, middle, top) == goal
      invariant d.firstNonopt == old(d.firstNonopt) && d.lastNonopt == old(d.lastNonopt)
      decreases top - bottom
    {
      if top - middle > middle - bottom {
        var len := middle - bottom;
        ShortLeft(argv[..], bottom, middle, top);
        ExchangeBlocks(argv, bottom, top - len, len);
        top := top - len;
      } else {
        var len := top - middle;
        ShortRight(argv[..], bottom, middle, top);
        ExchangeBlocks(argv, bottom, middle, len);
        bottom := bottom + len;
      }
    }
    SwapEmpty(argv[..], bottom, middle, top);
    SwapParts(old(argv[..]), d.firstNonopt, d.lastNonopt, d.optind);
    d.firstNonopt := d.firstNonopt + (d.optind - d.lastNonopt);
    d.lastNonopt := d.optind;
  }
}
