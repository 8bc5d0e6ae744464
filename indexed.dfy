/**
 * `list.map((x, index) => ...).filter(...)` as one operation: the present results of
 * an index-aware partial map, in index order, and the positions they come from.
 * The map is a named function of a context value, the element and its index.
 */
module Indexed {
  import opened Wrappers

  /** The present results `f(ctx, s[i], i)` for `from <= i < |s|`, in index order. */
  function Collect<C, T, U>(s: seq<T>, ctx: C, f: (C, T, nat) -> Option<U>, from: nat): (r: seq<U>)
    requires from <= |s|
    ensures |r| <= |s| - from
    decreases |s| - from
  {
    if from == |s| then []
    else (match f(ctx, s[from], from) case Some(u) => [u] case None => []) + Collect(s, ctx, f, from + 1)
  }

  /** The indices `from <= i < |s|` at which `f` gives a result, ascending. */
  function Hits<C, T, U>(s: seq<T>, ctx: C, f: (C, T, nat) -> Option<U>, from: nat): (ps: seq<nat>)
    requires from <= |s|
    ensures forall k :: 0 <= k < |ps| ==> from <= ps[k] < |s| && f(ctx, s[ps[k]], ps[k]).Some?
    ensures forall k, l :: 0 <= k < l < |ps| ==> ps[k] < ps[l]
    ensures forall i :: from <= i < |s| && f(ctx, s[i], i).Some? ==> i in ps
    decreases |s| - from
  {
    if from == |s| then []
    else (if f(ctx, s[from], from).Some? then [from] else []) + Hits(s, ctx, f, from + 1)
  }

  /** The k-th collected result is `f` applied at the k-th hit. */
  lemma {:induction false} CollectAtHits<C, T, U>(s: seq<T>, ctx: C, f: (C, T, nat) -> Option<U>, from: nat)
    requires from <= |s|
    ensures |Collect(s, ctx, f, from)| == |Hits(s, ctx, f, from)|
    ensures forall k :: 0 <= k < |Hits(s, ctx, f, from)| ==>
      Collect(s, ctx, f, from)[k] == f(ctx, s[Hits(s, ctx, f, from)[k]], Hits(s, ctx, f, from)[k]).value
    decreases |s| - from
  {
    if from < |s| {
      CollectAtHits(s, ctx, f, from + 1);
      var c, h := Collect(s, ctx, f, from), Hits(s, ctx, f, from);
      var c', h' := Collect(s, ctx, f, from + 1), Hits(s, ctx, f, from + 1);
      if f(ctx, s[from], from).Some? {
        assert c == [f(ctx, s[from], from).value] + c';
        assert h == [from] + h';
        forall k | 0 <= k < |h| ensures c[k] == f(ctx, s[h[k]], h[k]).value {
          if k > 0 {
            assert c[k] == c'[k - 1] && h[k] == h'[k - 1];
          }
        }
      } else {
        assert c == c' && h == h';
      }
    }
  }

  /** When `f` gives a result at every index, that is one result per index. */
  lemma {:induction false} CollectTotal<C, T, U>(s: seq<T>, ctx: C, f: (C, T, nat) -> Option<U>, from: nat)
    requires from <= |s|
    requires forall i :: from <= i < |s| ==> f(ctx, s[i], i).Some?
    ensures |Collect(s, ctx, f, from)| == |s| - from
    ensures forall i :: from <= i < |s| ==> Collect(s, ctx, f, from)[i - from] == f(ctx, s[i], i).value
    decreases |s| - from
  {
    if from < |s| {
      CollectTotal(s, ctx, f, from + 1);
    }
  }

  /** When `f` gives no result anywhere, nothing is collected. */
  lemma {:induction false} CollectNone<C, T, U>(s: seq<T>, ctx: C, f: (C, T, nat) -> Option<U>, from: nat)
    requires from <= |s|
    requires forall i :: from <= i < |s| ==> f(ctx, s[i], i).None?
    ensures Collect(s, ctx, f, from) == []
    decreases |s| - from
  {
    if from < |s| {
      CollectNone(s, ctx, f, from + 1);
    }
  }
}
