/** The iterator pipeline `iter.filter_map(f).collect::<Vec<_>>()`, read sequentially.
    Rayon's `into_par_iter().filter_map(..).collect()` produces the same vector, so it is
    modelled by the same function. */
module Iter {
  import opened Prelude

  /** Every element of `s` is in the domain of the (possibly panicking) closure `f`. */
  ghost predicate Callable<A, B>(s: seq<A>, f: A --> Option<B>) {
    forall i :: 0 <= i < |s| ==> f.requires(s[i])
  }

  /** `s.filter_map(f).collect()`: the `Some` results of `f`, in the order of `s`. */
  function FilterMap<A, B>(s: seq<A>, f: A --> Option<B>): (r: seq<B>)
    requires Callable(s, f)
    ensures |r| <= |s|
    decreases |s|
  {
    if s == [] then []
    else
      FilterMap(s[..|s| - 1], f) + match f(s[|s| - 1]) { case Some(b) => [b] case None => [] }
  }

  /** The indices of `s` at which `f` returns `Some`, in increasing order: these are the
      elements that survive `filter_map`. */
  function SomeIndices<A, B>(s: seq<A>, f: A --> Option<B>): (r: seq<nat>)
    requires Callable(s, f)
    ensures forall k :: 0 <= k < |r| ==> r[k] < |s|
    ensures forall a, b :: 0 <= a < b < |r| ==> r[a] < r[b]
    ensures forall i :: 0 <= i < |s| ==> (f(s[i]).Some? <==> i in r)
    decreases |s|
  {
    if s == [] then []
    else
      var n := |s| - 1;
      var prefix := SomeIndices(s[..n], f);
      assert forall i :: 0 <= i < n ==> s[..n][i] == s[i];
      prefix + if f(s[n]).Some? then [n] else []
  }

  /** `filter_map` keeps exactly the elements at `SomeIndices`, mapped through `f`, in order. */
  lemma {:induction false} FilterMapSelects<A, B>(s: seq<A>, f: A --> Option<B>)
    requires Callable(s, f)
    ensures |FilterMap(s, f)| == |SomeIndices(s, f)|
    ensures forall k :: 0 <= k < |FilterMap(s, f)| ==>
              f(s[SomeIndices(s, f)[k]]) == Some(FilterMap(s, f)[k])
    decreases |s|
  {
    if s != [] {
      var n := |s| - 1;
      var p := s[..n];
      FilterMapSelects(p, f);
      var r, idx := FilterMap(s, f), SomeIndices(s, f);
      var rp, ip := FilterMap(p, f), SomeIndices(p, f);
      assert r[..|rp|] == rp && idx[..|ip|] == ip;
      forall k | 0 <= k < |r|
        ensures f(s[idx[k]]) == Some(r[k])
      {
        if k < |rp| {
          assert idx[k] == ip[k] && r[k] == rp[k];
          assert s[ip[k]] == p[ip[k]];
        } else {
          assert idx[k] == n;
        }
      }
    }
  }

  /** A closure that never returns `None` makes `filter_map` a one-to-one, order-preserving map. */
  lemma {:induction false} FilterMapAllSome<A, B>(s: seq<A>, f: A --> Option<B>)
    requires Callable(s, f)
    requires forall i :: 0 <= i < |s| ==> f(s[i]).Some?
    ensures |FilterMap(s, f)| == |s|
    ensures forall k :: 0 <= k < |s| ==> FilterMap(s, f)[k] == f(s[k]).value
    decreases |s|
  {
    if s != [] {
      var n := |s| - 1;
      assert forall i :: 0 <= i < n ==> s[..n][i] == s[i];
      FilterMapAllSome(s[..n], f);
    }
  }

  /** `filter_map` distributes over concatenation: each element is decided on its own. */
  lemma {:induction false} FilterMapAppend<A, B>(a: seq<A>, b: seq<A>, f: A --> Option<B>)
    requires Callable(a, f) && Callable(b, f)
    ensures Callable(a + b, f)
    ensures FilterMap(a + b, f) == FilterMap(a, f) + FilterMap(b, f)
    decreases |b|
  {
    assert forall i :: 0 <= i < |a + b| ==> (a + b)[i] == if i < |a| then a[i] else b[i - |a|];
    if b == [] {
      assert a + b == a;
    } else {
      var n := |b| - 1;
      assert forall i :: 0 <= i < n ==> b[..n][i] == b[i];
      FilterMapAppend(a, b[..n], f);
      assert (a + b)[..|a + b| - 1] == a + b[..n];
      assert (a + b)[|a + b| - 1] == b[n];
    }
  }
}
