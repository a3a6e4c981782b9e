/** Option and Result, the failure channels used throughout the model.
    `Panic` stands for a Rust panic (an `unwrap` on `None`/`Err`, an
    integer underflow, an explicit `panic!`/`assert!`). */
module Wrappers {

  datatype Option<+T> = None | Some(value: T)

  datatype Result<+T> = Ok(value: T) | Panic(why: string)

  /** `map(f).collect()` over a fallible `f`: panics iff some element does,
      otherwise the results in order. */
  function MapAll<A, B>(f: A -> Result<B>, xs: seq<A>): (r: Result<seq<B>>)
    ensures r.Panic? <==> exists k :: 0 <= k < |xs| && f(xs[k]).Panic?
    ensures r.Ok? ==> |r.value| == |xs| && forall k :: 0 <= k < |xs| ==> f(xs[k]) == Ok(r.value[k])
  {
    if xs == [] then Ok([])
    else
      var rest := MapAll(f, xs[1..]);
      assert forall k :: 1 <= k < |xs| ==> xs[k] == xs[1..][k - 1];
      match f(xs[0])
      case Panic(why) => Panic(why)
      case Ok(y) =>
        match rest
        case Panic(why) => Panic(why)
        case Ok(ys) => Ok([y] + ys)
  }

  /** `MapAll` over a list extended at the end. */
  lemma {:induction false} MapAllSnoc<A, B>(f: A -> Result<B>, xs: seq<A>, x: A)
    ensures MapAll(f, xs + [x]).Ok? <==> MapAll(f, xs).Ok? && f(x).Ok?
    ensures MapAll(f, xs + [x]).Ok? ==> MapAll(f, xs + [x]).value == MapAll(f, xs).value + [f(x).value]
  {
    var ys := xs + [x];
    if xs != [] {
      assert ys[1..] == xs[1..] + [x];
      MapAllSnoc(f, xs[1..], x);
    } else {
      assert ys[1..] == [];
    }
  }

  /** A running `sum += f(x)` over `xs` where each `f(x)` may panic: panics
      iff some element does. */
  function SumAll<A>(f: A -> Result<nat>, xs: seq<A>): (r: Result<nat>)
    ensures r.Panic? <==> exists k :: 0 <= k < |xs| && f(xs[k]).Panic?
  {
    if xs == [] then Ok(0)
    else
      var pre := xs[..|xs| - 1];
      assert forall k :: 0 <= k < |pre| ==> pre[k] == xs[k];
      match SumAll(f, pre)
      case Panic(why) => Panic(why)
      case Ok(s) =>
        match f(xs[|xs| - 1])
        case Panic(why) => Panic(why)
        case Ok(v) => Ok(s + v)
  }

  /** One more element summed. */
  lemma SumAllSnoc<A>(f: A -> Result<nat>, xs: seq<A>, i: nat, s: nat, v: nat)
    requires i < |xs| && SumAll(f, xs[..i]).Ok? && SumAll(f, xs[..i]).value == s
    requires f(xs[i]).Ok? && f(xs[i]).value == v
    ensures SumAll(f, xs[..i + 1]).Ok? && SumAll(f, xs[..i + 1]).value == s + v
  {
    assert xs[..i + 1][..i] == xs[..i];
  }

  /** The first panicking element decides the panic of the whole run:
      the sum stops there with that element's message. */
  lemma {:induction false} SumAllFirstPanic<A>(f: A -> Result<nat>, xs: seq<A>, i: nat)
    requires i < |xs| && SumAll(f, xs[..i]).Ok? && f(xs[i]).Panic?
    ensures SumAll(f, xs) == Panic(f(xs[i]).why)
    decreases |xs|
  {
    var pre := xs[..|xs| - 1];
    if |xs| == i + 1 {
      assert pre == xs[..i];
    } else {
      assert pre[..i] == xs[..i];
      assert pre[i] == xs[i];
      SumAllFirstPanic(f, pre, i);
    }
  }

  /** No element of `s` occurs twice. */
  predicate NoDuplicates<T(==)>(s: seq<T>)
  {
    forall i, j :: 0 <= i < j < |s| ==> s[i] != s[j]
  }
}
