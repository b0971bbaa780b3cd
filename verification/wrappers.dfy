/** Failure-carrying wrappers shared by the router model. */
module Wrappers {

  /** A value that may be absent (JavaScript's `undefined`/`null`). */
  datatype Option<+T> = None | Some(value: T)

  /** A computation that either produced a value or failed with an error. */
  datatype Result<+T, +E> = Success(value: T) | Failure(error: E)

  /** The values `f` gives for the elements of `xs`, in order; an element it gives none for is skipped. */
  function Kept<A, B>(f: A -> Option<B>, xs: seq<A>): (r: seq<B>)
    ensures |r| <= |xs|
  {
    if xs == [] then []
    else (if f(xs[0]).Some? then [f(xs[0]).value] else []) + Kept(f, xs[1..])
  }

  /** Nothing is kept exactly when `f` gives no value for any element. */
  lemma {:induction false} KeptEmpty<A, B>(f: A -> Option<B>, xs: seq<A>)
    ensures Kept(f, xs) == [] <==> forall k :: 0 <= k < |xs| ==> f(xs[k]).None?
    decreases |xs|
  {
    if xs != [] {
      KeptEmpty(f, xs[1..]);
      assert forall k :: 1 <= k < |xs| ==> xs[k] == xs[1..][k - 1];
    }
  }

  /** Every kept value is the value `f` gives for some element. */
  lemma {:induction false} KeptFrom<A, B>(f: A -> Option<B>, xs: seq<A>, j: nat)
    requires j < |Kept(f, xs)|
    ensures exists k :: 0 <= k < |xs| && f(xs[k]) == Some(Kept(f, xs)[j])
    decreases |xs|
  {
    var head := if f(xs[0]).Some? then [f(xs[0]).value] else [];
    var r := Kept(f, xs);
    assert r == head + Kept(f, xs[1..]);
    if j < |head| {
      assert f(xs[0]) == Some(r[j]);
    } else {
      KeptFrom(f, xs[1..], j - |head|);
      var k :| 0 <= k < |xs[1..]| && f(xs[1..][k]) == Some(Kept(f, xs[1..])[j - |head|]);
      assert xs[1..][k] == xs[k + 1];
      assert f(xs[k + 1]) == Some(r[j]);
    }
  }

  /** When `f` gives a value for every element, those values are kept, all of them and in order. */
  lemma {:induction false} KeptEach<A, B>(f: A -> Option<B>, xs: seq<A>, ys: seq<B>)
    requires |xs| == |ys|
    requires forall i :: 0 <= i < |xs| ==> f(xs[i]) == Some(ys[i])
    ensures Kept(f, xs) == ys
    decreases |xs|
  {
    if xs != [] {
      assert forall i :: 0 <= i < |xs[1..]| ==> xs[1..][i] == xs[i + 1] && ys[1..][i] == ys[i + 1];
      KeptEach(f, xs[1..], ys[1..]);
      assert [ys[0]] + ys[1..] == ys;
    }
  }
  /** Every value `f` gives for an element is kept. */
  lemma {:induction false} KeptHas<A, B>(f: A -> Option<B>, xs: seq<A>, k: nat)
    requires k < |xs| && f(xs[k]).Some?
    ensures f(xs[k]).value in Kept(f, xs)
    decreases |xs|
  {
    if k > 0 {
      KeptHas(f, xs[1..], k - 1);
      assert xs[1..][k - 1] == xs[k];
    }
  }

  /** Keeping distributes over concatenation, so the kept values keep their order. */
  lemma {:induction false} KeptAppend<A, B>(f: A -> Option<B>, xs: seq<A>, ys: seq<A>)
    ensures Kept(f, xs + ys) == Kept(f, xs) + Kept(f, ys)
    decreases |xs|
  {
    if xs != [] {
      assert (xs + ys)[0] == xs[0];
      assert (xs + ys)[1..] == xs[1..] + ys;
      KeptAppend(f, xs[1..], ys);
    } else {
      assert xs + ys == ys;
    }
  }
}
