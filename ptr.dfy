/**
 * The pointer helpers of ptr.go: P wraps a value, PS wraps every element of a
 * slice, F unwraps (giving the zero value for nil) and FS keeps the non-nil
 * elements of a slice of pointers, unwrapped.
 *
 * Go's implicit zero value of `T` is passed to F explicitly as `zero`.
 */
module Ptr {
  import opened Wrappers

  /** P: a pointer to (a copy of) `v`. */
  function P<T>(v: T): (p: Option<T>)
    ensures p != None
  {
    Some(v)
  }

  /** F: the pointee, or the zero value of the type when `p` is nil. */
  function F<T>(p: Option<T>, zero: T): T {
    match p
    case Some(v) => v
    case None => zero
  }

  /** Unwrapping what P wrapped gives the original value back. */
  lemma FOfP<T>(v: T, zero: T)
    ensures F(P(v), zero) == v
  {
  }

  /** F of nil is the zero value. */
  lemma FOfNil<T>(zero: T)
    ensures F(None, zero) == zero
  {
  }

  /**
   * The dereferenced non-nil elements of `ps`, in their original order. This is
   * the reference definition of FS; it peels the last element so that it
   * follows FS's loop.
   */
  function Present<T>(ps: seq<Option<T>>): (xs: seq<T>)
    ensures |xs| <= |ps|
  {
    if ps == [] then []
    else
      var rest := Present(ps[..|ps| - 1]);
      match ps[|ps| - 1]
      case Some(x) => rest + [x]
      case None => rest
  }

  /** PS: a slice of pointers, one per element of `xs`, each to that element. */
  method PS<T>(xs: seq<T>) returns (ps: seq<Option<T>>)
    ensures |ps| == |xs|
    ensures forall i :: 0 <= i < |ps| ==> ps[i] == P(xs[i])
  {
    var a := new Option<T>[|xs|](_ => None);
    for i := 0 to a.Length
      invariant forall j :: 0 <= j < i ==> a[j] == P(xs[j])
    {
      a[i] := P(xs[i]);
    }
    ps := a[..];
  }

  /** FS: the non-nil elements of `ps`, dereferenced, in order. */
  method FS<T(0)>(ps: seq<Option<T>>) returns (fs: seq<T>)
    ensures fs == Present(ps)
  {
    var zero: T := *;
    fs := [];
    for i := 0 to |ps|
      invariant fs == Present(ps[..i])
    {
      assert ps[..i + 1][..i] == ps[..i];
      if ps[i] == None {
        continue;
      }
      fs := fs + [F(ps[i], zero)];
    }
    assert ps[..|ps|] == ps;
  }

  /** Filtering distributes over concatenation: order is kept and nothing is invented. */
  lemma {:induction false} PresentAppend<T>(a: seq<Option<T>>, b: seq<Option<T>>)
    ensures Present(a + b) == Present(a) + Present(b)
    decreases |b|
  {
    if b == [] {
      assert a + b == a;
    } else {
      var b' := b[..|b| - 1];
      assert (a + b)[..|a + b| - 1] == a + b';
      PresentAppend(a, b');
    }
  }

  /** A value is kept exactly when some element of `ps` points to it. */
  lemma {:induction false} PresentMembers<T>(ps: seq<Option<T>>, x: T)
    ensures x in Present(ps) <==> Some(x) in ps
  {
    if ps != [] {
      var init := ps[..|ps| - 1];
      assert ps == init + [ps[|ps| - 1]];
      PresentMembers(init, x);
    }
  }

  /** An all-nil slice yields no values. */
  lemma {:induction false} PresentAllNil<T>(ps: seq<Option<T>>)
    requires forall i :: 0 <= i < |ps| ==> ps[i] == None
    ensures Present(ps) == []
  {
    if ps != [] {
      PresentAllNil(ps[..|ps| - 1]);
    }
  }

  /** FS undoes PS: unwrapping a slice of fresh pointers gives the slice back. */
  lemma {:induction false} PresentOfWrapped<T>(xs: seq<T>, ps: seq<Option<T>>)
    requires |ps| == |xs|
    requires forall i :: 0 <= i < |ps| ==> ps[i] == P(xs[i])
    ensures Present(ps) == xs
  {
    if ps != [] {
      var n := |ps| - 1;
      PresentOfWrapped(xs[..n], ps[..n]);
      assert xs == xs[..n] + [xs[n]];
    }
  }
}
