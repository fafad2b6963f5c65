/** What the modules share: optional values, store calls that can fail, and counting the
    requests of a history that have some property. */
module Prelude {

  datatype Option<+T> = None | Some(value: T)

  /** How one store call ended. `Lost` is the case a retry has to live with: the write took
      effect, but its caller was told that it failed. */
  datatype Fault = Fine | Lost | Down

  function One(b: bool): nat {
    if b then 1 else 0
  }

  /** How many elements of `xs` satisfy `p`. */
  ghost function Count<T>(xs: seq<T>, p: T -> bool): nat
    decreases |xs|
  {
    if xs == [] then 0 else Count(xs[..|xs| - 1], p) + One(p(xs[|xs| - 1]))
  }

  lemma {:induction false} CountAfterUpdate<T>(xs: seq<T>, i: nat, x: T, p: T -> bool)
    requires i < |xs|
    ensures Count(xs[i := x], p) == Count(xs, p) - One(p(xs[i])) + One(p(x))
    decreases |xs|
  {
    var front := xs[..|xs| - 1];
    if i == |xs| - 1 {
      assert xs[i := x][..|xs| - 1] == front;
    } else {
      assert xs[i := x][..|xs| - 1] == front[i := x];
      CountAfterUpdate(front, i, x, p);
    }
  }

  lemma CountAfterAppend<T>(xs: seq<T>, x: T, p: T -> bool)
    ensures Count(xs + [x], p) == Count(xs, p) + One(p(x))
  {
    assert (xs + [x])[..|xs|] == xs;
  }

  lemma {:induction false} CountNone<T>(xs: seq<T>, p: T -> bool)
    requires forall x :: x in xs ==> !p(x)
    ensures Count(xs, p) == 0
    decreases |xs|
  {
    if xs != [] {
      CountNone(xs[..|xs| - 1], p);
    }
  }

  /** Fewer elements satisfy a stronger property. */
  lemma {:induction false} CountWithin<T>(xs: seq<T>, p: T -> bool, q: T -> bool)
    requires forall x :: x in xs && p(x) ==> q(x)
    ensures Count(xs, p) <= Count(xs, q)
    decreases |xs|
  {
    if xs != [] {
      CountWithin(xs[..|xs| - 1], p, q);
    }
  }

  /** A property split in two is counted in two. */
  lemma {:induction false} CountSplit<T>(xs: seq<T>, whole: T -> bool, p: T -> bool, q: T -> bool)
    requires forall x :: x in xs ==> One(whole(x)) == One(p(x)) + One(q(x))
    ensures Count(xs, whole) == Count(xs, p) + Count(xs, q)
    decreases |xs|
  {
    if xs != [] {
      CountSplit(xs[..|xs| - 1], whole, p, q);
    }
  }

  lemma {:induction false} CountPositive<T>(xs: seq<T>, i: nat, p: T -> bool)
    requires i < |xs| && p(xs[i])
    ensures Count(xs, p) >= 1
    decreases |xs|
  {
    if i < |xs| - 1 {
      CountPositive(xs[..|xs| - 1], i, p);
    }
  }

  /** A property counted at most once belongs to one position only. */
  lemma {:induction false} CountedOnce<T>(xs: seq<T>, p: T -> bool, i: nat, j: nat)
    requires Count(xs, p) <= 1 && i < |xs| && j < |xs| && p(xs[i]) && p(xs[j])
    ensures i == j
    decreases |xs|
  {
    var n := |xs| - 1;
    if i < n && j < n {
      CountedOnce(xs[..n], p, i, j);
    } else if i < n {
      CountPositive(xs[..n], i, p);
    } else if j < n {
      CountPositive(xs[..n], j, p);
    }
  }

  lemma SubsetSize<T>(a: set<T>, b: set<T>)
    requires a <= b
    ensures |a| <= |b|
  {
    assert b == a + (b - a);
  }

  lemma EqualBySize<T>(a: set<T>, b: set<T>)
    requires a <= b && |a| == |b|
    ensures a == b
  {
    assert b == a + (b - a);
  }

  // --- histories: `run` gives the state after each ---

  /** A step of the history that `p` holds of, with the state it was taken in. */
  ghost predicate Happened<S(!new), A(!new)>(run: seq<A> -> S, h: seq<A>, p: (S, A) -> bool) {
    exists k :: 0 <= k < |h| && p(run(h[..k]), h[k])
  }

  lemma HappenedGrows<S(!new), A(!new)>(run: seq<A> -> S, h: seq<A>, a: A, p: (S, A) -> bool)
    ensures Happened(run, h + [a], p) <==> Happened(run, h, p) || p(run(h), a)
  {
    var h' := h + [a];
    forall k | 0 <= k < |h| ensures h'[..k] == h[..k] && h'[k] == h[k] {
    }
    assert h'[..|h|] == h && h'[|h|] == a;
    if Happened(run, h, p) {
      var k :| 0 <= k < |h| && p(run(h[..k]), h[k]);
      assert p(run(h'[..k]), h'[k]);
    } else if p(run(h), a) {
      assert p(run(h'[..|h|]), h'[|h|]);
    }
  }

  /** The last value any step of the history wrote, if one did. */
  ghost function LastWritten<S, A, V>(run: seq<A> -> S, h: seq<A>, w: (S, A) -> Option<V>): Option<V>
    decreases |h|
  {
    if h == [] then None
    else
      var now := w(run(h[..|h| - 1]), h[|h| - 1]);
      if now.Some? then now else LastWritten(run, h[..|h| - 1], w)
  }
}
