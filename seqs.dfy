/** Facts about sequences that the line-by-line and record-by-record loops share. */
module Seqs {
  import opened Wrappers

  /** Splitting off the last element of a concatenation with a non-empty right part. */
  lemma LastOfAppend<T>(a: seq<T>, b: seq<T>)
    requires |b| > 0
    ensures (a + b)[..|a + b| - 1] == a + b[..|b| - 1]
    ensures (a + b)[|a + b| - 1] == b[|b| - 1]
  {
  }

  /** What `f` gives for the elements of `xs`, in order, skipping those it gives nothing for. */
  function Gather<T, U>(f: T -> Option<U>, xs: seq<T>): (ys: seq<U>)
    ensures |ys| <= |xs|
    decreases |xs|
  {
    if xs == [] then []
    else
      var init := Gather(f, xs[..|xs| - 1]);
      match f(xs[|xs| - 1])
      case Some(y) => init + [y]
      case None => init
  }

  /** Gathering distributes over concatenation: what is gathered keeps the order of the elements. */
  lemma {:induction false} GatherAppend<T, U>(f: T -> Option<U>, a: seq<T>, b: seq<T>)
    ensures Gather(f, a + b) == Gather(f, a) + Gather(f, b)
    decreases |b|
  {
    if b == [] {
      assert a + b == a;
    } else {
      LastOfAppend(a, b);
      GatherAppend(f, a, b[..|b| - 1]);
    }
  }

  /** One more element adds what `f` gives for it, if anything, at the end. */
  lemma GatherSnoc<T, U>(f: T -> Option<U>, xs: seq<T>, x: T)
    ensures Gather(f, xs + [x]) == Gather(f, xs) + (if f(x).Some? then [f(x).value] else [])
  {
    assert (xs + [x])[..|xs|] == xs;
  }

  /** Everything gathered is what `f` gives for some element. */
  lemma {:induction false} GatherFrom<T, U>(f: T -> Option<U>, xs: seq<T>, y: U)
    requires y in Gather(f, xs)
    ensures exists i :: 0 <= i < |xs| && f(xs[i]) == Some(y)
    decreases |xs|
  {
    var init := xs[..|xs| - 1];
    if y in Gather(f, init) {
      GatherFrom(f, init, y);
      var i :| 0 <= i < |init| && f(init[i]) == Some(y);
      assert xs[i] == init[i];
    } else {
      assert f(xs[|xs| - 1]) == Some(y);
    }
  }

  /** The position of the first element `p` holds of, or the length when it holds of none. */
  function FirstWhere<T>(p: T -> bool, xs: seq<T>): (n: nat)
    ensures n <= |xs|
    ensures forall j :: 0 <= j < n ==> !p(xs[j])
    ensures n < |xs| ==> p(xs[n])
    decreases |xs|
  {
    if xs == [] || p(xs[0]) then 0
    else
      var n := FirstWhere(p, xs[1..]);
      assert forall j :: 1 <= j < n + 1 ==> xs[j] == xs[1..][j - 1];
      n + 1
  }

  /** The first position is unique: one with `p` false before it and true at it (or at the end) is that position. */
  lemma FirstWhereAt<T>(p: T -> bool, xs: seq<T>, n: nat)
    requires n <= |xs|
    requires forall j :: 0 <= j < n ==> !p(xs[j])
    requires n < |xs| ==> p(xs[n])
    ensures FirstWhere(p, xs) == n
  {
  }

  /** Before the first position, one more element `p` does not hold of moves it on; one it holds of is the first. */
  lemma FirstWhereStep<T>(p: T -> bool, xs: seq<T>, n: int)
    requires 0 <= n < |xs|
    requires forall j :: 0 <= j < n ==> !p(xs[j])
    ensures !p(xs[n]) ==> forall j :: 0 <= j < n + 1 ==> !p(xs[j])
    ensures p(xs[n]) ==> FirstWhere(p, xs) == n
  {
    if p(xs[n]) {
      FirstWhereAt(p, xs, n);
    }
  }

  /** Gathering one element further along a sequence. */
  lemma GatherStep<T, U>(f: T -> Option<U>, xs: seq<T>, n: int)
    requires 0 <= n < |xs|
    ensures Gather(f, xs[..n + 1]) == Gather(f, xs[..n]) + (if f(xs[n]).Some? then [f(xs[n]).value] else [])
  {
    assert xs[..n + 1] == xs[..n] + [xs[n]];
    GatherSnoc(f, xs[..n], xs[n]);
  }
}
