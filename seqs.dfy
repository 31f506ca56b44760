/** Sequence helpers shared by the analysis functions. */
module Seqs {

  lemma Assoc<T>(a: seq<T>, b: seq<T>, c: seq<T>)
    ensures a + (b + c) == (a + b) + c
  {
  }

  /** The middle and the end of a + b + c, cut out again. */
  lemma ThreeParts<T>(a: seq<T>, b: seq<T>, c: seq<T>)
    ensures (a + b + c)[|a|..|a| + |b|] == b
    ensures (a + b + c)[|a| + |b|..] == c
  {
  }

  /** Slices of a + t that end inside a are slices of a. */
  lemma AppendSlices<T>(a: seq<T>, t: seq<T>, i: nat, j: nat)
    requires i <= j <= |a|
    ensures (a + t)[i..j] == a[i..j]
    ensures (a + t)[j..] == a[j..] + t
  {
  }

  /** s cut at i and j and put back together. */
  lemma Reassemble<T>(s: seq<T>, i: nat, j: nat)
    requires i <= j <= |s|
    ensures s == s[..i] + s[i..j] + s[j..]
  {
  }

  /** The results of f on each element of xs, concatenated in order. */
  function FlatMap<A, B>(f: A -> seq<B>, xs: seq<A>): seq<B> {
    if xs == [] then [] else FlatMap(f, xs[..|xs| - 1]) + f(xs[|xs| - 1])
  }

  lemma {:induction false} FlatMapAppend<A, B>(f: A -> seq<B>, a: seq<A>, b: seq<A>)
    ensures FlatMap(f, a + b) == FlatMap(f, a) + FlatMap(f, b)
    decreases |b|
  {
    if b == [] {
      assert a + b == a;
    } else {
      var b' := b[..|b| - 1];
      assert (a + b)[..|a + b| - 1] == a + b';
      assert (a + b)[|a + b| - 1] == b[|b| - 1];
      FlatMapAppend(f, a, b');
      Assoc(FlatMap(f, a), FlatMap(f, b'), f(b[|b| - 1]));
    }
  }

  lemma {:induction false} FlatMapNonEmpty<A, B>(f: A -> seq<B>, xs: seq<A>)
    ensures FlatMap(f, xs) != [] <==> exists j :: 0 <= j < |xs| && f(xs[j]) != []
    decreases |xs|
  {
    if xs != [] {
      var init, last := xs[..|xs| - 1], xs[|xs| - 1];
      FlatMapNonEmpty(f, init);
      assert FlatMap(f, xs) == FlatMap(f, init) + f(last);
      if exists j :: 0 <= j < |init| && f(init[j]) != [] {
        var j :| 0 <= j < |init| && f(init[j]) != [];
        assert xs[j] == init[j];
      }
      if exists j :: 0 <= j < |xs| && f(xs[j]) != [] {
        var j :| 0 <= j < |xs| && f(xs[j]) != [];
        if j < |init| {
          assert xs[j] == init[j];
        }
      }
    }
  }

  /** Every element of FlatMap(f, xs) comes from f applied to some element of xs. */
  lemma {:induction false} FlatMapFrom<A, B>(f: A -> seq<B>, xs: seq<A>)
    ensures forall y :: y in FlatMap(f, xs) ==> exists j :: 0 <= j < |xs| && y in f(xs[j])
    decreases |xs|
  {
    if xs != [] {
      var init := xs[..|xs| - 1];
      FlatMapFrom(f, init);
      assert FlatMap(f, xs) == FlatMap(f, init) + f(xs[|xs| - 1]);
      forall y | y in FlatMap(f, xs)
        ensures exists j :: 0 <= j < |xs| && y in f(xs[j])
      {
        if y in FlatMap(f, init) {
          var j :| 0 <= j < |init| && y in f(init[j]);
          assert init[j] == xs[j];
        }
      }
    }
  }
}
