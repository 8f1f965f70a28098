/** Sequence helpers the loops of the roster scripts are proved against:
    mapping every element in order, with or without failure, and
    concatenating what each element yields */
module Seqs {
  import opened Wrappers

  /** `f` applied to every element, in order */
  function Map<A, B>(xs: seq<A>, f: A -> B): (r: seq<B>)
    ensures |r| == |xs|
  {
    if xs == [] then [] else Map(xs[..|xs| - 1], f) + [f(xs[|xs| - 1])]
  }

  /** Mapping one more element appends its image */
  lemma MapSnoc<A, B>(xs: seq<A>, i: nat, f: A -> B)
    requires i < |xs|
    ensures Map(xs[..i + 1], f) == Map(xs[..i], f) + [f(xs[i])]
  {
    assert xs[..i + 1][..i] == xs[..i];
  }

  /** The k-th result is `f` of the k-th element */
  lemma {:induction false} MapMeaning<A, B>(xs: seq<A>, f: A -> B)
    ensures forall k :: 0 <= k < |xs| ==> Map(xs, f)[k] == f(xs[k])
    decreases |xs|
  {
    if xs != [] {
      var init := xs[..|xs| - 1];
      MapMeaning(init, f);
      assert forall k :: 0 <= k < |init| ==> init[k] == xs[k];
    }
  }

  /** The concatenation of `f` of every element, in order */
  function FlatMap<A, B>(xs: seq<A>, f: A -> seq<B>): seq<B> {
    if xs == [] then [] else FlatMap(xs[..|xs| - 1], f) + f(xs[|xs| - 1])
  }

  /** One more element appends what it yields */
  lemma FlatMapSnoc<A, B>(xs: seq<A>, x: A, f: A -> seq<B>)
    ensures FlatMap(xs + [x], f) == FlatMap(xs, f) + f(x)
  {
    assert (xs + [x])[..|xs|] == xs;
  }

  /** The same, for a prefix growing by one element */
  lemma FlatMapStep<A, B>(xs: seq<A>, i: nat, f: A -> seq<B>)
    requires i < |xs|
    ensures FlatMap(xs[..i + 1], f) == FlatMap(xs[..i], f) + f(xs[i])
  {
    assert xs[..i + 1][..i] == xs[..i];
  }

  /** Elements are treated independently: the result for a concatenation is
      the concatenation of the results */
  lemma {:induction false} FlatMapAppend<A, B>(a: seq<A>, b: seq<A>, f: A -> seq<B>)
    ensures FlatMap(a + b, f) == FlatMap(a, f) + FlatMap(b, f)
    decreases |b|
  {
    if b == [] {
      assert a + b == a;
    } else {
      var init, x := b[..|b| - 1], b[|b| - 1];
      assert a + b == (a + init) + [x];
      assert b == init + [x];
      FlatMapSnoc(a + init, x, f);
      FlatMapSnoc(init, x, f);
      FlatMapAppend(a, init, f);
      AppendAssoc(FlatMap(a, f), FlatMap(init, f), f(x));
    }
  }

  /** Concatenation is associative */
  lemma AppendAssoc<T>(a: seq<T>, b: seq<T>, c: seq<T>)
    ensures (a + b) + c == a + (b + c)
  {
  }

  /** `f` applied to every element in order, or None as soon as one
      application fails (a loop that stops at the first exception) */
  function AllSome<A, B>(xs: seq<A>, f: A -> Option<B>): Option<seq<B>> {
    if xs == [] then Some([])
    else
      match AllSome(xs[..|xs| - 1], f)
      case None => None
      case Some(ys) =>
        match f(xs[|xs| - 1])
        case None => None
        case Some(y) => Some(ys + [y])
  }

  /** Mapping one more element */
  lemma AllSomeSnoc<A, B>(xs: seq<A>, i: nat, f: A -> Option<B>)
    requires i < |xs|
    ensures AllSome(xs[..i + 1], f) ==
      match AllSome(xs[..i], f)
      case None => None
      case Some(ys) =>
        match f(xs[i])
        case None => None
        case Some(y) => Some(ys + [y])
  {
    assert xs[..i + 1][..i] == xs[..i];
  }

  /** The map fails exactly when some element fails, and otherwise its k-th
      result is `f` of the k-th element */
  lemma {:induction false} AllSomeMeaning<A, B>(xs: seq<A>, f: A -> Option<B>)
    ensures AllSome(xs, f).None? <==> exists k :: 0 <= k < |xs| && f(xs[k]).None?
    ensures AllSome(xs, f).Some? ==> |AllSome(xs, f).value| == |xs|
    ensures AllSome(xs, f).Some? ==> forall k :: 0 <= k < |xs| ==> f(xs[k]) == Some(AllSome(xs, f).value[k])
    decreases |xs|
  {
    if xs != [] {
      var init, last := xs[..|xs| - 1], xs[|xs| - 1];
      AllSomeMeaning(init, f);
      assert forall k :: 0 <= k < |init| ==> init[k] == xs[k];
      if AllSome(xs, f).None? {
        if AllSome(init, f).None? {
          var k :| 0 <= k < |init| && f(init[k]).None?;
          assert f(xs[k]).None?;
        } else {
          assert f(xs[|xs| - 1]).None?;
        }
      } else {
        var ys := AllSome(xs, f).value;
        var front := AllSome(init, f).value;
        assert ys == front + [f(last).value];
        forall k | 0 <= k < |xs| ensures f(xs[k]) == Some(ys[k]) {
          if k < |init| { assert ys[k] == front[k]; }
        }
      }
    }
  }
}
