/**
 * Totals over a sequence that do not depend on its order: sums of weights, bags of contributions, and the
 * division of one sequence's elements between two others. The import planner and the staging audit state
 * their conditions with these, so that no listing order shows in them.
 */
module Gathering {

  function Sum<T>(xs: seq<T>, weight: T -> nat): nat {
    if xs == [] then 0 else weight(xs[0]) + Sum(xs[1..], weight)
  }

  function Gather<T, U>(xs: seq<T>, image: T -> multiset<U>): multiset<U> {
    if xs == [] then multiset{} else image(xs[0]) + Gather(xs[1..], image)
  }

  /** No element is there twice. */
  ghost predicate Once<U(!new)>(bag: multiset<U>) {
    forall u :: bag[u] <= 1
  }

  lemma {:induction false} SumAppends<T>(xs: seq<T>, ys: seq<T>, weight: T -> nat)
    ensures Sum(xs + ys, weight) == Sum(xs, weight) + Sum(ys, weight)
  {
    if xs == [] {
      assert xs + ys == ys;
    } else {
      SumAppends(xs[1..], ys, weight);
      assert (xs + ys)[1..] == xs[1..] + ys;
    }
  }

  lemma {:induction false} GatherAppends<T, U>(xs: seq<T>, ys: seq<T>, image: T -> multiset<U>)
    ensures Gather(xs + ys, image) == Gather(xs, image) + Gather(ys, image)
  {
    if xs == [] {
      assert xs + ys == ys;
    } else {
      GatherAppends(xs[1..], ys, image);
      assert (xs + ys)[1..] == xs[1..] + ys;
    }
  }

  lemma Extract<T>(xs: seq<T>, i: nat)
    requires i < |xs|
    ensures multiset(xs) == multiset{xs[i]} + multiset(xs[..i] + xs[i + 1..])
  {
    assert xs == xs[..i] + ([xs[i]] + xs[i + 1..]);
    assert multiset(xs[..i] + ([xs[i]] + xs[i + 1..])) == multiset(xs[..i]) + multiset([xs[i]]) + multiset(xs[i + 1..]);
  }

  lemma Cancel<T>(x: T, a: multiset<T>, b: multiset<T>)
    requires multiset{x} + a == multiset{x} + b
    ensures a == b
  {
    assert multiset{x} + a - multiset{x} == a;
    assert multiset{x} + b - multiset{x} == b;
  }

  /** The position of an element that a permutation moved. */
  lemma Located<T>(xs: seq<T>, ys: seq<T>) returns (i: nat)
    requires multiset(xs) == multiset(ys) && xs != []
    ensures i < |ys| && ys[i] == xs[0]
    ensures multiset(xs[1..]) == multiset(ys[..i] + ys[i + 1..])
  {
    assert xs[0] in multiset(ys);
    i :| 0 <= i < |ys| && ys[i] == xs[0];
    Extract(ys, i);
    Extract(xs, 0);
    assert xs[..0] + xs[0 + 1..] == xs[1..];
    Cancel(xs[0], multiset(xs[1..]), multiset(ys[..i] + ys[i + 1..]));
  }

  lemma EmptyPermutation<T>(xs: seq<T>, ys: seq<T>)
    requires multiset(xs) == multiset(ys) && xs == []
    ensures ys == []
  {
    assert |multiset(ys)| == |multiset(xs)| == 0;
  }

  lemma {:induction false} SumSplits<T>(xs: seq<T>, i: nat, weight: T -> nat)
    requires i < |xs|
    ensures Sum(xs, weight) == weight(xs[i]) + Sum(xs[..i] + xs[i + 1..], weight)
  {
    SumAppends(xs[..i], xs[i + 1..], weight);
    SumAppends(xs[..i], xs[i..], weight);
    assert xs[..i] + xs[i..] == xs && xs[i..][1..] == xs[i + 1..];
  }

  lemma {:induction false} GatherSplits<T, U>(xs: seq<T>, i: nat, image: T -> multiset<U>)
    requires i < |xs|
    ensures Gather(xs, image) == image(xs[i]) + Gather(xs[..i] + xs[i + 1..], image)
  {
    GatherAppends(xs[..i], xs[i + 1..], image);
    GatherAppends(xs[..i], xs[i..], image);
    assert xs[..i] + xs[i..] == xs && xs[i..][1..] == xs[i + 1..];
  }

  lemma {:induction false} SumPermutes<T>(xs: seq<T>, ys: seq<T>, weight: T -> nat)
    requires multiset(xs) == multiset(ys)
    ensures Sum(xs, weight) == Sum(ys, weight)
  {
    if xs == [] {
      EmptyPermutation(xs, ys);
    } else {
      var i := Located(xs, ys);
      SumPermutes(xs[1..], ys[..i] + ys[i + 1..], weight);
      SumSplits(ys, i, weight);
    }
  }

  lemma {:induction false} GatherPermutes<T, U>(xs: seq<T>, ys: seq<T>, image: T -> multiset<U>)
    requires multiset(xs) == multiset(ys)
    ensures Gather(xs, image) == Gather(ys, image)
  {
    if xs == [] {
      EmptyPermutation(xs, ys);
    } else {
      var i := Located(xs, ys);
      GatherPermutes(xs[1..], ys[..i] + ys[i + 1..], image);
      GatherSplits(ys, i, image);
    }
  }

  function Count<T(==)>(xs: seq<T>, x: T): nat {
    multiset(xs)[x]
  }

  /** The elements of `all` are those of `some` and those of `rest`. */
  ghost predicate Parts<T(!new)>(all: seq<T>, some: seq<T>, rest: seq<T>) {
    forall x :: Count(all, x) == Count(some, x) + Count(rest, x)
  }

  lemma PartsBags<T(!new)>(all: seq<T>, some: seq<T>, rest: seq<T>)
    ensures Parts(all, some, rest) <==> multiset(all) == multiset(some) + multiset(rest)
  {
    assert multiset(all) == multiset(some) + multiset(rest) ==>
      forall x :: Count(all, x) == (multiset(some) + multiset(rest))[x];
    if Parts(all, some, rest) {
      forall x
        ensures multiset(all)[x] == (multiset(some) + multiset(rest))[x]
      {
        assert Count(all, x) == Count(some, x) + Count(rest, x);
      }
    }
  }

  lemma PartsLength<T(!new)>(all: seq<T>, some: seq<T>, rest: seq<T>)
    requires Parts(all, some, rest)
    ensures |all| == |some| + |rest|
  {
    PartsBags(all, some, rest);
    assert |multiset(all)| == |multiset(some) + multiset(rest)|;
  }

  lemma PartsPermute<T(!new)>(all: seq<T>, some: seq<T>, rest: seq<T>)
    requires Parts(all, some, rest)
    ensures multiset(all) == multiset(some + rest)
  {
    PartsBags(all, some, rest);
  }

  lemma CountAppends<T>(xs: seq<T>, ys: seq<T>, x: T)
    ensures Count(xs + ys, x) == Count(xs, x) + Count(ys, x)
  {
  }

  /** `one` joins the first part and `more` the second. */
  lemma PartsGrow<T(!new)>(one: seq<T>, more: seq<T>, all: seq<T>, some: seq<T>, rest: seq<T>)
    requires Parts(all, some, rest)
    ensures Parts(one + more + all, one + some, more + rest)
  {
    forall x
      ensures Count(one + more + all, x) == Count(one + some, x) + Count(more + rest, x)
    {
      CountAppends(one + more, all, x);
      CountAppends(one, more, x);
      CountAppends(one, some, x);
      CountAppends(more, rest, x);
    }
  }

  lemma PartsUnder<T(!new)>(more: seq<T>, all: seq<T>, some: seq<T>, rest: seq<T>)
    requires Parts(all, some, rest)
    ensures Parts(more + all, some, more + rest)
  {
    forall x
      ensures Count(more + all, x) == Count(some, x) + Count(more + rest, x)
    {
      CountAppends(more, all, x);
      CountAppends(more, rest, x);
    }
  }

  /** Part of `rest` moves over to `some`. */
  lemma PartsMove<T(!new)>(all: seq<T>, some: seq<T>, rest: seq<T>, moved: seq<T>, left: seq<T>)
    requires Parts(all, some, rest) && Parts(rest, moved, left)
    ensures Parts(all, some + moved, left)
  {
    forall x
      ensures Count(all, x) == Count(some + moved, x) + Count(left, x)
    {
      CountAppends(some, moved, x);
    }
  }

  lemma {:induction false} GatherHas<T, U>(xs: seq<T>, image: T -> multiset<U>, i: nat, u: U)
    requires i < |xs| && u in image(xs[i])
    ensures u in Gather(xs, image)
  {
    if i > 0 {
      GatherHas(xs[1..], image, i - 1, u);
    }
  }

  lemma {:induction false} GatherFrom<T, U>(xs: seq<T>, image: T -> multiset<U>, u: U) returns (i: nat)
    requires u in Gather(xs, image)
    ensures i < |xs| && u in image(xs[i])
  {
    if u in image(xs[0]) {
      i := 0;
    } else {
      var j := GatherFrom(xs[1..], image, u);
      i := j + 1;
    }
  }
}
