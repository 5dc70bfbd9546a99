// Weighted sums over lists and over lists of lists, and how they follow the
// elements when the same things are grouped differently.
module Sums {

  function Sum<T>(f: T -> real, xs: seq<T>): real {
    if xs == [] then 0.0 else Sum(f, xs[..|xs| - 1]) + f(xs[|xs| - 1])
  }

  function SumAll<T>(f: T -> real, groups: seq<seq<T>>): real {
    if groups == [] then 0.0
    else SumAll(f, groups[..|groups| - 1]) + Sum(f, groups[|groups| - 1])
  }

  function Flatten<T>(groups: seq<seq<T>>): seq<T> {
    if groups == [] then [] else Flatten(groups[..|groups| - 1]) + groups[|groups| - 1]
  }

  function Without<T>(xs: seq<T>, i: nat): (r: seq<T>)
    requires i < |xs|
    ensures multiset(r) == multiset(xs) - multiset{xs[i]}
  {
    assert xs == xs[..i] + [xs[i]] + xs[i + 1..];
    xs[..i] + xs[i + 1..]
  }

  lemma SumAppend<T>(f: T -> real, xs: seq<T>, x: T)
    ensures Sum(f, xs + [x]) == Sum(f, xs) + f(x)
  {
    assert (xs + [x])[..|xs|] == xs;
  }

  lemma WithoutLast<T>(xs: seq<T>)
    requires xs != []
    ensures Without(xs, |xs| - 1) == xs[..|xs| - 1]
  {
  }

  lemma WithoutEarlier<T>(xs: seq<T>, i: nat)
    requires i < |xs| - 1
    ensures Without(xs, i) == Without(xs[..|xs| - 1], i) + [xs[|xs| - 1]]
    ensures xs[..|xs| - 1][i] == xs[i]
  {
  }

  lemma {:induction false} SumWithout<T>(f: T -> real, xs: seq<T>, i: nat)
    requires i < |xs|
    ensures Sum(f, Without(xs, i)) == Sum(f, xs) - f(xs[i])
  {
    var k := |xs| - 1;
    if i == k {
      WithoutLast(xs);
    } else {
      SumWithout(f, xs[..k], i);
      WithoutEarlier(xs, i);
      SumAppend(f, Without(xs[..k], i), xs[k]);
    }
  }

  lemma {:induction false} SumAllUpdate<T>(f: T -> real, groups: seq<seq<T>>, s: nat, xs: seq<T>)
    requires s < |groups|
    ensures SumAll(f, groups[s := xs]) == SumAll(f, groups) - Sum(f, groups[s]) + Sum(f, xs)
  {
    var k := |groups| - 1;
    if s == k {
      assert groups[s := xs][..k] == groups[..k];
    } else {
      SumAllUpdate(f, groups[..k], s, xs);
      assert groups[s := xs][..k] == groups[..k][s := xs];
    }
  }

  // x added up n times: the product, kept linear for the proofs.
  function Times(n: nat, x: real): real {
    if n == 0 then 0.0 else Times(n - 1, x) + x
  }

  lemma {:induction false} TimesIsProduct(n: nat, x: real)
    ensures Times(n, x) == (n as real) * x
  {
    if n > 0 {
      TimesIsProduct(n - 1, x);
      assert (n as real) == ((n - 1) as real) + 1.0;
      assert (n as real) * x == ((n - 1) as real) * x + x;
    }
  }

  lemma {:induction false} TimesAdds(n: nat, x: real, y: real)
    ensures Times(n, x + y) == Times(n, x) + Times(n, y)
  {
    if n > 0 {
      TimesAdds(n - 1, x, y);
    }
  }

  lemma {:induction false} TimesMonotone(n: nat, x: real, y: real)
    requires x <= y
    ensures Times(n, x) <= Times(n, y)
  {
    if n > 0 {
      TimesMonotone(n - 1, x, y);
    }
  }

  lemma {:induction false} SumAllAtLeast<T>(f: T -> real, groups: seq<seq<T>>, lo: real)
    requires forall s :: 0 <= s < |groups| ==> lo <= Sum(f, groups[s])
    ensures Times(|groups|, lo) <= SumAll(f, groups)
  {
    if groups != [] {
      SumAllAtLeast(f, groups[..|groups| - 1], lo);
    }
  }

  lemma {:induction false} SumAllAtMost<T>(f: T -> real, groups: seq<seq<T>>, hi: real)
    requires forall s :: 0 <= s < |groups| ==> Sum(f, groups[s]) <= hi
    ensures SumAll(f, groups) <= Times(|groups|, hi)
  {
    if groups != [] {
      SumAllAtMost(f, groups[..|groups| - 1], hi);
    }
  }

  lemma {:induction false} SumNonNegative<T>(f: T -> real, xs: seq<T>)
    requires forall x :: x in xs ==> f(x) >= 0.0
    ensures Sum(f, xs) >= 0.0
  {
    if xs != [] {
      SumNonNegative(f, xs[..|xs| - 1]);
    }
  }

  lemma LastGroup<T>(groups: seq<seq<T>>, init: seq<seq<T>>, last: seq<T>)
    requires groups == init + [last]
    ensures multiset(Flatten(groups)) == multiset(Flatten(init)) + multiset(last)
  {
    assert groups[..|groups| - 1] == init;
  }

  lemma ReplacedLast<T>(init: multiset<T>, last: multiset<T>, xs: multiset<T>)
    ensures last <= init + last && init + xs == init + last - last + xs
  {
  }

  lemma ReplacedEarlier<T>(init: multiset<T>, out: multiset<T>, xs: multiset<T>, last: multiset<T>)
    requires out <= init
    ensures out <= init + last && init - out + xs + last == init + last - out + xs
  {
  }

  lemma UpdateParts<T>(groups: seq<seq<T>>, init: seq<seq<T>>, last: seq<T>, s: nat, xs: seq<T>)
    requires groups == init + [last] && s < |groups|
    ensures s == |init| ==> groups[s] == last && groups[s := xs] == init + [xs]
    ensures s < |init| ==> groups[s] == init[s] && groups[s := xs] == init[s := xs] + [last]
  {
  }

  // What one group is replaced by, in terms of all groups together.
  ghost predicate Replaces<T>(after: multiset<T>, before: multiset<T>, out: multiset<T>, xs: multiset<T>) {
    out <= before && after == before - out + xs
  }

  lemma {:induction false} FlattenReplaces<T>(groups: seq<seq<T>>, s: nat, xs: seq<T>)
    requires s < |groups|
    ensures Replaces(multiset(Flatten(groups[s := xs])), multiset(Flatten(groups)), multiset(groups[s]), multiset(xs))
  {
    var init, last := groups[..|groups| - 1], groups[|groups| - 1];
    UpdateParts(groups, init, last, s, xs);
    LastGroup(groups, init, last);
    if s == |init| {
      LastGroup(groups[s := xs], init, xs);
      ReplacedLast(multiset(Flatten(init)), multiset(last), multiset(xs));
    } else {
      FlattenReplaces(init, s, xs);
      LastGroup(groups[s := xs], init[s := xs], last);
      ReplacedEarlier(multiset(Flatten(init)), multiset(groups[s]), multiset(xs), multiset(last));
    }
  }

  lemma FlattenUpdate<T>(groups: seq<seq<T>>, s: nat, xs: seq<T>)
    requires s < |groups|
    ensures multiset(groups[s]) <= multiset(Flatten(groups))
    ensures multiset(Flatten(groups[s := xs])) == multiset(Flatten(groups)) - multiset(groups[s]) + multiset(xs)
  {
    FlattenReplaces(groups, s, xs);
  }

  lemma {:induction false} FlattenFind<T>(groups: seq<seq<T>>, x: T) returns (s: nat, i: nat)
    requires x in multiset(Flatten(groups))
    ensures s < |groups| && i < |groups[s]| && groups[s][i] == x
  {
    var k := |groups| - 1;
    if x in groups[k] {
      s := k;
      i :| 0 <= i < |groups[k]| && groups[k][i] == x;
    } else {
      assert x in Flatten(groups[..k]);
      s, i := FlattenFind(groups[..k], x);
    }
  }

  // Take one occurrence of x out of whichever group holds it.
  lemma TakeOut<T>(groups: seq<seq<T>>, x: T) returns (s: nat, i: nat, rest: seq<seq<T>>)
    requires x in multiset(Flatten(groups))
    ensures s < |groups| && i < |groups[s]| && groups[s][i] == x
    ensures rest == groups[s := Without(groups[s], i)]
    ensures multiset(Flatten(rest)) == multiset(Flatten(groups)) - multiset{x}
  {
    s, i := FlattenFind(groups, x);
    rest := groups[s := Without(groups[s], i)];
    FlattenUpdate(groups, s, Without(groups[s], i));
    assert x in multiset(groups[s]);
  }

  lemma GroupsOfNothing<T>(groups: seq<seq<T>>)
    requires multiset(Flatten(groups)) == multiset{}
    ensures forall s :: 0 <= s < |groups| ==> groups[s] == []
  {
    forall s | 0 <= s < |groups| ensures groups[s] == [] {
      FlattenUpdate(groups, s, groups[s]);
      assert |multiset(groups[s])| <= |multiset(Flatten(groups))|;
    }
  }

  lemma SumAllOfNothing<T>(f: T -> real, groups: seq<seq<T>>)
    requires forall s :: 0 <= s < |groups| ==> groups[s] == []
    ensures SumAll(f, groups) == 0.0
  {
    SumAllAtLeast(f, groups, 0.0);
    SumAllAtMost(f, groups, 0.0);
    TimesIsProduct(|groups|, 0.0);
  }

  lemma SumAllTakeOut<T>(f: T -> real, groups: seq<seq<T>>, s: nat, i: nat)
    requires s < |groups| && i < |groups[s]|
    ensures SumAll(f, groups[s := Without(groups[s], i)]) == SumAll(f, groups) - f(groups[s][i])
  {
    SumAllUpdate(f, groups, s, Without(groups[s], i));
    SumWithout(f, groups[s], i);
  }

  // Grouping does not change a sum.
  lemma {:induction false} SumAllPermuted<T>(f: T -> real, xs: seq<T>, groups: seq<seq<T>>)
    requires multiset(Flatten(groups)) == multiset(xs)
    ensures SumAll(f, groups) == Sum(f, xs)
    decreases |xs|
  {
    if xs == [] {
      GroupsOfNothing(groups);
      SumAllOfNothing(f, groups);
    } else {
      var init, last := xs[..|xs| - 1], xs[|xs| - 1];
      assert xs == init + [last];
      assert last in multiset(xs);
      var s, i, rest := TakeOut(groups, last);
      SumAllPermuted(f, init, rest);
      SumAllTakeOut(f, groups, s, i);
    }
  }

  // ---- mapping ----

  function Mapped<A, B>(f: A -> B, xs: seq<A>): (r: seq<B>)
    ensures |r| == |xs|
    ensures forall i :: 0 <= i < |xs| ==> r[i] == f(xs[i])
  {
    seq(|xs|, i requires 0 <= i < |xs| => f(xs[i]))
  }

  function MappedGroups<A, B>(f: A -> B, groups: seq<seq<A>>): (r: seq<seq<B>>)
    ensures |r| == |groups|
    ensures forall i :: 0 <= i < |groups| ==> r[i] == Mapped(f, groups[i])
  {
    seq(|groups|, i requires 0 <= i < |groups| => Mapped(f, groups[i]))
  }

  lemma {:induction false} MapWithout<A, B>(f: A -> B, xs: seq<A>, i: nat)
    requires i < |xs|
    ensures multiset(Mapped(f, Without(xs, i))) == multiset(Mapped(f, xs)) - multiset{f(xs[i])}
    ensures f(xs[i]) in multiset(Mapped(f, xs))
  {
    assert Mapped(f, Without(xs, i)) == Without(Mapped(f, xs), i);
    assert Mapped(f, xs)[i] in multiset(Mapped(f, xs));
  }

  lemma SameAfterRemoval<T>(a: multiset<T>, b: multiset<T>, x: T)
    requires x in a && x in b && a - multiset{x} == b - multiset{x}
    ensures a == b
  {
    assert a == a - multiset{x} + multiset{x};
  }

  lemma {:induction false} MapPermuted<A, B>(f: A -> B, a: seq<A>, b: seq<A>)
    requires multiset(a) == multiset(b)
    ensures multiset(Mapped(f, a)) == multiset(Mapped(f, b))
  {
    if a == [] {
      assert |multiset(b)| == |b| == 0;
    } else {
      assert a[0] in multiset(b);
      var i :| 0 <= i < |b| && b[i] == a[0];
      var a', b' := Without(a, 0), Without(b, i);
      MapPermuted(f, a', b');
      MapWithout(f, a, 0);
      MapWithout(f, b, i);
      SameAfterRemoval(multiset(Mapped(f, a)), multiset(Mapped(f, b)), f(a[0]));
    }
  }

  lemma {:induction false} FlattenMapped<A, B>(f: A -> B, groups: seq<seq<A>>)
    ensures Flatten(MappedGroups(f, groups)) == Mapped(f, Flatten(groups))
  {
    if groups != [] {
      var k := |groups| - 1;
      FlattenMapped(f, groups[..k]);
      assert MappedGroups(f, groups)[..k] == MappedGroups(f, groups[..k]);
    }
  }
}
