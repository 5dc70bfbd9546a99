// The library sort the program calls. Array.prototype.sort is a stable
// comparison sort; insertion after every element that is not larger is its
// specification, and under a total order the result is the only sorted
// permutation there is.
module Sorting {

  ghost predicate TotalPreorder<T(!new)>(leq: (T, T) -> bool) {
    && (forall x, y :: leq(x, y) || leq(y, x))
    && (forall x, y, z :: leq(x, y) && leq(y, z) ==> leq(x, z))
  }

  ghost predicate Sorted<T>(leq: (T, T) -> bool, s: seq<T>) {
    forall i, j :: 0 <= i < j < |s| ==> leq(s[i], s[j])
  }

  // The order never calls two different elements of s equal.
  ghost predicate TellsApart<T>(leq: (T, T) -> bool, s: seq<T>) {
    forall i, j :: 0 <= i < |s| && 0 <= j < |s| && leq(s[i], s[j]) && leq(s[j], s[i]) ==> s[i] == s[j]
  }

  function Insert<T>(leq: (T, T) -> bool, x: T, s: seq<T>): (r: seq<T>)
    ensures multiset(r) == multiset(s) + multiset{x}
  {
    if s == [] then [x]
    else if leq(s[0], x) then
      assert s == [s[0]] + s[1..];
      [s[0]] + Insert(leq, x, s[1..])
    else [x] + s
  }

  function Sort<T>(leq: (T, T) -> bool, s: seq<T>): (r: seq<T>)
    ensures multiset(r) == multiset(s)
    ensures |r| == |s|
  {
    if s == [] then []
    else
      assert s == s[..|s| - 1] + [s[|s| - 1]];
      var r := Insert(leq, s[|s| - 1], Sort(leq, s[..|s| - 1]));
      assert |multiset(r)| == |multiset(s)|;
      r
  }

  lemma {:induction false} InsertSorted<T(!new)>(leq: (T, T) -> bool, x: T, s: seq<T>)
    requires TotalPreorder(leq) && Sorted(leq, s)
    ensures Sorted(leq, Insert(leq, x, s))
  {
    if s != [] && leq(s[0], x) {
      InsertSorted(leq, x, s[1..]);
      var rest := Insert(leq, x, s[1..]);
      forall y | y in rest ensures leq(s[0], y) {
        assert y in multiset(rest);
        assert y == x || y in s[1..];
      }
    }
  }

  lemma {:induction false} SortSorts<T(!new)>(leq: (T, T) -> bool, s: seq<T>)
    requires TotalPreorder(leq)
    ensures Sorted(leq, Sort(leq, s))
  {
    if s != [] {
      SortSorts(leq, s[..|s| - 1]);
      InsertSorted(leq, s[|s| - 1], Sort(leq, s[..|s| - 1]));
    }
  }

  function IfAlike<T>(leq: (T, T) -> bool, x: T, y: T): seq<T> {
    if leq(x, y) && leq(y, x) then [y] else []
  }

  // The elements the order does not tell from x, in their order.
  function Alike<T>(leq: (T, T) -> bool, x: T, s: seq<T>): seq<T> {
    if s == [] then [] else IfAlike(leq, x, s[0]) + Alike(leq, x, s[1..])
  }

  lemma Associative<T>(a: seq<T>, b: seq<T>, c: seq<T>)
    ensures a + (b + c) == a + b + c
  {
  }

  lemma AlikeNext<T>(leq: (T, T) -> bool, x: T, first: T, rest: seq<T>)
    ensures Alike(leq, x, [first] + rest) == IfAlike(leq, x, first) + Alike(leq, x, rest)
  {
    assert ([first] + rest)[1..] == rest;
  }

  lemma {:induction false} AlikeConcat<T>(leq: (T, T) -> bool, x: T, a: seq<T>, b: seq<T>)
    ensures Alike(leq, x, a + b) == Alike(leq, x, a) + Alike(leq, x, b)
    decreases |a|
  {
    if a == [] {
      assert a + b == b && Alike(leq, x, a) == [];
    } else {
      var first, rest := a[0], a[1..];
      AlikeConcat(leq, x, rest, b);
      AlikeNext(leq, x, first, rest);
      AlikeNext(leq, x, first, rest + b);
      Associative(IfAlike(leq, x, first), Alike(leq, x, rest), Alike(leq, x, b));
      assert a == [first] + rest;
      Associative([first], rest, b);
    }
  }

  lemma {:induction false} NoneAlike<T(!new)>(leq: (T, T) -> bool, x: T, y: T, s: seq<T>)
    requires TotalPreorder(leq) && Sorted(leq, s) && s != [] && !leq(s[0], y) && leq(x, y)
    ensures Alike(leq, x, s) == []
  {
    if |s| > 1 {
      assert leq(s[0], s[1]);
      NoneAlike(leq, x, y, s[1..]);
    }
  }

  lemma AlikeFirst<T>(leq: (T, T) -> bool, x: T, first: T, rest: seq<T>)
    ensures Alike(leq, x, [first] + rest) == Alike(leq, x, [first]) + Alike(leq, x, rest)
    ensures |Alike(leq, x, [first])| == if leq(x, first) && leq(first, x) then 1 else 0
  {
    AlikeConcat(leq, x, [first], rest);
    assert [first][1..] == [];
  }

  lemma InsertAtFront<T(!new)>(leq: (T, T) -> bool, x: T, y: T, s: seq<T>)
    requires TotalPreorder(leq) && Sorted(leq, s) && (s != [] ==> !leq(s[0], y))
    ensures Alike(leq, x, [y] + s) == Alike(leq, x, s) + Alike(leq, x, [y])
  {
    AlikeFirst(leq, x, y, s);
    if s != [] && leq(x, y) && leq(y, x) {
      NoneAlike(leq, x, y, s);
    }
  }

  lemma InsertLater<T(!new)>(leq: (T, T) -> bool, x: T, y: T, first: T, rest: seq<T>, inserted: seq<T>)
    requires Alike(leq, x, inserted) == Alike(leq, x, rest) + Alike(leq, x, [y])
    ensures Alike(leq, x, [first] + inserted) == Alike(leq, x, [first] + rest) + Alike(leq, x, [y])
  {
    AlikeFirst(leq, x, first, inserted);
    AlikeFirst(leq, x, first, rest);
    Associative(Alike(leq, x, [first]), Alike(leq, x, rest), Alike(leq, x, [y]));
  }

  lemma {:induction false} InsertStable<T(!new)>(leq: (T, T) -> bool, x: T, y: T, s: seq<T>)
    requires TotalPreorder(leq) && Sorted(leq, s)
    ensures Alike(leq, x, Insert(leq, y, s)) == Alike(leq, x, s) + Alike(leq, x, [y])
    decreases |s|
  {
    if s == [] {
      assert Alike(leq, x, []) + Alike(leq, x, [y]) == Alike(leq, x, [y]);
    } else if leq(s[0], y) {
      SortedTail(leq, s);
      InsertStable(leq, x, y, s[1..]);
      InsertLater(leq, x, y, s[0], s[1..], Insert(leq, y, s[1..]));
      assert [s[0]] + s[1..] == s;
    } else {
      InsertAtFront(leq, x, y, s);
    }
  }

  lemma SortLast<T>(leq: (T, T) -> bool, init: seq<T>, last: T)
    ensures Sort(leq, init + [last]) == Insert(leq, last, Sort(leq, init))
  {
    assert (init + [last])[..|init|] == init;
  }

  ghost predicate StableNext<T(!new)>(leq: (T, T) -> bool, x: T, init: seq<T>, last: T) {
    Alike(leq, x, Sort(leq, init + [last])) == Alike(leq, x, Sort(leq, init)) + Alike(leq, x, [last])
  }

  lemma SortStableNext<T(!new)>(leq: (T, T) -> bool, x: T, init: seq<T>, last: T)
    requires TotalPreorder(leq)
    ensures StableNext(leq, x, init, last)
  {
    SortSorts(leq, init);
    SortLast(leq, init, last);
    InsertStable(leq, x, last, Sort(leq, init));
  }

  lemma {:induction false} StableFrom<T(!new)>(leq: (T, T) -> bool, x: T, s: seq<T>)
    requires forall init, last :: StableNext(leq, x, init, last)
    ensures Alike(leq, x, Sort(leq, s)) == Alike(leq, x, s)
    decreases |s|
  {
    if s != [] {
      var init, last := s[..|s| - 1], s[|s| - 1];
      StableFrom(leq, x, init);
      assert StableNext(leq, x, init, last);
      AlikeConcat(leq, x, init, [last]);
      assert init + [last] == s;
    }
  }

  // The sort is stable.
  lemma SortStable<T(!new)>(leq: (T, T) -> bool, x: T, s: seq<T>)
    requires TotalPreorder(leq)
    ensures Alike(leq, x, Sort(leq, s)) == Alike(leq, x, s)
  {
    forall init, last ensures StableNext(leq, x, init, last) {
      SortStableNext(leq, x, init, last);
    }
    StableFrom(leq, x, s);
  }

  lemma SortOne<T(!new)>(leq: (T, T) -> bool, x: T)
    ensures Sort(leq, [x]) == [x]
  {
    assert [x][..0] == [];
  }

  // Two sorted sequences with the same elements start alike when the order
  // tells the elements apart.
  lemma SortedHead<T(!new)>(leq: (T, T) -> bool, a: seq<T>, b: seq<T>)
    requires TotalPreorder(leq) && Sorted(leq, a) && Sorted(leq, b)
    requires multiset(a) == multiset(b) && a != [] && b != []
    requires TellsApart(leq, a)
    ensures a[0] == b[0]
  {
    assert a[0] in multiset(b) && b[0] in multiset(a);
    var i :| 0 <= i < |b| && b[i] == a[0];
    var j :| 0 <= j < |a| && a[j] == b[0];
    assert leq(b[0], b[i]) || i == 0;
    assert leq(a[0], a[j]) || j == 0;
  }

  lemma DropHead<T>(a: seq<T>)
    requires a != []
    ensures multiset(a[1..]) == multiset(a) - multiset{a[0]}
    ensures a == [a[0]] + a[1..]
  {
    assert a == [a[0]] + a[1..];
  }

  lemma SortedTail<T>(leq: (T, T) -> bool, a: seq<T>)
    requires a != [] && Sorted(leq, a)
    ensures Sorted(leq, a[1..])
    ensures TellsApart(leq, a) ==> TellsApart(leq, a[1..])
  {
  }

  lemma SameLength<T>(a: seq<T>, b: seq<T>)
    requires multiset(a) == multiset(b)
    ensures |a| == |b|
  {
    assert |multiset(a)| == |a| && |multiset(b)| == |b|;
  }

  lemma SortedTails<T(!new)>(leq: (T, T) -> bool, a: seq<T>, b: seq<T>)
    requires TotalPreorder(leq) && Sorted(leq, a) && Sorted(leq, b) && a != [] && b != []
    requires multiset(a) == multiset(b) && TellsApart(leq, a)
    ensures a[0] == b[0] && multiset(a[1..]) == multiset(b[1..])
    ensures Sorted(leq, a[1..]) && Sorted(leq, b[1..]) && TellsApart(leq, a[1..])
  {
    SortedHead(leq, a, b);
    DropHead(a);
    DropHead(b);
    SortedTail(leq, a);
    SortedTail(leq, b);
  }

  lemma SameHeadAndTail<T>(a: seq<T>, b: seq<T>)
    requires a != [] && b != [] && a[0] == b[0] && a[1..] == b[1..]
    ensures a == b
  {
    DropHead(a);
    DropHead(b);
  }

  lemma {:induction false} SortedUnique<T(!new)>(leq: (T, T) -> bool, a: seq<T>, b: seq<T>)
    requires TotalPreorder(leq) && Sorted(leq, a) && Sorted(leq, b)
    requires multiset(a) == multiset(b)
    requires TellsApart(leq, a)
    ensures a == b
    decreases |a|
  {
    SameLength(a, b);
    if a != [] {
      SortedTails(leq, a, b);
      SortedUnique(leq, a[1..], b[1..]);
      SameHeadAndTail(a, b);
    }
  }

  lemma SortIgnoresOrder<T(!new)>(leq: (T, T) -> bool, a: seq<T>, b: seq<T>)
    requires TotalPreorder(leq)
    requires multiset(a) == multiset(b)
    requires TellsApart(leq, a)
    ensures Sort(leq, a) == Sort(leq, b)
  {
    SortSorts(leq, a);
    SortSorts(leq, b);
    forall i | 0 <= i < |a| ensures Sort(leq, a)[i] in a {
      assert Sort(leq, a)[i] in multiset(Sort(leq, a));
    }
    assert TellsApart(leq, Sort(leq, a));
    SortedUnique(leq, Sort(leq, a), Sort(leq, b));
  }

  lemma SortedAcrossCut<T>(leq: (T, T) -> bool, s: seq<T>, cut: nat, x: T, y: T)
    requires Sorted(leq, s) && cut <= |s| && x in s[..cut] && y in s[cut..]
    ensures leq(x, y)
  {
    var i :| 0 <= i < cut && s[..cut][i] == x;
    var j :| 0 <= j < |s| - cut && s[cut..][j] == y;
    assert s[i] == x && s[cut + j] == y;
  }

  // Lexicographic order on strings, the order of JavaScript's `<`.
  predicate StringLeq(a: string, b: string) {
    a == [] || (b != [] && (a[0] < b[0] || (a[0] == b[0] && StringLeq(a[1..], b[1..]))))
  }

  lemma {:induction false} StringLeqTotal(a: string, b: string)
    ensures StringLeq(a, b) || StringLeq(b, a)
    ensures StringLeq(a, b) && StringLeq(b, a) ==> a == b
  {
    if a != [] && b != [] {
      StringLeqTotal(a[1..], b[1..]);
      assert a == [a[0]] + a[1..] && b == [b[0]] + b[1..];
    }
  }

  lemma {:induction false} StringLeqTransitive(a: string, b: string, c: string)
    requires StringLeq(a, b) && StringLeq(b, c)
    ensures StringLeq(a, c)
  {
    if a != [] && a[0] == b[0] == c[0] {
      StringLeqTransitive(a[1..], b[1..], c[1..]);
    }
  }

  // a comes before b where they first differ.
  ghost predicate DiffersAt(a: string, b: string, i: int) {
    0 <= i < |a| && i < |b| && a[..i] == b[..i] && a[i] < b[i]
  }

  lemma DiffersLater(x: char, a: string, b: string)
    ensures DiffersAt([x] + a, [x] + b, 0) <==> false
    ensures forall i :: DiffersAt(a, b, i) ==> DiffersAt([x] + a, [x] + b, i + 1)
    ensures forall i :: i > 0 && DiffersAt([x] + a, [x] + b, i) ==> DiffersAt(a, b, i - 1)
  {
    forall i | DiffersAt(a, b, i) ensures DiffersAt([x] + a, [x] + b, i + 1) {
      assert ([x] + a)[..i + 1] == [x] + a[..i] && ([x] + b)[..i + 1] == [x] + b[..i];
    }
    forall i | i > 0 && DiffersAt([x] + a, [x] + b, i) ensures DiffersAt(a, b, i - 1) {
      assert ([x] + a)[..i][1..] == a[..i - 1] && ([x] + b)[..i][1..] == b[..i - 1];
    }
  }

  lemma DiffersFirst(a: string, b: string)
    requires a != [] && b != [] && a[0] != b[0]
    ensures (exists i :: DiffersAt(a, b, i)) <==> a[0] < b[0]
    ensures !(a <= b)
  {
    if a[0] < b[0] {
      assert DiffersAt(a, b, 0);
    }
    forall i | 0 < i <= |a| && i <= |b| ensures a[..i] != b[..i] {
      assert a[..i][0] == a[0] && b[..i][0] == b[0];
    }
  }

  // Which is the order by the first character that differs, a prefix first.
  lemma {:induction false} StringLeqIff(a: string, b: string)
    ensures StringLeq(a, b) <==> a <= b || exists i :: DiffersAt(a, b, i)
  {
    if a != [] && b != [] {
      if a[0] == b[0] {
        StringLeqIff(a[1..], b[1..]);
        DiffersLater(a[0], a[1..], b[1..]);
        assert a == [a[0]] + a[1..] && b == [a[0]] + b[1..];
        assert a <= b <==> a[1..] <= b[1..];
        if i :| DiffersAt(a[1..], b[1..], i) {
          assert DiffersAt(a, b, i + 1);
        }
        if i :| DiffersAt(a, b, i) {
          assert DiffersAt(a[1..], b[1..], i - 1);
        }
      } else {
        DiffersFirst(a, b);
      }
    }
  }

  lemma StringOrder()
    ensures TotalPreorder(StringLeq)
    ensures forall x, y :: StringLeq(x, y) && StringLeq(y, x) ==> x == y
  {
    forall x, y
      ensures StringLeq(x, y) || StringLeq(y, x)
      ensures StringLeq(x, y) && StringLeq(y, x) ==> x == y
    {
      StringLeqTotal(x, y);
    }
    forall x, y, z | StringLeq(x, y) && StringLeq(y, z) ensures StringLeq(x, z) {
      StringLeqTransitive(x, y, z);
    }
  }
}
