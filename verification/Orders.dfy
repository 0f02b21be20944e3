/** Code-point order on strings and the `sorted` of Python, as used for tie-breaks. */
module Orders {
  import opened Graphs

  predicate Leq(a: string, b: string) {
    a == [] || (b != [] && (a[0] < b[0] || (a[0] == b[0] && Leq(a[1..], b[1..]))))
  }

  lemma {:induction false} LeqTotal(a: string, b: string)
    ensures Leq(a, b) || Leq(b, a)
  {
    if a != [] && b != [] && a[0] == b[0] { LeqTotal(a[1..], b[1..]); }
  }

  lemma {:induction false} LeqAntisymmetric(a: string, b: string)
    requires Leq(a, b) && Leq(b, a)
    ensures a == b
  {
    if a != [] {
      LeqAntisymmetric(a[1..], b[1..]);
      assert a == [a[0]] + a[1..] && b == [b[0]] + b[1..];
    }
  }

  lemma {:induction false} LeqTransitive(a: string, b: string, c: string)
    requires Leq(a, b) && Leq(b, c)
    ensures Leq(a, c)
  {
    if a != [] && a[0] == b[0] == c[0] { LeqTransitive(a[1..], b[1..], c[1..]); }
  }

  ghost predicate IsSorted(s: seq<string>) {
    forall i, j :: 0 <= i < j < |s| ==> Leq(s[i], s[j])
  }

  function Insert(x: string, s: seq<string>): (r: seq<string>)
    ensures multiset(r) == multiset{x} + multiset(s)
  {
    if s == [] then [x]
    else
      assert s == [s[0]] + s[1..];
      if Leq(x, s[0]) then [x] + s else [s[0]] + Insert(x, s[1..])
  }

  lemma {:induction false} InsertKeepsSorted(x: string, s: seq<string>)
    requires IsSorted(s)
    ensures IsSorted(Insert(x, s))
  {
    if s == [] {
    } else if Leq(x, s[0]) {
      forall i | 0 <= i < |s| ensures Leq(x, s[i]) { if i > 0 { LeqTransitive(x, s[0], s[i]); } }
    } else {
      LeqTotal(x, s[0]);
      InsertKeepsSorted(x, s[1..]);
      PrependKeepsSorted(s[0], Insert(x, s[1..]), x, s[1..]);
    }
  }

  lemma PrependKeepsSorted(least: string, tail: seq<string>, x: string, rest: seq<string>)
    requires IsSorted(tail) && multiset(tail) == multiset{x} + multiset(rest)
    requires Leq(least, x) && forall i :: 0 <= i < |rest| ==> Leq(least, rest[i])
    ensures IsSorted([least] + tail)
  {
    forall i | 0 <= i < |tail| ensures Leq(least, tail[i]) {
      assert tail[i] in multiset(tail);
      if tail[i] != x { assert tail[i] in multiset(rest); }
    }
  }

  /** `sorted(s)`: insertion sort stands for it, since on a total order the result is unique. */
  function Sorted(s: seq<string>): (r: seq<string>)
    ensures multiset(r) == multiset(s)
    ensures IsSorted(r)
  {
    if s == [] then [] else
      assert s == [s[0]] + s[1..];
      InsertKeepsSorted(s[0], Sorted(s[1..]));
      Insert(s[0], Sorted(s[1..]))
  }

  lemma FirstIsLeast(a: seq<string>, b: seq<string>)
    requires IsSorted(a) && a != [] && b != [] && multiset(a) == multiset(b)
    ensures Leq(a[0], b[0])
  {
    assert b[0] in multiset(a);
    var j :| 0 <= j < |a| && a[j] == b[0];
    LeqTotal(a[0], a[0]);
  }

  lemma RestOf(a: seq<string>)
    requires a != []
    ensures a == [a[0]] + a[1..] && multiset(a[1..]) == multiset(a) - multiset{a[0]}
  {
    assert a == [a[0]] + a[1..];
  }

  /** Two sorted listings of the same strings coincide, so `sorted` forgets the order of its argument. */
  lemma {:induction false} SortedIsUnique(a: seq<string>, b: seq<string>)
    requires IsSorted(a) && IsSorted(b) && multiset(a) == multiset(b)
    ensures a == b
    decreases |a|
  {
    if a == [] {
      assert |multiset(b)| == 0;
    } else {
      assert |multiset(a)| == |multiset(b)|;
      FirstIsLeast(a, b);
      FirstIsLeast(b, a);
      LeqAntisymmetric(a[0], b[0]);
      RestOf(a);
      RestOf(b);
      SortedIsUnique(a[1..], b[1..]);
    }
  }

  /** `r` lists the strings of `s`, each once, in ascending order. */
  ghost predicate Lists(r: seq<string>, s: set<string>) {
    IsSorted(r) && multiset(r) == multiset(s)
  }

  lemma LeastFirst(s: set<string>, least: string, tail: seq<string>)
    requires IsLeast(least, s) && Lists(tail, s - {least})
    ensures Lists([least] + tail, s)
  {
    forall i | 0 <= i < |tail| ensures Leq(least, tail[i]) {
      assert tail[i] in multiset(tail);
    }
    assert s == {least} + (s - {least});
  }

  lemma ListedMembers(r: seq<string>, s: set<string>)
    requires Lists(r, s)
    ensures |r| == |s| && forall x :: x in r <==> x in s
  {
    forall x ensures x in r <==> x in s { assert x in r <==> x in multiset(r); }
    assert |multiset(r)| == |multiset(s)|;
  }

  /** The strings of a set in ascending order. */
  function SortedSet(s: set<string>): (r: seq<string>)
    ensures Lists(r, s)
    ensures |r| == |s| && forall x :: x in r <==> x in s
    decreases |s|
  {
    if s == {} then [] else
      HasLeast(s);
      assert forall x, y :: IsLeast(x, s) && IsLeast(y, s) ==> x == y by {
        forall x, y | IsLeast(x, s) && IsLeast(y, s) ensures x == y { LeqAntisymmetric(x, y); }
      }
      var least :| IsLeast(least, s);
      var r := [least] + SortedSet(s - {least});
      LeastFirst(s, least, r[1..]);
      ListedMembers(r, s);
      r
  }

  lemma {:induction false} ListingIsNoDup(r: seq<string>, s: set<string>)
    requires multiset(r) == multiset(s)
    ensures NoDup(r)
    decreases |r|
  {
    if r != [] {
      assert r == [r[0]] + r[1..];
      assert r[0] in multiset(r) && multiset(r) == multiset{r[0]} + multiset(r[1..]);
      assert r[0] in s;
      forall x ensures multiset(r[1..])[x] == multiset(s - {r[0]})[x] { assert multiset(s)[x] == multiset(r)[x]; }
      assert multiset(r[1..]) == multiset(s - {r[0]});
      ListingIsNoDup(r[1..], s - {r[0]});
      forall j | 0 < j < |r| ensures r[j] != r[0] { assert r[j] == r[1..][j - 1] && r[j] in multiset(r[1..]); }
    }
  }

  lemma SortedSetNoDup(s: set<string>)
    ensures NoDup(SortedSet(s))
  {
    ListingIsNoDup(SortedSet(s), s);
  }

  predicate IsLeast(x: string, s: set<string>) {
    x in s && forall y :: y in s ==> Leq(x, y)
  }

  lemma {:induction false} HasLeast(s: set<string>)
    requires s != {}
    ensures exists x :: IsLeast(x, s)
    decreases |s|
  {
    var x :| x in s;
    LeqTotal(x, x);
    if s == {x} {
      assert IsLeast(x, s);
    } else {
      var rest := s - {x};
      assert s == {x} + rest;
      HasLeast(rest);
      var y :| IsLeast(y, rest);
      LeqTotal(x, y);
      if Leq(x, y) {
        forall z | z in s ensures Leq(x, z) { if z != x { LeqTransitive(x, y, z); } }
        assert IsLeast(x, s);
      } else {
        assert IsLeast(y, s);
      }
    }
  }

  lemma SortedOfDistinct(xs: seq<string>, s: set<string>)
    requires NoDup(xs)
    requires forall x :: x in xs <==> x in s
    ensures Sorted(xs) == SortedSet(s)
  {
    DistinctMultiset(xs, s);
    SortedIsUnique(Sorted(xs), SortedSet(s));
  }

  lemma {:induction false} DistinctMultiset<T>(xs: seq<T>, s: set<T>)
    requires NoDup(xs)
    requires forall x :: x in xs <==> x in s
    ensures multiset(xs) == multiset(s)
    decreases |xs|
  {
    if xs == [] {
      assert s == {};
    } else {
      assert xs == [xs[0]] + xs[1..];
      DistinctMultiset(xs[1..], s - {xs[0]});
      assert s == {xs[0]} + (s - {xs[0]});
    }
  }
}
